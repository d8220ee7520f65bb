/** The process state the handler tables act on: the signal disposition
    table the kernel keeps (changed by `sigaction`/`signal`), the pending
    `alarm()` delay, and the references to Python file objects the module
    gives up (`Py_XDECREF`/`Py_CLEAR`), in order. */
module Signals {
  import opened Wrappers

  /** Signal numbers of Linux. */
  const SIGILL: int := 4
  const SIGBUS: int := 7
  const SIGFPE: int := 8
  const SIGSEGV: int := 11
  const SIGALRM: int := 14

  /** What the kernel does on a signal: the default action, nothing, a
      handler outside this module, or one of the module's handlers. */
  datatype Disposition =
    | Default
    | Ignore
    | Foreign(id: nat)
    | FatalHook   // faulthandler_fatal_error, or `faulthandler` in the earliest revision
    | UserHook    // faulthandler_user
    | AlarmHook   // faulthandler_alarm

  /** The identity of a Python file object. */
  type FileRef = nat

  /** `alarm` is the pending timer delay in seconds, 0 when disarmed. */
  datatype Env = Env(actions: map<int, Disposition>, alarm: nat, released: seq<FileRef>)

  /** The disposition of a signal; a signal never touched has the default
      one. */
  function Action(env: Env, signum: int): Disposition
  {
    if signum in env.actions then env.actions[signum] else Default
  }

  /** `sigaction(signum, &d, NULL)`: only that signal's disposition
      changes. */
  function SetAction(env: Env, signum: int, d: Disposition): (r: Env)
    ensures Action(r, signum) == d
    ensures forall s :: s != signum ==> Action(r, s) == Action(env, s)
    ensures r.alarm == env.alarm && r.released == env.released
  {
    env.(actions := env.actions[signum := d])
  }

  /** Giving up the reference to a held file, if any (`Py_XDECREF`,
      `Py_CLEAR`). */
  function Release(env: Env, file: Option<FileRef>): (r: Env)
    ensures file.None? ==> r == env
    ensures file.Some? ==> r.released == env.released + [file.value]
    ensures r.actions == env.actions && r.alarm == env.alarm
  {
    match file
    case None => env
    case Some(f) => env.(released := env.released + [f])
  }

  /** `alarm(seconds)`. */
  function SetAlarm(env: Env, seconds: nat): (r: Env)
    ensures r.alarm == seconds
    ensures r.actions == env.actions && r.released == env.released
  {
    env.(alarm := seconds)
  }

  /** How many times a reference to `f` was given up. */
  function Releases(env: Env, f: FileRef): nat
  {
    multiset(env.released)[f]
  }

  /** The search loop shared by the fatal and the user handlers: the index
      of the first entry for `signum`, or, when there is none, the index of
      the last entry, where the loop variable was left pointing. */
  function FindOrLast(signums: seq<int>, signum: int): (i: nat)
    requires |signums| > 0
    ensures i < |signums|
    ensures signum in signums ==> signums[i] == signum && signum !in signums[..i]
    ensures signum !in signums ==> i == |signums| - 1
    decreases |signums|
  {
    if signums[0] == signum || |signums| == 1 then 0
    else 1 + FindOrLast(signums[1..], signum)
  }

  /** The search loop of `unregister`: the index of the first entry for
      `signum`, if there is one. */
  function FindFirst(signums: seq<int>, signum: int): (r: Option<nat>)
    ensures r.None? <==> signum !in signums
    ensures r.Some? ==> r.value < |signums| && signums[r.value] == signum && signum !in signums[..r.value]
    decreases |signums|
  {
    if |signums| == 0 then None
    else if signums[0] == signum then Some(0)
    else
      match FindFirst(signums[1..], signum)
      case None => None
      case Some(i) => Some(i + 1)
  }

  /** Both searches agree when the signal is present. */
  lemma {:induction false} FindOrLastAgrees(signums: seq<int>, signum: int)
    requires signum in signums
    ensures FindFirst(signums, signum) == Some(FindOrLast(signums, signum))
    decreases |signums|
  {
    if signums[0] != signum {
      assert signum in signums[1..];
      FindOrLastAgrees(signums[1..], signum);
    }
  }
}
