/** The fatal-signal controller of faulthandler.c and
    faulthandler/fatal_error.c (the two are the same code): a four-entry
    table for SIGBUS, SIGILL, SIGFPE and SIGSEGV, the file and descriptor
    the handler writes to, and the `enable`/`disable` transitions that
    install and restore the signal dispositions.

    The `sigaction` calls are modelled; which of them fail is a parameter
    (`fails`, the signal numbers whose install is refused). A refused
    `sigaction` leaves both the kernel's table and the saved previous
    disposition as they were. */
module FatalControl {
  import opened Wrappers
  import opened Signals
  import opened Fileno
  import opened Render

  /** One entry of `faulthandler_handlers`. */
  datatype Handler = Handler(signum: int, enabled: bool, name: string, previous: Disposition)

  /** The `fatal_error` record together with the handler table. */
  datatype FatalState = FatalState(
    enabled: bool,
    file: Option<FileRef>,
    fd: int,
    allThreads: bool,
    handlers: seq<Handler>)

  /** The table in declaration order: SIGSEGV is last so that a failed
      search ends on it. */
  const FatalSignals: seq<int> := [SIGBUS, SIGILL, SIGFPE, SIGSEGV]
  const FatalNames: seq<string> := ["Bus error", "Illegal instruction", "Floating point exception", "Segmentation fault"]

  /** The static initial state: nothing enabled, no file, descriptor 2
      (standard error) until `enable` replaces it. */
  function Initial(): (s: FatalState)
    ensures WellFormed(s.handlers) && !s.enabled && s.fd == 2 && s.file.None?
    ensures forall i :: 0 <= i < |s.handlers| ==> !s.handlers[i].enabled
  {
    var hs := seq(4, i requires 0 <= i < 4 => Handler(FatalSignals[i], false, FatalNames[i], Default));
    FatalState(false, None, 2, false, hs)
  }

  function Signums(hs: seq<Handler>): (r: seq<int>)
    ensures |r| == |hs| && forall i :: 0 <= i < |hs| ==> r[i] == hs[i].signum
  {
    seq(|hs|, i requires 0 <= i < |hs| => hs[i].signum)
  }

  predicate Distinct(hs: seq<Handler>)
  {
    forall i, j :: 0 <= i < j < |hs| ==> hs[i].signum != hs[j].signum
  }

  /** The table has the fixed signals and names, in order. */
  predicate WellFormed(hs: seq<Handler>)
  {
    && |hs| == |FatalSignals|
    && forall i :: 0 <= i < |hs| ==> hs[i].signum == FatalSignals[i] && hs[i].name == FatalNames[i]
  }

  lemma WellFormedDistinct(hs: seq<Handler>)
    requires WellFormed(hs)
    ensures Distinct(hs)
  {
  }

  /** The table's picture of the kernel is right: the global flag off means
      no entry is enabled, and an enabled entry's signal goes to the fatal
      handler. */
  predicate Consistent(s: FatalState, env: Env)
  {
    && WellFormed(s.handlers)
    && (!s.enabled ==> forall i :: 0 <= i < |s.handlers| ==> !s.handlers[i].enabled)
    && (forall i :: 0 <= i < |s.handlers| && s.handlers[i].enabled ==> Action(env, s.handlers[i].signum) == FatalHook)
  }

  // ---------------------------------------------------------------------
  // Installing and restoring the whole table

  /** What one iteration of the install loop makes of an entry: unchanged
      when `sigaction` fails, otherwise enabled with the disposition it
      replaced saved. */
  function Installed(h: Handler, env: Env, fails: set<int>): Handler
  {
    if h.signum in fails then h else h.(enabled := true, previous := Action(env, h.signum))
  }

  predicate InstalledHere(hs: seq<Handler>, fails: set<int>, signum: int)
  {
    signum in Signums(hs) && signum !in fails
  }

  /** The install loop of `enable`, entry by entry. Each entry ends up as
      `Installed` says, judged against the dispositions before the loop
      (the signals are distinct); exactly the signals installed go to the
      handler, every other disposition stays. */
  function InstallAll(hs: seq<Handler>, env: Env, fails: set<int>, hook: Disposition): (r: (seq<Handler>, Env))
    requires Distinct(hs)
    ensures |r.0| == |hs|
    ensures forall i :: 0 <= i < |hs| ==> r.0[i] == Installed(hs[i], env, fails)
    ensures forall sig :: Action(r.1, sig) == if InstalledHere(hs, fails, sig) then hook else Action(env, sig)
    ensures r.1.alarm == env.alarm && r.1.released == env.released
    decreases |hs|
  {
    if |hs| == 0 then ([], env)
    else
      var h := hs[0];
      var env1 := if h.signum in fails then env else SetAction(env, h.signum, hook);
      InstallStep(hs, env, env1, fails, hook);
      var rest := InstallAll(hs[1..], env1, fails, hook);
      ([Installed(h, env, fails)] + rest.0, rest.1)
  }

  /** One turn of the install loop leaves the later entries judged as
      before it: their signals differ from the first one's. */
  lemma InstallStep(hs: seq<Handler>, env: Env, env1: Env, fails: set<int>, hook: Disposition)
    requires Distinct(hs) && |hs| > 0
    requires env1 == if hs[0].signum in fails then env else SetAction(env, hs[0].signum, hook)
    ensures Distinct(hs[1..])
    ensures forall i :: 0 <= i < |hs| - 1 ==> Installed(hs[1..][i], env1, fails) == Installed(hs[i + 1], env, fails)
    ensures forall sig :: InstalledHere(hs, fails, sig) <==> (sig == hs[0].signum && sig !in fails) || InstalledHere(hs[1..], fails, sig)
  {
    assert forall i :: 0 <= i < |hs| - 1 ==> hs[1..][i].signum != hs[0].signum;
    assert Signums(hs) == [hs[0].signum] + Signums(hs[1..]);
  }

  function EnabledSignums(hs: seq<Handler>): set<int>
  {
    set i | 0 <= i < |hs| && hs[i].enabled :: hs[i].signum
  }

  lemma EnabledSignumsCons(hs: seq<Handler>)
    requires |hs| > 0
    ensures EnabledSignums(hs) == (if hs[0].enabled then {hs[0].signum} else {}) + EnabledSignums(hs[1..])
  {
    var a := EnabledSignums(hs);
    var b := (if hs[0].enabled then {hs[0].signum} else {}) + EnabledSignums(hs[1..]);
    forall sig | sig in a ensures sig in b {
      var k :| 0 <= k < |hs| && hs[k].enabled && hs[k].signum == sig;
      if k > 0 { assert hs[1..][k - 1] == hs[k]; }
    }
    forall sig | sig in EnabledSignums(hs[1..]) ensures sig in a {
      var k :| 0 <= k < |hs[1..]| && hs[1..][k].enabled && hs[1..][k].signum == sig;
      assert hs[k + 1] == hs[1..][k];
    }
  }

  /** The restore loop of `disable`: every enabled entry gets its saved
      disposition back and is marked disabled; the signals of disabled
      entries are not touched. */
  function RestoreAll(hs: seq<Handler>, env: Env): (r: (seq<Handler>, Env))
    requires Distinct(hs)
    ensures |r.0| == |hs|
    ensures forall i :: 0 <= i < |hs| ==> r.0[i] == hs[i].(enabled := false)
    ensures forall i :: 0 <= i < |hs| && hs[i].enabled ==> Action(r.1, hs[i].signum) == hs[i].previous
    ensures forall sig :: sig !in EnabledSignums(hs) ==> Action(r.1, sig) == Action(env, sig)
    ensures r.1.alarm == env.alarm && r.1.released == env.released
    decreases |hs|
  {
    if |hs| == 0 then ([], env)
    else
      var h := hs[0];
      var env1 := if h.enabled then SetAction(env, h.signum, h.previous) else env;
      var rest := RestoreAll(hs[1..], env1);
      EnabledSignumsCons(hs);
      assert h.enabled ==> h.signum !in EnabledSignums(hs[1..]);
      ([h.(enabled := false)] + rest.0, rest.1)
  }

  // ---------------------------------------------------------------------
  // The Python entry points

  /** `enable(file, all_threads)`. A bad descriptor raises and changes
      nothing. Otherwise the old file is given up and file, descriptor and
      all_threads are replaced on every call; the handlers are installed
      only on the transition from disabled, and the global flag is set even
      when every install fails. */
  function Enable(s: FatalState, env: Env, call: FilenoCall, file: FileRef, allThreads: bool, fails: set<int>)
    : (r: Result<(FatalState, Env), PyError>)
    requires WellFormed(s.handlers)
    ensures GetFileno(call).Failure? <==> r.Failure?
    ensures r.Failure? ==> r.error == GetFileno(call).error
    ensures r.Success? ==>
      var (t, e) := r.value;
      && t.enabled && t.file == Some(file) && t.fd == GetFileno(call).value && t.allThreads == allThreads
      && |t.handlers| == |s.handlers|
      && e.released == env.released + (if s.file.Some? then [s.file.value] else [])
      && e.alarm == env.alarm
      && (s.enabled ==> t.handlers == s.handlers && e.actions == env.actions)
      && (!s.enabled ==>
            && (forall i :: 0 <= i < |s.handlers| ==> t.handlers[i] == Installed(s.handlers[i], env, fails))
            && (forall sig :: Action(e, sig) == if sig in FatalSignals && sig !in fails then FatalHook else Action(env, sig)))
  {
    match GetFileno(call)
    case Failure(err) => Failure(err)
    case Success(fd) =>
      var env1 := Release(env, s.file);
      var s1 := s.(file := Some(file), fd := fd, allThreads := allThreads);
      if s1.enabled then Success((s1, env1))
      else
        WellFormedDistinct(s.handlers);
        var (hs, env2) := InstallAll(s.handlers, env1, fails, FatalHook);
        assert forall sig :: InstalledHere(s.handlers, fails, sig) <==> sig in FatalSignals && sig !in fails by {
          assert Signums(s.handlers) == FatalSignals;
        }
        Success((s1.(enabled := true, handlers := hs), env2))
  }

  /** `faulthandler_disable()`: the file is given up; when enabled, every
      enabled entry gets its saved disposition back and ends disabled,
      while with the flag already off the table is left as it is; the
      global flag ends off. */
  function Disable(s: FatalState, env: Env): (r: (FatalState, Env))
    requires WellFormed(s.handlers)
    ensures !r.0.enabled && r.0.file.None?
    ensures r.0.fd == s.fd && r.0.allThreads == s.allThreads
    ensures |r.0.handlers| == |s.handlers|
    ensures s.enabled ==> forall i :: 0 <= i < |s.handlers| ==> r.0.handlers[i] == s.handlers[i].(enabled := false)
    ensures !s.enabled ==> r.0.handlers == s.handlers
    ensures r.1.released == env.released + (if s.file.Some? then [s.file.value] else [])
    ensures r.1.alarm == env.alarm
    ensures s.enabled ==> forall i :: 0 <= i < |s.handlers| && s.handlers[i].enabled ==> Action(r.1, s.handlers[i].signum) == s.handlers[i].previous
    ensures forall sig :: (!s.enabled || sig !in EnabledSignums(s.handlers)) ==> Action(r.1, sig) == Action(env, sig)
  {
    var env1 := Release(env, s.file);
    if s.enabled then
      WellFormedDistinct(s.handlers);
      var (hs, env2) := RestoreAll(s.handlers, env1);
      (s.(enabled := false, file := None, handlers := hs), env2)
    else
      (s.(enabled := false, file := None), env1)
  }

  /** `disable()` from Python: False, and nothing changes, when the
      controller is not enabled; otherwise `Disable` and True. */
  function DisablePy(s: FatalState, env: Env): (r: (bool, FatalState, Env))
    requires WellFormed(s.handlers)
    ensures r.0 <==> s.enabled
    ensures !s.enabled ==> r.1 == s && r.2 == env
    ensures s.enabled ==> (r.1, r.2) == Disable(s, env)
  {
    if !s.enabled then (false, s, env)
    else
      var (t, e) := Disable(s, env);
      (true, t, e)
  }

  /** `is_enabled()`. */
  function IsEnabled(s: FatalState): bool
  {
    s.enabled
  }

  /** `faulthandler_unload_fatal_error()`: the file is forgotten without
      giving up the reference (the interpreter is already finalising),
      then `Disable`. */
  function UnloadFatalError(s: FatalState, env: Env): (r: (FatalState, Env))
    requires WellFormed(s.handlers)
    ensures r.1.released == env.released
    ensures !r.0.enabled && r.0.file.None?
    ensures r == Disable(s.(file := None), env)
  {
    Disable(s.(file := None), env)
  }

  // ---------------------------------------------------------------------
  // The signal handler

  const Banner: string := "Fatal Python error: "

  /** `faulthandler_fatal_error(signum)`. The entry is the first one for
      the signal, or the last (SIGSEGV) when there is none; its saved
      disposition is put back (whether or not it was enabled) and it is
      marked disabled, while the global flag stays set. The descriptor gets
      the banner with the entry's name and a blank line, then, only when
      the thread has a state in thread-local storage, its stack or all
      threads. */
  function Dispatch(fl: Flavor, s: FatalState, env: Env, signum: int, tls: Option<ThreadState>, reg: Registry)
    : (r: (FatalState, Env, Written))
    requires WellFormed(s.handlers)
    requires fl.checksInterp || reg.Interpreter?
    ensures var i := FindOrLast(FatalSignals, signum);
      var h := s.handlers[i];
      && r.0 == s.(handlers := s.handlers[i := h.(enabled := false)])
      && r.1 == SetAction(env, h.signum, h.previous)
      && r.2.fd == s.fd
      && |r.2.text| >= |Banner| + |h.name| + 2
      && r.2.text[..|Banner| + |h.name| + 2] == Banner + h.name + "\n\n"
      && (tls.None? ==> r.2.text == Banner + h.name + "\n\n")
  {
    var i := FindOrLast(Signums(s.handlers), signum);
    assert Signums(s.handlers) == FatalSignals;
    var h := s.handlers[i];
    var env1 := SetAction(env, h.signum, h.previous);
    var banner := Banner + h.name + "\n\n";
    var dump := SignalDump(fl, tls, reg, s.allThreads).0;
    PrefixOf(banner, dump);
    (s.(handlers := s.handlers[i := h.(enabled := false)]), env1, Written(s.fd, banner + dump))
  }

  lemma PrefixOf(a: string, b: string)
    ensures |a + b| >= |a| && (a + b)[..|a|] == a
  {
  }

  // ---------------------------------------------------------------------
  // Properties

  /** A signal outside the table is served by the SIGSEGV entry. */
  lemma DispatchFallback(fl: Flavor, s: FatalState, env: Env, signum: int, tls: Option<ThreadState>, reg: Registry)
    requires WellFormed(s.handlers)
    requires fl.checksInterp || reg.Interpreter?
    requires signum !in FatalSignals
    ensures var r := Dispatch(fl, s, env, signum, tls, reg);
      && r.1 == SetAction(env, SIGSEGV, s.handlers[3].previous)
      && !r.0.handlers[3].enabled
      && r.2.text[..|Banner| + 20] == Banner + "Segmentation fault\n\n"
  {
    assert FindOrLast(FatalSignals, signum) == 3;
  }

  /** A table signal is served by its own entry and nothing else changes:
      the other entries, the global flag, the file and every other
      disposition. */
  lemma DispatchOwnEntry(fl: Flavor, s: FatalState, env: Env, k: nat, tls: Option<ThreadState>, reg: Registry)
    requires WellFormed(s.handlers)
    requires fl.checksInterp || reg.Interpreter?
    requires k < |FatalSignals|
    ensures var r := Dispatch(fl, s, env, FatalSignals[k], tls, reg);
      && Action(r.1, FatalSignals[k]) == s.handlers[k].previous
      && (forall sig :: sig != FatalSignals[k] ==> Action(r.1, sig) == Action(env, sig))
      && !r.0.handlers[k].enabled
      && (forall j :: 0 <= j < |s.handlers| && j != k ==> r.0.handlers[j] == s.handlers[j])
      && r.0.enabled == s.enabled && r.0.file == s.file
      && |r.2.text| >= |Banner| + |FatalNames[k]| + 2
      && r.2.text[..|Banner| + |FatalNames[k]| + 2] == Banner + FatalNames[k] + "\n\n"
  {
    assert FindOrLast(FatalSignals, FatalSignals[k]) == k;
  }

  /** Enable, Disable and Dispatch keep the table's picture of the kernel
      right. */
  lemma EnableConsistent(s: FatalState, env: Env, call: FilenoCall, file: FileRef, allThreads: bool, fails: set<int>)
    requires Consistent(s, env)
    ensures var r := Enable(s, env, call, file, allThreads, fails);
      r.Success? ==> Consistent(r.value.0, r.value.1)
  {
    var r := Enable(s, env, call, file, allThreads, fails);
    if r.Success? && !s.enabled {
      var (t, e) := r.value;
      forall i | 0 <= i < |t.handlers| && t.handlers[i].enabled
        ensures Action(e, t.handlers[i].signum) == FatalHook
      {
        assert t.handlers[i] == Installed(s.handlers[i], env, fails);
        assert s.handlers[i].signum == FatalSignals[i];
      }
    }
  }

  lemma DisableConsistent(s: FatalState, env: Env)
    requires Consistent(s, env)
    ensures Consistent(Disable(s, env).0, Disable(s, env).1)
  {
  }

  lemma DispatchConsistent(fl: Flavor, s: FatalState, env: Env, signum: int, tls: Option<ThreadState>, reg: Registry)
    requires Consistent(s, env)
    requires fl.checksInterp || reg.Interpreter?
    ensures var r := Dispatch(fl, s, env, signum, tls, reg);
      Consistent(r.0, r.1)
  {
    DisarmEntryConsistent(s, env, FindOrLast(FatalSignals, signum));
  }

  /** Disabling one entry and putting its saved disposition back keeps the
      table consistent: the other entries' signals are different. */
  lemma DisarmEntryConsistent(s: FatalState, env: Env, i: nat)
    requires Consistent(s, env) && i < |FatalSignals|
    ensures var h := s.handlers[i];
      Consistent(s.(handlers := s.handlers[i := h.(enabled := false)]), SetAction(env, h.signum, h.previous))
  {
    var h := s.handlers[i];
    var hs := s.handlers[i := h.(enabled := false)];
    var e := SetAction(env, h.signum, h.previous);
    forall j | 0 <= j < |hs| && hs[j].enabled
      ensures Action(e, hs[j].signum) == FatalHook
    {
      assert j != i;
      assert FatalSignals[j] != FatalSignals[i];
    }
  }

  /** Disable undoes Enable on the kernel's table: starting disabled and
      consistent, enabling and then disabling leaves every signal's
      disposition as it was, whichever installs failed. */
  lemma EnableThenDisable(s: FatalState, env: Env, call: FilenoCall, file: FileRef, allThreads: bool, fails: set<int>)
    requires Consistent(s, env) && !s.enabled
    requires GetFileno(call).Success?
    ensures var (t, e) := Enable(s, env, call, file, allThreads, fails).value;
      var (u, f) := Disable(t, e);
      && (forall sig :: Action(f, sig) == Action(env, sig))
      && !u.enabled && u.file.None?
      && f.released == env.released + (if s.file.Some? then [s.file.value] else []) + [file]
  {
    var (t, e) := Enable(s, env, call, file, allThreads, fails).value;
    var (u, f) := Disable(t, e);
    forall sig ensures Action(f, sig) == Action(env, sig) {
      if sig in EnabledSignums(t.handlers) {
        var k :| 0 <= k < |t.handlers| && t.handlers[k].enabled && t.handlers[k].signum == sig;
        assert t.handlers[k] == Installed(s.handlers[k], env, fails);
        assert !s.handlers[k].enabled;
        assert sig !in fails;
      }
    }
  }

  /** A second enable installs nothing: the dispositions stay, the handler
      table stays, and only the file (whose reference is given up), the
      descriptor and all_threads change. */
  lemma EnableTwice(s: FatalState, env: Env, c1: FilenoCall, f1: FileRef, a1: bool,
                    c2: FilenoCall, f2: FileRef, a2: bool, fails: set<int>)
    requires WellFormed(s.handlers)
    requires GetFileno(c1).Success? && GetFileno(c2).Success?
    ensures var (t, e) := Enable(s, env, c1, f1, a1, fails).value;
      var (u, g) := Enable(t, e, c2, f2, a2, fails).value;
      && u.handlers == t.handlers && g.actions == e.actions
      && u.file == Some(f2) && u.fd == GetFileno(c2).value && u.allThreads == a2
      && g.released == e.released + [f1]
  {
  }

  /** `disable()` reports whether it had anything to disable, and a second
      call reports False. */
  lemma DisablePyTwice(s: FatalState, env: Env)
    requires WellFormed(s.handlers)
    ensures var (b1, t, e) := DisablePy(s, env);
      var (b2, u, g) := DisablePy(t, e);
      b1 == IsEnabled(s) && !b2 && u == t && g == e && !IsEnabled(t)
  {
  }
}
