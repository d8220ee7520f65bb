/** The earliest fatal-signal controller, faulthandler/handler.c: no file
    and no Python-level arguments, always descriptor 2, and a table that is
    zero until the first `enable` fills in each entry's signal and name.
    The stack dump it calls after the banner lives in a file that is not
    part of this model, so its output is a parameter. */
module EarlyHandler {
  import opened Wrappers
  import opened Signals
  import opened Render
  import opened FatalControl

  /** The descriptor the handler writes to (standard error). */
  const StandardError: int := 2

  /** `faulthandler_enabled` and `fault_handlers`. */
  datatype EarlyState = EarlyState(enabled: bool, handlers: seq<Handler>)

  /** The zero-initialised static state: signal 0, no name, the default
      disposition saved. */
  function Zero(): (s: EarlyState)
    ensures !s.enabled && |s.handlers| == |FatalSignals|
    ensures forall i :: 0 <= i < |s.handlers| ==> !s.handlers[i].enabled && s.handlers[i].signum == 0
  {
    EarlyState(false, seq(|FatalSignals|, i requires 0 <= i < |FatalSignals| => Handler(0, false, "", Default)))
  }

  /** The name `enable` gives an entry: SIGFPE, SIGBUS and SIGILL have
      their own, and any other signal is called a segmentation fault. */
  function NameOf(signum: int): string
  {
    if signum == SIGFPE then "Floating point exception"
    else if signum == SIGBUS then "Bus error"
    else if signum == SIGILL then "Illegal instruction"
    else "Segmentation fault"
  }

  /** The first loop of `faulthandler_enable`: every entry gets its signal
      from the fixed list, is marked disabled and named; only the saved
      disposition survives. */
  function Reinitialised(hs: seq<Handler>): (r: seq<Handler>)
    requires |hs| == |FatalSignals|
    ensures WellFormed(r)
    ensures forall i :: 0 <= i < |r| ==> !r[i].enabled && r[i].previous == hs[i].previous
  {
    NamesAgree();
    seq(|FatalSignals|, i requires 0 <= i < |FatalSignals| => Handler(FatalSignals[i], false, NameOf(FatalSignals[i]), hs[i].previous))
  }

  /** `faulthandler_enable()`: nothing when already enabled. Otherwise the
      flag is set, the table reinitialised and every signal installed; an
      entry whose `sigaction` fails stays disabled. */
  function EarlyEnable(s: EarlyState, env: Env, fails: set<int>): (r: (EarlyState, Env))
    requires |s.handlers| == |FatalSignals|
    ensures s.enabled ==> r == (s, env)
    ensures !s.enabled ==>
      && r.0.enabled && WellFormed(r.0.handlers)
      && (forall i :: 0 <= i < |FatalSignals| ==>
            r.0.handlers[i].enabled == (FatalSignals[i] !in fails)
            && r.0.handlers[i].previous == (if FatalSignals[i] in fails then s.handlers[i].previous else Action(env, FatalSignals[i])))
      && (forall sig :: Action(r.1, sig) == if sig in FatalSignals && sig !in fails then FatalHook else Action(env, sig))
      && r.1.alarm == env.alarm && r.1.released == env.released
  {
    if s.enabled then (s, env)
    else
      var hs := Reinitialised(s.handlers);
      WellFormedDistinct(hs);
      var (installed, env1) := InstallAll(hs, env, fails, FatalHook);
      assert Signums(hs) == FatalSignals;
      (EarlyState(true, installed), env1)
  }

  /** `faulthandler_disable()`: nothing when not enabled; otherwise every
      enabled entry gets its saved disposition back and the flag is
      cleared. */
  function EarlyDisable(s: EarlyState, env: Env): (r: (EarlyState, Env))
    requires |s.handlers| == |FatalSignals| && (s.enabled ==> WellFormed(s.handlers))
    ensures !s.enabled ==> r == (s, env)
    ensures s.enabled ==>
      && !r.0.enabled && WellFormed(r.0.handlers)
      && (forall i :: 0 <= i < |s.handlers| ==> !r.0.handlers[i].enabled)
      && (forall i :: 0 <= i < |s.handlers| && s.handlers[i].enabled ==> Action(r.1, s.handlers[i].signum) == s.handlers[i].previous)
      && (forall sig :: sig !in EnabledSignums(s.handlers) ==> Action(r.1, sig) == Action(env, sig))
  {
    if !s.enabled then (s, env)
    else
      WellFormedDistinct(s.handlers);
      var (hs, env1) := RestoreAll(s.handlers, env);
      (EarlyState(false, hs), env1)
  }

  /** `faulthandler(signum)`: the entry for the signal, or SIGSEGV's when
      there is none, gets its saved disposition back and is marked
      disabled (the flag stays set); standard error gets the banner with the
      entry's name, a blank line, then the stack dump. */
  function EarlyDispatch(s: EarlyState, env: Env, signum: int, dump: string): (r: (EarlyState, Env, Written))
    requires WellFormed(s.handlers)
    ensures var k := FindOrLast(FatalSignals, signum);
      && r.0 == s.(handlers := s.handlers[k := s.handlers[k].(enabled := false)])
      && Action(r.1, FatalSignals[k]) == s.handlers[k].previous
      && (forall sig :: sig != FatalSignals[k] ==> Action(r.1, sig) == Action(env, sig))
      && r.2 == Written(StandardError, Banner + FatalNames[k] + "\n\n" + dump)
  {
    var k := FindOrLast(Signums(s.handlers), signum);
    assert Signums(s.handlers) == FatalSignals;
    var h := s.handlers[k];
    (s.(handlers := s.handlers[k := h.(enabled := false)]), SetAction(env, h.signum, h.previous),
     Written(StandardError, Banner + h.name + "\n\n" + dump))
  }

  // ---------------------------------------------------------------------
  // Properties

  /** The names `enable` computes are those of the later, static table. */
  lemma NamesAgree()
    ensures forall i :: 0 <= i < |FatalSignals| ==> NameOf(FatalSignals[i]) == FatalNames[i]
  {
  }

  /** `disable()` before any `enable()` finds the zero-initialised table
      and changes nothing. */
  lemma DisableBeforeEnable(env: Env)
    ensures EarlyDisable(Zero(), env) == (Zero(), env)
    ensures !WellFormed(Zero().handlers)
  {
    assert Zero().handlers[0].signum != FatalSignals[0];
  }

  /** Enabling twice is enabling once. */
  lemma EnableIdempotent(s: EarlyState, env: Env, fails: set<int>)
    requires |s.handlers| == |FatalSignals|
    ensures var (t, e) := EarlyEnable(s, env, fails);
      EarlyEnable(t, e, fails) == (t, e)
  {
  }

  /** From any disabled state (the zero one included), enabling and then
      disabling leaves every disposition as it was, whichever installs
      failed. */
  lemma EnableThenDisableRestores(s: EarlyState, env: Env, fails: set<int>)
    requires !s.enabled && |s.handlers| == |FatalSignals|
    ensures var (t, e) := EarlyEnable(s, env, fails);
      var (u, g) := EarlyDisable(t, e);
      && !u.enabled
      && (forall sig :: Action(g, sig) == Action(env, sig))
  {
    var (t, e) := EarlyEnable(s, env, fails);
    var (u, g) := EarlyDisable(t, e);
    forall sig ensures Action(g, sig) == Action(env, sig) {
      if sig in EnabledSignums(t.handlers) {
        var k :| 0 <= k < |t.handlers| && t.handlers[k].enabled && t.handlers[k].signum == sig;
        assert FatalSignals[k] !in fails;
      }
    }
  }

  /** The signal handler of the earliest revision is the fatal handler of
      the later ones with the descriptor fixed to 2: the same entry is
      disabled, the same disposition put back, and the same text written
      when the stack dump is the one the later handler writes. */
  lemma DispatchMatchesLater(fl: Flavor, s: EarlyState, env: Env, signum: int, tls: Option<ThreadState>,
                             reg: Registry, later: FatalState)
    requires WellFormed(s.handlers) && later.handlers == s.handlers && later.fd == StandardError
    requires fl.checksInterp || reg.Interpreter?
    ensures var r := EarlyDispatch(s, env, signum, SignalDump(fl, tls, reg, later.allThreads).0);
      var q := FatalControl.Dispatch(fl, later, env, signum, tls, reg);
      && r.0.handlers == q.0.handlers && r.1 == q.1 && r.2 == q.2
  {
    assert Signums(s.handlers) == FatalSignals;
  }
}
