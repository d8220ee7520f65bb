/** The "dump later" timer of faulthandler.c and faulthandler/later.c:
    a SIGALRM handler that dumps the stacks when the timer expires and
    re-arms itself while asked to repeat.

    The two revisions differ only in what the handler does when it stops:
    faulthandler.c only disarms the timer, later.c also gives up the file
    (`clearsFileOnStop`). The SIGALRM handler is installed with `signal()`,
    whose failure is a parameter; the disposition it replaces is not kept. */
module AlarmControl {
  import opened Wrappers
  import opened Signals
  import opened Fileno
  import opened Render

  /** The `fault_alarm` record. */
  datatype AlarmState = AlarmState(file: Option<FileRef>, fd: int, delay: nat, repeat: bool, allThreads: bool)

  /** The static record: zero everywhere. */
  const Idle: AlarmState := AlarmState(None, 0, 0, false, false)

  const BadDelayMessage: string := "delay must be greater than 0"
  const NoAlarmHandlerMessage: string := "unable to set SIGALRM handler"

  /** `dump_traceback_later(delay, repeat, file, all_threads)` as written:
      a non-positive delay raises ValueError, a bad descriptor raises, a
      refused handler install raises RuntimeError, in that order and before
      anything changes. Otherwise the handler is installed, the record
      replaced and the timer armed for `delay` seconds. The file held
      before is dropped without giving up its reference. */
  function DumpLaterAsWritten(s: AlarmState, env: Env, delay: int, repeat: bool, call: FilenoCall,
                              file: FileRef, allThreads: bool, installFails: bool)
    : (r: Result<(AlarmState, Env), PyError>)
    ensures delay <= 0 ==> r == Failure(ValueError(BadDelayMessage))
    ensures delay > 0 && GetFileno(call).Failure? ==> r == Failure(GetFileno(call).error)
    ensures delay > 0 && GetFileno(call).Success? && installFails ==> r == Failure(RuntimeError(NoAlarmHandlerMessage))
    ensures r.Success? <==> delay > 0 && GetFileno(call).Success? && !installFails
    ensures r.Success? ==>
      var (t, e) := r.value;
      && t == AlarmState(Some(file), GetFileno(call).value, delay, repeat, allThreads)
      && e == SetAlarm(SetAction(env, SIGALRM, AlarmHook), delay)
  {
    if delay <= 0 then Failure(ValueError(BadDelayMessage))
    else
      match GetFileno(call)
      case Failure(err) => Failure(err)
      case Success(fd) =>
        if installFails then Failure(RuntimeError(NoAlarmHandlerMessage))
        else
          var env1 := SetAction(env, SIGALRM, AlarmHook);
          Success((AlarmState(Some(file), fd, delay, repeat, allThreads), SetAlarm(env1, delay)))
  }

  /** `dump_traceback_later` as evidently intended: the same, except that
      the reference to the file held before is given up when the record is
      replaced, as `enable` does for its own file. */
  function DumpLater(s: AlarmState, env: Env, delay: int, repeat: bool, call: FilenoCall,
                     file: FileRef, allThreads: bool, installFails: bool)
    : (r: Result<(AlarmState, Env), PyError>)
    ensures r.Failure? <==> DumpLaterAsWritten(s, env, delay, repeat, call, file, allThreads, installFails).Failure?
    ensures r.Failure? ==> r == DumpLaterAsWritten(s, env, delay, repeat, call, file, allThreads, installFails)
    ensures r.Success? ==>
      var (t, e) := r.value;
      var (t0, e0) := DumpLaterAsWritten(s, env, delay, repeat, call, file, allThreads, installFails).value;
      && t == t0 && e.actions == e0.actions && e.alarm == e0.alarm && e.alarm == delay
      && e.released == env.released + (if s.file.Some? then [s.file.value] else [])
  {
    match DumpLaterAsWritten(s, env, delay, repeat, call, file, allThreads, installFails)
    case Failure(err) => Failure(err)
    case Success((t, e)) => Success((t, Release(e, s.file)))
  }

  /** The timer's stop path: disarm, and in later.c also give up the
      file. */
  function Stop(s: AlarmState, env: Env, clearsFile: bool): (r: (AlarmState, Env))
    ensures r.1.alarm == 0 && r.1.actions == env.actions
    ensures clearsFile ==> r.0 == s.(file := None) && r.1.released == env.released + (if s.file.Some? then [s.file.value] else [])
    ensures !clearsFile ==> r.0 == s && r.1.released == env.released
  {
    if clearsFile then (s.(file := None), SetAlarm(Release(env, s.file), 0))
    else (s, SetAlarm(env, 0))
  }

  /** `faulthandler_alarm()`, run when the timer expires: the firing
      itself leaves no timer pending. Without a thread state in
      thread-local storage it writes nothing and does not call `alarm()`
      again, so even a repeating timer stays stopped. Otherwise it dumps
      the thread's stack or all threads to the record's descriptor; the
      dump succeeded unless the all-threads dump reported an error. The
      timer is re-armed for the same delay exactly when the dump succeeded
      and repeat is set; otherwise the stop path runs. */
  function Fire(fl: Flavor, s: AlarmState, env: Env, tls: Option<ThreadState>, reg: Registry, clearsFile: bool)
    : (r: (AlarmState, Env, Written))
    requires fl.checksInterp || reg.Interpreter?
    ensures tls.None? ==> r == (s, SetAlarm(env, 0), Written(s.fd, [])) && r.1.alarm == 0
    ensures tls.Some? ==>
      var ok := !s.allThreads || DumpThreads(fl, reg, tls.value.key).error.None?;
      && r.2 == Written(s.fd, SignalDump(fl, tls, reg, s.allThreads).0)
      && r.1.actions == env.actions
      && (ok && s.repeat ==> r.0 == s && r.1 == SetAlarm(env, s.delay))
      && (!(ok && s.repeat) ==> (r.0, r.1) == Stop(s, env, clearsFile) && r.1.alarm == 0)
  {
    match tls
    case None => (s, SetAlarm(env, 0), Written(s.fd, []))
    case Some(ts) =>
      var (text, ok) := SignalDump(fl, tls, reg, s.allThreads);
      if ok && s.repeat then (s, SetAlarm(env, s.delay), Written(s.fd, text))
      else
        var (t, e) := Stop(s, env, clearsFile);
        (t, e, Written(s.fd, text))
  }

  /** `cancel_dump_traceback_later()`: disarms the timer and gives up the
      file. */
  function Cancel(s: AlarmState, env: Env): (r: (AlarmState, Env))
    ensures r.0 == s.(file := None)
    ensures r.1.alarm == 0 && r.1.actions == env.actions
    ensures r.1.released == env.released + (if s.file.Some? then [s.file.value] else [])
  {
    Stop(s, env, true)
  }

  /** `faulthandler_unload_dump_traceback_later()`: only disarms; the
      reference is kept because the interpreter is already finalising. */
  function UnloadLater(s: AlarmState, env: Env): (r: (AlarmState, Env))
    ensures r.0 == s && r.1.alarm == 0 && r.1.actions == env.actions && r.1.released == env.released
  {
    (s, SetAlarm(env, 0))
  }

  // ---------------------------------------------------------------------
  // Properties

  /** A repeating single-thread dump whose handler always finds the
      thread's state keeps the record and, after every firing, leaves the
      timer pending for its delay again, whatever was pending before the
      first firing; the handlers and the released files stay as they
      were. */
  lemma {:induction false} RepeatKeepsArmed(fl: Flavor, s: AlarmState, env: Env, ts: ThreadState, reg: Registry,
                                            clearsFile: bool, n: nat)
    requires fl.checksInterp || reg.Interpreter?
    requires s.repeat && !s.allThreads && n > 0
    ensures FireN(fl, s, env, ts, reg, clearsFile, n) == (s, SetAlarm(env, s.delay))
    decreases n
  {
    if n > 1 {
      RepeatKeepsArmed(fl, s, env, ts, reg, clearsFile, n - 1);
      RepeatStep(fl, s, SetAlarm(env, s.delay), ts, reg, clearsFile);
    } else {
      RepeatStep(fl, s, env, ts, reg, clearsFile);
    }
  }

  /** One firing of a repeating single-thread dump that finds the thread's
      state keeps the record and leaves the timer pending for the delay,
      whatever was pending before. */
  lemma RepeatStep(fl: Flavor, s: AlarmState, env: Env, ts: ThreadState, reg: Registry, clearsFile: bool)
    requires fl.checksInterp || reg.Interpreter?
    requires s.repeat && !s.allThreads
    ensures var r := Fire(fl, s, env, Some(ts), reg, clearsFile);
      r.0 == s && r.1 == SetAlarm(env, s.delay)
  {
  }

  /** The state after the timer fired `n` times, always finding `ts`. */
  function FireN(fl: Flavor, s: AlarmState, env: Env, ts: ThreadState, reg: Registry, clearsFile: bool, n: nat)
    : (AlarmState, Env)
    requires fl.checksInterp || reg.Interpreter?
    decreases n
  {
    if n == 0 then (s, env)
    else
      var (t, e) := FireN(fl, s, env, ts, reg, clearsFile, n - 1);
      var r := Fire(fl, t, e, Some(ts), reg, clearsFile);
      (r.0, r.1)
  }

  /** A firing that finds no thread state ends a repeating timer: no timer
      is pending afterwards, and the record is kept as it was. */
  lemma MissingThreadStops(fl: Flavor, s: AlarmState, env: Env, reg: Registry, clearsFile: bool)
    requires fl.checksInterp || reg.Interpreter?
    requires s.repeat
    ensures var r := Fire(fl, s, env, None, reg, clearsFile);
      r.0 == s && r.1.alarm == 0 && r.1.actions == env.actions && r.2.text == []
  {
  }

  /** A one-shot timer stops after its first dump. */
  lemma OneShotStops(fl: Flavor, s: AlarmState, env: Env, ts: ThreadState, reg: Registry, clearsFile: bool)
    requires fl.checksInterp || reg.Interpreter?
    requires !s.repeat
    ensures Fire(fl, s, env, Some(ts), reg, clearsFile).1.alarm == 0
  {
  }

  /** Arming and then cancelling gives up, in order, the file held before
      and the file just armed, and leaves the timer disarmed with the
      handler still installed. */
  lemma ArmThenCancel(s: AlarmState, env: Env, delay: int, repeat: bool, call: FilenoCall,
                      file: FileRef, allThreads: bool)
    requires delay > 0 && GetFileno(call).Success?
    ensures var (t, e) := DumpLater(s, env, delay, repeat, call, file, allThreads, false).value;
      var (u, g) := Cancel(t, e);
      && u.file.None? && g.alarm == 0 && Action(g, SIGALRM) == AlarmHook
      && g.released == env.released + (if s.file.Some? then [s.file.value] else []) + [file]
  {
  }

  /** The reference leak of the code as written: arming twice and then
      cancelling gives up only the second file; the first one's reference
      is never given up. The intended version gives up both. */
  lemma ArmTwiceLeaks(env: Env, call: FilenoCall, f1: FileRef, f2: FileRef)
    requires GetFileno(call).Success? && f1 != f2 && env.released == []
    ensures var (t1, e1) := DumpLaterAsWritten(Idle, env, 5, true, call, f1, false, false).value;
      var (t2, e2) := DumpLaterAsWritten(t1, e1, 1, false, call, f2, false, false).value;
      var (t3, e3) := Cancel(t2, e2);
      Releases(e3, f1) == 0 && Releases(e3, f2) == 1
    ensures var (t1, e1) := DumpLater(Idle, env, 5, true, call, f1, false, false).value;
      var (t2, e2) := DumpLater(t1, e1, 1, false, call, f2, false, false).value;
      var (t3, e3) := Cancel(t2, e2);
      Releases(e3, f1) == 1 && Releases(e3, f2) == 1
  {
    var (t1, e1) := DumpLater(Idle, env, 5, true, call, f1, false, false).value;
    var (t2, e2) := DumpLater(t1, e1, 1, false, call, f2, false, false).value;
    var (t3, e3) := Cancel(t2, e2);
    assert e3.released == [f1, f2];
    var (a1, b1) := DumpLaterAsWritten(Idle, env, 5, true, call, f1, false, false).value;
    var (a2, b2) := DumpLaterAsWritten(a1, b1, 1, false, call, f2, false, false).value;
    var (a3, b3) := Cancel(a2, b2);
    assert b3.released == [f2];
  }
}
