/** The registry of user signals (`register`/`unregister`) of
    faulthandler.c and faulthandler/user.c: a growing array of entries, one
    per successful `register()` call, each remembering the disposition it
    replaced. A signal whose handler is `faulthandler_user` dumps the stacks
    to the file of the first entry for that signal and changes nothing. */
module UserRegistry {
  import opened Wrappers
  import opened Signals
  import opened Fileno
  import opened Render
  import opened Numerals
  import FatalControl

  /** `user_signal_t`. */
  datatype UserEntry = UserEntry(signum: int, file: FileRef, fd: int, allThreads: bool, previous: Disposition)

  function UserSignums(table: seq<UserEntry>): (r: seq<int>)
    ensures |r| == |table|
    ensures forall i :: 0 <= i < |table| ==> r[i] == table[i].signum
  {
    seq(|table|, i requires 0 <= i < |table| => table[i].signum)
  }

  /** A signal number as `%i` writes it. */
  function IntText(n: int): (r: string)
    ensures n >= 0 ==> r == DecimalText(n)
    ensures n < 0 ==> r == "-" + DecimalText(-n)
  {
    if n >= 0 then DecimalText(n) else "-" + DecimalText(-n)
  }

  function CannotRegisterMessage(signum: int): string
  {
    "signal " + IntText(signum) + " cannot be registered by register(): use enable() instead"
  }

  /** `register(signum, file, all_threads)`. A signal of the fatal table is
      refused with RuntimeError, a bad descriptor raises, and a refused
      `sigaction` raises OSError, each before the table or the disposition
      changes. On success an entry is appended, even when the signal
      already has one, remembering the disposition the new handler
      replaced; the entries already there are untouched. */
  function Register(table: seq<UserEntry>, env: Env, signum: int, call: FilenoCall, file: FileRef,
                    allThreads: bool, installFails: bool)
    : (r: Result<(seq<UserEntry>, Env), PyError>)
    ensures signum in FatalControl.FatalSignals ==> r == Failure(RuntimeError(CannotRegisterMessage(signum)))
    ensures signum !in FatalControl.FatalSignals && GetFileno(call).Failure? ==> r == Failure(GetFileno(call).error)
    ensures signum !in FatalControl.FatalSignals && GetFileno(call).Success? && installFails ==> r == Failure(OSError)
    ensures r.Success? <==> signum !in FatalControl.FatalSignals && GetFileno(call).Success? && !installFails
    ensures r.Success? ==>
      var (t, e) := r.value;
      && |t| == |table| + 1 && t[..|table|] == table
      && t[|table|] == UserEntry(signum, file, GetFileno(call).value, allThreads, Action(env, signum))
      && Action(e, signum) == UserHook
      && (forall sig :: sig != signum ==> Action(e, sig) == Action(env, sig))
      && e.alarm == env.alarm && e.released == env.released
  {
    if signum in FatalControl.FatalSignals then Failure(RuntimeError(CannotRegisterMessage(signum)))
    else
      match GetFileno(call)
      case Failure(err) => Failure(err)
      case Success(fd) =>
        if installFails then Failure(OSError)
        else
          var entry := UserEntry(signum, file, fd, allThreads, Action(env, signum));
          Success((table + [entry], SetAction(env, signum, UserHook)))
  }

  /** `unregister(signum)`. Without an entry for the signal it returns
      False and changes nothing. Otherwise the first entry for it is
      removed, the later ones moving down by one, the disposition that entry
      saved is put back, its file is given up, and it returns True. */
  function Unregister(table: seq<UserEntry>, env: Env, signum: int): (r: (bool, seq<UserEntry>, Env))
    ensures signum !in UserSignums(table) ==> r == (false, table, env)
    ensures signum in UserSignums(table) ==>
      var i := FindFirst(UserSignums(table), signum).value;
      && r.0
      && |r.1| == |table| - 1
      && (forall j :: 0 <= j < i ==> r.1[j] == table[j])
      && (forall j :: i <= j < |r.1| ==> r.1[j] == table[j + 1])
      && Action(r.2, signum) == table[i].previous
      && (forall sig :: sig != signum ==> Action(r.2, sig) == Action(env, sig))
      && r.2.alarm == env.alarm && r.2.released == env.released + [table[i].file]
  {
    match FindFirst(UserSignums(table), signum)
    case None => (false, table, env)
    case Some(i) =>
      var e := SetAction(env, signum, table[i].previous);
      (true, table[..i] + table[i + 1..], Release(e, Some(table[i].file)))
  }

  /** `faulthandler_unload_user()`: every entry's saved disposition is put
      back, in table order, so for a signal with several entries the last
      one's wins; no file is given up and the table is emptied. */
  function UnloadUser(table: seq<UserEntry>, env: Env): (r: Env)
    ensures forall sig :: sig !in UserSignums(table) ==> Action(r, sig) == Action(env, sig)
    ensures forall i :: 0 <= i < |table| && table[i].signum !in UserSignums(table[i + 1..]) ==>
      Action(r, table[i].signum) == table[i].previous
    ensures r.alarm == env.alarm && r.released == env.released
    decreases |table|
  {
    if |table| == 0 then env
    else
      UnloadUser(table[1..], SetAction(env, table[0].signum, table[0].previous))
  }

  /** `faulthandler_user(signum)`. With an empty table there is no entry
      and nothing happens. Otherwise the entry is the first one for the
      signal, or the last entry when there is none, and its descriptor gets
      what the signal dump writes for the interrupted thread (nothing
      without a thread state). */
  function UserDispatch(fl: Flavor, table: seq<UserEntry>, signum: int, tls: Option<ThreadState>, reg: Registry)
    : (r: Option<Written>)
    requires fl.checksInterp || reg.Interpreter?
    ensures |table| == 0 <==> r.None?
    ensures r.Some? ==>
      var i := FindOrLast(UserSignums(table), signum);
      && r.value.fd == table[i].fd
      && r.value.text == SignalDump(fl, tls, reg, table[i].allThreads).0
      && (tls.None? ==> r.value.text == [])
  {
    if |table| == 0 then None
    else
      var e := table[FindOrLast(UserSignums(table), signum)];
      Some(Written(e.fd, SignalDump(fl, tls, reg, e.allThreads).0))
  }

  // ---------------------------------------------------------------------
  // Properties

  /** Every registered signal is routed to the user handler, and each
      signal has at most one entry. */
  predicate Consistent(table: seq<UserEntry>, env: Env)
  {
    && (forall i :: 0 <= i < |table| ==> Action(env, table[i].signum) == UserHook)
    && (forall i, j :: 0 <= i < j < |table| ==> table[i].signum != table[j].signum)
  }

  /** Registering a new signal and unregistering it again gives back the
      table and every disposition, and gives up the file once. */
  lemma RegisterThenUnregister(table: seq<UserEntry>, env: Env, signum: int, call: FilenoCall, file: FileRef,
                               allThreads: bool)
    requires signum !in UserSignums(table)
    requires Register(table, env, signum, call, file, allThreads, false).Success?
    ensures var (t, e) := Register(table, env, signum, call, file, allThreads, false).value;
      var (found, u, g) := Unregister(t, e, signum);
      && found && u == table
      && (forall sig :: Action(g, sig) == Action(env, sig))
      && g.released == env.released + [file]
  {
    var (t, e) := Register(table, env, signum, call, file, allThreads, false).value;
    assert UserSignums(t) == UserSignums(table) + [signum];
    assert signum in UserSignums(t);
    var i := FindFirst(UserSignums(t), signum).value;
    assert i == |table|;
  }

  /** Registering a signal not yet in the table keeps the registry
      consistent. */
  lemma RegisterConsistent(table: seq<UserEntry>, env: Env, signum: int, call: FilenoCall, file: FileRef,
                           allThreads: bool)
    requires Consistent(table, env) && signum !in UserSignums(table)
    requires Register(table, env, signum, call, file, allThreads, false).Success?
    ensures var (t, e) := Register(table, env, signum, call, file, allThreads, false).value;
      Consistent(t, e)
  {
    var (t, e) := Register(table, env, signum, call, file, allThreads, false).value;
    forall i | 0 <= i < |table|
      ensures table[i].signum != signum
    {
      assert UserSignums(table)[i] == table[i].signum;
    }
  }

  /** Unregistering from a consistent registry keeps it consistent. */
  lemma UnregisterConsistent(table: seq<UserEntry>, env: Env, signum: int)
    requires Consistent(table, env)
    ensures var (_, t, e) := Unregister(table, env, signum); Consistent(t, e)
  {
    if signum in UserSignums(table) {
      var i := FindFirst(UserSignums(table), signum).value;
      var (_, t, e) := Unregister(table, env, signum);
      forall j | 0 <= j < |t|
        ensures t[j].signum != signum
      {
        if j < i { assert t[j] == table[j]; } else { assert t[j] == table[j + 1]; }
      }
    }
  }

  /** Registering the same signal twice and unregistering it twice leaves
      the user handler installed although the table no longer has an entry
      for the signal: the second entry saved the user handler itself as the
      disposition to restore. */
  lemma RegisterTwiceUnregisterTwice(table: seq<UserEntry>, env: Env, signum: int, call: FilenoCall,
                                     f1: FileRef, f2: FileRef)
    requires signum !in UserSignums(table)
    requires Register(table, env, signum, call, f1, false, false).Success?
    ensures var (t1, e1) := Register(table, env, signum, call, f1, false, false).value;
      var (t2, e2) := Register(t1, e1, signum, call, f2, false, false).value;
      var (_, t3, e3) := Unregister(t2, e2, signum);
      var (_, t4, e4) := Unregister(t3, e3, signum);
      && t4 == table && signum !in UserSignums(t4)
      && Action(e4, signum) == UserHook
  {
    var (t1, e1) := Register(table, env, signum, call, f1, false, false).value;
    var (t2, e2) := Register(t1, e1, signum, call, f2, false, false).value;
    assert UserSignums(t1) == UserSignums(table) + [signum];
    assert UserSignums(t2) == UserSignums(table) + [signum, signum];
    assert FindFirst(UserSignums(t2), signum).value == |table|;
    var (_, t3, e3) := Unregister(t2, e2, signum);
    assert t3 == table + [t2[|table| + 1]];
    assert UserSignums(t3) == UserSignums(table) + [signum];
    assert FindFirst(UserSignums(t3), signum).value == |table|;
  }

  /** Unloading after registering a new signal puts back the disposition
      the signal had before `register()`, and leaves every signal without
      an entry as it was before too. */
  lemma RegisterThenUnload(table: seq<UserEntry>, env: Env, signum: int, call: FilenoCall, file: FileRef,
                           allThreads: bool)
    requires signum !in UserSignums(table)
    requires Register(table, env, signum, call, file, allThreads, false).Success?
    ensures var (t, e) := Register(table, env, signum, call, file, allThreads, false).value;
      var g := UnloadUser(t, e);
      && Action(g, signum) == Action(env, signum)
      && (forall sig :: sig !in UserSignums(t) ==> Action(g, sig) == Action(env, sig))
      && g.released == env.released
  {
    var (t, e) := Register(table, env, signum, call, file, allThreads, false).value;
    assert UserSignums(t) == UserSignums(table) + [signum];
    assert t[|table|].signum == signum;
    assert UserSignums(t[|table| + 1..]) == [];
  }

  /** A signal with an entry is served by its first entry, which is also
      the one `unregister` removes. */
  lemma DispatchUsesFirstEntry(fl: Flavor, table: seq<UserEntry>, signum: int, tls: Option<ThreadState>, reg: Registry)
    requires fl.checksInterp || reg.Interpreter?
    requires signum in UserSignums(table)
    ensures var i := FindFirst(UserSignums(table), signum).value;
      UserDispatch(fl, table, signum, tls, reg) == Some(Written(table[i].fd, SignalDump(fl, tls, reg, table[i].allThreads).0))
  {
    FindOrLastAgrees(UserSignums(table), signum);
  }
}
