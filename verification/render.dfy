/** The stack renderer: one frame per line, one block per thread, with the
    depth and thread-count caps that bound the time spent in a signal
    handler.

    The runtime's frames and threads are taken as given sequences: a thread
    state carries its frame chain, most recent frame first, where an element
    that fails `PyFrame_Check` stops the walk; the interpreter carries its
    thread list in `PyThreadState_Next` order. Pointer identity of a thread
    state is the `key` field. */
module Render {
  import opened Wrappers
  import opened Numerals
  import opened SafeText
  import opened Fileno

  const MaxFrameDepth: nat := 100
  const MaxThreads: nat := 100

  const FrameEllipsis: string := "  ...\n"
  const ThreadEllipsis: string := "...\n"
  const Unknown: string := "???"

  const NoInterpreterMessage: string := "unable to get the interpreter"
  const NoThreadHeadMessage: string := "unable to get the thread head state"
  const NoThreadStateMessage: string := "unable to get the current thread state"

  /** Slicing facts the closed forms rely on, stated once. */
  lemma SliceHead<T>(s: seq<T>, m: nat)
    requires 1 <= m <= |s|
    ensures s[..m][0] == s[0] && s[..m][1..] == s[1..][..m - 1]
  {
  }

  lemma Regroup<T>(a: seq<T>, b: seq<T>, c: seq<T>)
    ensures a + (b + c) == a + b + c
  {
  }

  lemma SliceShift<T>(s: seq<T>, cap: nat)
    requires |s| > 0 && cap > 0
    ensures s[1..][..Min(|s| - 1, cap - 1)] == s[1..Min(|s|, cap)]
  {
  }

  /** A frame object. `None` for a file or function name stands for a
      missing code object, a NULL attribute or one that is not a string;
      `lineno` is what `PyFrame_GetLineNumber` reports. */
  datatype FrameInfo = FrameInfo(filename: Option<Text>, name: Option<Text>, lineno: int)

  /** A link of the frame chain: a frame, or an object that fails
      `PyFrame_Check`. */
  datatype FrameLink = Frame(info: FrameInfo) | NotAFrame

  datatype ThreadState = ThreadState(key: nat, threadId: ULong, frames: seq<FrameLink>)

  /** The interpreter reached from a thread state, or its absence. */
  datatype Registry = NoInterpreter | Interpreter(threads: seq<ThreadState>)

  /** The choices that distinguish the three revisions of the renderer. */
  datatype Flavor = Flavor(
    text: TextFlavor,
    header: string,            // written by the single-thread dump when asked
    headerNeedsFrame: bool,    // whether an empty stack suppresses the header
    threadSuffix: string,      // what follows the thread identifier
    checksInterp: bool)        // whether a missing interpreter is reported

  /** Everything a dump writes: the descriptor and the bytes. */
  datatype Written = Written(fd: int, text: string)

  function Min(a: nat, b: nat): nat { if a < b then a else b }

  /** The file name between double quotes, or an unquoted `???`. */
  function Quoted(t: TextFlavor, s: Option<Text>): (r: string)
    ensures IsAscii(r)
    ensures t.passthrough == PrintableAscii ==> IsPrintable(r)
  {
    match s
    case Some(text) =>
      var e := DumpAscii(t, text);
      var r := "\"" + e + "\"";
      assert forall i :: 0 < i < |r| - 1 ==> r[i] == e[i - 1];
      r
    case None => Unknown
  }

  /** The function name, or `???`. */
  function NameText(t: TextFlavor, s: Option<Text>): (r: string)
    ensures IsAscii(r)
    ensures t.passthrough == PrintableAscii ==> IsPrintable(r)
  {
    match s
    case Some(text) => DumpAscii(t, text)
    case None => Unknown
  }

  predicate NoNewline(s: string)
  {
    forall i :: 0 <= i < |s| ==> s[i] != '\n'
  }

  function FrameText(q: string, d: string, n: string): string
  {
    "  File " + q + ", line " + d + " in " + n
  }

  /** A frame line is ASCII when its three fields are, and free of newlines
      when its fields are. */
  lemma FrameTextShape(q: string, d: string, n: string)
    ensures IsAscii(q) && IsAscii(d) && IsAscii(n) ==> IsAscii(FrameText(q, d, n) + "\n")
    ensures NoNewline(q) && NoNewline(d) && NoNewline(n) ==> NoNewline(FrameText(q, d, n))
    ensures |FrameText(q, d, n)| >= 18 && (FrameText(q, d, n) + "\n")[..7] == "  File "
  {
    var r := FrameText(q, d, n);
    assert (r + "\n")[..7] == "  File ";
    if IsAscii(q) && IsAscii(d) && IsAscii(n) {
      forall i | 0 <= i < |r + "\n"|
        ensures (r + "\n")[i] as int < 128
      {
        var k := i;
        if k < 7 {
        } else if k < 7 + |q| {
          assert (r + "\n")[k] == q[k - 7];
        } else if k < 14 + |q| {
        } else if k < 14 + |q| + |d| {
          assert (r + "\n")[k] == d[k - 14 - |q|];
        } else if k < 18 + |q| + |d| {
        } else if k < 18 + |q| + |d| + |n| {
          assert (r + "\n")[k] == n[k - 18 - |q| - |d|];
        }
      }
    }
    if NoNewline(q) && NoNewline(d) && NoNewline(n) {
      forall i | 0 <= i < |r|
        ensures r[i] != '\n'
      {
        var k := i;
        if k < 7 {
        } else if k < 7 + |q| {
          assert r[k] == q[k - 7];
        } else if k < 14 + |q| {
        } else if k < 14 + |q| + |d| {
          assert r[k] == d[k - 14 - |q|];
        } else if k < 18 + |q| + |d| {
        } else {
          assert r[k] == n[k - 18 - |q| - |d|];
        }
      }
    }
  }

  lemma PrintableNoNewline(s: string)
    requires IsPrintable(s)
    ensures NoNewline(s)
  {
  }

  /** `dump_frame`: `  File "<file>", line <n> in <name>` and a newline,
      with an unquoted `???` for a missing file name, `???` for a missing
      function name, and no digits for a line number outside [0, 999999]. */
  function DumpFrame(t: TextFlavor, fr: FrameInfo): string
  {
    FrameText(Quoted(t, fr.filename), DecimalField(fr.lineno), NameText(t, fr.name)) + "\n"
  }

  /** A frame line starts with "  File ", ends with its newline and is
      ASCII; when only printable characters pass through, that newline is
      its only one, so a line cannot be split by a hostile file name. */
  lemma DumpFrameShape(t: TextFlavor, fr: FrameInfo)
    ensures var r := DumpFrame(t, fr);
      && |r| > 7 && r[..7] == "  File " && r[|r| - 1] == '\n'
      && IsAscii(r)
      && (t.passthrough == PrintableAscii ==> NoNewline(r[..|r| - 1]))
  {
    var q := Quoted(t, fr.filename);
    var d := DecimalField(fr.lineno);
    var n := NameText(t, fr.name);
    var body := FrameText(q, d, n);
    FrameTextShape(q, d, n);
    if t.passthrough == PrintableAscii {
      PrintableNoNewline(d);
      PrintableNoNewline(q);
      PrintableNoNewline(n);
    }
    LastDropped(body, '\n');
    assert body + "\n" == body + ['\n'];
  }

  /** What a frame line says: between the fixed words "  File ",
      ", line " and " in " stand the file field, the line field and the
      name field. The file field is an unquoted `???` exactly when the file
      name is missing, and otherwise a quoted escape that decodes back to
      the kept part of the name (plus the dots when it was cut); the line
      field is the number's decimal text, which parses back to it, on
      [0, 999999] and empty elsewhere; the name field is `???` for a
      missing name and otherwise decodes back the same way. */
  lemma DumpFrameFields(t: TextFlavor, fr: FrameInfo)
    ensures var q := Quoted(t, fr.filename);
      var d := DecimalField(fr.lineno);
      var n := NameText(t, fr.name);
      && DumpFrame(t, fr) == "  File " + q + ", line " + d + " in " + n + "\n"
      && (fr.filename.None? <==> q == Unknown)
      && (fr.filename.Some? ==>
            && |q| >= 2 && q[0] == '"' && q[|q| - 1] == '"'
            && (Decodable(t, fr.filename.value) ==>
                  Unescape(q[1..|q| - 1]) == fr.filename.value[..Kept(t, |fr.filename.value|)]
                    + (if Truncated(t, fr.filename.value) then [46, 46, 46] else [])))
      && (0 <= fr.lineno <= MaxDecimal ==>
            d == DecimalText(fr.lineno) && IsCanonicalDecimal(d) && ParseDecimal(d) == fr.lineno)
      && (!(0 <= fr.lineno <= MaxDecimal) ==> d == [])
      && (fr.name.None? ==> n == Unknown)
      && (fr.name.Some? && Decodable(t, fr.name.value) ==>
            Unescape(n) == fr.name.value[..Kept(t, |fr.name.value|)]
              + (if Truncated(t, fr.name.value) then [46, 46, 46] else []))
  {
    var q := Quoted(t, fr.filename);
    if fr.filename.Some? {
      var e := DumpAscii(t, fr.filename.value);
      assert q == "\"" + e + "\"";
      assert q[1..|q| - 1] == e;
      if Decodable(t, fr.filename.value) {
        DumpAsciiRoundTrip(t, fr.filename.value);
      }
    }
    if 0 <= fr.lineno <= MaxDecimal {
      DecimalTextCanonical(fr.lineno);
      DecimalRoundTrip(fr.lineno);
    }
    if fr.name.Some? && Decodable(t, fr.name.value) {
      DumpAsciiRoundTrip(t, fr.name.value);
    }
  }

  lemma LastDropped(s: string, c: char)
    ensures (s + [c])[..|s + [c]| - 1] == s && (s + [c])[|s|] == c
  {
  }

  /** Number of links at the head of the chain that are frames. */
  function LeadingFrames(frames: seq<FrameLink>): (k: nat)
    ensures k <= |frames|
    ensures forall i :: 0 <= i < k ==> frames[i].Frame?
    ensures k < |frames| ==> frames[k].NotAFrame?
  {
    if |frames| == 0 || frames[0].NotAFrame? then 0 else 1 + LeadingFrames(frames[1..])
  }

  /** The lines `line` gives a run of frames, in order. */
  function Lines(line: FrameInfo -> string, frames: seq<FrameLink>): string
    requires forall i :: 0 <= i < |frames| ==> frames[i].Frame?
  {
    if |frames| == 0 then [] else line(frames[0].info) + Lines(line, frames[1..])
  }

  /** The `while (frame != NULL)` loop of the single-thread dump, entered
      with `depth` frames already written and each frame written by `line`:
      at the depth cap it writes "  ...\n" and stops, at a link that is not a
      frame it stops silently. */
  function WalkFrames(line: FrameInfo -> string, frames: seq<FrameLink>, depth: nat): string
    decreases |frames|
  {
    if |frames| == 0 then []
    else if MaxFrameDepth <= depth then FrameEllipsis
    else if frames[0].NotAFrame? then []
    else line(frames[0].info) + WalkFrames(line, frames[1..], depth + 1)
  }

  /** The line writer of a revision. */
  function FrameLine(t: TextFlavor): FrameInfo -> string
  {
    (fr: FrameInfo) => DumpFrame(t, fr)
  }

  /** Frames the single-thread dump shows, and whether it elides the rest. */
  function Shown(frames: seq<FrameLink>): nat
  {
    Min(LeadingFrames(frames), MaxFrameDepth)
  }

  predicate Elided(frames: seq<FrameLink>)
  {
    LeadingFrames(frames) >= MaxFrameDepth && |frames| > MaxFrameDepth
  }

  /** The frame loop in closed form: the lines of the first
      min(leading frames, cap - depth) frames, then "  ...\n" exactly when the
      cap was reached with links left over. */
  lemma {:induction false} WalkFramesClosedForm(line: FrameInfo -> string, frames: seq<FrameLink>, depth: nat)
    requires depth <= MaxFrameDepth
    ensures var room: nat := MaxFrameDepth - depth;
      var n := Min(LeadingFrames(frames), room);
      WalkFrames(line, frames, depth)
        == Lines(line, frames[..n]) + (if LeadingFrames(frames) >= room && |frames| > room then FrameEllipsis else [])
    decreases |frames|
  {
    var room: nat := MaxFrameDepth - depth;
    var n := Min(LeadingFrames(frames), room);
    if |frames| == 0 || MaxFrameDepth <= depth || frames[0].NotAFrame? {
      assert frames[..n] == [];
    } else {
      WalkFramesClosedForm(line, frames[1..], depth + 1);
      SliceHead(frames, n);
      Regroup(line(frames[0].info), Lines(line, frames[1..][..n - 1]),
              if LeadingFrames(frames) >= room && |frames| > room then FrameEllipsis else []);
    }
  }

  /** `dump_traceback` / `faulthandler_dump_backtrace`. In the revisions
      whose header needs a frame, a thread without frames writes nothing at
      all; otherwise the header is written whenever it is asked for. Then at
      most 100 frame lines follow, and "  ...\n" exactly when frames were
      left over at the cap. */
  function DumpTraceback(fl: Flavor, ts: ThreadState, writeHeader: bool): (r: string)
    ensures var header := if writeHeader && (|ts.frames| > 0 || !fl.headerNeedsFrame) then fl.header else [];
      r == header + Lines(FrameLine(fl.text), ts.frames[..Shown(ts.frames)])
                  + (if Elided(ts.frames) then FrameEllipsis else [])
  {
    var header := if writeHeader then fl.header else [];
    if fl.headerNeedsFrame && |ts.frames| == 0 then []
    else
      WalkFramesClosedForm(FrameLine(fl.text), ts.frames, 0);
      Regroup(header, Lines(FrameLine(fl.text), ts.frames[..Shown(ts.frames)]),
              if Elided(ts.frames) then FrameEllipsis else []);
      header + WalkFrames(FrameLine(fl.text), ts.frames, 0)
  }

  /** `write_thread_id`: "Current thread 0x" for the current thread and
      "Thread 0x" otherwise, the identifier in 16 hexadecimal digits, then
      the revision's suffix. The digits parse back to the identifier. */
  function WriteThreadId(fl: Flavor, ts: ThreadState, isCurrent: bool): (r: string)
    ensures var prefix := if isCurrent then "Current thread 0x" else "Thread 0x";
      && |r| == |prefix| + ULongHexWidth + |fl.threadSuffix|
      && r[..|prefix|] == prefix
      && AllHex(r[|prefix|..|prefix| + ULongHexWidth])
      && ParseHex(r[|prefix|..|prefix| + ULongHexWidth]) == ts.threadId
      && r[|prefix| + ULongHexWidth..] == fl.threadSuffix
  {
    var prefix := if isCurrent then "Current thread 0x" else "Thread 0x";
    var digits := HexField(ts.threadId, ULongHexWidth);
    ULongHexDigits(ts.threadId);
    HexRoundTrip(ts.threadId, ULongHexWidth);
    var r := prefix + digits + fl.threadSuffix;
    assert r[|prefix|..|prefix| + ULongHexWidth] == digits;
    assert r[|prefix| + ULongHexWidth..] == fl.threadSuffix;
    r
  }

  /** One thread's block: its header line, then its frames without the
      stack header. */
  function Block(fl: Flavor, current: nat): ThreadState -> string
  {
    (ts: ThreadState) => WriteThreadId(fl, ts, ts.key == current) + DumpTraceback(fl, ts, false)
  }

  /** The do-while loop of the all-threads dump, entered with `n` blocks
      already written and each block written by `block`: every block after
      the first is preceded by "\n", and on reaching the thread cap "...\n"
      is written instead and the loop stops. */
  function WalkThreads(block: ThreadState -> string, threads: seq<ThreadState>, n: nat): string
    decreases |threads|
  {
    if |threads| == 0 then []
    else
      (if n != 0 then "\n" else [])
      + (if n >= MaxThreads then ThreadEllipsis
         else block(threads[0]) + WalkThreads(block, threads[1..], n + 1))
  }

  /** Blocks each preceded by a separating newline. */
  function Separated(block: ThreadState -> string, threads: seq<ThreadState>): string
  {
    if |threads| == 0 then []
    else "\n" + block(threads[0]) + Separated(block, threads[1..])
  }

  lemma {:induction false} WalkThreadsTail(block: ThreadState -> string, threads: seq<ThreadState>, n: nat)
    requires 1 <= n <= MaxThreads
    ensures var room: nat := MaxThreads - n;
      WalkThreads(block, threads, n)
        == Separated(block, threads[..Min(|threads|, room)])
           + (if |threads| > room then "\n" + ThreadEllipsis else [])
    decreases |threads|
  {
    var room: nat := MaxThreads - n;
    var m := Min(|threads|, room);
    if |threads| == 0 || n >= MaxThreads {
      assert threads[..m] == [];
    } else {
      var marker := if |threads| > room then "\n" + ThreadEllipsis else [];
      WalkThreadsTail(block, threads[1..], n + 1);
      SliceHead(threads, m);
      Regroup("\n", block(threads[0]), WalkThreads(block, threads[1..], n + 1));
      Regroup("\n" + block(threads[0]), Separated(block, threads[1..][..m - 1]), marker);
    }
  }

  /** The all-threads loop in closed form: the first min(|threads|, 100)
      blocks separated by newlines, then "\n...\n" exactly when more threads
      remain. */
  lemma WalkThreadsClosedForm(block: ThreadState -> string, threads: seq<ThreadState>)
    requires |threads| > 0
    ensures var m := Min(|threads|, MaxThreads);
      WalkThreads(block, threads, 0)
        == block(threads[0]) + Separated(block, threads[1..m])
           + (if |threads| > MaxThreads then "\n" + ThreadEllipsis else [])
  {
    var m := Min(|threads|, MaxThreads);
    WalkThreadsFirst(block, threads);
    WalkThreadsTail(block, threads[1..], 1);
    SliceShift(threads, MaxThreads);
    Regroup(block(threads[0]), Separated(block, threads[1..m]),
            if |threads| > MaxThreads then "\n" + ThreadEllipsis else []);
  }

  lemma WalkThreadsFirst(block: ThreadState -> string, threads: seq<ThreadState>)
    requires |threads| > 0
    ensures WalkThreads(block, threads, 0) == block(threads[0]) + WalkThreads(block, threads[1..], 1)
  {
  }

  /** The result of the all-threads dump: what it wrote, and the error
      message it returned (NULL on success). */
  datatype ThreadsDump = ThreadsDump(output: string, error: Option<string>)

  /** `_Py_DumpTracebackThreads` / `faulthandler_dump_backtrace_threads`.
      A missing interpreter (in the revisions that look it up) or an empty
      thread list is reported as an error before anything is written.
      Otherwise at most 100 blocks are written, in list order, the one of
      the current thread headed "Current thread"; "\n...\n" follows exactly
      when threads were left out. The revision that receives the
      interpreter directly dereferences it, so it needs one. */
  function DumpThreads(fl: Flavor, reg: Registry, current: nat): (r: ThreadsDump)
    requires fl.checksInterp || reg.Interpreter?
    ensures reg.NoInterpreter? ==> r == ThreadsDump([], Some(NoInterpreterMessage))
    ensures reg.Interpreter? && |reg.threads| == 0 ==> r == ThreadsDump([], Some(NoThreadHeadMessage))
    ensures reg.Interpreter? && |reg.threads| > 0 ==>
      var m := Min(|reg.threads|, MaxThreads);
      && r.error.None?
      && r.output == Block(fl, current)(reg.threads[0]) + Separated(Block(fl, current), reg.threads[1..m])
                     + (if |reg.threads| > MaxThreads then "\n" + ThreadEllipsis else [])
  {
    match reg
    case NoInterpreter => ThreadsDump([], Some(NoInterpreterMessage))
    case Interpreter(threads) =>
      if |threads| == 0 then ThreadsDump([], Some(NoThreadHeadMessage))
      else
        WalkThreadsClosedForm(Block(fl, current), threads);
        ThreadsDump(WalkThreads(Block(fl, current), threads, 0), None)
  }

  /** What a signal handler writes once it has looked up the thread state
      of the interrupted thread in thread-local storage: nothing when there
      is none, otherwise all threads or the thread's own stack with its
      header. The second component tells whether the dump succeeded (an
      error from the all-threads dump is a failure). */
  function SignalDump(fl: Flavor, tls: Option<ThreadState>, reg: Registry, allThreads: bool): (r: (string, bool))
    requires fl.checksInterp || reg.Interpreter?
    ensures tls.None? ==> r == ([], true)
    ensures tls.Some? && !allThreads ==> r == (DumpTraceback(fl, tls.value, true), true)
    ensures tls.Some? && allThreads ==>
      r == (DumpThreads(fl, reg, tls.value.key).output, DumpThreads(fl, reg, tls.value.key).error.None?)
  {
    match tls
    case None => ([], true)
    case Some(ts) =>
      if allThreads then
        var d := DumpThreads(fl, reg, ts.key);
        (d.output, d.error.None?)
      else (DumpTraceback(fl, ts, true), true)
  }

  /** `dump_traceback()` from Python (`faulthandler_dump_traceback_py`,
      `faulthandler_dump_backtrace_py`). A bad file descriptor, a missing
      current thread state, or an error message from the all-threads dump
      is raised as an exception (the last two as RuntimeError) and nothing
      is written; otherwise the dump goes to the file's descriptor. */
  function DumpTracebackPy(fl: Flavor, call: FilenoCall, current: Option<ThreadState>, reg: Registry, allThreads: bool)
    : (r: Result<Written, PyError>)
    requires fl.checksInterp || reg.Interpreter?
    ensures GetFileno(call).Failure? ==> r == Failure(GetFileno(call).error)
    ensures GetFileno(call).Success? && current.None? ==> r == Failure(RuntimeError(NoThreadStateMessage))
    ensures GetFileno(call).Success? && current.Some? && allThreads ==>
      var d := DumpThreads(fl, reg, current.value.key);
      && (d.error.Some? ==> r == Failure(RuntimeError(d.error.value)))
      && (d.error.None? ==> r == Success(Written(GetFileno(call).value, d.output)))
    ensures GetFileno(call).Success? && current.Some? && !allThreads ==>
      r == Success(Written(GetFileno(call).value, DumpTraceback(fl, current.value, true)))
  {
    match GetFileno(call)
    case Failure(e) => Failure(e)
    case Success(fd) =>
      match current
      case None => Failure(RuntimeError(NoThreadStateMessage))
      case Some(ts) =>
        if allThreads then
          var d := DumpThreads(fl, reg, ts.key);
          if d.error.Some? then Failure(RuntimeError(d.error.value)) else Success(Written(fd, d.output))
        else Success(Written(fd, DumpTraceback(fl, ts, true)))
  }
}
