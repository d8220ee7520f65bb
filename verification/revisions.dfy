/** The renderer as each source file instantiates it. faulthandler.c and
    traceback.c are the files the package builds; faulthandler/backtrace.c
    is an earlier revision of the same renderer. */
module FaulthandlerC {
  import opened Wrappers
  import opened SafeText
  import opened Render

  /** `MAX_LENGTH`. */
  const MaxLength: nat := 100

  /** faulthandler.c: names cut at 100 code units, every unit below 128
      verbatim, the "Traceback" header only for a thread with frames, ":"
      after the thread identifier, a missing interpreter reported. */
  function Style(wide: bool): (fl: Flavor)
    ensures fl.text.limit == Some(MaxLength) && fl.checksInterp && fl.headerNeedsFrame
  {
    Flavor(TextFlavor(Some(MaxLength), BelowAscii128, wide),
           "Traceback (most recent call first):\n", true, ":\n", true)
  }

  /** `dump_ascii` keeps at most 100 code units and adds "..." exactly when
      there were more: decoding what it wrote gives the kept units and the
      marker. */
  lemma AsciiLimit(wide: bool, t: Text)
    requires Decodable(Style(wide).text, t)
    ensures Unescape(DumpAscii(Style(wide).text, t))
      == (if |t| > MaxLength then t[..MaxLength] + [46, 46, 46] else t)
  {
    DumpAsciiRoundTrip(Style(wide).text, t);
    assert t[..|t|] == t;
  }

  /** A 150-character name of plain letters is written as its first 100
      letters and "...". */
  lemma LongNameTruncated(wide: bool)
    ensures DumpAscii(Style(wide).text, seq(150, _ => 120)) == seq(MaxLength, _ => 'x') + "..."
  {
    var t: Text := seq(150, _ => 120);
    DumpAsciiVerbatim(Style(wide).text, t);
    assert AsString(t[..MaxLength]) == seq(MaxLength, _ => 'x');
  }
}

module TracebackC {
  import opened Wrappers
  import opened Numerals
  import opened SafeText
  import opened Render

  /** `MAX_STRING_LENGTH`. */
  const MaxStringLength: nat := 500

  /** traceback.c: names cut at 500 code units, only ' '..'~' verbatim, the
      "Stack" header whenever it is asked for, " (most recent call first):"
      after the thread identifier, and the interpreter handed in by the
      caller. */
  function Style(wide: bool): (fl: Flavor)
    ensures fl.text.limit == Some(MaxStringLength) && fl.text.passthrough == PrintableAscii
    ensures !fl.headerNeedsFrame && !fl.checksInterp
  {
    Flavor(TextFlavor(Some(MaxStringLength), PrintableAscii, wide),
           "Stack (most recent call first):\n", false, " (most recent call first):\n", false)
  }

  /** A 550-character name is written as its first 500 characters and
      "...". */
  lemma LongNameTruncated(wide: bool)
    ensures DumpAscii(Style(wide).text, seq(550, _ => 120)) == seq(MaxStringLength, _ => 'x') + "..."
  {
    var t: Text := seq(550, _ => 120);
    DumpAsciiVerbatim(Style(wide).text, t);
    assert AsString(t[..MaxStringLength]) == seq(MaxStringLength, _ => 'x');
  }

  /** The header is written for a thread without frames too, and then
      nothing else. */
  lemma HeaderWithoutFrames(wide: bool, key: nat, id: ULong)
    ensures DumpTraceback(Style(wide), ThreadState(key, id, []), true) == "Stack (most recent call first):\n"
  {
  }

  /** Every frame line is a single line of printable text: a file or
      function name cannot inject a newline into the dump. */
  lemma FrameLineIsOneLine(wide: bool, fr: FrameInfo)
    ensures var r := DumpFrame(Style(wide).text, fr);
      r[|r| - 1] == '\n' && NoNewline(r[..|r| - 1])
  {
    DumpFrameShape(Style(wide).text, fr);
  }

  // ---------------------------------------------------------------------
  // The Python 2 byte-string path of dump_ascii

  type Byte = b: nat | b < 256

  function BytesAsText(bs: seq<Byte>): (t: Text)
    ensures |t| == |bs| && forall i :: 0 <= i < |bs| ==> t[i] == bs[i]
  {
    seq(|bs|, i requires 0 <= i < |bs| => bs[i] as CodeUnit)
  }

  /** The value a byte takes when read through a signed `char` into an
      `unsigned long`: bytes from 0x80 up are sign-extended to 64 bits. */
  function SignExtended(b: Byte): ULong
  {
    if b < 128 then b else b - 256 + ULongBound
  }

  /** One byte as the code is written: printable bytes verbatim, any other
      value as `\x` and at least two digits of its sign-extended value. */
  function EscapeByteAsWritten(b: Byte): string
  {
    var ch := SignExtended(b);
    if 32 <= ch <= 126 then [b as char] else "\\x" + HexField(ch, 2)
  }

  function EscapeBytesAsWritten(bs: seq<Byte>): string
  {
    if |bs| == 0 then [] else EscapeByteAsWritten(bs[0]) + EscapeBytesAsWritten(bs[1..])
  }

  /** The byte-string path of `dump_ascii` as written. */
  function DumpBytesAsWritten(bs: seq<Byte>): string
  {
    var k := if MaxStringLength < |bs| then MaxStringLength else |bs|;
    EscapeBytesAsWritten(bs[..k]) + (if k < |bs| then Ellipsis else [])
  }

  /** The byte-string path as evidently intended: each byte is the code
      unit of the same value, written as the text path writes it, so the
      output is printable ASCII. */
  function DumpBytes(wide: bool, bs: seq<Byte>): (r: string)
    ensures IsPrintable(r)
    ensures |bs| <= MaxStringLength ==> |r| <= 4 * |bs|
  {
    var t := BytesAsText(bs);
    var k := Kept(Style(wide).text, |t|);
    assert |bs| <= MaxStringLength ==> t[..k] == t;
    EscapeBytesShort(wide, bs);
    DumpAscii(Style(wide).text, t)
  }

  /** A byte is escaped in at most four characters. */
  lemma {:induction false} EscapeBytesShort(wide: bool, bs: seq<Byte>)
    ensures |EscapeText(Style(wide).text, BytesAsText(bs))| <= 4 * |bs|
    decreases |bs|
  {
    if |bs| > 0 {
      var t := BytesAsText(bs);
      assert BytesAsText(bs[1..]) == t[1..];
      EscapeBytesShort(wide, bs[1..]);
      HexDigitBounds(bs[0]);
    }
  }

  /** For a string without backslashes, decoding what the corrected path
      writes gives back the kept bytes, followed by the marker exactly when
      bytes were cut. */
  lemma DumpBytesRoundTrip(wide: bool, bs: seq<Byte>)
    requires forall i :: 0 <= i < |bs| ==> bs[i] != 92
    ensures Unescape(DumpBytes(wide, bs))
      == (if |bs| > MaxStringLength then BytesAsText(bs)[..MaxStringLength] + [46, 46, 46] else BytesAsText(bs))
  {
    var t := BytesAsText(bs);
    DumpAsciiRoundTrip(Style(wide).text, t);
    assert t[..|t|] == t;
  }

  /** A value of at least 16^k has more than k hexadecimal digits. */
  lemma {:induction false} HexTextLongerThan(v: nat, k: nat)
    requires Pow(16, k) <= v
    ensures |HexText(v)| > k
    decreases k
  {
    if k > 0 {
      assert Pow(16, k) == 16 * Pow(16, k - 1);
      HexTextLongerThan(v / 16, k - 1);
    }
  }

  /** The discrepancy: every byte from 0x80 up is written as `\x` followed
      by sixteen digits that spell its sign-extended value, not the byte;
      the intended escape is `\x` and the byte's two digits. */
  lemma HighByteSignExtended(wide: bool, b: Byte)
    requires b >= 128
    ensures var e := EscapeByteAsWritten(b);
      && |e| == 18 && e[..2] == "\\x"
      && ParseHex(e[2..]) == b - 256 + ULongBound && ParseHex(e[2..]) != b
    ensures var e := EscapeUnit(Style(wide).text, b);
      && |e| == 4 && e[..2] == "\\x" && AllHex(e[2..]) && ParseHex(e[2..]) == b
  {
    var v: nat := b - 256 + ULongBound;
    assert Pow(16, 16) == ULongBound by {
      assert Pow(16, 4) == 0x1_0000;
      assert Pow(16, 8) == 0x1_0000_0000 by { PowAdd(16, 4, 4); }
      PowAdd(16, 8, 8);
    }
    assert Pow(16, 16) == 16 * Pow(16, 15);
    HexTextLongerThan(v, 15);
    ULongHexDigits(v);
    var e := EscapeByteAsWritten(b);
    assert e[2..] == HexField(v, 2);
    HexRoundTrip(v, 2);
    HexDigitBounds(b);
    var u := EscapeUnit(Style(wide).text, b);
    assert u[2..] == HexField(b, 2);
    HexRoundTrip(b, 2);
  }

  /** The smallest input that shows it: the one-byte name b"\x80" is
      written in eighteen characters as written, and as `\x80` by the
      corrected path. */
  lemma SignExtensionExample(wide: bool)
    ensures |DumpBytesAsWritten([128])| == 18
    ensures DumpBytes(wide, [128]) == "\\x80"
  {
    HighByteSignExtended(wide, 128);
    AsWrittenSingle(128);
    CorrectedSingle(wide, 128);
    EscapeEighty(wide);
  }

  lemma EscapeEighty(wide: bool)
    ensures EscapeUnit(Style(wide).text, 128) == "\\x80"
  {
    assert HexText(128) == "80" by {
      assert HexText(8) == "8";
    }
    assert HexField(128, 2) == "80";
  }

  lemma CorrectedSingle(wide: bool, b: Byte)
    ensures DumpBytes(wide, [b]) == EscapeUnit(Style(wide).text, b)
  {
    var f := Style(wide).text;
    var t := BytesAsText([b]);
    assert t == [b];
    assert t[..Kept(f, 1)] == [b];
    assert EscapeText(f, [b]) == EscapeUnit(f, b) + EscapeText(f, []);
  }

  lemma AsWrittenSingle(b: Byte)
    ensures DumpBytesAsWritten([b]) == EscapeByteAsWritten(b)
  {
    assert [b][..1] == [b];
    assert EscapeBytesAsWritten([b]) == EscapeByteAsWritten(b) + EscapeBytesAsWritten([]);
  }
}

module BacktraceC {
  import opened Wrappers
  import opened Numerals
  import opened SafeText
  import opened Render

  /** faulthandler/backtrace.c: no truncation, every unit below 128
      verbatim, the "Traceback" header only for a thread with frames, ":"
      after the thread identifier, a missing interpreter reported. */
  function Style(wide: bool): (fl: Flavor)
    ensures fl.text.limit.None? && fl.headerNeedsFrame && fl.checksInterp
  {
    Flavor(TextFlavor(None, BelowAscii128, wide),
           "Traceback (most recent call first):\n", true, ":\n", true)
  }

  /** `dump_ascii` never truncates: every code unit is written, and
      decoding the output gives the whole text back. */
  lemma NeverTruncates(wide: bool, t: Text)
    requires Decodable(Style(wide).text, t)
    ensures Unescape(DumpAscii(Style(wide).text, t)) == t
  {
    DumpAsciiRoundTrip(Style(wide).text, t);
    assert t[..|t|] == t;
  }

  /** A thread without frames writes nothing, not even the header. */
  lemma NothingWithoutFrames(wide: bool, key: nat, id: ULong, writeHeader: bool)
    ensures DumpTraceback(Style(wide), ThreadState(key, id, []), writeHeader) == []
  {
  }

  /** With frames, the header comes first exactly when it is asked for.
      Without it the dump opens on the first frame line, or is empty when
      the first link is not a frame. */
  lemma HeaderIffAsked(wide: bool, ts: ThreadState, writeHeader: bool)
    requires |ts.frames| > 0
    ensures var r := DumpTraceback(Style(wide), ts, writeHeader);
      var h := "Traceback (most recent call first):\n";
      && (writeHeader <==> |r| >= |h| && r[..|h|] == h)
      && (!writeHeader && ts.frames[0].Frame? ==> |r| >= 7 && r[..7] == "  File ")
      && (!writeHeader && ts.frames[0].NotAFrame? ==> r == [])
  {
    var h := "Traceback (most recent call first):\n";
    var r := DumpTraceback(Style(wide), ts, writeHeader);
    if writeHeader {
      HeaderLeads(wide, ts);
    } else if ts.frames[0].Frame? {
      OpensOnFirstFrame(wide, ts);
      assert r[0] == r[..7][0] == ' ';
      assert h[0] == 'T';
    } else {
      assert Shown(ts.frames) == 0;
    }
  }

  lemma HeaderLeads(wide: bool, ts: ThreadState)
    requires |ts.frames| > 0
    ensures var r := DumpTraceback(Style(wide), ts, true);
      var h := "Traceback (most recent call first):\n";
      |r| >= |h| && r[..|h|] == h
  {
    var fl := Style(wide);
    var h := "Traceback (most recent call first):\n";
    var lines := Lines(FrameLine(fl.text), ts.frames[..Shown(ts.frames)]);
    var tail := if Elided(ts.frames) then FrameEllipsis else [];
    Regroup(h, lines, tail);
    PrefixKept(h, lines + tail, |h|);
  }

  lemma OpensOnFirstFrame(wide: bool, ts: ThreadState)
    requires |ts.frames| > 0 && ts.frames[0].Frame?
    ensures var r := DumpTraceback(Style(wide), ts, false);
      |r| >= 7 && r[..7] == "  File "
  {
    var fl := Style(wide);
    var shown := ts.frames[..Shown(ts.frames)];
    ShownFrames(ts.frames);
    var lines := Lines(FrameLine(fl.text), shown);
    var tail := if Elided(ts.frames) then FrameEllipsis else [];
    FrameLinesOpen(fl.text, shown);
    PrefixKept(lines, tail, 7);
    WithoutHeader(fl, ts);
  }

  /** Without the header the dump is the frame lines and the marker. */
  lemma WithoutHeader(fl: Flavor, ts: ThreadState)
    ensures DumpTraceback(fl, ts, false)
      == Lines(FrameLine(fl.text), ts.frames[..Shown(ts.frames)]) + (if Elided(ts.frames) then FrameEllipsis else [])
  {
    var lines := Lines(FrameLine(fl.text), ts.frames[..Shown(ts.frames)]);
    var tail := if Elided(ts.frames) then FrameEllipsis else [];
    var none: string := [];
    assert none + lines == lines;
  }

  /** When the first link is a frame, the dump shows at least that one,
      and every link it shows is a frame. */
  lemma ShownFrames(frames: seq<FrameLink>)
    requires |frames| > 0 && frames[0].Frame?
    ensures var shown := frames[..Shown(frames)];
      |shown| > 0 && forall i :: 0 <= i < |shown| ==> shown[i].Frame?
  {
    assert LeadingFrames(frames) >= 1;
  }

  lemma PrefixKept(a: string, b: string, n: nat)
    requires n <= |a|
    ensures |a + b| >= n && (a + b)[..n] == a[..n]
  {
  }

  /** A non-empty run of frame lines opens with the first line's words. */
  lemma FrameLinesOpen(t: TextFlavor, frames: seq<FrameLink>)
    requires |frames| > 0 && forall i :: 0 <= i < |frames| ==> frames[i].Frame?
    ensures var r := Lines(FrameLine(t), frames);
      |r| >= 7 && r[..7] == "  File "
  {
    var first := DumpFrame(t, frames[0].info);
    DumpFrameShape(t, frames[0].info);
    PrefixKept(first, Lines(FrameLine(t), frames[1..]), 7);
  }
}
