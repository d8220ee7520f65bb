/** The signal-safe text writer `dump_ascii`: writes a Python text object
    as ASCII, passing some characters through and backslash-escaping the
    rest, optionally truncated with a "..." marker.

    The three revisions differ in the truncation limit (none in
    faulthandler/backtrace.c, 100 in faulthandler.c, 500 in traceback.c), in
    which characters pass through (every character below 128, or only the
    printable range ' '..'~' in traceback.c) and in whether the build has
    wide (32-bit) `Py_UNICODE`. A TextFlavor fixes the three choices. */
module SafeText {
  import opened Wrappers
  import opened Numerals

  /** One element of a Python text object: a `Py_UNICODE` value (any
      32-bit value on wide builds, a UTF-16 code unit on narrow ones) or,
      for a Python 2 byte string, an `unsigned char`. */
  type CodeUnit = u: nat | u < 0x1_0000_0000
  type Text = seq<CodeUnit>

  /** Which code units `dump_ascii` writes as themselves. */
  datatype Passthrough =
    | BelowAscii128   // `*u < 128`
    | PrintableAscii  // `' ' <= ch && ch < 0x7f`

  datatype TextFlavor = TextFlavor(limit: Option<nat>, passthrough: Passthrough, wide: bool)

  const Backslash: CodeUnit := 92
  const Ellipsis: string := "..."

  predicate Verbatim(p: Passthrough, u: CodeUnit)
  {
    match p
    case BelowAscii128 => u < 128
    case PrintableAscii => 32 <= u < 127
  }

  predicate IsAscii(s: string)
  {
    forall i :: 0 <= i < |s| ==> s[i] as int < 128
  }

  /** Printable ASCII only: no control character, in particular no newline. */
  predicate IsPrintable(s: string)
  {
    forall i :: 0 <= i < |s| ==> 32 <= s[i] as int < 127
  }

  /** The characters a fully verbatim text is written as. */
  function AsString(t: Text): (r: string)
    requires forall i :: 0 <= i < |t| ==> t[i] < 128
    ensures |r| == |t|
    ensures forall i :: 0 <= i < |t| ==> r[i] as int == t[i]
  {
    if |t| == 0 then [] else [t[0] as char] + AsString(t[1..])
  }

  /** One code unit as `dump_ascii` writes it: itself when it passes
      through, otherwise `\x` and two digits below 256, `\U` and eight digits
      above 0xFFFF on a wide build, and `\u` with (at least) four digits
      otherwise. */
  function EscapeUnit(f: TextFlavor, u: CodeUnit): string
  {
    if Verbatim(f.passthrough, u) then [u as char]
    else if u < 256 then "\\x" + HexField(u, 2)
    else if f.wide && u >= 0x10000 then "\\U" + HexField(u, 8)
    else "\\u" + HexField(u, 4)
  }

  lemma EscapeUnitShape(f: TextFlavor, u: CodeUnit)
    ensures IsAscii(EscapeUnit(f, u))
    ensures f.passthrough == PrintableAscii ==> IsPrintable(EscapeUnit(f, u))
    ensures |EscapeUnit(f, u)| <= 10
  {
    var e := EscapeUnit(f, u);
    if !Verbatim(f.passthrough, u) {
      HexDigitBounds(u);
      assert forall i :: 0 <= i < |e| ==> e[i] == '\\' || e[i] == 'x' || e[i] == 'u' || e[i] == 'U' || IsHexDigit(e[i]);
    }
  }

  /** The escape forms, range by range: a pass-through unit is the one
      character it codes; below 256 it is `\x` and two digits; on a wide
      build from 0x10000 up, `\U` and eight digits; otherwise, up to
      0xFFFF, `\u` and four digits. Each time the digits are hexadecimal
      and spell the unit. */
  lemma EscapeUnitForms(f: TextFlavor, u: CodeUnit)
    ensures Verbatim(f.passthrough, u) ==> |EscapeUnit(f, u)| == 1 && EscapeUnit(f, u)[0] as int == u
    ensures !Verbatim(f.passthrough, u) ==>
      var e := EscapeUnit(f, u);
      && |e| >= 6 - (if u < 256 then 2 else 0)
      && e[0] == '\\' && AllHex(e[2..]) && ParseHex(e[2..]) == u
      && (u < 256 ==> e[1] == 'x' && |e| == 4)
      && (u >= 256 && f.wide && u >= 0x10000 ==> e[1] == 'U' && |e| == 10)
      && (u >= 256 && !(f.wide && u >= 0x10000) ==> e[1] == 'u' && (u < 0x10000 ==> |e| == 6))
  {
    if !Verbatim(f.passthrough, u) {
      HexDigitBounds(u);
      var e := EscapeUnit(f, u);
      var w := if u < 256 then 2 else if f.wide && u >= 0x10000 then 8 else 4;
      assert e[2..] == HexField(u, w);
      HexRoundTrip(u, w);
    }
  }

  /** Digit counts of the three escape widths. */
  lemma HexDigitBounds(u: nat)
    ensures u < 256 ==> |HexText(u)| <= 2
    ensures u < 0x10000 ==> |HexText(u)| <= 4
    ensures u < 0x1_0000_0000 ==> |HexText(u)| <= 8
  {
    assert Pow(16, 2) == 256;
    assert Pow(16, 4) == 0x10000;
    assert Pow(16, 8) == 0x1_0000_0000 by { PowAdd(16, 4, 4); }
    if u < 256 { HexTextLength(u, 2); }
    if u < 0x10000 { HexTextLength(u, 4); }
    if u < 0x1_0000_0000 { HexTextLength(u, 8); }
  }

  /** The loop of `dump_ascii` over the kept code units: the escapes of the
      units, concatenated in order. The written text is ASCII, printable
      when only printable characters pass through, and at most ten
      characters per unit. */
  function EscapeText(f: TextFlavor, t: Text): (r: string)
    ensures IsAscii(r)
    ensures f.passthrough == PrintableAscii ==> IsPrintable(r)
    ensures |r| <= 10 * |t|
  {
    if |t| == 0 then []
    else
      EscapeUnitShape(f, t[0]);
      EscapeUnit(f, t[0]) + EscapeText(f, t[1..])
  }

  /** How many code units `dump_ascii` keeps: `size` capped at the limit. */
  function Kept(f: TextFlavor, size: nat): (k: nat)
    ensures k <= size
  {
    match f.limit
    case None => size
    case Some(limit) => if limit < size then limit else size
  }

  predicate Truncated(f: TextFlavor, t: Text)
  {
    f.limit.Some? && f.limit.value < |t|
  }

  /** `dump_ascii(fd, text)`: the escapes of the first Kept code units,
      followed by "..." exactly when the text was longer than the limit.
      The output is ASCII whatever the input, free of control characters
      when only printable characters pass through, and bounded by the limit
      when there is one. */
  function DumpAscii(f: TextFlavor, t: Text): (r: string)
    ensures IsAscii(r)
    ensures f.passthrough == PrintableAscii ==> IsPrintable(r)
    ensures f.limit.Some? ==> |r| <= 10 * f.limit.value + 3
    ensures f.limit.None? ==> |r| <= 10 * |t|
  {
    var k := Kept(f, |t|);
    EscapeText(f, t[..k]) + (if k < |t| then Ellipsis else [])
  }

  // ---------------------------------------------------------------------
  // Decoding: the partner of the escaper

  predicate AllHex(s: string)
  {
    forall i :: 0 <= i < |s| ==> IsHexDigit(s[i])
  }

  /** Reads backslash escapes back: `\x` with two, `\u` with four and `\U`
      with eight hexadecimal digits stand for the unit they spell; every
      other character stands for itself. */
  function Unescape(s: string): seq<nat>
  {
    if |s| == 0 then []
    else if s[0] == '\\' && |s| >= 4 && s[1] == 'x' && AllHex(s[2..4]) then
      [ParseHex(s[2..4])] + Unescape(s[4..])
    else if s[0] == '\\' && |s| >= 6 && s[1] == 'u' && AllHex(s[2..6]) then
      [ParseHex(s[2..6])] + Unescape(s[6..])
    else if s[0] == '\\' && |s| >= 10 && s[1] == 'U' && AllHex(s[2..10]) then
      [ParseHex(s[2..10])] + Unescape(s[10..])
    else
      [s[0] as nat] + Unescape(s[1..])
  }

  /** Texts whose escaping can be read back: no verbatim backslash, and on
      a narrow build no unit above 0xFFFF (a narrow `Py_UNICODE` cannot hold
      one). */
  predicate Decodable(f: TextFlavor, t: Text)
  {
    forall i :: 0 <= i < |t| ==> t[i] != Backslash && (f.wide || t[i] < 0x10000)
  }

  lemma EscapeHexPart(prefix: string, u: nat, width: nat, rest: string)
    requires |prefix| == 2 && prefix[0] == '\\'
    requires |HexText(u)| <= width
    ensures var s := prefix + HexField(u, width) + rest;
      && |s| >= 2 + width && s[1] == prefix[1]
      && s[2..2 + width] == HexField(u, width) && AllHex(s[2..2 + width])
      && ParseHex(s[2..2 + width]) == u && s[2 + width..] == rest
  {
    var s := prefix + HexField(u, width) + rest;
    assert s[2..2 + width] == HexField(u, width);
    assert s[2 + width..] == rest;
    HexRoundTrip(u, width);
  }

  /** Reading back the escape of one unit gives that unit. */
  lemma UnescapeUnit(f: TextFlavor, u: CodeUnit, rest: string)
    requires u != Backslash && (f.wide || u < 0x10000)
    ensures Unescape(EscapeUnit(f, u) + rest) == [u] + Unescape(rest)
  {
    var s := EscapeUnit(f, u) + rest;
    HexDigitBounds(u);
    if Verbatim(f.passthrough, u) {
      assert s[0] as int == u;
      assert s[1..] == rest;
    } else if u < 256 {
      EscapeHexPart("\\x", u, 2, rest);
    } else if f.wide && u >= 0x10000 {
      EscapeHexPart("\\U", u, 8, rest);
    } else {
      EscapeHexPart("\\u", u, 4, rest);
    }
  }

  /** Reading back the escapes of a decodable text gives the text, and the
      decoding of what follows is untouched. */
  lemma {:induction false} UnescapeEscapeText(f: TextFlavor, t: Text, rest: string)
    requires Decodable(f, t)
    ensures Unescape(EscapeText(f, t) + rest) == t + Unescape(rest)
  {
    if |t| > 0 {
      UnescapeFirst(f, t, rest);
      assert Decodable(f, t[1..]) by {
        forall i | 0 <= i < |t| - 1
          ensures t[1..][i] != Backslash && (f.wide || t[1..][i] < 0x10000)
        {
          assert t[1..][i] == t[i + 1];
        }
      }
      UnescapeEscapeText(f, t[1..], rest);
      ConsJoin(t, Unescape(rest));
    } else {
      assert EscapeText(f, t) + rest == rest;
    }
  }

  /** The first code unit of the text comes back first. */
  lemma UnescapeFirst(f: TextFlavor, t: Text, rest: string)
    requires |t| > 0 && Decodable(f, t)
    ensures Unescape(EscapeText(f, t) + rest) == [t[0]] + Unescape(EscapeText(f, t[1..]) + rest)
  {
    var e := EscapeUnit(f, t[0]);
    var tail := EscapeText(f, t[1..]);
    assert EscapeText(f, t) + rest == e + (tail + rest);
    UnescapeUnit(f, t[0], tail + rest);
  }

  lemma ConsJoin<T>(t: seq<T>, x: seq<T>)
    requires |t| > 0
    ensures [t[0]] + (t[1..] + x) == t + x
  {
    assert t == [t[0]] + t[1..];
  }

  /** Round trip of `dump_ascii`: decoding the output of a decodable text
      gives back the kept prefix, followed by the three dots of the marker
      exactly when the text was truncated. */
  lemma DumpAsciiRoundTrip(f: TextFlavor, t: Text)
    requires Decodable(f, t)
    ensures Unescape(DumpAscii(f, t)) == t[..Kept(f, |t|)] + (if Truncated(f, t) then [46, 46, 46] else [])
  {
    var k := Kept(f, |t|);
    var marker := if k < |t| then Ellipsis else [];
    UnescapeEscapeText(f, t[..k], marker);
    assert Unescape(Ellipsis) == [46, 46, 46];
  }

  /** A text made only of pass-through characters, no longer than the
      limit, is written unchanged. */
  lemma {:induction false} EscapeVerbatimText(f: TextFlavor, t: Text)
    requires forall i :: 0 <= i < |t| ==> Verbatim(f.passthrough, t[i])
    ensures forall i :: 0 <= i < |t| ==> t[i] < 128
    ensures EscapeText(f, t) == AsString(t)
  {
    if |t| > 0 {
      EscapeVerbatimText(f, t[1..]);
    }
  }

  lemma DumpAsciiVerbatim(f: TextFlavor, t: Text)
    requires forall i :: 0 <= i < |t| ==> Verbatim(f.passthrough, t[i])
    ensures forall i :: 0 <= i < |t| ==> t[i] < 128
    ensures !Truncated(f, t) ==> DumpAscii(f, t) == AsString(t)
    ensures Truncated(f, t) ==> DumpAscii(f, t) == AsString(t[..f.limit.value]) + Ellipsis
  {
    EscapeVerbatimText(f, t);
    EscapeVerbatimText(f, t[..Kept(f, |t|)]);
  }
}
