/** The signal-safe integer encoders shared by every revision of the
    renderer: `reverse_string`, `dump_decimal` and `dump_hexadecimal`.

    Each C routine fills a small stack buffer least-significant digit first
    and then reverses it. The model keeps that algorithm in a method and
    proves it equal to a reference definition written most-significant digit
    first; the reference definitions come with their parsers and round-trip
    lemmas. */
module Numerals {

  /** `unsigned long` on an LP64 platform. */
  const ULongBound: nat := 0x1_0000_0000_0000_0000
  type ULong = x: nat | x < ULongBound

  /** `sizeof(unsigned long) * 2`: the width thread identifiers are padded to. */
  const ULongHexWidth: nat := 16

  /** `char buffer[7]` in `dump_decimal`. */
  const DecimalBufferSize: nat := 7
  /** `char buffer[sizeof(unsigned long) * 2 + 1]` in `dump_hexadecimal`. */
  const HexBufferSize: nat := 17

  /** Largest value `dump_decimal` accepts. */
  const MaxDecimal: nat := 999999

  function Max(a: int, b: int): int { if a < b then b else a }

  function Pow(base: nat, k: nat): (r: nat)
    requires base >= 1
    ensures r >= 1
  {
    if k == 0 then 1 else base * Pow(base, k - 1)
  }

  // ---------------------------------------------------------------------
  // Reversal

  /** Reference reversal: the last element first. */
  function Reverse<T>(s: seq<T>): (r: seq<T>)
    ensures |r| == |s|
  {
    if |s| == 0 then [] else [s[|s| - 1]] + Reverse(s[..|s| - 1])
  }

  /** Element `i` of the reversal is element `|s| - 1 - i` of `s`. */
  lemma {:induction false} ReverseIndex<T>(s: seq<T>)
    ensures forall i :: 0 <= i < |s| ==> Reverse(s)[i] == s[|s| - 1 - i]
  {
    if |s| > 0 {
      var init := s[..|s| - 1];
      ReverseIndex(init);
      forall i | 1 <= i < |s|
        ensures Reverse(s)[i] == s[|s| - 1 - i]
      {
        assert Reverse(s)[i] == Reverse(init)[i - 1];
      }
    }
  }

  /** `reverse_string(text, len)`: swaps `text[i]` and `text[j]` walking the
      two indices towards each other. The buffer is copied into a local array,
      reversed in place there, and its final contents returned. A zero length
      leaves the buffer as it was (the C code returns before computing
      `len - 1` on an unsigned type). */
  method ReverseString(text: seq<char>, len: nat) returns (r: seq<char>)
    requires len <= |text|
    ensures |r| == |text|
    ensures r[..len] == Reverse(text[..len])
    ensures r[len..] == text[len..]
  {
    var a := new char[|text|](k requires 0 <= k < |text| => text[k]);
    if len == 0 {
      return a[..];
    }
    var i, j := 0, len - 1;
    while i < j
      invariant 0 <= i && i + j == len - 1 && i <= j + 1
      invariant forall k :: 0 <= k < i ==> a[k] == text[len - 1 - k] && a[len - 1 - k] == text[k]
      invariant forall k :: i <= k <= j ==> a[k] == text[k]
      invariant forall k :: len <= k < a.Length ==> a[k] == text[k]
      decreases j - i
    {
      var tmp := a[i];
      a[i] := a[j];
      a[j] := tmp;
      i, j := i + 1, j - 1;
    }
    r := a[..];
    forall k | 0 <= k < len
      ensures r[k] == text[len - 1 - k]
    {
      if k > j {
        var k' := len - 1 - k;
        assert 0 <= k' < i;
      }
    }
    ReversedPrefix(r, text, len);
  }

  /** The closing step of ReverseString: a buffer whose first `len`
      elements mirror those of `text` and which agrees with it after them. */
  lemma ReversedPrefix(r: seq<char>, text: seq<char>, len: nat)
    requires len <= |text| == |r|
    requires forall k :: 0 <= k < len ==> r[k] == text[len - 1 - k]
    requires forall k :: len <= k < |r| ==> r[k] == text[k]
    ensures r[..len] == Reverse(text[..len])
    ensures r[len..] == text[len..]
  {
    var rev := Reverse(text[..len]);
    ReverseIndex(text[..len]);
    forall k | 0 <= k < len
      ensures r[..len][k] == rev[k]
    {
      assert rev[k] == text[..len][len - 1 - k];
    }
    forall k | 0 <= k < |r| - len
      ensures r[len..][k] == text[len..][k]
    {
      assert r[len..][k] == r[len + k];
    }
  }

  lemma ReverseAppend<T>(s: seq<T>, x: T)
    ensures Reverse(s + [x]) == [x] + Reverse(s)
  {
    assert (s + [x])[..|s|] == s;
  }

  // ---------------------------------------------------------------------
  // Decimal

  predicate IsDecimalDigit(c: char) { '0' <= c <= '9' }

  function DigitChar(d: nat): (c: char)
    requires d < 10
    ensures IsDecimalDigit(c)
  {
    "0123456789"[d]
  }

  function DigitValue(c: char): nat
    requires IsDecimalDigit(c)
  {
    c as int - '0' as int
  }

  /** Reference decimal text of a natural number, most significant digit
      first, with no leading zero ("0" for zero). */
  function DecimalText(v: nat): (r: string)
    ensures 1 <= |r|
    ensures forall i :: 0 <= i < |r| ==> IsDecimalDigit(r[i])
  {
    if v < 10 then [DigitChar(v)] else DecimalText(v / 10) + [DigitChar(v % 10)]
  }

  /** Decimal parser, the inverse of DecimalText. */
  function ParseDecimal(s: string): nat
    requires forall i :: 0 <= i < |s| ==> IsDecimalDigit(s[i])
  {
    if |s| == 0 then 0 else 10 * ParseDecimal(s[..|s| - 1]) + DigitValue(s[|s| - 1])
  }

  /** A decimal numeral as `dump_decimal` would write it: digits only and
      no leading zero unless the numeral is "0". */
  predicate IsCanonicalDecimal(s: string)
  {
    && 1 <= |s|
    && (forall i :: 0 <= i < |s| ==> IsDecimalDigit(s[i]))
    && (|s| > 1 ==> s[0] != '0')
  }

  lemma {:induction false} DigitCharValue(d: nat)
    requires d < 10
    ensures DigitValue(DigitChar(d)) == d
  {
  }

  /** Parsing the decimal text gives the value back. */
  lemma {:induction false} DecimalRoundTrip(v: nat)
    ensures ParseDecimal(DecimalText(v)) == v
  {
    var s := DecimalText(v);
    if v < 10 {
      DigitCharValue(v);
      assert s[..0] == [];
    } else {
      assert s[..|s| - 1] == DecimalText(v / 10);
      DecimalRoundTrip(v / 10);
      DigitCharValue(v % 10);
    }
  }

  /** The decimal text never has a leading zero. */
  lemma {:induction false} DecimalTextCanonical(v: nat)
    ensures IsCanonicalDecimal(DecimalText(v))
    ensures DecimalText(v)[0] == '0' <==> v == 0
  {
    if v >= 10 {
      DecimalTextCanonical(v / 10);
    }
  }

  lemma {:induction false} ParseDecimalPositive(s: string)
    requires IsCanonicalDecimal(s) && s[0] != '0'
    ensures ParseDecimal(s) >= 1
  {
    if |s| > 1 {
      var p := s[..|s| - 1];
      assert p[0] == s[0];
      ParseDecimalPositive(p);
    }
  }

  /** The other direction: a canonical numeral is the decimal text of the
      value it parses to. Together with DecimalRoundTrip this makes
      DecimalText a bijection between naturals and canonical numerals. */
  lemma {:induction false} DecimalParseRoundTrip(s: string)
    requires IsCanonicalDecimal(s)
    ensures DecimalText(ParseDecimal(s)) == s
  {
    var p := s[..|s| - 1];
    var c := s[|s| - 1];
    if |s| == 1 {
      assert p == [];
      assert "0123456789"[DigitValue(c)] == c;
    } else {
      assert p[0] == s[0];
      ParseDecimalPositive(p);
      DecimalParseRoundTrip(p);
      var v := ParseDecimal(s);
      assert v == 10 * ParseDecimal(p) + DigitValue(c);
      assert v / 10 == ParseDecimal(p) && v % 10 == DigitValue(c);
      assert "0123456789"[DigitValue(c)] == c;
      assert s == p + [c];
    }
  }

  /** A value below 10^k needs at most k decimal digits. */
  lemma {:induction false} DecimalTextLength(v: nat, k: nat)
    requires 1 <= k && v < Pow(10, k)
    ensures |DecimalText(v)| <= k
  {
    if v >= 10 {
      assert k > 1;
      DecimalTextLength(v / 10, k - 1);
    }
  }

  /** The text `dump_decimal` writes for `value`. */
  function DecimalField(value: int): string
  {
    if 0 <= value <= MaxDecimal then DecimalText(value) else []
  }

  /** The digits still to come when the loop of `dump_decimal` holds `v`:
      none once it reaches zero. */
  function DecimalRest(v: nat): (r: string)
    ensures v != 0 ==> r == DecimalText(v)
  {
    if v == 0 then [] else DecimalText(v)
  }

  /** One turn of the `dump_decimal` loop: the last digit of the text is
      `v % 10`, and what precedes it is still to come from `v / 10`. */
  lemma DecimalNextDigit(v: nat, tail: string)
    ensures DecimalText(v) + tail == DecimalRest(v / 10) + ([DigitChar(v % 10)] + tail)
  {
    if v >= 10 {
      assert DecimalText(v) == DecimalText(v / 10) + [DigitChar(v % 10)];
    }
  }

  /** The do-while loop of `dump_decimal`: digits least significant first
      until the value is exhausted, at least one digit. The buffer read
      backwards is the decimal text. */
  method DecimalDigitsReversed(value: nat) returns (buffer: string)
    ensures Reverse(buffer) == DecimalText(value)
  {
    // The first turn of the do-while loop, which runs even for zero.
    var v: nat := value;
    var d := DigitChar(v % 10);
    DecimalNextDigit(v, []);
    buffer := [d];
    ghost var tail: string := [d];
    v := v / 10;
    while v != 0
      invariant tail == Reverse(buffer)
      invariant DecimalText(value) == DecimalRest(v) + tail
    {
      d := DigitChar(v % 10);
      DecimalNextDigit(v, tail);
      ReverseAppend(buffer, d);
      buffer := buffer + [d];
      tail := [d] + tail;
      v := v / 10;
    }
  }

  /** `dump_decimal`: the digit loop, then `reverse_string` puts the
      digits in reading order. A value outside [0, 999999] writes
      nothing. */
  method DumpDecimal(value: int) returns (out: string)
    ensures value < 0 || MaxDecimal < value ==> out == []
    ensures 0 <= value <= MaxDecimal ==> out == DecimalText(value)
    ensures |out| < DecimalBufferSize
  {
    if value < 0 || MaxDecimal < value {
      return [];
    }
    var buffer := DecimalDigitsReversed(value);
    out := ReverseString(buffer, |buffer|);
    assert buffer[..|buffer|] == buffer;
    assert out == out[..|buffer|];
    DecimalTextLength(value, 6);
  }

  // ---------------------------------------------------------------------
  // Hexadecimal

  predicate IsHexDigit(c: char) { '0' <= c <= '9' || 'a' <= c <= 'f' }

  function HexDigit(d: nat): (c: char)
    requires d < 16
    ensures IsHexDigit(c)
  {
    "0123456789abcdef"[d]
  }

  function HexValue(c: char): nat
    requires IsHexDigit(c)
  {
    if c <= '9' then c as int - '0' as int else c as int - 'a' as int + 10
  }

  /** Reference hexadecimal text: lowercase, most significant digit first,
      the fewest digits that hold the value (one for zero). */
  function HexText(v: nat): (r: string)
    ensures 1 <= |r|
    ensures forall i :: 0 <= i < |r| ==> IsHexDigit(r[i])
  {
    if v < 16 then [HexDigit(v)] else HexText(v / 16) + [HexDigit(v % 16)]
  }

  function Zeros(n: int): (r: string)
    ensures |r| == Max(n, 0)
    ensures forall i :: 0 <= i < |r| ==> r[i] == '0'
  {
    seq(if n > 0 then n else 0, _ => '0')
  }

  /** The text `dump_hexadecimal(value, width)` writes: HexText left-padded
      with zeros to `width` digits. */
  function HexField(v: nat, width: int): (r: string)
    ensures |r| == Max(width, |HexText(v)|)
    ensures forall i :: 0 <= i < |r| ==> IsHexDigit(r[i])
  {
    Zeros(width - |HexText(v)|) + HexText(v)
  }

  /** Hexadecimal parser, the inverse of HexField. */
  function ParseHex(s: string): nat
    requires forall i :: 0 <= i < |s| ==> IsHexDigit(s[i])
  {
    if |s| == 0 then 0 else 16 * ParseHex(s[..|s| - 1]) + HexValue(s[|s| - 1])
  }

  lemma {:induction false} HexDigitValue(d: nat)
    requires d < 16
    ensures HexValue(HexDigit(d)) == d
  {
  }

  lemma {:induction false} ParseHexText(v: nat)
    ensures ParseHex(HexText(v)) == v
  {
    var s := HexText(v);
    if v < 16 {
      HexDigitValue(v);
      assert s[..0] == [];
    } else {
      assert s[..|s| - 1] == HexText(v / 16);
      ParseHexText(v / 16);
      HexDigitValue(v % 16);
    }
  }

  lemma {:induction false} ParseHexLeadingZeros(n: int, s: string)
    requires forall i :: 0 <= i < |s| ==> IsHexDigit(s[i])
    ensures ParseHex(Zeros(n) + s) == ParseHex(s)
    decreases |s|, Max(n, 0)
  {
    var z := Zeros(n) + s;
    if |s| == 0 {
      assert z == Zeros(n);
      if n > 0 {
        assert z[..|z| - 1] == Zeros(n - 1) + [];
        ParseHexLeadingZeros(n - 1, []);
      }
    } else {
      assert z[..|z| - 1] == Zeros(n) + s[..|s| - 1];
      ParseHexLeadingZeros(n, s[..|s| - 1]);
    }
  }

  /** Parsing the zero-padded hexadecimal text gives the value back,
      whatever the width. */
  lemma HexRoundTrip(v: nat, width: int)
    ensures ParseHex(HexField(v, width)) == v
  {
    ParseHexLeadingZeros(width - |HexText(v)|, HexText(v));
    ParseHexText(v);
  }

  /** HexText uses the fewest digits: no leading zero except for zero
      itself, and a value below 16^k fits in k digits. */
  lemma {:induction false} HexTextMinimal(v: nat)
    ensures HexText(v)[0] == '0' <==> v == 0
  {
    if v >= 16 {
      HexTextMinimal(v / 16);
    }
  }

  lemma {:induction false} HexTextLength(v: nat, k: nat)
    requires 1 <= k && v < Pow(16, k)
    ensures |HexText(v)| <= k
  {
    if v >= 16 {
      assert k > 1;
      HexTextLength(v / 16, k - 1);
    }
  }

  /** An `unsigned long` has at most 16 hexadecimal digits. */
  lemma ULongHexDigits(v: ULong)
    ensures |HexText(v)| <= ULongHexWidth
  {
    assert Pow(16, 16) == ULongBound by {
      assert Pow(16, 4) == 0x1_0000;
      assert Pow(16, 8) == 0x1_0000_0000 by { PowAdd(16, 4, 4); }
      PowAdd(16, 8, 8);
    }
    HexTextLength(v, 16);
  }

  lemma {:induction false} PowAdd(b: nat, m: nat, n: nat)
    requires b >= 1
    ensures Pow(b, m + n) == Pow(b, m) * Pow(b, n)
  {
    if m > 0 {
      PowAdd(b, m - 1, n);
      var x, y := Pow(b, m - 1), Pow(b, n);
      assert Pow(b, m + n) == b * Pow(b, m - 1 + n);
      assert Pow(b, m) == b * x;
      MulAssoc(b, x, y);
    }
  }

  lemma MulAssoc(a: int, b: int, c: int)
    ensures a * (b * c) == (a * b) * c
  {
  }

  /** The digits still to come when the loop of `dump_hexadecimal` holds
      `v` with `width` positions left to pad. */
  function HexRest(v: nat, width: int): string
  {
    if v == 0 && width <= 0 then [] else HexField(v, width)
  }

  /** One turn of the `dump_hexadecimal` loop: the last digit of the field
      is `v & 15`, and what precedes it is the field of `v >> 4` one
      position narrower. */
  lemma HexFieldStep(v: nat, width: int)
    ensures HexField(v, width) == HexRest(v / 16, width - 1) + [HexDigit(v % 16)]
  {
    var d := HexDigit(v % 16);
    if v >= 16 {
      var t := HexText(v / 16);
      assert HexText(v) == t + [d];
      assert Zeros(width - |HexText(v)|) == Zeros(width - 1 - |t|);
      assert HexField(v, width) == (Zeros(width - 1 - |t|) + t) + [d];
    } else {
      assert HexText(v) == [d];
      assert HexField(v, width) == Zeros(width - 1) + [d];
      if width - 1 > 0 {
        assert HexText(0) == "0";
        assert Zeros(width - 1) == Zeros(width - 2) + "0";
      }
    }
  }

  /** HexFieldStep with the text that follows the field. */
  lemma HexNextDigit(v: nat, w: int, narrower: int, tail: string)
    requires v != 0 || w > 0
    requires narrower == w - 1
    ensures HexRest(v, w) + tail == HexRest(v / 16, narrower) + ([HexDigit(v % 16)] + tail)
  {
    HexFieldStep(v, w);
    assert HexRest(v, w) == HexField(v, w);
  }

  /** The do-while loop of `dump_hexadecimal`: digits least significant
      first, while fewer than `width` are written or value bits remain. The
      buffer read backwards is the padded field. */
  method HexDigitsReversed(value: nat, width: int) returns (buffer: string)
    ensures Reverse(buffer) == HexField(value, width)
  {
    // The first turn of the do-while loop, which runs whatever the width.
    var v: nat := value;
    var d := HexDigit(v % 16);
    HexFieldStep(v, width);
    buffer := [d];
    ghost var tail: string := [d];
    v := v / 16;
    var len := 1;
    while len < width || v != 0
      invariant len == |buffer|
      invariant tail == Reverse(buffer)
      invariant HexField(value, width) == HexRest(v, width - len) + tail
      decreases v, Max(width - len, 0)
    {
      d := HexDigit(v % 16);
      HexNextDigit(v, width - len, width - (len + 1), tail);
      ReverseAppend(buffer, d);
      buffer := buffer + [d];
      tail := [d] + tail;
      v := v / 16;
      len := len + 1;
    }
    assert HexRest(v, width - len) == [];
  }

  /** `dump_hexadecimal(value, width)`: the digit loop, then the buffer is
      reversed. The written text has max(width, digits of value) lowercase
      hexadecimal digits, parses back to `value`, and fits the 17-character
      buffer. */
  method DumpHexadecimal(value: ULong, width: int) returns (out: string)
    requires width <= HexBufferSize
    ensures out == HexField(value, width)
    ensures |out| == Max(width, |HexText(value)|) <= HexBufferSize
    ensures ParseHex(out) == value
  {
    var buffer := HexDigitsReversed(value, width);
    out := ReverseString(buffer, |buffer|);
    assert buffer[..|buffer|] == buffer;
    assert out == out[..|buffer|];
    ULongHexDigits(value);
    HexRoundTrip(value, width);
  }
}
