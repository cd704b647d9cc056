/** The .NET character classes the core consults (`Char.IsWhiteSpace`,
    `String.IsNullOrWhiteSpace`, `UnicodeCategory.Control`) and fixed-width
    hexadecimal formatting (`ToString("X8")`, `ToString("x4")`). */
module Chars {
  import opened Common

  const QUOTE: CodeUnit := 0x22
  const BACKSLASH: CodeUnit := 0x5C

  /** `Char.IsWhiteSpace` on one code unit: the Unicode space, line and
      paragraph separators, and U+0009 to U+000D and U+0085. */
  predicate IsWhiteSpace(c: CodeUnit)
  {
    || 0x09 <= c <= 0x0D
    || c == 0x20 || c == 0x85 || c == 0xA0 || c == 0x1680
    || 0x2000 <= c <= 0x200A
    || c == 0x2028 || c == 0x2029 || c == 0x202F || c == 0x205F || c == 0x3000
  }

  /** A string that is empty or holds white space only. */
  predicate IsBlank(t: Text)
  {
    forall i :: 0 <= i < |t| ==> IsWhiteSpace(t[i])
  }

  /** `String.IsNullOrWhiteSpace`. */
  predicate IsNullOrWhiteSpace(t: Option<Text>)
  {
    t.None? || IsBlank(t.value)
  }

  /** `Char.GetUnicodeCategory(c) == UnicodeCategory.Control`: the C0 and C1
      control codes U+0000 to U+001F and U+007F to U+009F. */
  predicate IsControl(c: CodeUnit)
  {
    c <= 0x1F || 0x7F <= c <= 0x9F
  }

  function Pow16(n: nat): (r: nat)
    ensures r >= 1
  {
    if n == 0 then 1 else 16 * Pow16(n - 1)
  }

  /** The digit for `d`, with `A`-`F` in upper case or `a`-`f` in lower case. */
  function HexDigit(d: nat, upper: bool): (c: CodeUnit)
    requires d < 16
  {
    if d < 10 then 0x30 + d else (if upper then 0x41 else 0x61) + (d - 10)
  }

  predicate IsHexDigit(c: CodeUnit, upper: bool)
  {
    0x30 <= c <= 0x39 || (upper && 0x41 <= c <= 0x46) || (!upper && 0x61 <= c <= 0x66)
  }

  function DigitValue(c: CodeUnit, upper: bool): (d: nat)
    requires IsHexDigit(c, upper)
    ensures d < 16 && HexDigit(d, upper) == c
  {
    if c <= 0x39 then c - 0x30 else if upper then c - 0x41 + 10 else c - 0x61 + 10
  }

  /** The `width` lowest hexadecimal digits of `x`, most significant first. */
  function Hex(x: nat, width: nat, upper: bool): (r: Text)
    ensures |r| == width
    ensures forall i :: 0 <= i < |r| ==> IsHexDigit(r[i], upper)
    decreases width
  {
    if width == 0 then [] else Hex(x / 16, width - 1, upper) + [HexDigit(x % 16, upper)]
  }

  /** The number a string of hexadecimal digits denotes. */
  function HexValue(t: Text, upper: bool): nat
    requires forall i :: 0 <= i < |t| ==> IsHexDigit(t[i], upper)
    decreases |t|
  {
    if t == [] then 0 else 16 * HexValue(t[..|t| - 1], upper) + DigitValue(t[|t| - 1], upper)
  }

  /** A value below 16^width is recovered from its `width` digits. */
  lemma {:induction false} HexRoundTrip(x: nat, width: nat, upper: bool)
    requires x < Pow16(width)
    ensures HexValue(Hex(x, width, upper), upper) == x
    decreases width
  {
    if width > 0 {
      HexRoundTrip(x / 16, width - 1, upper);
      var r := Hex(x, width, upper);
      assert r[..|r| - 1] == Hex(x / 16, width - 1, upper);
    }
  }

  lemma {:induction false} HexValueBound(t: Text, upper: bool)
    requires forall i :: 0 <= i < |t| ==> IsHexDigit(t[i], upper)
    ensures HexValue(t, upper) < Pow16(|t|)
    decreases |t|
  {
    if t != [] {
      HexValueBound(t[..|t| - 1], upper);
    }
  }

  lemma Pow16Four()
    ensures Pow16(4) == 0x1_0000
  {
    assert Pow16(2) == 0x100;
  }

  lemma Pow16Eight()
    ensures Pow16(8) == 0x1_0000_0000
  {
    Pow16Four();
    assert Pow16(6) == 0x100_0000;
  }
}
