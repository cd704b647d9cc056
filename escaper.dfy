/** `CodeHelper` of Escaper.cs: the quoting and escaping used to write one
    exported string per line, and the inverse used when a line is imported. */
module CodeHelper {
  import opened Common
  import opened Chars

  /** The letter after the backslash for the characters the `switch` of
      `Escape` names: `'`, `"`, `\`, NUL, BEL, BS, FF, LF, CR, TAB and VT. */
  function FixedEscape(c: CodeUnit): Option<CodeUnit>
  {
    if c == 0x27 then Some(0x27)        // '  -> \'
    else if c == 0x22 then Some(0x22)   // "  -> \"
    else if c == 0x5C then Some(0x5C)   // \  -> \\
    else if c == 0x00 then Some(0x30)   // NUL -> \0
    else if c == 0x07 then Some(0x61)   // BEL -> \a
    else if c == 0x08 then Some(0x62)   // BS -> \b
    else if c == 0x0C then Some(0x66)   // FF -> \f
    else if c == 0x0A then Some(0x6E)   // LF -> \n
    else if c == 0x0D then Some(0x72)   // CR -> \r
    else if c == 0x09 then Some(0x74)   // TAB -> \t
    else if c == 0x0B then Some(0x76)   // VT -> \v
    else None
  }

  /** The character a fixed escape letter stands for. */
  function FixedUnescape(l: CodeUnit): (c: Option<CodeUnit>)
    ensures c.Some? ==> FixedEscape(c.value) == Some(l)
  {
    if l == 0x27 then Some(0x27)
    else if l == 0x22 then Some(0x22)
    else if l == 0x5C then Some(0x5C)
    else if l == 0x30 then Some(0x00)
    else if l == 0x61 then Some(0x07)
    else if l == 0x62 then Some(0x08)
    else if l == 0x66 then Some(0x0C)
    else if l == 0x6E then Some(0x0A)
    else if l == 0x72 then Some(0x0D)
    else if l == 0x74 then Some(0x09)
    else if l == 0x76 then Some(0x0B)
    else None
  }

  const LETTER_U: CodeUnit := 0x75

  /** What one iteration of the `foreach` in `Escape` appends for `c`. */
  function EscapeChar(c: CodeUnit): (r: Text)
    ensures 1 <= |r| <= 6
  {
    match FixedEscape(c)
    case Some(l) => [BACKSLASH, l]
    case None =>
      if !IsControl(c) then [c]
      else [BACKSLASH, LETTER_U] + FourHexDigits(c)
  }

  /** The three kinds of escape: a fixed two-character sequence, the
      character itself, or `\u` and four lower-case hex digits of its code. */
  lemma EscapeCharCases(c: CodeUnit)
    ensures forall i :: 0 <= i < |EscapeChar(c)| ==> !IsControl(EscapeChar(c)[i])
    ensures FixedEscape(c).Some? ==>
              EscapeChar(c) == [BACKSLASH, FixedEscape(c).value] && FixedUnescape(FixedEscape(c).value) == Some(c)
    ensures FixedEscape(c).None? && !IsControl(c) ==> EscapeChar(c) == [c] && c != BACKSLASH
    ensures FixedEscape(c).None? && IsControl(c) ==>
              var r := EscapeChar(c);
              && |r| == 6 && r[0] == BACKSLASH && r[1] == LETTER_U
              && (forall i :: 2 <= i < 6 ==> IsHexDigit(r[i], false))
              && HexValue(r[2..], false) == c
  {
    if FixedEscape(c).None? && IsControl(c) {
      Pow16Four();
      HexRoundTrip(c, 4, false);
      FourHexDigitsValue(c);
      assert EscapeChar(c)[2..] == Hex(c, 4, false);
    }
  }

  /** `((ushort)c).ToString("x4")`. */
  function FourHexDigits(c: CodeUnit): (r: Text)
    ensures |r| == 4
  {
    [HexDigit(c / 0x1000, false), HexDigit(c / 0x100 % 16, false), HexDigit(c / 0x10 % 16, false), HexDigit(c % 16, false)]
  }

  lemma FourHexDigitsValue(c: CodeUnit)
    ensures FourHexDigits(c) == Hex(c, 4, false)
  {
    assert c / 0x100 == c / 0x10 / 0x10;
    assert c / 0x1000 == c / 0x100 / 0x10;
    assert c / 0x1000 % 16 == c / 0x1000;
  }

  /** The per-character images under `f`, concatenated in order. */
  function ConcatMap(f: CodeUnit -> Text, s: Text): Text
    decreases |s|
  {
    if s == [] then [] else ConcatMap(f, s[..|s| - 1]) + f(s[|s| - 1])
  }

  /** The text `Escape` puts between its quotes. */
  function EscapeBody(s: Text): Text
  {
    ConcatMap(EscapeChar, s)
  }

  /** `CodeHelper.Escape`: the input in double quotes, every character
      replaced by its escape. */
  method Escape(input: Text) returns (r: Text)
    ensures r == [QUOTE] + EscapeBody(input) + [QUOTE]
    ensures |input| + 2 <= |r| <= 6 * |input| + 2
    ensures forall i :: 0 <= i < |r| ==> !IsControl(r[i])
  {
    r := [QUOTE];
    for i := 0 to |input|
      invariant r == [QUOTE] + EscapeBody(input[..i])
      invariant i + 1 <= |r| <= 6 * i + 1
      invariant forall j :: 0 <= j < |r| ==> !IsControl(r[j])
    {
      ghost var prefix := input[..i + 1];
      assert prefix[..i] == input[..i] && prefix[i] == input[i];
      var e := EscapeChar(input[i]);
      EscapeCharCases(input[i]);
      ghost var r0 := r;
      r := r + e;
      assert forall j :: |r0| <= j < |r| ==> r[j] == e[j - |r0|];
    }
    assert input[..|input|] == input;
    r := r + [QUOTE];
  }

  lemma {:induction false} ConcatMapConcat(f: CodeUnit -> Text, a: Text, b: Text)
    ensures ConcatMap(f, a + b) == ConcatMap(f, a) + ConcatMap(f, b)
    decreases |b|
  {
    if b == [] {
      assert a + b == a;
    } else {
      var b', last := b[..|b| - 1], b[|b| - 1];
      var ab := a + b;
      assert ab[..|ab| - 1] == a + b' && ab[|ab| - 1] == last;
      ConcatMapConcat(f, a, b');
    }
  }

  /** Escaping distributes over concatenation. */
  lemma EscapeBodyConcat(a: Text, b: Text)
    ensures EscapeBody(a + b) == EscapeBody(a) + EscapeBody(b)
  {
    ConcatMapConcat(EscapeChar, a, b);
  }

  /** A reader of escape sequences, independent of `Regex.Unescape`: a
      backslash opens a fixed escape or `\u` with four lower-case hex digits,
      every other character stands for itself. */
  function DecodeEscapes(t: Text): Option<Text>
    decreases |t|
  {
    if t == [] then Some([])
    else if t[0] != BACKSLASH then Prepend(t[0], DecodeEscapes(t[1..]))
    else if |t| >= 2 && FixedUnescape(t[1]).Some? then
      Prepend(FixedUnescape(t[1]).value, DecodeEscapes(t[2..]))
    else if |t| >= 6 && t[1] == LETTER_U && forall i :: 2 <= i < 6 ==> IsHexDigit(t[i], false) then
      var digits := t[2..6];
      HexValueBound(digits, false);
      Pow16Four();
      Prepend(HexValue(digits, false), DecodeEscapes(t[6..]))
    else None
  }

  function Prepend(c: CodeUnit, rest: Option<Text>): Option<Text>
  {
    match rest
    case None => None
    case Some(t) => Some([c] + t)
  }

  lemma DecodeEscapeChar(c: CodeUnit, rest: Text)
    ensures DecodeEscapes(EscapeChar(c) + rest) == Prepend(c, DecodeEscapes(rest))
  {
    if FixedEscape(c).Some? {
      DecodeFixed(c, rest);
    } else if !IsControl(c) {
      DecodePlain(c, rest);
    } else {
      DecodeControl(c, rest);
    }
  }

  lemma DecodeFixed(c: CodeUnit, rest: Text)
    requires FixedEscape(c).Some?
    ensures DecodeEscapes(EscapeChar(c) + rest) == Prepend(c, DecodeEscapes(rest))
  {
    EscapeCharCases(c);
    var t := EscapeChar(c) + rest;
    assert t[0] == BACKSLASH && t[1] == FixedEscape(c).value;
    assert t[2..] == rest;
  }

  lemma DecodePlain(c: CodeUnit, rest: Text)
    requires FixedEscape(c).None? && !IsControl(c)
    ensures DecodeEscapes(EscapeChar(c) + rest) == Prepend(c, DecodeEscapes(rest))
  {
    EscapeCharCases(c);
    var t := EscapeChar(c) + rest;
    assert t[0] == c;
    assert t[1..] == rest;
  }

  lemma DecodeControl(c: CodeUnit, rest: Text)
    requires FixedEscape(c).None? && IsControl(c)
    ensures DecodeEscapes(EscapeChar(c) + rest) == Prepend(c, DecodeEscapes(rest))
  {
    EscapeCharCases(c);
    var e := EscapeChar(c);
    var t := e + rest;
    assert t[0] == BACKSLASH && t[1] == LETTER_U;
    assert FixedUnescape(LETTER_U).None?;
    assert t[2..6] == e[2..];
    assert forall i :: 2 <= i < 6 ==> IsHexDigit(t[i], false);
    assert t[6..] == rest;
  }

  /** Escaping loses nothing: the reader recovers the input from the text
      between the quotes. */
  lemma {:induction false} EscapeBodyDecodes(s: Text)
    ensures DecodeEscapes(EscapeBody(s)) == Some(s)
    decreases |s|
  {
    if s != [] {
      EscapeBodyConcat([s[0]], s[1..]);
      assert [s[0]] + s[1..] == s;
      assert EscapeBody([s[0]]) == EscapeChar(s[0]) by {
        assert [s[0]][..0] == [];
        assert ConcatMap(EscapeChar, [s[0]]) == ConcatMap(EscapeChar, []) + EscapeChar(s[0]);
      }
      DecodeEscapeChar(s[0], EscapeBody(s[1..]));
      EscapeBodyDecodes(s[1..]);
    }
  }

  /** Two different strings never escape to the same text. */
  lemma EscapeInjective(a: Text, b: Text)
    requires EscapeBody(a) == EscapeBody(b)
    ensures a == b
  {
    EscapeBodyDecodes(a);
    EscapeBodyDecodes(b);
  }

  /** `String.TrimStart()`: drops the leading white space. */
  function TrimStart(s: Text): (r: Text)
    ensures |r| <= |s| && r == s[|s| - |r|..]
    ensures IsBlank(s[..|s| - |r|])
    ensures r == [] || !IsWhiteSpace(r[0])
    decreases |s|
  {
    if s != [] && IsWhiteSpace(s[0]) then TrimStart(s[1..]) else s
  }

  /** `String.TrimEnd()`: drops the trailing white space. */
  function TrimEnd(s: Text): (r: Text)
    ensures |r| <= |s| && r == s[..|r|]
    ensures IsBlank(s[|r|..])
    ensures r == [] || !IsWhiteSpace(r[|r| - 1])
    decreases |s|
  {
    if s != [] && IsWhiteSpace(s[|s| - 1]) then
      var r := TrimEnd(s[..|s| - 1]);
      assert s[|r|..] == s[..|s| - 1][|r|..] + [s[|s| - 1]];
      r
    else s
  }

  /** `String.Trim()`: the input without its leading and trailing white
      space; the part kept starts at `a`. */
  function Trim(s: Text): (r: Text)
    ensures var a := |s| - |TrimStart(s)|;
            && 0 <= a <= |s| && |r| <= |s| - a
            && r == s[a..][..|r|] && IsBlank(s[..a]) && IsBlank(s[a..][|r|..])
    ensures r == [] <==> IsBlank(s)
    ensures r != [] ==> !IsWhiteSpace(r[0]) && !IsWhiteSpace(r[|r| - 1])
  {
    var front := TrimStart(s);
    var r := TrimEnd(front);
    assert IsBlank(front) ==> r == [];
    assert IsBlank(s) ==> front == [] by {
      if front != [] {
        assert front[0] == s[|s| - |front|];
      }
    }
    assert r == [] ==> IsBlank(s) by {
      if r == [] {
        assert front == [] && s[..|s|] == s;
      }
    }
    r
  }

  /** The exceptions `Unescape` can raise. */
  datatype Failure = ArgumentOutOfRange | RegexParse

  /** `if (input.StartsWith("\"") && input.EndsWith("\"")) input = input.Substring(1, input.Length - 2)`. */
  function Unquote(t: Text): (r: Result<Text, Failure>)
    ensures r.Err? <==> t == [QUOTE]
    ensures r.Err? ==> r.error == ArgumentOutOfRange
    ensures |t| >= 2 && t[0] == QUOTE && t[|t| - 1] == QUOTE ==> r == Ok(t[1..|t| - 1])
    ensures (t == [] || t[0] != QUOTE || t[|t| - 1] != QUOTE) ==> r == Ok(t)
  {
    if |t| >= 1 && t[0] == QUOTE && t[|t| - 1] == QUOTE then
      (if |t| >= 2 then Ok(t[1..|t| - 1]) else Err(ArgumentOutOfRange))
    else Ok(t)
  }

  /** `CodeHelper.Unescape`; `regexUnescape` stands for `Regex.Unescape`,
      `None` for the exception it throws on a malformed escape. */
  function Unescape(input: Text, regexUnescape: Text -> Option<Text>): (r: Result<Option<Text>, Failure>)
    ensures r.Ok? && r.value.Some? ==> !IsBlank(r.value.value)
    ensures r == Err(ArgumentOutOfRange) <==> Trim(input) == [QUOTE]
    ensures Unquote(Trim(input)).Ok? ==>
              var u := regexUnescape(Unquote(Trim(input)).value);
              && (r == Err(RegexParse) <==> u.None?)
              && (r == Ok(None) <==> u.Some? && IsBlank(u.value))
              && (r.Ok? && r.value.Some? ==> u == r.value)
  {
    match Unquote(Trim(input))
    case Err(e) => Err(e)
    case Ok(t) =>
      match regexUnescape(t)
      case None => Err(RegexParse)
      case Some(u) => if IsBlank(u) then Ok(None) else Ok(Some(u))
  }
}
