/** Big-endian packing as BTF.cs does it by hand with shifts and masks, and
    UTF-16BE text as `BinaryReader`/`BinaryWriter` over
    `Encoding.BigEndianUnicode` read and write it (raw code units). */
module Binary {
  import opened Common

  /** `b0 << 24 | b1 << 16 | b2 << 8 | b3` for the four bytes at `at`. */
  function BE32(s: seq<byte>, at: nat): u32
    requires at + 4 <= |s|
  {
    s[at] as int * 0x100_0000 + s[at + 1] as int * 0x1_0000 + s[at + 2] as int * 0x100 + s[at + 3]
  }

  /** `b0 << 8 | b1` for the two bytes at `at`. */
  function BE16(s: seq<byte>, at: nat): u16
    requires at + 2 <= |s|
  {
    s[at] as int * 0x100 + s[at + 1]
  }

  /** The four bytes `x >> 24 & 0xFF`, `x >> 16 & 0xFF`, `x >> 8 & 0xFF`, `x & 0xFF`. */
  function U32Bytes(x: u32): (r: seq<byte>)
    ensures |r| == 4
  {
    [x / 0x100_0000, x / 0x1_0000 % 0x100, x / 0x100 % 0x100, x % 0x100]
  }

  /** The two bytes `x >> 8 & 0xFF`, `x & 0xFF`. */
  function U16Bytes(x: u16): (r: seq<byte>)
    ensures |r| == 2
  {
    [x / 0x100, x % 0x100]
  }

  lemma U32RoundTrip(x: u32)
    ensures BE32(U32Bytes(x), 0) == x
  {
    var a, b, c := x / 0x100, x / 0x1_0000, x / 0x100_0000;
    assert x == a * 0x100 + x % 0x100;
    assert a == b * 0x100 + a % 0x100;
    assert b == c * 0x100 + b % 0x100;
    assert x / 0x1_0000 % 0x100 == b % 0x100;
    assert x / 0x100 % 0x100 == a % 0x100;
  }

  lemma U32BytesOfBE32(s: seq<byte>, at: nat)
    requires at + 4 <= |s|
    ensures U32Bytes(BE32(s, at)) == s[at..at + 4]
  {
    var x := BE32(s, at);
    var b0: int, b1: int, b2: int, b3: int := s[at], s[at + 1], s[at + 2], s[at + 3];
    var a := (b0 * 0x100 + b1) * 0x100 + b2;
    assert x == a * 0x100 + b3;
    assert x / 0x100 == a && x % 0x100 == b3;
    assert a / 0x100 == b0 * 0x100 + b1 && a % 0x100 == b2;
    assert x / 0x1_0000 == a / 0x100;
    assert x / 0x100_0000 == (b0 * 0x100 + b1) / 0x100 == b0;
  }

  /** A slice of a slice is a slice. */
  lemma SliceOfSlice(s: seq<byte>, a: nat, b: nat, c: nat, d: nat)
    requires a <= b <= |s| && c <= d <= b - a
    ensures s[a..b][c..d] == s[a + c..a + d]
  {
    var x, y := s[a..b][c..d], s[a + c..a + d];
    assert |x| == |y|;
    forall i | 0 <= i < |x| ensures x[i] == y[i] {
      assert x[i] == s[a..b][c + i] == s[a + c + i];
    }
  }

  /** A slice within the first part of a concatenation. */
  lemma SliceOfPrefix(a: seq<byte>, b: seq<byte>, lo: nat, hi: nat)
    requires lo <= hi <= |a|
    ensures (a + b)[lo..hi] == a[lo..hi]
  {
  }

  /** The middle part of a concatenation. */
  lemma SliceOfMiddle(a: seq<byte>, b: seq<byte>, c: seq<byte>)
    ensures (a + b + c)[|a|..|a| + |b|] == b
  {
  }

  /** What a part of `t` says about `s` when `t` sits in `s` at `a`. */
  lemma SliceWithin(s: seq<byte>, a: nat, t: seq<byte>, c: nat, d: nat)
    requires a + |t| <= |s| && s[a..a + |t|] == t && c <= d <= |t|
    ensures s[a + c..a + d] == t[c..d]
  {
    SliceOfSlice(s, a, a + |t|, c, d);
  }

  /** The same when `t` is all of `s` from `a` on. */
  lemma SuffixWithin(s: seq<byte>, a: nat, t: seq<byte>, c: nat, d: nat)
    requires a <= |s| && s[a..] == t && c <= d <= |t|
    ensures s[a + c..a + d] == t[c..d]
  {
    assert s[a..a + |t|] == t;
    SliceWithin(s, a, t, c, d);
  }

  /** Reading back four bytes `U32Bytes` wrote, wherever they sit. */
  lemma BE32At(s: seq<byte>, at: nat, x: u32)
    requires at + 4 <= |s| && s[at..at + 4] == U32Bytes(x)
    ensures BE32(s, at) == x
  {
    U32RoundTrip(x);
    var w := U32Bytes(x);
    assert s[at] == w[0] && s[at + 1] == w[1] && s[at + 2] == w[2] && s[at + 3] == w[3];
  }

  lemma BE16At(s: seq<byte>, at: nat, x: u16)
    requires at + 2 <= |s| && s[at..at + 2] == U16Bytes(x)
    ensures BE16(s, at) == x
  {
    U16RoundTrip(x);
    var w := U16Bytes(x);
    assert s[at] == w[0] && s[at + 1] == w[1];
  }

  lemma U16RoundTrip(x: u16)
    ensures BE16(U16Bytes(x), 0) == x
  {
  }

  /** The big-endian bytes of every code unit in turn, as
      `Write(char[])` emits them with `Encoding.BigEndianUnicode`. */
  function UnitsBytes(t: Text): (r: seq<byte>)
    ensures |r| == 2 * |t|
    decreases |t|
  {
    if t == [] then [] else UnitsBytes(t[..|t| - 1]) + U16Bytes(t[|t| - 1])
  }

  lemma {:induction false} UnitsBytesAt(t: Text, i: nat)
    requires i < |t|
    ensures UnitsBytes(t)[2 * i] == t[i] / 0x100
    ensures UnitsBytes(t)[2 * i + 1] == t[i] % 0x100
    decreases |t|
  {
    if i < |t| - 1 {
      UnitsBytesAt(t[..|t| - 1], i);
      assert t[..|t| - 1][i] == t[i];
    }
  }

  /** The `n` code units stored big-endian from byte `pos` on. */
  function UnitsAt(s: seq<byte>, pos: nat, n: nat): (r: Text)
    requires pos + 2 * n <= |s|
    ensures |r| == n
  {
    seq(n, i requires 0 <= i < n => BE16(s, pos + 2 * i))
  }

  /** `BinaryReader.ReadChars(n)` with the stream at byte `pos`: at most `n`
      code units, fewer when the stream ends first; a position at or past the
      end gives none, and a lone trailing byte is not a code unit. */
  function ReadChars(s: seq<byte>, pos: nat, n: nat): (r: Text)
    ensures |r| == Min(n, if pos <= |s| then (|s| - pos) / 2 else 0)
    ensures pos + 2 * |r| <= |s| || r == []
    ensures pos + 2 * |r| <= |s| ==> r == UnitsAt(s, pos, |r|)
  {
    if pos <= |s| then UnitsAt(s, pos, Min(n, (|s| - pos) / 2)) else []
  }

  lemma {:induction false} UnitAt(s: seq<byte>, pos: nat, t: Text, i: nat)
    requires pos + 2 * |t| <= |s| && i < |t|
    requires s[pos..pos + 2 * |t|] == UnitsBytes(t)
    ensures BE16(s, pos + 2 * i) == t[i]
  {
    UnitsBytesAt(t, i);
    var w := s[pos..pos + 2 * |t|];
    assert s[pos + 2 * i] == w[2 * i];
    assert s[pos + 2 * i + 1] == w[2 * i + 1];
  }

  /** Reading back the code units a writer stored gives the same text. */
  lemma {:induction false} UnitsRoundTrip(s: seq<byte>, pos: nat, t: Text)
    requires pos + 2 * |t| <= |s|
    requires s[pos..pos + 2 * |t|] == UnitsBytes(t)
    ensures UnitsAt(s, pos, |t|) == t
  {
    var u := UnitsAt(s, pos, |t|);
    forall i | 0 <= i < |t|
      ensures u[i] == t[i]
    {
      UnitAt(s, pos, t, i);
    }
  }

  /** Where `n` whole code units are left, `ReadChars` reads them all. */
  lemma ReadCharsWithin(s: seq<byte>, pos: nat, n: nat)
    requires pos + 2 * n <= |s|
    ensures ReadChars(s, pos, n) == UnitsAt(s, pos, n)
  {
    assert (|s| - pos) / 2 >= n;
  }

  /** Reading back a text stored at `lo` in the part `h` of `s` that runs
      from `a` to the end. */
  lemma ReadBackAt(s: seq<byte>, a: nat, h: seq<byte>, lo: nat, t: Text)
    requires a <= |s| && s[a..] == h && lo + 2 * |t| <= |h|
    requires h[lo..lo + 2 * |t|] == UnitsBytes(t)
    ensures ReadChars(s, a + lo, |t|) == t
  {
    SuffixAt(s, a, h, lo, 2 * |t|);
    ReadBackSlice(s, a, lo, t);
  }

  lemma SuffixAt(s: seq<byte>, a: nat, h: seq<byte>, lo: nat, n: nat)
    requires a <= |s| && s[a..] == h && lo + n <= |h|
    ensures a + lo + n <= |s| && s[a + lo..a + lo + n] == h[lo..lo + n]
  {
    SuffixWithin(s, a, h, lo, lo + n);
  }

  lemma ReadBackSlice(s: seq<byte>, a: nat, lo: nat, t: Text)
    requires a + lo + 2 * |t| <= |s| && s[a + lo..a + lo + 2 * |t|] == UnitsBytes(t)
    ensures UnitsAt(s, a + lo, |t|) == t
    ensures ReadChars(s, a + lo, |t|) == UnitsAt(s, a + lo, |t|)
  {
    UnitsRoundTrip(s, a + lo, t);
    ReadCharsWithin(s, a + lo, |t|);
  }
}
