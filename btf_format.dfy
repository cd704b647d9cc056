/** The `.btf` container as BTF.cs reads and writes it: a header of three
    big-endian `uint`s (`Records`, `something`, `something2`), a table of
    10-byte records (id, location, length), and a heap of UTF-16BE texts, each
    followed by one U+0000. Locations count code units from the start of the
    heap. This module holds the values the class in `Btf` works on and the
    functions that say what its methods compute. */
module BtfFormat {
  import opened Common
  import opened Binary
  import opened Chars

  /** `BTF.DataText`: one entry of the dictionary. `Text` is `None` while the
      string has not been read (a `null` in the source). */
  datatype DataText = DataText(ID: u32, Location: u32, Length: u16, Text: Option<Text>)

  const SPACE: CodeUnit := 0x20
  const OPEN_BRACKET: CodeUnit := 0x5B
  const CLOSE_BRACKET: CodeUnit := 0x5D

  /** `DataText.ToString()`: `{ID:X8} [{Location:X8} {Length:X4}]`. */
  function ToString(d: DataText): (r: Text)
    ensures |r| == 24
    ensures r[8] == SPACE && r[9] == OPEN_BRACKET && r[18] == SPACE && r[23] == CLOSE_BRACKET
    ensures var id := r[..8];
            (forall i :: 0 <= i < |id| ==> IsHexDigit(id[i], true)) && HexValue(id, true) == d.ID
    ensures var loc := r[10..18];
            (forall i :: 0 <= i < |loc| ==> IsHexDigit(loc[i], true)) && HexValue(loc, true) == d.Location
    ensures var len := r[19..23];
            (forall i :: 0 <= i < |len| ==> IsHexDigit(len[i], true)) && HexValue(len, true) == d.Length
  {
    Pow16Eight();
    Pow16Four();
    HexRoundTrip(d.ID, 8, true);
    HexRoundTrip(d.Location, 8, true);
    HexRoundTrip(d.Length, 4, true);
    var r := Hex(d.ID, 8, true) + [SPACE, OPEN_BRACKET] + Hex(d.Location, 8, true) + [SPACE]
             + Hex(d.Length, 4, true) + [CLOSE_BRACKET];
    assert r[..8] == Hex(d.ID, 8, true);
    assert r[10..18] == Hex(d.Location, 8, true);
    assert r[19..23] == Hex(d.Length, 4, true);
    r
  }

  /** The fields of `BTF` that `TryParse` and `WriteTo` assign. */
  datatype State = State(Records: u32, something: u32, something2: u32, content: map<u32, DataText>)

  /** No two entries share an id. */
  predicate DistinctIds(es: seq<DataText>)
  {
    forall i, j :: 0 <= i < j < |es| ==> es[i].ID != es[j].ID
  }

  /** The dictionary holding the entries `es`, keyed by id. */
  function EntriesMap(es: seq<DataText>): (m: map<u32, DataText>)
    requires DistinctIds(es)
    ensures forall i :: 0 <= i < |es| ==> es[i].ID in m && m[es[i].ID] == es[i]
    ensures forall k :: k in m ==> exists i :: 0 <= i < |es| && es[i].ID == k
  {
    map i | 0 <= i < |es| :: es[i].ID := es[i]
  }

  /** What `Export` hands out: every id with its text. */
  function Texts(m: map<u32, DataText>): (r: map<u32, Option<Text>>)
    ensures r.Keys == m.Keys
    ensures forall k :: k in m ==> r[k] == m[k].Text
  {
    map k | k in m :: m[k].Text
  }

  // ---------------------------------------------------------------- decoding

  /** Record `i` of the table: id, location and length at bytes 12 + 10i on. */
  function RecordAt(s: seq<byte>, i: nat): DataText
    requires 12 + 10 * i + 10 <= |s|
  {
    var at := 12 + 10 * i;
    DataText(BE32(s, at), BE32(s, at + 4), BE16(s, at + 8), None)
  }

  /** The dictionary once the first `n` records are stored by `content[t.ID] = t`. */
  function Table(s: seq<byte>, n: nat): (m: map<u32, DataText>)
    requires 12 + 10 * n <= |s|
    ensures forall k :: k in m ==> m[k].ID == k
    decreases n
  {
    if n == 0 then map[] else var t := RecordAt(s, n - 1); Table(s, n - 1)[t.ID := t]
  }

  /** The dictionary's enumeration order after those stores: each id at the
      place of its first store (a later store with the same id overwrites the
      value in place). */
  function Keys(s: seq<byte>, n: nat): (ks: seq<u32>)
    requires 12 + 10 * n <= |s|
    ensures forall k :: k in ks <==> k in Table(s, n)
    ensures forall i, j :: 0 <= i < j < |ks| ==> ks[i] != ks[j]
    decreases n
  {
    if n == 0 then []
    else
      var id := RecordAt(s, n - 1).ID;
      var ks := Keys(s, n - 1);
      if id in ks then ks else ks + [id]
  }

  /** `MemoryStream.Seek` refuses offsets above `int.MaxValue`. */
  const SEEK_LIMIT: int := 0x7FFF_FFFF

  /** `textStartLocation + (v.Location * 2)`: the product is unchecked `uint`
      arithmetic. */
  function TextStart(heap: nat, d: DataText): nat
  {
    heap + (2 * d.Location) % TWO32
  }

  predicate SeekFails(heap: nat, d: DataText)
  {
    TextStart(heap, d) > SEEK_LIMIT
  }

  /** The entry once `v.Text = new string(br.ReadChars(v.Length))` ran for it. */
  function WithText(s: seq<byte>, heap: nat, d: DataText): (r: DataText)
    requires !SeekFails(heap, d)
    ensures r.ID == d.ID && r.Location == d.Location && r.Length == d.Length
    ensures r.Text.Some? && |r.Text.value| <= d.Length
  {
    d.(Text := Some(ReadChars(s, TextStart(heap, d), d.Length)))
  }

  /** The index in `ks` of the first entry whose seek throws, or `|ks|`. */
  function FirstSeekFailure(heap: nat, t: map<u32, DataText>, ks: seq<u32>): (j: nat)
    requires forall k :: k in ks ==> k in t
    ensures j <= |ks|
    ensures forall q :: 0 <= q < j ==> !SeekFails(heap, t[ks[q]])
    ensures j < |ks| ==> SeekFails(heap, t[ks[j]])
    decreases |ks|
  {
    if ks == [] then 0
    else if SeekFails(heap, t[ks[0]]) then 0
    else 1 + FirstSeekFailure(heap, t, ks[1..])
  }

  /** The dictionary once the texts of the ids in `done` are read. */
  function Filled(s: seq<byte>, heap: nat, t: map<u32, DataText>, done: seq<u32>): (m: map<u32, DataText>)
    requires forall k :: k in done ==> k in t && !SeekFails(heap, t[k])
    ensures m.Keys == t.Keys
    ensures forall k :: k in m ==> m[k].ID == t[k].ID
  {
    map k | k in t :: if k in done then WithText(s, heap, t[k]) else t[k]
  }

  lemma FilledNone(s: seq<byte>, heap: nat, t: map<u32, DataText>)
    ensures Filled(s, heap, t, []) == t
  {
  }

  lemma FilledStep(s: seq<byte>, heap: nat, t: map<u32, DataText>, done: seq<u32>, k: u32)
    requires forall x :: x in done ==> x in t && !SeekFails(heap, t[x])
    requires k in t && !SeekFails(heap, t[k]) && k !in done
    ensures Filled(s, heap, t, done + [k]) == Filled(s, heap, t, done)[k := WithText(s, heap, t[k])]
    ensures Filled(s, heap, t, done)[k] == t[k]
  {
  }

  lemma FirstSeekFailureAt(heap: nat, t: map<u32, DataText>, ks: seq<u32>, j: nat)
    requires forall k :: k in ks ==> k in t
    requires j <= |ks|
    requires forall q :: 0 <= q < j ==> !SeekFails(heap, t[ks[q]])
    requires j < |ks| ==> SeekFails(heap, t[ks[j]])
    ensures FirstSeekFailure(heap, t, ks) == j
  {
  }

  /** `TryParse`: whether it returns true, and the fields it leaves behind,
      starting from state `st`. A failure keeps whatever was assigned before
      the exception: `Records` needs 4 header bytes, `something` 8,
      `something2` 12; `content` is replaced only once the header is read and
      `(int)Records` is a valid capacity; a truncated table leaves the complete
      records read so far (without texts); a failing seek leaves the texts read
      before it, in the dictionary's enumeration order. */
  function Parse(s: seq<byte>, st: State): (bool, State)
  {
    if |s| < 4 then (false, st)
    else if |s| < 8 then (false, st.(Records := BE32(s, 0)))
    else if |s| < 12 then (false, st.(Records := BE32(s, 0), something := BE32(s, 4)))
    else ParseContent(s, st.(Records := BE32(s, 0), something := BE32(s, 4), something2 := BE32(s, 8)))
  }

  /** `TryParse` once the three header fields `h` are assigned. */
  function ParseContent(s: seq<byte>, h: State): (bool, State)
    requires 12 <= |s|
  {
    if h.Records > 0x7FFF_FFFF then (false, h)
    else
      var r := ParseBody(s, h.Records);
      (r.0, h.(content := r.1))
  }

  /** The two loops of `TryParse` over a table of `n` records: the result
      and the dictionary they leave. */
  function ParseBody(s: seq<byte>, n: nat): (bool, map<u32, DataText>)
    requires 12 <= |s|
  {
    if |s| < 12 + 10 * n then (false, Table(s, (|s| - 12) / 10))
    else ParseTexts(s, n)
  }

  /** The result and dictionary of the text loop, for a complete table of
      `n` records. */
  function ParseTexts(s: seq<byte>, n: nat): (bool, map<u32, DataText>)
    requires 12 + 10 * n <= |s|
  {
    var heap := 12 + 10 * n;
    var t := Table(s, n);
    var ks := Keys(s, n);
    var j := FirstSeekFailure(heap, t, ks);
    (j == |ks|, Filled(s, heap, t, ks[..j]))
  }

  /** `ParseTexts` spelled out for a given table `t` and order `ks`. */
  lemma ParseTextsOf(s: seq<byte>, n: nat, t: map<u32, DataText>, ks: seq<u32>)
    requires 12 + 10 * n <= |s| && t == Table(s, n) && ks == Keys(s, n)
    ensures var j := FirstSeekFailure(12 + 10 * n, t, ks);
            && ParseTexts(s, n).0 == (j == |ks|)
            && ParseTexts(s, n).1 == Filled(s, 12 + 10 * n, t, ks[..j])
  {
  }

  // ---------------------------------------------------------------- encoding

  predicate HasTexts(es: seq<DataText>)
  {
    forall i :: 0 <= i < |es| ==> es[i].Text.Some?
  }

  /** `(ushort)(v.Text.Length)`: the cast keeps the low 16 bits. */
  function StoredLength(d: DataText): u16
    requires d.Text.Some?
  {
    |d.Text.value| % TWO16
  }

  /** Σ (StoredLength + 1): heap code units the counters account for. */
  function HeapUnits(es: seq<DataText>): nat
    requires HasTexts(es)
    decreases |es|
  {
    if es == [] then 0 else HeapUnits(es[..|es| - 1]) + StoredLength(es[|es| - 1]) + 1
  }

  /** Σ StoredLength. */
  function TextUnits(es: seq<DataText>): nat
    requires HasTexts(es)
    decreases |es|
  {
    if es == [] then 0 else TextUnits(es[..|es| - 1]) + StoredLength(es[|es| - 1])
  }

  /** The entries, in heap order, after the first loop of `WriteTo`: each gets
      the running location and its stored length. */
  function Laid(es: seq<DataText>): (r: seq<DataText>)
    requires HasTexts(es)
    ensures |r| == |es| && HasTexts(r)
    decreases |es|
  {
    if es == [] then []
    else Laid(es[..|es| - 1]) + [LaidAt(es[|es| - 1], HeapUnits(es[..|es| - 1]))]
  }

  /** One entry as the first loop leaves it, `units` code units into the heap. */
  function LaidAt(d: DataText, units: nat): (r: DataText)
    requires d.Text.Some?
  {
    d.(Location := units % TWO32, Length := StoredLength(d))
  }

  /** Entry `j`, the first without a text, as the first loop of `WriteTo`
      leaves it: `v.Location = loc` has run before `v.Text.Length` throws. */
  function Stranded(es: seq<DataText>, j: nat): (r: DataText)
    requires j < |es| && HasTexts(es[..j])
    ensures r.ID == es[j].ID && r.Length == es[j].Length && r.Text == es[j].Text
    ensures r.Location == HeapUnits(es[..j]) % TWO32
  {
    es[j].(Location := HeapUnits(es[..j]) % TWO32)
  }

  /** `order` in `WriteTo`: ascending by `Location`. */
  predicate SortedByLocation(es: seq<DataText>)
  {
    forall i, j :: 0 <= i < j < |es| ==> es[i].Location <= es[j].Location
  }

  /** The ids the entries carry. */
  function Ids(es: seq<DataText>): set<u32>
  {
    set i | 0 <= i < |es| :: es[i].ID
  }

  lemma IdsSnoc(es: seq<DataText>, d: DataText)
    ensures Ids(es + [d]) == Ids(es) + {d.ID}
  {
    var xs := es + [d];
    assert forall i :: 0 <= i < |es| ==> xs[i] == es[i];
    assert xs[|es|] == d;
  }

  /** `content.Values.ToArray()` up to order: every entry of `m` exactly once. */
  predicate ListsAll(es: seq<DataText>, m: map<u32, DataText>)
  {
    ListsSome(es, m) && Ids(es) == m.Keys
  }

  /** Among the non-empty set of keys `ks`, some has the least `Location`. */
  lemma MinLocationExists(m: map<u32, DataText>, ks: set<u32>)
    requires ks != {} && ks <= m.Keys
    ensures exists k :: k in ks && forall q :: q in ks ==> m[k].Location <= m[q].Location
    decreases |ks|
  {
    var k0 :| k0 in ks;
    var rest := ks - {k0};
    if rest == {} {
      assert ks == {k0};
    } else {
      MinLocationExists(m, rest);
      var k1 :| k1 in rest && forall q :: q in rest ==> m[k1].Location <= m[q].Location;
      var k := if m[k0].Location <= m[k1].Location then k0 else k1;
      forall q | q in ks ensures m[k].Location <= m[q].Location {
        if q != k0 { assert q in rest; }
      }
    }
  }

  /** Distinct entries, each stored in `m` under its id. */
  predicate ListsSome(es: seq<DataText>, m: map<u32, DataText>)
  {
    && DistinctIds(es)
    && forall i :: 0 <= i < |es| ==> es[i].ID in m && m[es[i].ID] == es[i]
  }

  /** One step of selection by least `Location`: taking `k` out of `rest`
      and appending its entry keeps the order sorted and complete. */
  lemma SortStep(m: map<u32, DataText>, es: seq<DataText>, rest: set<u32>, k: u32)
    requires forall q :: q in m ==> m[q].ID == q
    requires Ids(es) + rest == m.Keys && Ids(es) !! rest
    requires ListsSome(es, m) && SortedByLocation(es)
    requires forall i, q :: 0 <= i < |es| && q in rest ==> es[i].Location <= m[q].Location
    requires k in rest && forall q :: q in rest ==> m[k].Location <= m[q].Location
    ensures var es', rest' := es + [m[k]], rest - {k};
            && Ids(es') + rest' == m.Keys && Ids(es') !! rest'
            && ListsSome(es', m) && SortedByLocation(es')
            && forall i, q :: 0 <= i < |es'| && q in rest' ==> es'[i].Location <= m[q].Location
  {
    IdsSnoc(es, m[k]);
    var es' := es + [m[k]];
    assert forall i :: 0 <= i < |es| ==> es'[i] == es[i];
    forall i | 0 <= i < |es| ensures es[i].ID != k {
      assert es[i].ID in Ids(es);
    }
  }

  /** `m` after `content[d.ID] = d` for each `d` of `es` in turn: the effect
      of the in-place updates to the shared `DataText` objects. */
  function Overwrite(m: map<u32, DataText>, es: seq<DataText>): map<u32, DataText>
    decreases |es|
  {
    if es == [] then m else Overwrite(m, es[..|es| - 1])[es[|es| - 1].ID := es[|es| - 1]]
  }

  /** The index of the first entry without a text, or `|es|`: where
      `v.Text.Length` throws a `NullReferenceException`. */
  function FirstMissingText(es: seq<DataText>): (j: nat)
    ensures j <= |es|
    ensures forall q :: 0 <= q < j ==> es[q].Text.Some?
    ensures j < |es| ==> es[j].Text.None?
    decreases |es|
  {
    if es == [] then 0
    else if es[0].Text.None? then 0
    else 1 + FirstMissingText(es[1..])
  }

  lemma FirstMissingTextAt(es: seq<DataText>, j: nat)
    requires j <= |es| && HasTexts(es[..j])
    requires j < |es| ==> es[j].Text.None?
    ensures FirstMissingText(es) == j
  {
  }

  /** What one more round of `WriteTo`'s first loop adds, in terms of the
      prefix of `es` taken so far: entry `i` laid out and stored. */
  lemma LayoutStep(m: map<u32, DataText>, es: seq<DataText>, i: nat)
    requires i < |es| && HasTexts(es[..i]) && es[i].Text.Some?
    ensures HasTexts(es[..i + 1])
    ensures var d := LaidAt(es[i], HeapUnits(es[..i]));
            && Laid(es[..i + 1]) + es[i + 1..] == (Laid(es[..i]) + es[i..])[i := d]
            && Overwrite(m, Laid(es[..i + 1])) == Overwrite(m, Laid(es[..i]))[d.ID := d]
  {
    var xs := es[..i + 1];
    assert xs[..i] == es[..i];
    var ls := Laid(xs);
    assert ls[..i] == Laid(es[..i]);
  }

  /** The same round for the running location and the two header counters. */
  lemma CountersStep(records: nat, es: seq<DataText>, i: nat)
    requires i < |es| && HasTexts(es[..i]) && es[i].Text.Some?
    ensures HasTexts(es[..i + 1])
    ensures HeapUnits(es[..i + 1]) % TWO32 == (HeapUnits(es[..i]) % TWO32 + StoredLength(es[i]) + 1) % TWO32
    ensures ByteSize(records, es[..i + 1]) == (ByteSize(records, es[..i]) + (StoredLength(es[i]) + 1) * 2) % TWO32
    ensures UnitCount(records, es[..i + 1]) == (UnitCount(records, es[..i]) + StoredLength(es[i])) % TWO32
  {
    var xs := es[..i + 1];
    assert xs[..i] == es[..i];
    ModAdd(HeapUnits(es[..i]), StoredLength(es[i]) + 1);
    ModAdd(12 + 10 * records + 2 * HeapUnits(es[..i]), (StoredLength(es[i]) + 1) * 2);
    ModAdd(records + TextUnits(es[..i]), StoredLength(es[i]));
  }

  /** `something` once the entries `es` are laid out under a header of
      `records` records: 12 + 10·records + 2·Σ(Length + 1), as `uint`. */
  function ByteSize(records: nat, es: seq<DataText>): u32
    requires HasTexts(es)
  {
    (12 + 10 * records + 2 * HeapUnits(es)) % TWO32
  }

  /** `something2` likewise: records + Σ Length, as `uint`. */
  function UnitCount(records: nat, es: seq<DataText>): u32
    requires HasTexts(es)
  {
    (records + TextUnits(es)) % TWO32
  }

  /** One table record as `WriteTo` emits it. */
  function RecordBytes(d: DataText): (r: seq<byte>)
    ensures |r| == 10
  {
    U32Bytes(d.ID) + U32Bytes(d.Location) + U16Bytes(d.Length)
  }

  function TableBytes(es: seq<DataText>): (r: seq<byte>)
    ensures |r| == 10 * |es|
    decreases |es|
  {
    if es == [] then [] else TableBytes(es[..|es| - 1]) + RecordBytes(es[|es| - 1])
  }

  /** The heap: every whole text followed by `00 00`. */
  function HeapBytes(es: seq<DataText>): seq<byte>
    requires HasTexts(es)
    decreases |es|
  {
    if es == [] then [] else HeapBytes(es[..|es| - 1]) + UnitsBytes(es[|es| - 1].Text.value) + [0, 0]
  }

  function HeaderBytes(records: u32, size: u32, units: u32): (r: seq<byte>)
    ensures |r| == 12
  {
    U32Bytes(records) + U32Bytes(size) + U32Bytes(units)
  }

  /** Everything `WriteTo` sends to the stream for entries `es` in order. */
  function Encode(records: u32, size: u32, units: u32, es: seq<DataText>): seq<byte>
    requires HasTexts(es)
  {
    HeaderBytes(records, size, units) + TableBytes(es) + HeapBytes(es)
  }
}
