/** Decoding what `WriteTo` encodes: the bytes `Encode` lays out for the
    sorted entries parse back, header, table and heap, into the dictionary
    `WriteTo` leaves behind, provided the texts fit the 16-bit length field
    and every text offset stays within what `MemoryStream.Seek` accepts. */
module BtfRoundTrip {
  import opened Common
  import opened Binary
  import opened BtfFormat

  /** Every text is present and fits the 16-bit `Length` field. */
  predicate ShortTexts(es: seq<DataText>)
  {
    HasTexts(es) && forall i :: 0 <= i < |es| ==> |es[i].Text.value| < TWO16
  }

  /** What the round trip needs of the entries `WriteTo` takes. */
  predicate Storable(es: seq<DataText>)
  {
    DistinctIds(es) && ShortTexts(es) && 12 + 10 * |es| + 2 * HeapUnits(es) <= SEEK_LIMIT
  }

  // ------------------------------------------------------- layout arithmetic

  lemma {:induction false} HeapUnitsPrefix(es: seq<DataText>, i: nat)
    requires HasTexts(es) && i < |es|
    ensures HasTexts(es[..i]) && HasTexts(es[..i + 1])
    ensures HeapUnits(es[..i + 1]) == HeapUnits(es[..i]) + StoredLength(es[i]) + 1
    ensures HeapUnits(es[..i + 1]) <= HeapUnits(es)
    decreases |es|
  {
    assert es[..i + 1][..i] == es[..i];
    if i + 1 < |es| {
      var init := es[..|es| - 1];
      assert init[..i + 1] == es[..i + 1];
      HeapUnitsPrefix(init, i);
      if i + 1 < |init| {
        HeapUnitsPrefix(init, i + 1);
      } else {
        assert init[..i + 1] == init;
      }
    } else {
      assert es[..i + 1] == es;
    }
  }

  /** The entry at index `i` of the layout. */
  lemma {:induction false} LaidIndex(es: seq<DataText>, i: nat)
    requires HasTexts(es) && i < |es|
    ensures HasTexts(es[..i])
    ensures Laid(es)[i] == LaidAt(es[i], HeapUnits(es[..i]))
    decreases |es|
  {
    var init := es[..|es| - 1];
    if i < |es| - 1 {
      LaidIndex(init, i);
      assert init[..i] == es[..i];
    } else {
      assert init == es[..i];
    }
  }

  /** The layout keeps ids and texts, and places entry `i` at
      Σ_{j<i} (Length_j + 1), its length being that of its text. */
  lemma LaidFields(es: seq<DataText>)
    requires HasTexts(es)
    ensures forall i :: 0 <= i < |es| ==>
              && Laid(es)[i].ID == es[i].ID && Laid(es)[i].Text == es[i].Text
              && Laid(es)[i].Length == StoredLength(es[i])
              && Laid(es)[i].Location == HeapUnits(es[..i]) % TWO32
  {
    forall i | 0 <= i < |es|
      ensures && Laid(es)[i].ID == es[i].ID && Laid(es)[i].Text == es[i].Text
              && Laid(es)[i].Length == StoredLength(es[i])
              && Laid(es)[i].Location == HeapUnits(es[..i]) % TWO32
    {
      LaidIndex(es, i);
    }
  }

  /** The layout changes no text, so it takes the same heap space. */
  lemma {:induction false} LaidUnits(es: seq<DataText>)
    requires HasTexts(es)
    ensures HeapUnits(Laid(es)) == HeapUnits(es) && TextUnits(Laid(es)) == TextUnits(es)
    ensures HeapBytes(Laid(es)) == HeapBytes(es)
    decreases |es|
  {
    if es != [] {
      var init := es[..|es| - 1];
      LaidUnits(init);
      assert Laid(es)[..|es| - 1] == Laid(init);
    }
  }

  // ---------------------------------------------------------- byte positions

  lemma {:induction false} TableBytesAt(es: seq<DataText>, i: nat)
    requires i < |es|
    ensures TableBytes(es)[10 * i..10 * i + 10] == RecordBytes(es[i])
    decreases |es|
  {
    var init := es[..|es| - 1];
    if i < |es| - 1 {
      TableBytesAt(init, i);
      assert TableBytes(es)[10 * i..10 * i + 10] == TableBytes(init)[10 * i..10 * i + 10];
    }
  }

  lemma {:induction false} HeapBytesLength(es: seq<DataText>)
    requires ShortTexts(es)
    ensures |HeapBytes(es)| == 2 * HeapUnits(es)
    decreases |es|
  {
    if es != [] {
      HeapBytesLength(es[..|es| - 1]);
    }
  }

  /** Text `i` sits at byte 2·Σ_{j<i}(Length_j + 1) of the heap. */
  lemma {:induction false} HeapBytesAt(es: seq<DataText>, i: nat)
    requires ShortTexts(es) && i < |es|
    ensures HasTexts(es[..i])
    ensures 2 * HeapUnits(es[..i]) + 2 * |es[i].Text.value| <= |HeapBytes(es)|
    ensures HeapBytes(es)[2 * HeapUnits(es[..i])..2 * HeapUnits(es[..i]) + 2 * |es[i].Text.value|]
            == UnitsBytes(es[i].Text.value)
    decreases |es|
  {
    var init := es[..|es| - 1];
    HeapBytesLength(init);
    HeapBytesLength(es);
    HeapUnitsPrefix(es, i);
    var a, u := HeapBytes(init), UnitsBytes(es[|es| - 1].Text.value);
    assert HeapBytes(es) == a + u + [0, 0];
    if i < |es| - 1 {
      HeapBytesAt(init, i);
      assert init[..i] == es[..i];
      var lo, hi := 2 * HeapUnits(es[..i]), 2 * HeapUnits(es[..i]) + 2 * |es[i].Text.value|;
      SliceOfPrefix(a + u, [0, 0], lo, hi);
      SliceOfPrefix(a, u, lo, hi);
    } else {
      assert init == es[..i];
      SliceOfMiddle(a, u, [0, 0]);
    }
  }

  /** `WriteTo`'s output: 12 header bytes, 10 per record, 2 per heap unit. */
  lemma {:induction false} EncodeLength(records: u32, size: u32, units: u32, es: seq<DataText>)
    requires ShortTexts(es)
    ensures |Encode(records, size, units, Laid(es))| == 12 + 10 * |es| + 2 * HeapUnits(es)
  {
    LaidUnits(es);
    HeapBytesLength(es);
  }

  /** So, when the count does not wrap, it is exactly `something` bytes long. */
  lemma {:induction false} EncodeSize(es: seq<DataText>, size: u32, units: u32)
    requires ShortTexts(es) && 12 + 10 * |es| + 2 * HeapUnits(es) < TWO32
    ensures |Encode(|es|, size, units, Laid(es))| == ByteSize(|es|, es)
  {
    EncodeLength(|es|, size, units, es);
    ModSmall(12 + 10 * |es| + 2 * HeapUnits(es));
  }

  // ----------------------------------------------------------------- reading

  /** An entry as the table alone describes it, before its text is read. */
  function Bare(d: DataText): (r: DataText)
    ensures r.ID == d.ID && r.Location == d.Location && r.Length == d.Length && r.Text == None
  {
    d.(Text := None)
  }

  /** The ids of `es`, in order. */
  function IdSeq(es: seq<DataText>): (r: seq<u32>)
    ensures |r| == |es| && forall i :: 0 <= i < |es| ==> r[i] == es[i].ID
    decreases |es|
  {
    if es == [] then [] else IdSeq(es[..|es| - 1]) + [es[|es| - 1].ID]
  }

  /** Where the pieces of `Encode`'s output sit. */
  lemma EncodeParts(records: u32, size: u32, units: u32, es: seq<DataText>)
    requires HasTexts(es)
    ensures var s := Encode(records, size, units, es);
            && 12 + 10 * |es| <= |s|
            && s[0..4] == U32Bytes(records) && s[4..8] == U32Bytes(size) && s[8..12] == U32Bytes(units)
            && s[12..12 + 10 * |es|] == TableBytes(es)
            && s[12 + 10 * |es|..] == HeapBytes(es)
  {
    var s := Encode(records, size, units, es);
    var h := HeaderBytes(records, size, units);
    assert s[0..12] == h;
    assert s[0..4] == h[0..4] && s[4..8] == h[4..8] && s[8..12] == h[8..12];
  }

  /** Record `i` read back from the ten bytes `WriteTo` wrote for it. */
  lemma RecordRead(s: seq<byte>, i: nat, d: DataText)
    requires 12 + 10 * i + 10 <= |s| && s[12 + 10 * i..12 + 10 * i + 10] == RecordBytes(d)
    ensures RecordAt(s, i) == Bare(d)
  {
    var at := 12 + 10 * i;
    var a, b, c := U32Bytes(d.ID), U32Bytes(d.Location), U16Bytes(d.Length);
    var w := s[at..at + 10];
    assert w == a + b + c;
    SliceOfSlice(s, at, at + 10, 0, 4);
    SliceOfSlice(s, at, at + 10, 4, 8);
    SliceOfSlice(s, at, at + 10, 8, 10);
    assert w[0..4] == a && w[4..8] == b && w[8..10] == c;
    BE32At(s, at, d.ID);
    BE32At(s, at + 4, d.Location);
    BE16At(s, at + 8, d.Length);
  }

  /** `t` holds the ten bytes of every record of `es`, in order. */
  predicate HoldsRecords(t: seq<byte>, es: seq<DataText>)
  {
    |t| == 10 * |es| && forall i :: 0 <= i < |es| ==> t[10 * i..10 * i + 10] == RecordBytes(es[i])
  }

  lemma TableHolds(es: seq<DataText>)
    ensures HoldsRecords(TableBytes(es), es)
  {
    forall i | 0 <= i < |es|
      ensures TableBytes(es)[10 * i..10 * i + 10] == RecordBytes(es[i])
    {
      TableBytesAt(es, i);
    }
  }

  /** Ten bytes at `10i` of a table of `n` records sitting at byte 12. */
  lemma RecordWithin(s: seq<byte>, t: seq<byte>, n: nat, i: nat, r: seq<byte>)
    requires i < n && |t| == 10 * n && 12 + 10 * n <= |s| && s[12..12 + 10 * n] == t
    requires t[10 * i..10 * i + 10] == r
    ensures s[12 + 10 * i..12 + 10 * i + 10] == r
  {
    var a := 10 * i;
    assert a + 10 <= |t|;
    SliceWithin(s, 12, t, a, a + 10);
  }

  /** Record `i` read back from a table `t` of the records `es` at byte 12. */
  lemma RecordFrom(s: seq<byte>, t: seq<byte>, es: seq<DataText>, i: nat)
    requires i < |es| && HoldsRecords(t, es) && 12 + 10 * |es| <= |s| && s[12..12 + 10 * |es|] == t
    ensures RecordAt(s, i) == Bare(es[i])
  {
    RecordWithin(s, t, |es|, i, RecordBytes(es[i]));
    RecordRead(s, i, es[i]);
  }

  /** Every record of such a table reads back. */
  lemma RecordsFrom(s: seq<byte>, t: seq<byte>, es: seq<DataText>)
    requires HoldsRecords(t, es) && 12 + 10 * |es| <= |s| && s[12..12 + 10 * |es|] == t
    ensures forall i :: 0 <= i < |es| ==> RecordAt(s, i) == Bare(es[i])
  {
    forall i | 0 <= i < |es|
      ensures RecordAt(s, i) == Bare(es[i])
    {
      RecordFrom(s, t, es, i);
    }
  }

  /** Storing the first `k` records of a table with distinct ids enumerates
      them in table order, each under its own id. */
  lemma {:induction false} TableOf(s: seq<byte>, es: seq<DataText>, k: nat)
    requires DistinctIds(es) && k <= |es| && 12 + 10 * |es| <= |s|
    requires forall i :: 0 <= i < |es| ==> RecordAt(s, i) == Bare(es[i])
    ensures Keys(s, k) == IdSeq(es[..k])
    ensures forall i :: 0 <= i < k ==> es[i].ID in Table(s, k) && Table(s, k)[es[i].ID] == Bare(es[i])
    decreases k
  {
    if k > 0 {
      TableOf(s, es, k - 1);
      assert RecordAt(s, k - 1) == Bare(es[k - 1]);
      KeysStep(s, es, k);
      TableStep(s, es, k);
    }
  }

  lemma KeysStep(s: seq<byte>, es: seq<DataText>, k: nat)
    requires DistinctIds(es) && 0 < k <= |es| && 12 + 10 * |es| <= |s|
    requires RecordAt(s, k - 1).ID == es[k - 1].ID && Keys(s, k - 1) == IdSeq(es[..k - 1])
    ensures Keys(s, k) == IdSeq(es[..k])
  {
    assert es[k - 1].ID !in IdSeq(es[..k - 1]);
    assert es[..k][..k - 1] == es[..k - 1];
  }

  lemma TableStep(s: seq<byte>, es: seq<DataText>, k: nat)
    requires DistinctIds(es) && 0 < k <= |es| && 12 + 10 * |es| <= |s|
    requires RecordAt(s, k - 1) == Bare(es[k - 1])
    requires forall i :: 0 <= i < k - 1 ==> es[i].ID in Table(s, k - 1) && Table(s, k - 1)[es[i].ID] == Bare(es[i])
    ensures forall i :: 0 <= i < k ==> es[i].ID in Table(s, k) && Table(s, k)[es[i].ID] == Bare(es[i])
  {
  }

  /** Text `q` read back from the heap `WriteTo` wrote. */
  lemma HeapReadAt(s: seq<byte>, es: seq<DataText>, q: nat)
    requires ShortTexts(es) && q < |es|
    requires 12 + 10 * |es| <= |s| && s[12 + 10 * |es|..] == HeapBytes(es)
    ensures HasTexts(es[..q])
    ensures ReadChars(s, 12 + 10 * |es| + 2 * HeapUnits(es[..q]), |es[q].Text.value|) == es[q].Text.value
  {
    var t := es[q].Text.value;
    var heap := 12 + 10 * |es|;
    HeapBytesAt(es, q);
    var lo := 2 * HeapUnits(es[..q]);
    ReadBackAt(s, heap, HeapBytes(es), lo, t);
  }

  /** Where `TryParse` seeks for entry `q` of the layout: the running heap
      offset, doubled, after the table; within `MemoryStream.Seek`'s range. */
  lemma TextStartAt(es: seq<DataText>, q: nat)
    requires Storable(es) && q < |es|
    ensures HasTexts(es[..q])
    ensures TextStart(12 + 10 * |es|, Bare(Laid(es)[q])) == 12 + 10 * |es| + 2 * HeapUnits(es[..q])
    ensures !SeekFails(12 + 10 * |es|, Bare(Laid(es)[q]))
  {
    LaidIndex(es, q);
    HeapUnitsPrefix(es, q);
    var u := HeapUnits(es[..q]);
    ModSmall(u);
    ModSmall(2 * u);
  }

  /** Text `q` of `es` can be read back from `s` where `TryParse` seeks for it. */
  predicate ReadsBack(s: seq<byte>, es: seq<DataText>, q: nat)
    requires ShortTexts(es) && q < |es|
  {
    HasTexts(es[..q])
    && ReadChars(s, 12 + 10 * |es| + 2 * HeapUnits(es[..q]), |es[q].Text.value|) == es[q].Text.value
  }

  lemma HeapReadsBack(s: seq<byte>, es: seq<DataText>)
    requires ShortTexts(es)
    requires 12 + 10 * |es| <= |s| && s[12 + 10 * |es|..] == HeapBytes(es)
    ensures forall q :: 0 <= q < |es| ==> ReadsBack(s, es, q)
  {
    forall q | 0 <= q < |es|
      ensures ReadsBack(s, es, q)
    {
      HeapReadAt(s, es, q);
    }
  }

  /** Every entry of the layout is restored from the heap `WriteTo` wrote. */
  lemma HeapRestores(s: seq<byte>, es: seq<DataText>)
    requires Storable(es)
    requires 12 + 10 * |es| <= |s| && s[12 + 10 * |es|..] == HeapBytes(es)
    ensures Restores(s, 12 + 10 * |es|, Laid(es))
  {
    HeapReadsBack(s, es);
    LaidRestores(s, es);
  }

  /** Entry `q` once its text is read back is the entry `WriteTo` laid out. */
  lemma WithTextAt(s: seq<byte>, es: seq<DataText>, q: nat)
    requires Storable(es) && q < |es| && ReadsBack(s, es, q)
    ensures !SeekFails(12 + 10 * |es|, Bare(Laid(es)[q]))
    ensures WithText(s, 12 + 10 * |es|, Bare(Laid(es)[q])) == Laid(es)[q]
  {
    var t := es[q].Text.value;
    var pos := 12 + 10 * |es| + 2 * HeapUnits(es[..q]);
    assert ReadChars(s, pos, |t|) == t;
    var d := Laid(es)[q];
    TextStartAt(es, q);
    LaidIndex(es, q);
    ModSmall16(|t|);
    assert d.Length == |t| && d.Text == Some(t);
    assert TextStart(12 + 10 * |es|, Bare(d)) == pos;
  }

  /** Every entry of `ls` is what the text loop makes of its record. */
  predicate Restores(s: seq<byte>, heap: nat, ls: seq<DataText>)
  {
    forall q :: 0 <= q < |ls| ==> !SeekFails(heap, Bare(ls[q])) && WithText(s, heap, Bare(ls[q])) == ls[q]
  }

  lemma LaidRestores(s: seq<byte>, es: seq<DataText>)
    requires Storable(es) && forall q :: 0 <= q < |es| ==> ReadsBack(s, es, q)
    ensures Restores(s, 12 + 10 * |es|, Laid(es))
  {
    forall q | 0 <= q < |es|
      ensures !SeekFails(12 + 10 * |es|, Bare(Laid(es)[q]))
      ensures WithText(s, 12 + 10 * |es|, Bare(Laid(es)[q])) == Laid(es)[q]
    {
      WithTextAt(s, es, q);
    }
  }

  /** The table `t` and its enumeration order `ks` hold the records of `ls`. */
  ghost predicate Tabled(t: map<u32, DataText>, ks: seq<u32>, ls: seq<DataText>)
  {
    && ks == IdSeq(ls) && (forall k :: k in t <==> k in ks)
    && forall i :: 0 <= i < |ls| ==> ls[i].ID in t && t[ls[i].ID] == Bare(ls[i])
  }

  /** The three header fields read back. */
  lemma HeaderRead(records: u32, size: u32, units: u32, es: seq<DataText>)
    requires HasTexts(es)
    ensures var s := Encode(records, size, units, es);
            && 12 <= |s| && BE32(s, 0) == records && BE32(s, 4) == size && BE32(s, 8) == units
  {
    var s := Encode(records, size, units, es);
    EncodeParts(records, size, units, es);
    BE32At(s, 0, records);
    BE32At(s, 4, size);
    BE32At(s, 8, units);
  }

  /** The table loop of `TryParse` over a table `WriteTo` wrote. */
  lemma TableRead(s: seq<byte>, es: seq<DataText>)
    requires DistinctIds(es) && 12 + 10 * |es| <= |s| && s[12..12 + 10 * |es|] == TableBytes(es)
    ensures Tabled(Table(s, |es|), Keys(s, |es|), es)
  {
    TableHolds(es);
    RecordsFrom(s, TableBytes(es), es);
    TableOf(s, es, |es|);
    assert es[..|es|] == es;
  }

  /** No seek of the text loop fails. */
  lemma SeeksSucceed(heap: nat, t: map<u32, DataText>, ks: seq<u32>, ls: seq<DataText>)
    requires Tabled(t, ks, ls) && forall q :: 0 <= q < |ls| ==> !SeekFails(heap, Bare(ls[q]))
    ensures forall k :: k in ks ==> k in t
    ensures FirstSeekFailure(heap, t, ks) == |ks|
  {
    forall q | 0 <= q < |ks|
      ensures !SeekFails(heap, t[ks[q]])
    {
      assert ks[q] == ls[q].ID;
    }
    FirstSeekFailureAt(heap, t, ks, |ks|);
  }

  /** Reading every text in table order restores the laid-out dictionary. */
  lemma FilledAll(s: seq<byte>, heap: nat, t: map<u32, DataText>, ks: seq<u32>, ls: seq<DataText>)
    requires DistinctIds(ls) && Tabled(t, ks, ls) && Restores(s, heap, ls)
    requires forall k :: k in ks ==> k in t && !SeekFails(heap, t[k])
    ensures Filled(s, heap, t, ks) == EntriesMap(ls)
  {
    FilledValues(s, heap, t, ks, ls);
    FilledKeys(s, heap, t, ks, ls);
  }

  lemma FilledValues(s: seq<byte>, heap: nat, t: map<u32, DataText>, ks: seq<u32>, ls: seq<DataText>)
    requires DistinctIds(ls) && Tabled(t, ks, ls) && Restores(s, heap, ls)
    requires forall k :: k in ks ==> k in t && !SeekFails(heap, t[k])
    ensures forall k :: k in Filled(s, heap, t, ks) ==>
              k in EntriesMap(ls) && Filled(s, heap, t, ks)[k] == EntriesMap(ls)[k]
  {
    var f := Filled(s, heap, t, ks);
    var m := EntriesMap(ls);
    forall k | k in f
      ensures k in m && f[k] == m[k]
    {
      var q :| 0 <= q < |ks| && ks[q] == k;
      assert ls[q].ID == k;
    }
  }

  lemma FilledKeys(s: seq<byte>, heap: nat, t: map<u32, DataText>, ks: seq<u32>, ls: seq<DataText>)
    requires DistinctIds(ls) && Tabled(t, ks, ls)
    requires forall k :: k in ks ==> k in t && !SeekFails(heap, t[k])
    ensures forall k :: k in EntriesMap(ls) ==> k in Filled(s, heap, t, ks)
  {
    forall k | k in EntriesMap(ls)
      ensures k in Filled(s, heap, t, ks)
    {
      var q :| 0 <= q < |ls| && ls[q].ID == k;
      assert ks[q] == k;
    }
  }

  /** The text loop of `TryParse` once the table `t`, in order `ks`, has
      been read back. */
  lemma TextsRead(s: seq<byte>, n: nat, t: map<u32, DataText>, ks: seq<u32>, ls: seq<DataText>)
    requires 12 + 10 * n <= |s| && t == Table(s, n) && ks == Keys(s, n) && n == |ls|
    requires DistinctIds(ls) && Tabled(t, ks, ls) && Restores(s, 12 + 10 * n, ls)
    ensures ParseTexts(s, n).0 && ParseTexts(s, n).1 == EntriesMap(ls)
  {
    TextsOf(s, 12 + 10 * n, t, ks, ls);
    TextsComplete(s, n, t, ks);
  }

  /** `ParseTexts` when no seek fails. */
  lemma TextsComplete(s: seq<byte>, n: nat, t: map<u32, DataText>, ks: seq<u32>)
    requires 12 + 10 * n <= |s| && t == Table(s, n) && ks == Keys(s, n)
    requires forall k :: k in ks ==> k in t && !SeekFails(12 + 10 * n, t[k])
    requires FirstSeekFailure(12 + 10 * n, t, ks) == |ks|
    ensures ParseTexts(s, n).0 && ParseTexts(s, n).1 == Filled(s, 12 + 10 * n, t, ks)
  {
    ParseTextsOf(s, n, t, ks);
    assert ks[..|ks|] == ks;
  }

  /** The same for any table `t` and order `ks` holding `ls`. */
  lemma TextsOf(s: seq<byte>, heap: nat, t: map<u32, DataText>, ks: seq<u32>, ls: seq<DataText>)
    requires DistinctIds(ls) && Tabled(t, ks, ls) && Restores(s, heap, ls)
    ensures forall k :: k in ks ==> k in t && !SeekFails(heap, t[k])
    ensures FirstSeekFailure(heap, t, ks) == |ks|
    ensures Filled(s, heap, t, ks) == EntriesMap(ls)
  {
    SeeksSucceed(heap, t, ks, ls);
    FilledAll(s, heap, t, ks, ls);
  }

  /** Both loops of `TryParse` over the table and heap `WriteTo` wrote. */
  lemma BodyRead(es: seq<DataText>, size: u32, units: u32)
    requires Storable(es)
    ensures HasTexts(Laid(es)) && DistinctIds(Laid(es))
    ensures var s := Encode(|es|, size, units, Laid(es));
            && 12 + 10 * |es| <= |s|
            && ParseTexts(s, |es|).0 && ParseTexts(s, |es|).1 == EntriesMap(Laid(es))
  {
    var L, n := Laid(es), |es|;
    var s := Encode(n, size, units, L);
    LaidFields(es);
    EncodeParts(n, size, units, L);
    LaidUnits(es);
    TableRead(s, L);
    StoredRead(s, n, Table(s, n), Keys(s, n), es);
  }

  /** The text loop of `TryParse` over any bytes holding the heap of `es`
      after a table `t`, in order `ks`, that reads back as their layout. */
  lemma StoredRead(s: seq<byte>, n: nat, t: map<u32, DataText>, ks: seq<u32>, es: seq<DataText>)
    requires Storable(es) && DistinctIds(Laid(es)) && n == |es| && 12 + 10 * n <= |s|
    requires t == Table(s, n) && ks == Keys(s, n) && Tabled(t, ks, Laid(es))
    requires s[12 + 10 * n..] == HeapBytes(es)
    ensures ParseTexts(s, n).0 && ParseTexts(s, n).1 == EntriesMap(Laid(es))
  {
    HeapRestores(s, es);
    TextsRead(s, n, t, ks, Laid(es));
  }

  /** `TryParse` on a complete header and table: the header fields and the
      outcome of the text loop. */
  lemma ParseComplete(s: seq<byte>, st: State)
    requires 12 <= |s| && BE32(s, 0) <= 0x7FFF_FFFF && 12 + 10 * BE32(s, 0) <= |s|
    ensures var r := Parse(s, st);
            && r.0 == ParseTexts(s, BE32(s, 0)).0 && r.1.content == ParseTexts(s, BE32(s, 0)).1
            && r.1.Records == BE32(s, 0) && r.1.something == BE32(s, 4) && r.1.something2 == BE32(s, 8)
  {
  }

  /** The round trip: parsing what `WriteTo` emits for entries `es`, from any
      prior state, succeeds and restores the header fields it wrote and the
      dictionary it left, texts included. */
  lemma RoundTrip(es: seq<DataText>, size: u32, units: u32, st: State)
    requires Storable(es)
    ensures HasTexts(Laid(es)) && DistinctIds(Laid(es))
    ensures var r := Parse(Encode(|es|, size, units, Laid(es)), st);
            && r.0 && r.1.Records == |es| && r.1.something == size && r.1.something2 == units
            && r.1.content == EntriesMap(Laid(es))
  {
    var s := Encode(|es|, size, units, Laid(es));
    BodyRead(es, size, units);
    HeaderRead(|es|, size, units, Laid(es));
    ParseComplete(s, st);
  }

  // ------------------------------------------------------ WriteTo, then TryParse

  /** The updates `WriteTo` makes to the shared entries, for distinct ids:
      each written entry replaces the one under its id, nothing else. */
  lemma {:induction false} OverwriteDistinct(m: map<u32, DataText>, ls: seq<DataText>)
    requires DistinctIds(ls)
    ensures forall k :: k in Overwrite(m, ls) <==> k in m || k in Ids(ls)
    ensures forall i :: 0 <= i < |ls| ==> ls[i].ID in Overwrite(m, ls) && Overwrite(m, ls)[ls[i].ID] == ls[i]
    decreases |ls|
  {
    if ls != [] {
      var init, d := ls[..|ls| - 1], ls[|ls| - 1];
      OverwriteDistinct(m, init);
      assert init + [d] == ls;
      IdsSnoc(init, d);
      assert forall i :: 0 <= i < |init| ==> init[i] == ls[i] && init[i].ID != d.ID;
    }
  }

  /** The layout of the whole listing keeps the listed ids. */
  lemma LaidIds(es: seq<DataText>)
    requires HasTexts(es)
    ensures Ids(Laid(es)) == Ids(es)
  {
    LaidFields(es);
    var L := Laid(es);
    forall k | k in Ids(es) ensures k in Ids(L) {
      var i :| 0 <= i < |es| && es[i].ID == k;
      assert L[i].ID == k;
    }
    forall k | k in Ids(L) ensures k in Ids(es) {
      var i :| 0 <= i < |L| && L[i].ID == k;
      assert es[i].ID == k;
    }
  }

  /** Overwriting every key of `m` once leaves just the written entries. */
  lemma OverwriteAll(m: map<u32, DataText>, ls: seq<DataText>)
    requires DistinctIds(ls) && Ids(ls) == m.Keys
    ensures Overwrite(m, ls) == EntriesMap(ls)
  {
    OverwriteDistinct(m, ls);
    var o, e := Overwrite(m, ls), EntriesMap(ls);
    forall k | k in o
      ensures k in e && o[k] == e[k]
    {
      var i :| 0 <= i < |ls| && ls[i].ID == k;
    }
    assert o.Keys == e.Keys;
  }

  /** Entries listed by `ls`, one per id of `m`, with `m`'s texts. */
  lemma SameTexts(m: map<u32, DataText>, es: seq<DataText>, ls: seq<DataText>)
    requires ListsAll(es, m) && DistinctIds(ls) && |ls| == |es|
    requires forall i :: 0 <= i < |es| ==> ls[i].ID == es[i].ID && ls[i].Text == es[i].Text
    ensures Texts(EntriesMap(ls)) == Texts(m)
  {
    var e := EntriesMap(ls);
    forall k | k in m
      ensures k in e && e[k].Text == m[k].Text
    {
      var i :| 0 <= i < |es| && es[i].ID == k;
      assert ls[i].ID == k;
    }
    assert e.Keys == m.Keys;
  }

  /** After a complete `WriteTo` the dictionary holds exactly the laid-out
      entries, with the same texts under the same ids as before. */
  lemma WrittenContent(m: map<u32, DataText>, sorted: seq<DataText>)
    requires ListsAll(sorted, m) && HasTexts(sorted)
    ensures DistinctIds(Laid(sorted))
    ensures Overwrite(m, Laid(sorted)) == EntriesMap(Laid(sorted))
    ensures Texts(EntriesMap(Laid(sorted))) == Texts(m)
  {
    LaidFields(sorted);
    LaidIds(sorted);
    OverwriteAll(m, Laid(sorted));
    SameTexts(m, sorted, Laid(sorted));
  }

  /** Saving with `WriteTo` and loading the bytes with `TryParse`, into any
      object, restores the header `WriteTo` wrote and the dictionary it left,
      and so every id with its text, provided every text is shorter than
      65536 code units and the heap ends within `int.MaxValue` bytes. */
  lemma SaveThenLoad(m: map<u32, DataText>, sorted: seq<DataText>, st: State)
    requires ListsAll(sorted, m) && Storable(sorted)
    ensures var n := |sorted|;
            var r := Parse(Encode(n, ByteSize(n, sorted), UnitCount(n, sorted), Laid(sorted)), st);
            && r.0 && r.1.Records == n
            && r.1.something == ByteSize(n, sorted) && r.1.something2 == UnitCount(n, sorted)
            && r.1.content == Overwrite(m, Laid(sorted))
            && Texts(r.1.content) == Texts(m)
  {
    var n := |sorted|;
    RoundTrip(sorted, ByteSize(n, sorted), UnitCount(n, sorted), st);
    WrittenContent(m, sorted);
  }
}
