/** `BTF` of BTF.cs: the loaded container and the operations on it. */
module Btf {
  import opened Common
  import opened Binary
  import opened Chars
  import opened BtfFormat
  import opened BtfImport

  class BTF {
    var Records: u32
    var something: u32
    var something2: u32
    var content: map<u32, DataText>
    var Replaced: u32
    var Created: u32
    var Removed: u32

    /** Every entry is stored under its own id. */
    ghost predicate Valid()
      reads this
    {
      forall k :: k in content ==> content[k].ID == k
    }

    /** The fields `TryParse` and `WriteTo` assign. */
    function Snapshot(): State
      reads this
    {
      State(Records, something, something2, content)
    }

    constructor ()
      ensures Valid()
      ensures Snapshot() == State(0, 0, 0, map[])
      ensures Replaced == 0 && Created == 0 && Removed == 0
    {
      Records, something, something2 := 0, 0, 0;
      content := map[];
      Replaced, Created, Removed := 0, 0, 0;
    }

    /** `TryParse` on a stream holding the bytes `s`. */
    method TryParse(s: seq<byte>) returns (ok: bool)
      requires Valid()
      modifies this
      ensures Valid()
      ensures var p := Parse(s, old(Snapshot()));
              && ok == p.0 && Records == p.1.Records && something == p.1.something
              && something2 == p.1.something2 && content == p.1.content
      ensures Replaced == old(Replaced) && Created == old(Created) && Removed == old(Removed)
    {
      // br.ReadBytes(12) returns fewer bytes at the end of the stream; the
      // indexing into the header then throws.
      var header := s[..Min(12, |s|)];
      if |header| < 4 { return false; }
      Records := BE32(header, 0);
      assert Records == BE32(s, 0);
      if |header| < 8 { return false; }
      something := BE32(header, 4);
      assert something == BE32(s, 4);
      if |header| < 12 { return false; }
      something2 := BE32(header, 8);
      assert something2 == BE32(s, 8);
      // new Dictionary<uint, DataText>((int)Records) throws on a negative capacity
      if Records > 0x7FFF_FFFF { return false; }
      ok := ReadBody(s);
    }

    /** The two loops of `TryParse`, once the header is read. */
    method ReadBody(s: seq<byte>) returns (ok: bool)
      requires 12 <= |s| && Records <= 0x7FFF_FFFF
      modifies this`content
      ensures ok == ParseBody(s, Records).0 && content == ParseBody(s, Records).1
      ensures forall k :: k in content ==> content[k].ID == k
    {
      var complete, keys := ReadRecords(s);
      if !complete { return false; }
      var n: nat := Records;
      var heap: nat := 12 + 10 * n;
      ParseTextsOf(s, n, content, keys);
      ok := ReadTexts(s, heap, keys);
    }

    /** The first loop of `TryParse`: a fresh dictionary filled with
        `Records` records read from byte 12 on, until the stream ends. */
    method ReadRecords(s: seq<byte>) returns (complete: bool, keys: seq<u32>)
      requires 12 <= |s| && Records <= 0x7FFF_FFFF
      modifies this`content
      ensures complete <==> 12 + 10 * Records <= |s|
      ensures complete ==> content == Table(s, Records) && keys == Keys(s, Records)
      ensures !complete ==> content == Table(s, (|s| - 12) / 10)
    {
      content := map[];
      keys := [];
      var pos := 12;
      var i := 0;
      while i < Records
        invariant 0 <= i <= Records
        invariant pos == 12 + 10 * i <= |s|
        invariant content == Table(s, i) && keys == Keys(s, i)
      {
        // ReadByte throws at the end of the stream
        if pos + 10 > |s| {
          WholeRecords(|s| - 12, i);
          return false, keys;
        }
        var t := DataText(BE32(s, pos), BE32(s, pos + 4), BE16(s, pos + 8), None);
        pos := pos + 10;
        if t.ID !in content { keys := keys + [t.ID]; }
        content := content[t.ID := t];
        i := i + 1;
      }
      complete := true;
    }

    /** The second loop of `TryParse`: the text of every entry, in the
        dictionary's enumeration order `keys`, read from the heap at `heap`. */
    method ReadTexts(s: seq<byte>, heap: nat, keys: seq<u32>) returns (ok: bool)
      requires forall k :: k in keys ==> k in content
      requires forall i, j :: 0 <= i < j < |keys| ==> keys[i] != keys[j]
      modifies this`content
      ensures var j := FirstSeekFailure(heap, old(content), keys);
              ok == (j == |keys|) && content == Filled(s, heap, old(content), keys[..j])
    {
      ghost var table := content;
      FilledNone(s, heap, table);
      for j := 0 to |keys|
        invariant forall q :: 0 <= q < j ==> !SeekFails(heap, table[keys[q]])
        invariant content == Filled(s, heap, table, keys[..j])
      {
        assert keys[j] !in keys[..j];
        assert content[keys[j]] == table[keys[j]];
        var v := content[keys[j]];
        var at := heap + (v.Location * 2) % TWO32;
        if at > SEEK_LIMIT {
          FirstSeekFailureAt(heap, table, keys, j);
          return false;
        }
        assert keys[..j + 1] == keys[..j] + [keys[j]];
        FilledStep(s, heap, table, keys[..j], keys[j]);
        content := content[keys[j] := v.(Text := Some(ReadChars(s, at, v.Length)))];
      }
      FirstSeekFailureAt(heap, table, keys, |keys|);
      assert keys[..|keys|] == keys;
      ok := true;
    }

    /** `content.Values.OrderBy(x => x.Location).ToArray()`. Entries with
        equal locations come out in some order. */
    method OrderByLocation() returns (order: seq<DataText>)
      requires Valid()
      ensures SortedByLocation(order) && ListsAll(order, content)
    {
      var m := content;
      var rest := m.Keys;
      order := [];
      while rest != {}
        invariant Ids(order) + rest == m.Keys && Ids(order) !! rest
        invariant ListsSome(order, m)
        invariant SortedByLocation(order)
        invariant forall i, k :: 0 <= i < |order| && k in rest ==> order[i].Location <= m[k].Location
        decreases |rest|
      {
        MinLocationExists(m, rest);
        var k :| k in rest && forall q :: q in rest ==> m[k].Location <= m[q].Location;
        SortStep(m, order, rest, k);
        order := order + [m[k]];
        rest := rest - {k};
      }
    }

    /** `WriteTo`: lays the entries out in ascending order of their current
        `Location` (updating `Location`, `Length` and the header fields in
        place), then emits header, table and heap. `written` is what reaches
        the stream, `None` when an entry without a text makes the first loop
        throw; `sorted` is the order the entries were taken in. */
    method WriteTo() returns (written: Option<seq<byte>>, ghost sorted: seq<DataText>)
      requires Valid()
      modifies this`Records, this`something, this`something2, this`content
      ensures Valid()
      ensures SortedByLocation(sorted) && ListsAll(sorted, old(content))
      ensures Records == |sorted| % TWO32
      ensures var j := FirstMissingText(sorted);
              && (j == |sorted| ==> content == Overwrite(old(content), Laid(sorted)))
              && (j < |sorted| ==> content == Overwrite(old(content), Laid(sorted[..j]))[sorted[j].ID := Stranded(sorted, j)])
              && something == ByteSize(Records, sorted[..j])
              && something2 == UnitCount(Records, sorted[..j])
      ensures written.Some? <==> HasTexts(sorted)
      ensures written.Some? ==> written.value == Encode(Records, something, something2, Laid(sorted))
    {
      var order := OrderByLocation();
      sorted := order;
      var laid := Layout(order);
      if laid.None? { return None, sorted; }
      var out := Emit(laid.value);
      written := Some(out);
    }

    /** The first loop of `WriteTo` over the sorted entries `order`: the
        header fields and the running location, with every entry's
        `Location` and `Length` assigned in place. `None` when an entry has
        no text. */
    method Layout(order: seq<DataText>) returns (laid: Option<seq<DataText>>)
      requires Valid()
      modifies this`Records, this`something, this`something2, this`content
      ensures Valid()
      ensures Records == |order| % TWO32
      ensures var j := FirstMissingText(order);
              && (j == |order| ==> content == Overwrite(old(content), Laid(order)))
              && (j < |order| ==> content == Overwrite(old(content), Laid(order[..j]))[order[j].ID := Stranded(order, j)])
              && something == ByteSize(Records, order[..j])
              && something2 == UnitCount(Records, order[..j])
      ensures laid.Some? <==> HasTexts(order)
      ensures laid.Some? ==> laid.value == Laid(order)
    {
      var n: nat := |order|;
      var records: nat := n % TWO32;
      var i, entries, m, size, units := LayOutLoop(content, records, order);
      FirstMissingTextAt(order, i);
      Records, something, something2, content := records, size, units, m;
      if i < n {
        laid := None;
      } else {
        assert order[..n] == order;
        laid := Some(entries);
      }
    }

    /** The two writing loops of `WriteTo` and the header before them: the
        bytes that reach the stream for the laid-out entries `order`. */
    method Emit(order: seq<DataText>) returns (out: seq<byte>)
      requires HasTexts(order)
      ensures out == Encode(Records, something, something2, order)
    {
      out := U32Bytes(Records) + U32Bytes(something) + U32Bytes(something2);
      for i := 0 to |order|
        invariant out == HeaderBytes(Records, something, something2) + TableBytes(order[..i])
      {
        assert order[..i + 1][..i] == order[..i];
        out := out + U32Bytes(order[i].ID) + U32Bytes(order[i].Location) + U16Bytes(order[i].Length);
      }
      assert order[..|order|] == order;
      ghost var table := out;
      for i := 0 to |order|
        invariant out == table + HeapBytes(order[..i])
      {
        assert order[..i + 1][..i] == order[..i];
        out := out + UnitsBytes(order[i].Text.value) + [0, 0];
      }
      assert order[..|order|] == order;
    }

    /** `Export`: every id with its text, in ascending order of `Location`
        (the enumeration order of the dictionary `ToDictionary` builds). */
    method Export() returns (r: seq<Update>)
      requires Valid()
      ensures DistinctKeys(r) && DataKeys(r) == content.Keys
      ensures forall i :: 0 <= i < |r| ==> r[i].0 in content && r[i].1 == content[r[i].0].Text
      ensures forall i, j :: 0 <= i < j < |r| ==> content[r[i].0].Location <= content[r[j].0].Location
    {
      var order := OrderByLocation();
      r := [];
      for i := 0 to |order|
        invariant |r| == i
        invariant forall j :: 0 <= j < i ==> r[j] == (order[j].ID, order[j].Text)
      {
        r := r + [(order[i].ID, order[i].Text)];
      }
      assert DataKeys(r) == Ids(order) by {
        forall k | k in Ids(order) ensures k in DataKeys(r) {
          var j :| 0 <= j < |order| && order[j].ID == k;
          assert r[j].0 == k;
        }
      }
    }

    /** `content.Max(a => a.Value.Location)`. */
    method LargestLocation() returns (r: u32)
      requires content != map[]
      ensures r == MaxLocation(content)
    {
      var m := content;
      var rest := m.Keys;
      var k0 :| k0 in rest;
      ghost var arg := k0;
      r := m[k0].Location;
      rest := rest - {k0};
      while rest != {}
        invariant rest <= m.Keys && arg in m && m[arg].Location == r
        invariant forall q :: q in m && q !in rest ==> m[q].Location <= r
        decreases |rest|
      {
        var k :| k in rest;
        if m[k].Location > r {
          r := m[k].Location;
          arg := k;
        }
        rest := rest - {k};
      }
      var top := MaxKey(m);
      assert m[top].Location <= r;
    }

    /** `Import`: merges `data` into the dictionary, one update at a time,
        and counts the updates of each kind (as `uint`). */
    method Import(data: seq<Update>)
      requires Valid() && DistinctKeys(data)
      modifies this`content, this`Replaced, this`Created, this`Removed
      ensures Valid()
      ensures content == ImportAll(old(content), data)
      ensures Replaced == CountOf(old(content), data, Replace) % TWO32
      ensures Removed == CountOf(old(content), data, Remove) % TWO32
      ensures Created == CountOf(old(content), data, Create) % TWO32
    {
      Replaced, Created, Removed := 0, 0, 0;
      for i := 0 to |data|
        invariant Valid()
        invariant content == ImportAll(old(content), data[..i])
        invariant Replaced == CountOf(old(content), data[..i], Replace) % TWO32
        invariant Removed == CountOf(old(content), data[..i], Remove) % TWO32
        invariant Created == CountOf(old(content), data[..i], Create) % TWO32
      {
        ImportStep(old(content), data, i);
        CountStep(old(content), data, i, Replace);
        CountStep(old(content), data, i, Remove);
        CountStep(old(content), data, i, Create);
        ImportOne(data[i].0, data[i].1);
      }
      assert data[..|data|] == data;
    }

    /** The body of `Import`'s loop for one update. */
    method ImportOne(key: u32, value: Option<Text>)
      requires Valid()
      modifies this`content, this`Replaced, this`Created, this`Removed
      ensures Valid()
      ensures content == Apply(old(content), key, value)
      ensures var o := Classify(old(content), key, value);
              && Replaced == (old(Replaced) + if o == Replace then 1 else 0) % TWO32
              && Removed == (old(Removed) + if o == Remove then 1 else 0) % TWO32
              && Created == (old(Created) + if o == Create then 1 else 0) % TWO32
    {
      if key in content {
        if !IsNullOrWhiteSpace(value) {
          content := content[key := content[key].(Text := value)];
          Replaced := (Replaced + 1) % TWO32;
        } else {
          content := content - {key};
          Removed := (Removed + 1) % TWO32;
        }
      } else {
        if !IsNullOrWhiteSpace(value) {
          var location: u32;
          if |content| == 0 {
            location := 1;
          } else {
            var top := LargestLocation();
            location := (top + 1) % TWO32;
          }
          content := content[key := DataText(key, location, 0, value)];
          Created := (Created + 1) % TWO32;
        }
      }
    }
  }

  /** The first loop of `WriteTo` over the sorted entries `order` under a
      header of `records` records, run on locals: it stops at `i`, the first
      entry without a text, or at the end. `entries` are the entries with
      `Location` and `Length` assigned so far, `m` the dictionary `m0` once
      those assignments reach the shared entries, `size` and `units` the
      running `something` and `something2`. An entry without a text still
      gets its `Location` before the loop stops at it. */
  method LayOutLoop(m0: map<u32, DataText>, records: nat, order: seq<DataText>)
    returns (i: nat, entries: seq<DataText>, m: map<u32, DataText>, size: u32, units: u32)
    requires forall k :: k in m0 ==> m0[k].ID == k
    ensures i <= |order| && HasTexts(order[..i]) && (i < |order| ==> order[i].Text.None?)
    ensures i == |order| ==> entries == Laid(order) && m == Overwrite(m0, Laid(order))
    ensures i < |order| ==>
              && entries == (Laid(order[..i]) + order[i..])[i := Stranded(order, i)]
              && m == Overwrite(m0, Laid(order[..i]))[order[i].ID := Stranded(order, i)]
    ensures forall k :: k in m ==> m[k].ID == k
    ensures size == ByteSize(records, order[..i]) && units == UnitCount(records, order[..i])
  {
    var n: nat := |order|;
    size := (12 + records * 10) % TWO32;
    units := records % TWO32;
    var loc: u32 := 0;
    m := m0;
    entries := order;
    assert order[..0] == [];
    // the loop stops where `v.Text.Length` would throw
    i := 0;
    while i < n && entries[i].Text.Some?
      invariant i <= n && |entries| == n && HasTexts(order[..i])
      invariant entries == Laid(order[..i]) + order[i..]
      invariant loc == HeapUnits(order[..i]) % TWO32
      invariant size == ByteSize(records, order[..i])
      invariant units == UnitCount(records, order[..i])
      invariant m == Overwrite(m0, Laid(order[..i]))
      invariant forall k :: k in m ==> m[k].ID == k
    {
      entries, m, loc, size, units := LayOutOne(m0, records, order, i, entries, m, loc, size, units);
      i := i + 1;
    }
    if i < n {
      // `v.Location = loc` runs before `v.Text.Length` throws
      var v := entries[i].(Location := loc);
      entries := entries[i := v];
      m := m[v.ID := v];
    } else {
      assert order[..n] == order;
    }
  }

  /** One round of the first loop of `WriteTo`: entry `i` gets the running
      location and its stored length, and the three counters advance. */
  method LayOutOne(m0: map<u32, DataText>, records: nat, order: seq<DataText>, i: nat,
                   entries: seq<DataText>, m: map<u32, DataText>, loc: u32, size: u32, units: u32)
    returns (entries': seq<DataText>, m': map<u32, DataText>, loc': u32, size': u32, units': u32)
    requires i < |order| && HasTexts(order[..i]) && order[i].Text.Some?
    requires entries == Laid(order[..i]) + order[i..] && m == Overwrite(m0, Laid(order[..i]))
    requires loc == HeapUnits(order[..i]) % TWO32
    requires size == ByteSize(records, order[..i]) && units == UnitCount(records, order[..i])
    ensures HasTexts(order[..i + 1])
    ensures entries' == Laid(order[..i + 1]) + order[i + 1..] && m' == Overwrite(m0, Laid(order[..i + 1]))
    ensures m' == m[order[i].ID := entries'[i]]
    ensures loc' == HeapUnits(order[..i + 1]) % TWO32
    ensures size' == ByteSize(records, order[..i + 1]) && units' == UnitCount(records, order[..i + 1])
  {
    LayoutStep(m0, order, i);
    CountersStep(records, order, i);
    var v := entries[i];
    assert v == order[i];
    var length: nat := |v.Text.value| % TWO16;
    v := v.(Location := loc, Length := length);
    entries' := entries[i := v];
    m' := m[v.ID := v];
    loc' := (loc + (length + 1)) % TWO32;
    size' := (size + (length + 1) * 2) % TWO32;
    units' := (units + length) % TWO32;
  }
}
