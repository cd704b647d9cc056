/** What `BTF.Import` does to the dictionary: a sparse overlay of id → text,
    each update falling into one of four cases. `data` is the imported
    `Dictionary<uint, string>` in its enumeration order; `None` is a null
    string. */
module BtfImport {
  import opened Common
  import opened Chars
  import opened BtfFormat

  type Update = (u32, Option<Text>)

  /** The keys of a dictionary are distinct. */
  predicate DistinctKeys(data: seq<Update>)
  {
    forall i, j :: 0 <= i < j < |data| ==> data[i].0 != data[j].0
  }

  function DataKeys(data: seq<Update>): set<u32>
  {
    set i | 0 <= i < |data| :: data[i].0
  }

  /** The four branches of the loop body. */
  datatype Outcome = Replace | Remove | Create | Ignore

  function Classify(m: map<u32, DataText>, id: u32, value: Option<Text>): Outcome
  {
    if id in m then
      if !IsNullOrWhiteSpace(value) then Replace else Remove
    else
      if !IsNullOrWhiteSpace(value) then Create else Ignore
  }

  /** A key of `m` whose entry has the greatest `Location`. */
  ghost function MaxKey(m: map<u32, DataText>): (k: u32)
    requires m != map[]
    ensures k in m && forall q :: q in m ==> m[q].Location <= m[k].Location
  {
    MaxLocationExists(m, m.Keys);
    var k :| k in m && forall q :: q in m ==> m[q].Location <= m[k].Location;
    k
  }

  /** `content.Max(a => a.Value.Location)`. */
  ghost function MaxLocation(m: map<u32, DataText>): u32
    requires m != map[]
  {
    m[MaxKey(m)].Location
  }

  lemma MaxLocationExists(m: map<u32, DataText>, ks: set<u32>)
    requires ks != {} && ks <= m.Keys
    ensures exists k :: k in ks && forall q :: q in ks ==> m[q].Location <= m[k].Location
    decreases |ks|
  {
    var k0 :| k0 in ks;
    var rest := ks - {k0};
    if rest == {} {
      assert ks == {k0};
    } else {
      MaxLocationExists(m, rest);
      var k1 :| k1 in rest && forall q :: q in rest ==> m[q].Location <= m[k1].Location;
      var k := if m[k1].Location <= m[k0].Location then k0 else k1;
      forall q | q in ks ensures m[q].Location <= m[k].Location {
        if q != k0 { assert q in rest; }
      }
    }
  }

  /** The placeholder location of a created entry:
      `content.Count == 0 ? 1 : content.Max(...) + 1`, as `uint`. */
  ghost function NextLocation(m: map<u32, DataText>): u32
  {
    if m == map[] then 1 else (MaxLocation(m) + 1) % TWO32
  }

  /** One round of the loop. */
  ghost function Apply(m: map<u32, DataText>, id: u32, value: Option<Text>): map<u32, DataText>
  {
    match Classify(m, id, value)
    case Replace => m[id := m[id].(Text := value)]
    case Remove => m - {id}
    case Create => m[id := DataText(id, NextLocation(m), 0, value)]
    case Ignore => m
  }

  /** The dictionary after the whole loop. */
  ghost function ImportAll(m: map<u32, DataText>, data: seq<Update>): map<u32, DataText>
    decreases |data|
  {
    if data == [] then m
    else
      var last := data[|data| - 1];
      Apply(ImportAll(m, data[..|data| - 1]), last.0, last.1)
  }

  /** How many updates of `data` fall into case `o` against the dictionary
      `m` they start from. */
  function CountOf(m: map<u32, DataText>, data: seq<Update>, o: Outcome): (n: nat)
    ensures n <= |data|
    decreases |data|
  {
    if data == [] then 0
    else
      var last := data[|data| - 1];
      CountOf(m, data[..|data| - 1], o) + if Classify(m, last.0, last.1) == o then 1 else 0
  }

  // ---------------------------------------------------------------- lemmas

  /** Every update falls into exactly one case, so the three counters add
      up to at most the number of updates. */
  lemma {:induction false} CountsAddUp(m: map<u32, DataText>, data: seq<Update>)
    ensures CountOf(m, data, Replace) + CountOf(m, data, Remove) + CountOf(m, data, Create)
            + CountOf(m, data, Ignore) == |data|
    ensures CountOf(m, data, Replace) + CountOf(m, data, Remove) + CountOf(m, data, Create) <= |data|
    decreases |data|
  {
    if data != [] {
      CountsAddUp(m, data[..|data| - 1]);
    }
  }

  /** A round leaves the entries under other ids alone. */
  lemma ApplyOther(m: map<u32, DataText>, id: u32, value: Option<Text>, k: u32)
    requires k != id
    ensures k in Apply(m, id, value) <==> k in m
    ensures k in m ==> Apply(m, id, value)[k] == m[k]
  {
  }

  /** An id `data` does not mention keeps its entry, or its absence. */
  lemma {:induction false} ImportUntouched(m: map<u32, DataText>, data: seq<Update>, k: u32)
    requires k !in DataKeys(data)
    ensures k in ImportAll(m, data) <==> k in m
    ensures k in m ==> ImportAll(m, data)[k] == m[k]
    decreases |data|
  {
    if data != [] {
      var init := data[..|data| - 1];
      assert DataKeys(init) <= DataKeys(data) by {
        forall i | 0 <= i < |init| ensures init[i].0 in DataKeys(data) {
          assert init[i] == data[i];
        }
      }
      assert data[|data| - 1].0 in DataKeys(data);
      ImportUntouched(m, init, k);
      ApplyOther(ImportAll(m, init), data[|data| - 1].0, data[|data| - 1].1, k);
    }
  }

  /** Importing `a + b` is importing `a`, then `b`. */
  lemma {:induction false} ImportAppend(m: map<u32, DataText>, a: seq<Update>, b: seq<Update>)
    ensures ImportAll(m, a + b) == ImportAll(ImportAll(m, a), b)
    decreases |b|
  {
    if b == [] {
      assert a + b == a;
    } else {
      assert (a + b)[..|a + b| - 1] == a + b[..|b| - 1];
      ImportAppend(m, a, b[..|b| - 1]);
    }
  }

  /** What update `i` finds: its id is as it was in `m`, since no earlier
      update has the same id. */
  lemma ImportPrefixUntouched(m: map<u32, DataText>, data: seq<Update>, i: nat)
    requires DistinctKeys(data) && i < |data|
    ensures data[i].0 in ImportAll(m, data[..i]) <==> data[i].0 in m
    ensures data[i].0 in m ==> ImportAll(m, data[..i])[data[i].0] == m[data[i].0]
  {
    var init := data[..i];
    assert data[i].0 !in DataKeys(init) by {
      forall j | 0 <= j < |init| ensures init[j].0 != data[i].0 {
        assert init[j] == data[j];
      }
    }
    ImportUntouched(m, init, data[i].0);
  }

  /** The dictionary before update `i`, from update `i` on. */
  lemma ImportSplit(m: map<u32, DataText>, data: seq<Update>, i: nat)
    requires i < |data|
    ensures ImportAll(m, data) == ImportAll(ImportAll(m, data[..i + 1]), data[i + 1..])
    ensures ImportAll(m, data[..i + 1]) == Apply(ImportAll(m, data[..i]), data[i].0, data[i].1)
  {
    assert data == data[..i + 1] + data[i + 1..];
    ImportAppend(m, data[..i + 1], data[i + 1..]);
    assert data[..i + 1][..i] == data[..i];
  }

  /** Nothing touches update `i`'s id after it. */
  lemma ImportSuffixUntouched(m: map<u32, DataText>, data: seq<Update>, i: nat)
    requires DistinctKeys(data) && i < |data|
    ensures var k, s, r := data[i].0, ImportAll(m, data[..i + 1]), ImportAll(m, data);
            && (k in r <==> k in s) && (k in s ==> r[k] == s[k])
  {
    ImportSplit(m, data, i);
    var rest := data[i + 1..];
    assert data[i].0 !in DataKeys(rest) by {
      forall j | 0 <= j < |rest| ensures rest[j].0 != data[i].0 {
        assert rest[j] == data[i + 1 + j];
      }
    }
    ImportUntouched(ImportAll(m, data[..i + 1]), rest, data[i].0);
  }

  /** One round of the loop: update `i` meets its id as `m` had it. */
  lemma ImportStep(m: map<u32, DataText>, data: seq<Update>, i: nat)
    requires DistinctKeys(data) && i < |data|
    ensures var s, k, v := ImportAll(m, data[..i]), data[i].0, data[i].1;
            && ImportAll(m, data[..i + 1]) == Apply(s, k, v)
            && (k in s <==> k in m)
  {
    ImportPrefixUntouched(m, data, i);
    ImportSplit(m, data, i);
  }

  /** One round of the loop on counter `o`, as `uint`. */
  lemma CountStep(m: map<u32, DataText>, data: seq<Update>, i: nat, o: Outcome)
    requires i < |data|
    ensures CountOf(m, data[..i + 1], o) % TWO32
            == (CountOf(m, data[..i], o) % TWO32 + if Classify(m, data[i].0, data[i].1) == o then 1 else 0) % TWO32
  {
    assert data[..i + 1][..i] == data[..i];
    ModAdd(CountOf(m, data[..i], o), if Classify(m, data[i].0, data[i].1) == o then 1 else 0);
  }

  /** The outcome for each imported id, against the dictionary it started from. */
  lemma ImportEffect(m: map<u32, DataText>, data: seq<Update>, i: nat)
    requires DistinctKeys(data) && i < |data|
    ensures var k, v, r := data[i].0, data[i].1, ImportAll(m, data);
            match Classify(m, k, v)
            case Replace => k in r && r[k] == m[k].(Text := v)
            case Remove => k !in r
            case Create => k in r && r[k].ID == k && r[k].Length == 0 && r[k].Text == v
                           && r[k].Location == NextLocation(ImportAll(m, data[..i]))
            case Ignore => k !in r
  {
    ImportPrefixUntouched(m, data, i);
    ImportSplit(m, data, i);
    ImportSuffixUntouched(m, data, i);
  }

  /** The highest location `m` holds, or 0. */
  ghost function Base(m: map<u32, DataText>): nat
  {
    if m == map[] then 0 else MaxLocation(m)
  }

  /** Location values grow by at most one per update. */
  lemma {:induction false} ImportLocationBound(m: map<u32, DataText>, data: seq<Update>)
    requires Base(m) + |data| < TWO32
    ensures forall q :: q in ImportAll(m, data) ==> ImportAll(m, data)[q].Location <= Base(m) + |data|
    decreases |data|
  {
    if data == [] {
      if m != map[] {
        var k := MaxKey(m);
      }
    } else {
      var init := data[..|data| - 1];
      ImportLocationBound(m, init);
      var s := ImportAll(m, init);
      if s != map[] {
        var k := MaxKey(s);
        assert s[k].Location <= Base(m) + |init|;
      }
    }
  }

  /** An entry of `m` that survives the import keeps its location: its only
      update, if any, replaced its text. */
  lemma {:induction false} ImportKeepsLocation(m: map<u32, DataText>, data: seq<Update>, q: u32)
    requires DistinctKeys(data)
    requires q in m && q in ImportAll(m, data)
    ensures ImportAll(m, data)[q].Location == m[q].Location
    decreases |data|
  {
    if data != [] {
      var init := data[..|data| - 1];
      var last := data[|data| - 1];
      var s := ImportAll(m, init);
      assert DistinctKeys(init);
      if last.0 == q {
        ImportPrefixUntouched(m, data, |data| - 1);
      } else {
        ApplyOther(s, last.0, last.1, q);
        ImportKeepsLocation(m, init, q);
      }
    }
  }

  /** Barring `uint` wrap-around, a created entry gets a location above
      every entry present when it is created, so above every surviving
      entry of `m`; `WriteTo` then lays it out after them. */
  lemma ImportCreatedAfterSurvivors(m: map<u32, DataText>, data: seq<Update>, i: nat, q: u32)
    requires DistinctKeys(data) && i < |data| && Base(m) + |data| < TWO32 - 1
    requires Classify(m, data[i].0, data[i].1) == Create
    requires q in m && q in ImportAll(m, data)
    ensures data[i].0 in ImportAll(m, data)
    ensures ImportAll(m, data)[q].Location < ImportAll(m, data)[data[i].0].Location
  {
    var r := ImportAll(m, data);
    var s := ImportAll(m, data[..i]);
    ImportEffect(m, data, i);
    ImportKeepsLocation(m, data, q);
    PresentBefore(m, data, i, q);
    ImportKeepsLocation(m, data[..i], q);
    ImportLocationBound(m, data[..i]);
    var k := MaxKey(s);
    assert s[q].Location <= s[k].Location;
  }

  /** An entry of `m` present at the end was present all along. */
  lemma {:induction false} PresentBefore(m: map<u32, DataText>, data: seq<Update>, i: nat, q: u32)
    requires DistinctKeys(data) && i <= |data|
    requires q in m && q in ImportAll(m, data)
    ensures q in ImportAll(m, data[..i])
    decreases |data|
  {
    if i == |data| {
      assert data[..i] == data;
    } else {
      var init := data[..|data| - 1];
      var last := data[|data| - 1];
      if last.0 == q {
        ImportPrefixUntouched(m, data, |data| - 1);
      } else {
        ApplyOther(ImportAll(m, init), last.0, last.1, q);
      }
      assert init[..i] == data[..i];
      PresentBefore(m, init, i, q);
    }
  }

  /** Barring `uint` wrap-around, entries created later get higher
      locations: `WriteTo` keeps them in creation order. */
  lemma ImportCreationOrder(m: map<u32, DataText>, data: seq<Update>, i: nat, j: nat)
    requires DistinctKeys(data) && i < j < |data| && Base(m) + |data| < TWO32 - 1
    requires Classify(m, data[i].0, data[i].1) == Create
    requires Classify(m, data[j].0, data[j].1) == Create
    ensures data[i].0 in ImportAll(m, data) && data[j].0 in ImportAll(m, data)
    ensures ImportAll(m, data)[data[i].0].Location < ImportAll(m, data)[data[j].0].Location
  {
    ImportEffect(m, data, i);
    ImportEffect(m, data, j);
    var sj := ImportAll(m, data[..j]);
    StillThere(m, data, i, j);
    ImportLocationBound(m, data[..j]);
    var k := MaxKey(sj);
    assert sj[data[i].0].Location <= sj[k].Location;
  }

  /** The entry update `i` leaves is there unchanged when a later update `j` runs. */
  lemma StillThere(m: map<u32, DataText>, data: seq<Update>, i: nat, j: nat)
    requires DistinctKeys(data) && i < j < |data| && data[i].0 in ImportAll(m, data)
    ensures data[i].0 in ImportAll(m, data[..j])
    ensures ImportAll(m, data[..j])[data[i].0] == ImportAll(m, data)[data[i].0]
  {
    var dj := data[..j];
    assert dj[..i + 1] == data[..i + 1];
    ImportSuffixUntouched(m, dj, i);
    ImportSuffixUntouched(m, data, i);
  }
}
