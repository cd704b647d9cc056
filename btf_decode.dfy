/** What `TryParse` makes of arbitrary bytes: the table it builds and the
    entries a successful parse leaves. */
module BtfDecode {
  import opened Common
  import opened Binary
  import opened BtfFormat

  /** The dictionary holds exactly the ids the table records name. */
  lemma {:induction false} TableIds(s: seq<byte>, n: nat)
    requires 12 + 10 * n <= |s|
    ensures forall i :: 0 <= i < n ==> RecordAt(s, i).ID in Table(s, n)
    ensures forall k :: k in Table(s, n) ==> exists i :: 0 <= i < n && RecordAt(s, i).ID == k
    decreases n
  {
    if n > 0 {
      TableIds(s, n - 1);
    }
  }

  /** Duplicate ids overwrite silently: a record whose id no later record
      repeats is the one stored under that id. */
  lemma {:induction false} TableLastWins(s: seq<byte>, n: nat, i: nat)
    requires 12 + 10 * n <= |s| && i < n
    requires forall j :: i < j < n ==> RecordAt(s, j).ID != RecordAt(s, i).ID
    ensures RecordAt(s, i).ID in Table(s, n) && Table(s, n)[RecordAt(s, i).ID] == RecordAt(s, i)
    decreases n
  {
    if i < n - 1 {
      TableLastWins(s, n - 1, i);
    }
  }

  /** Every entry whose text was read carries one of at most `Length`
      code units. */
  lemma FilledEntries(s: seq<byte>, heap: nat, t: map<u32, DataText>, ks: seq<u32>)
    requires forall k :: k in ks ==> k in t && !SeekFails(heap, t[k])
    requires forall k :: k in t ==> k in ks && t[k].ID == k
    ensures var c := Filled(s, heap, t, ks);
            forall k :: k in c ==> c[k].ID == k && c[k].Text.Some? && |c[k].Text.value| <= c[k].Length
  {
  }

  /** After a successful parse every entry is stored under its own id and
      carries a text of at most `Length` code units: shorter when the heap
      ends first, never an error. */
  lemma ParseEntries(s: seq<byte>, st: State)
    requires Parse(s, st).0
    ensures var c := Parse(s, st).1.content;
            forall k :: k in c ==> c[k].ID == k && c[k].Text.Some? && |c[k].Text.value| <= c[k].Length
  {
    var n: nat := BE32(s, 0);
    var heap := 12 + 10 * n;
    var t, ks := Table(s, n), Keys(s, n);
    ParseTextsOf(s, n, t, ks);
    var j := FirstSeekFailure(heap, t, ks);
    assert ks[..j] == ks;
    FilledEntries(s, heap, t, ks);
  }
}
