/** Table::order_by of src/order.rs: a copy of the table whose records are
    keyed, and so ordered, by their values in the named columns. */
module Order {
  import opened Wrappers
  import opened Keys
  import SortedMaps
  import Legacy
  import Tables

  /** Key::compound of a record's values at `indexes`, in that order. */
  function KeyOf(r: Legacy.Record, indexes: seq<nat>): (k: Key)
    ensures |k.values| == |indexes|
    ensures forall j :: 0 <= j < |indexes| ==> k.values[j] == Legacy.Get(r, indexes[j])
  {
    Key(seq(|indexes|, j requires 0 <= j < |indexes| => Legacy.Get(r, indexes[j])))
  }

  /** The records of a map, in its order. */
  function RecordsOf(entries: seq<(Key, Legacy.Record)>): (rs: seq<Legacy.Record>)
    ensures |rs| == |entries| && forall i :: 0 <= i < |entries| ==> rs[i] == entries[i].1
  {
    seq(|entries|, i requires 0 <= i < |entries| => entries[i].1)
  }

  /** The map that inserting the records in turn, each under its key,
      builds. */
  function Ordered(records: seq<Legacy.Record>, indexes: seq<nat>): seq<(Key, Legacy.Record)>
    decreases |records|
  {
    if |records| == 0 then []
    else
      var last := records[|records| - 1];
      SortedMaps.Insert(Ordered(records[..|records| - 1], indexes), KeyOf(last, indexes), last)
  }

  /** The result is in strictly increasing key order. */
  lemma {:induction false} OrderedSorted(records: seq<Legacy.Record>, indexes: seq<nat>)
    ensures SortedMaps.Sorted(Ordered(records, indexes))
    decreases |records|
  {
    if |records| > 0 {
      var last := records[|records| - 1];
      OrderedSorted(records[..|records| - 1], indexes);
      SortedMaps.InsertSorted(Ordered(records[..|records| - 1], indexes), KeyOf(last, indexes), last);
    }
  }

  /** The keys of a map. */
  function KeysOf<V>(m: seq<(Key, V)>): set<Key>
  {
    set i | 0 <= i < |m| :: m[i].0
  }

  /** The values of a map. */
  function ValuesOf<V>(m: seq<(Key, V)>): set<V>
  {
    set i | 0 <= i < |m| :: m[i].1
  }

  lemma EntriesCons<V>(e: (Key, V), m: seq<(Key, V)>)
    ensures KeysOf([e] + m) == {e.0} + KeysOf(m)
    ensures ValuesOf([e] + m) == {e.1} + ValuesOf(m)
  {
    var c := [e] + m;
    forall x | x in KeysOf(c)
      ensures x in {e.0} + KeysOf(m)
    {
      var i :| 0 <= i < |c| && c[i].0 == x;
      if i > 0 {
        assert m[i - 1].0 == x;
      }
    }
    forall x | x in KeysOf(m)
      ensures x in KeysOf(c)
    {
      var i :| 0 <= i < |m| && m[i].0 == x;
      assert c[i + 1].0 == x;
    }
    assert c[0].0 == e.0;
    forall x | x in ValuesOf(c)
      ensures x in {e.1} + ValuesOf(m)
    {
      var i :| 0 <= i < |c| && c[i].1 == x;
      if i > 0 {
        assert m[i - 1].1 == x;
      }
    }
    forall x | x in ValuesOf(m)
      ensures x in ValuesOf(c)
    {
      var i :| 0 <= i < |m| && m[i].1 == x;
      assert c[i + 1].1 == x;
    }
    assert c[0].1 == e.1;
  }

  /** Some key of `m` compares Equal to `k`. */
  ghost predicate Covered<V>(k: Key, m: seq<(Key, V)>)
  {
    exists key :: key in KeysOf(m) && Cmp(k, key) == Equal
  }

  /** Insertion keeps every key, holds one that compares Equal to the new
      key, and brings in no value but the new one. */
  lemma {:induction false} InsertEntries<V>(m: seq<(Key, V)>, k: Key, v: V)
    ensures KeysOf(m) <= KeysOf(SortedMaps.Insert(m, k, v))
    ensures Covered(k, SortedMaps.Insert(m, k, v))
    ensures ValuesOf(SortedMaps.Insert(m, k, v)) <= ValuesOf(m) + {v}
  {
    var r := SortedMaps.Insert(m, k, v);
    CmpSelf(k);
    if |m| > 0 {
      var tail := m[1..];
      assert m == [m[0]] + tail;
      EntriesCons(m[0], tail);
      match Cmp(k, m[0].0)
      case Greater =>
        InsertEntries(tail, k, v);
        EntriesCons(m[0], SortedMaps.Insert(tail, k, v));
      case Equal =>
        EntriesCons((m[0].0, v), tail);
        assert Cmp(k, m[0].0) == Equal && m[0].0 in KeysOf(r);
      case Less =>
        EntriesCons((k, v), m);
        assert k in KeysOf(r);
    } else {
      EntriesCons((k, v), m);
      assert k in KeysOf(r);
    }
  }

  /** Every record of the result is one of the table's records. */
  lemma {:induction false} OrderedFromRecords(records: seq<Legacy.Record>, indexes: seq<nat>)
    ensures ValuesOf(Ordered(records, indexes)) <= set r | r in records
    decreases |records|
  {
    if |records| > 0 {
      var init := records[..|records| - 1];
      var last := records[|records| - 1];
      OrderedFromRecords(init, indexes);
      InsertEntries(Ordered(init, indexes), KeyOf(last, indexes), last);
      assert forall r :: r in init ==> r in records;
    }
  }

  /** Each table record has an entry whose key compares Equal to its own:
      records with equal keys share one entry. */
  lemma {:induction false} OrderedCovers(records: seq<Legacy.Record>, indexes: seq<nat>)
    ensures forall i :: 0 <= i < |records| ==> Covered(KeyOf(records[i], indexes), Ordered(records, indexes))
    decreases |records|
  {
    if |records| > 0 {
      var init := records[..|records| - 1];
      var last := records[|records| - 1];
      var m := Ordered(init, indexes);
      OrderedCovers(init, indexes);
      InsertEntries(m, KeyOf(last, indexes), last);
      var m' := Ordered(records, indexes);
      forall i | 0 <= i < |records| - 1
        ensures Covered(KeyOf(records[i], indexes), m')
      {
        assert records[i] == init[i];
        var key :| key in KeysOf(m) && Cmp(KeyOf(init[i], indexes), key) == Equal;
        assert key in KeysOf(m');
      }
    }
  }

  /** order_by: the column indexes of the expression, then a copy of the
      table (same name and columns) holding the map built by inserting
      every record in key order under the compound key of its values at
      those indexes. The table itself is left as it is. */
  method OrderBy(t: Legacy.Table, expression: string) returns (r: Result<Legacy.Table>)
    requires t.Valid()
    ensures var indexes := Tables.Lookups(t.colsByName, Tables.ColumnNames(expression));
      && (r.Ok? <==> indexes.Ok?)
      && (r.Panic? ==> r.reason == indexes.reason)
      && (r.Ok? ==> r.value.records == Ordered(RecordsOf(t.records), indexes.value))
    ensures r.Ok? ==> fresh(r.value) && r.value.Valid()
    ensures r.Ok? ==> r.value.name == t.name && r.value.cols == t.cols && r.value.colsByName == t.colsByName
  {
    var indexes := Tables.Lookups(t.colsByName, Tables.ColumnNames(expression));
    if indexes.Panic? {
      return Panic(indexes.reason);
    }
    ghost var records := RecordsOf(t.records);
    var sorted := [];
    var i := 0;
    while i < |t.records|
      invariant i <= |t.records|
      invariant sorted == Ordered(records[..i], indexes.value)
    {
      var record := t.records[i].1;
      assert records[..i + 1][..i] == records[..i];
      sorted := SortedMaps.Insert(sorted, KeyOf(record, indexes.value), record);
      i := i + 1;
    }
    assert records[..i] == records;
    var ordered := t.EmptyCopy();
    ordered.records := sorted;
    r := Ok(ordered);
  }
}
