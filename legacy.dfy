/** The older in-memory table of src/lib.rs: records of values kept in a
    BTreeMap under row-number keys, with the same column bookkeeping as
    src/table.rs. */
module Legacy {
  import opened Wrappers
  import opened Strings
  import V = Values
  import opened Keys
  import SortedMaps
  import Columns
  import Tables

  datatype Record = Record(values: seq<V.Value>)

  /** Record::default: no values. */
  function Default(): Record
  {
    Record([])
  }

  function LenOf(vs: seq<V.Value>, render: V.F64 -> string): nat
  {
    if |vs| == 0 then 0 else V.Len(vs[0], render) + LenOf(vs[1..], render)
  }

  /** Record::len: the sum of the lengths of the values. */
  function Len(r: Record, render: V.F64 -> string): nat
  {
    LenOf(r.values, render)
  }

  lemma {:induction false} LenOfAppend(a: seq<V.Value>, b: seq<V.Value>, render: V.F64 -> string)
    ensures LenOf(a + b, render) == LenOf(a, render) + LenOf(b, render)
  {
    if |a| > 0 {
      assert (a + b)[1..] == a[1..] + b;
      LenOfAppend(a[1..], b, render);
    } else {
      assert a + b == b;
    }
  }

  /** Record::add_value: the value goes at the end. */
  function AddValue(r: Record, v: V.Value): (s: Record)
    ensures s.values == r.values + [v]
  {
    Record(r.values + [v])
  }

  /** Record::get: the value at `index`, and NULL past the last value. */
  function Get(r: Record, index: nat): (v: V.Value)
    ensures index < |r.values| ==> v == r.values[index]
    ensures index >= |r.values| ==> v == V.Null
  {
    if index < |r.values| then r.values[index] else V.Null
  }

  /** `&a + &b`: the values of `a`, then those of `b`. */
  function Add(a: Record, b: Record): (s: Record)
    ensures s.values == a.values + b.values
  {
    var sum := Default();
    Record(sum.values + a.values + b.values)
  }

  /** A value added last is read back at the old length, the earlier ones
      are unchanged, and the length grows by the value's length. */
  lemma AddValueGet(r: Record, v: V.Value, index: nat, render: V.F64 -> string)
    ensures Get(AddValue(r, v), |r.values|) == v
    ensures index != |r.values| ==> Get(AddValue(r, v), index) == Get(r, index)
    ensures Len(AddValue(r, v), render) == Len(r, render) + V.Len(v, render)
  {
    LenOfAppend(r.values, [v], render);
    assert LenOf([v], render) == V.Len(v, render) + LenOf([], render);
  }

  /** The sum reads as `a` over `a`'s indexes and as `b` after them, and
      its length is the sum of the lengths. */
  lemma AddGet(a: Record, b: Record, index: nat, render: V.F64 -> string)
    ensures Get(Add(a, b), index) == if index < |a.values| then Get(a, index) else Get(b, index - |a.values|)
    ensures Len(Add(a, b), render) == Len(a, render) + Len(b, render)
  {
    LenOfAppend(a.values, b.values, render);
  }

  /** The keys are the row-number keys 0, 1, 2, ... in order: the map
      `add_record` builds. */
  ghost predicate Numbered(records: seq<(Key, Record)>)
  {
    SortedMaps.NumberedFrom(records, 0)
  }

  /** Matches(r, colindex, value): the record holds `value` in that column. */
  predicate Matches(r: Record, colindex: nat, value: V.Value)
  {
    V.Eq(Get(r, colindex), value)
  }

  /** The record at `i` is the first in key order to match. */
  predicate FirstMatch(records: seq<(Key, Record)>, i: nat, colindex: nat, value: V.Value)
  {
    i < |records| && Matches(records[i].1, colindex, value)
    && forall j :: 0 <= j < i ==> !Matches(records[j].1, colindex, value)
  }

  class Table {
    const name: string
    var colsByName: map<string, nat>
    var cols: seq<string>
    /** The BTreeMap of the records, in key order. */
    var records: seq<(Key, Record)>

    ghost predicate Valid()
      reads this
    {
      Tables.Registered(cols, colsByName)
    }

    /** Table::new: no columns and no records. */
    constructor (name: string)
      ensures Valid() && this.name == name && cols == [] && colsByName == map[] && records == []
    {
      this.name := name;
      colsByName := map[];
      cols := [];
      records := [];
    }

    /** empty_copy: the same name and columns, with no records. */
    method EmptyCopy() returns (t: Table)
      requires Valid()
      ensures fresh(t) && t.Valid()
      ensures t.name == name && t.cols == cols && t.colsByName == colsByName && t.records == []
    {
      t := new Table(name);
      t.colsByName := colsByName;
      t.cols := cols;
    }

    /** add_record: the record is inserted under the row-number key of the
        number of records so far. While the keys are 0, 1, 2, ... (up to
        the largest i64), it goes at the end. */
    method AddRecord(record: Record) returns (r: Result<()>)
      modifies this
      ensures var inserted := SortedMaps.LegacyInsert(old(records), IntegerKey(|old(records)|), record);
        && (inserted.Ok? ==> r == Ok(()) && records == inserted.value)
        && (inserted.Panic? ==> r == Panic(inserted.reason) && records == old(records))
      ensures Numbered(old(records)) && |old(records)| <= I64_MAX ==>
        r.Ok? && records == old(records) + [(IntegerKey(|old(records)|), record)] && Numbered(records)
      ensures cols == old(cols) && colsByName == old(colsByName)
    {
      if Numbered(records) && |records| <= I64_MAX {
        SortedMaps.LegacyInsertLast(records, 0, record);
      }
      var inserted := SortedMaps.LegacyInsert(records, IntegerKey(|records|), record);
      if inserted.Panic? {
        return Panic(inserted.reason);
      }
      records := inserted.value;
      r := Ok(());
    }

    predicate HasColumn(name: string)
      reads this
    {
      name in colsByName
    }

    /** add_column: as in src/table.rs. */
    method AddColumn(name: string, allowDuplicates: bool)
      requires Valid()
      modifies this
      ensures Valid() && records == old(records)
      ensures |cols| == |old(cols)| + 1 && cols[..|old(cols)|] == old(cols)
      ensures colsByName == old(colsByName)[cols[|old(cols)|] := |old(cols)|]
      ensures allowDuplicates ==> Columns.FirstFree(name, old(colsByName).Keys, cols[|old(cols)|])
      ensures !allowDuplicates ==> cols[|old(cols)|] == name
    {
      var colIndex := |cols|;
      var added := name;
      if allowDuplicates {
        added := Columns.FreeName(name, colsByName.Keys);
      }
      Tables.RegisterKeeps(cols, colsByName, added);
      colsByName := colsByName[added := colIndex];
      cols := cols + [added];
    }

    /** iter and iter_records: the records in key order. */
    method IterRecords() returns (it: Tables.ListIter<Record>)
      ensures fresh(it) && it.Valid()
      ensures |it.Remaining()| == |records| && forall i :: 0 <= i < |records| ==> it.Remaining()[i] == records[i].1
    {
      var rs := records;
      it := new Tables.ListIter(seq(|rs|, i requires 0 <= i < |rs| => rs[i].1));
    }

    /** where_clause: the first record in key order whose value in column
        `colindex` equals `value`; None when there is none. */
    method WhereClause(colindex: nat, value: V.Value) returns (r: Option<Record>)
      ensures r.None? <==> forall i :: 0 <= i < |records| ==> !Matches(records[i].1, colindex, value)
      ensures r.Some? ==> exists i: nat :: FirstMatch(records, i, colindex, value) && r.value == records[i].1
    {
      var i := 0;
      while i < |records|
        invariant i <= |records|
        invariant forall j :: 0 <= j < i ==> !Matches(records[j].1, colindex, value)
      {
        var record := records[i].1;
        if Matches(record, colindex, value) {
          return Some(record);
        }
        i := i + 1;
      }
      return None;
    }
  }
}
