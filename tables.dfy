/** The paged table of src/table.rs: named columns, a root page holding
    the records, and iterators over the records and the column names. The
    root page and the current page are one object. */
module Tables {
  import opened Wrappers
  import opened Strings
  import opened Records
  import opened Pages
  import opened Varint
  import Columns

  /** The column bookkeeping `add_column` keeps: the names registered are
      exactly the names of `cols`, and each points at a place in `cols`
      holding that name (the last such place, when a name was registered
      twice without renaming). */
  ghost predicate Registered(cols: seq<string>, colsByName: map<string, nat>)
  {
    colsByName.Keys == Columns.Elements(cols)
    && forall n :: n in colsByName ==> colsByName[n] < |cols| && cols[colsByName[n]] == n
  }

  /** Registering `name` at the end of `cols` keeps the bookkeeping. */
  lemma RegisterKeeps(cols: seq<string>, colsByName: map<string, nat>, name: string)
    requires Registered(cols, colsByName)
    ensures Registered(cols + [name], colsByName[name := |cols|])
  {
    var cols' := cols + [name];
    var m := colsByName[name := |cols|];
    assert Columns.Elements(cols') == Columns.Elements(cols) + {name};
    forall n | n in m
      ensures m[n] < |cols'| && cols'[m[n]] == n
    {
      if n != name {
        assert cols'[m[n]] == cols[colsByName[n]];
      }
    }
  }

  /** The column indexes of `names`, in order; a name that is not a column
      panics, as the `unwrap` in get_index does. */
  function Lookups(colsByName: map<string, nat>, names: seq<string>): (r: Result<seq<nat>>)
    ensures r.Ok? <==> forall i :: 0 <= i < |names| ==> names[i] in colsByName
    ensures r.Ok? ==> |r.value| == |names| && forall i :: 0 <= i < |names| ==> r.value[i] == colsByName[names[i]]
  {
    if |names| == 0 then Ok([])
    else if names[0] !in colsByName then Panic("called `Option::unwrap()` on a `None` value")
    else
      var rest := Lookups(colsByName, names[1..]);
      if rest.Panic? then
        assert names[1..][0 ..] == names[1..];
        rest
      else Ok([colsByName[names[0]]] + rest.value)
  }

  /** The trimmed pieces of a comma-separated list of column names. */
  function ColumnNames(expression: string): (r: seq<string>)
    ensures |r| == |Split(expression, ",")|
    ensures forall i :: 0 <= i < |r| ==> r[i] == Trim(Split(expression, ",")[i])
  {
    var parts := Split(expression, ",");
    seq(|parts|, i requires 0 <= i < |parts| => Trim(parts[i]))
  }

  class Table {
    const name: string
    var colsByName: map<string, nat>
    var cols: seq<string>
    /** The root page, which is also the page records are added to. */
    const root: Page
    /** The next page id and the next row id the table would hand out. */
    var pageIds: nat
    var rowIds: nat

    ghost predicate Valid()
      reads this, root, root.data
    {
      root.Valid() && Registered(cols, colsByName)
    }

    /** Table::new: no columns, and an empty root page with id 0; page ids
        start at 1 and row ids at 0. */
    constructor (name: string)
      ensures Valid() && fresh(root) && fresh(root.data)
      ensures this.name == name && cols == [] && colsByName == map[]
      ensures root.pageType == Root && root.id == 0 && root.nRecords == 0 && root.frames == []
      ensures root.indexPos == 0 && root.dataPos == PAGE_SIZE - 1
      ensures pageIds == 1 && rowIds == 0
    {
      this.name := name;
      colsByName := map[];
      cols := [];
      root := new Page(Root, 0);
      pageIds := 1;
      rowIds := 0;
    }

    /** empty_copy: the same name and columns over a new empty page. */
    method EmptyCopy() returns (t: Table)
      requires Valid()
      ensures t.Valid() && fresh(t) && fresh(t.root) && fresh(t.root.data)
      ensures t.name == name && t.cols == cols && t.colsByName == colsByName
      ensures t.root.nRecords == 0 && t.root.frames == []
    {
      t := new Table(name);
      t.colsByName := colsByName;
      t.cols := cols;
    }

    /** add_record: the record goes into the current page. A record added
        in its corrected byte form reads back at the next index. */
    method AddRecord(record: Record, variant: Variant) returns (r: Result<()>)
      requires Valid()
      modifies root, root.data
      ensures Valid() && unchanged(this)
      ensures r.Panic? ==> unchanged(root) && unchanged(root.data)
      ensures Serialized(record, variant).Ok? && Placement(old(root.indexPos), old(root.dataPos), |Serialized(record, variant).value|).Ok? ==> r.Ok?
      ensures r.Ok? ==> Serialized(record, variant).Ok? && root.nRecords == old(root.nRecords) + 1 && root.frames == old(root.frames) + [Serialized(record, variant).value]
      ensures r.Ok? <==> InsertAt(old(root.indexPos), old(root.dataPos), record, variant).Ok?
      ensures r.Panic? ==> r.reason == InsertAt(old(root.indexPos), old(root.dataPos), record, variant).reason
      ensures r.Ok? ==> root.indexPos == old(root.indexPos) + 2 && root.dataPos == InsertAt(old(root.indexPos), old(root.dataPos), record, variant).value
      ensures r.Ok? && variant == Corrected && Writable(record) && |Body(record)| < 0x1_0000_0000_0000_0000 ==>
        Lookup(root.data[..], root.nRecords, old(root.nRecords), Corrected) == Ok(Some(record))
    {
      r := root.Insert(record, variant);
      InsertAtIs(old(root.indexPos), old(root.dataPos), record, variant);
      if r.Ok? && variant == Corrected && Writable(record) && |Body(record)| < 0x1_0000_0000_0000_0000 {
        StoredReadsBack(root.data[..], root.indexPos, root.dataPos, root.nRecords, root.offsets, root.frames, old(root.nRecords), record);
      }
    }

    predicate HasColumn(name: string)
      reads this
    {
      name in colsByName
    }

    /** add_column: the name, renamed with `allow_duplicates` to the first
        of `name`, `name2`, `name3`, ... not yet registered, goes at the
        end of `cols` and is registered at its index there. */
    method AddColumn(name: string, allowDuplicates: bool)
      requires Valid()
      modifies this
      ensures Valid() && unchanged(root) && unchanged(root.data)
      ensures |cols| == |old(cols)| + 1 && cols[..|old(cols)|] == old(cols)
      ensures colsByName == old(colsByName)[cols[|old(cols)|] := |old(cols)|]
      ensures allowDuplicates ==> Columns.FirstFree(name, old(colsByName).Keys, cols[|old(cols)|])
      ensures !allowDuplicates ==> cols[|old(cols)|] == name
      ensures pageIds == old(pageIds) && rowIds == old(rowIds)
    {
      var colIndex := |cols|;
      var added := name;
      if allowDuplicates {
        added := Columns.FreeName(name, colsByName.Keys);
      }
      RegisterKeeps(cols, colsByName, added);
      colsByName := colsByName[added := colIndex];
      cols := cols + [added];
    }

    /** get_index: the index registered for a column name. */
    function GetIndex(colName: string): (r: Result<nat>)
      reads this
      ensures r.Ok? <==> colName in colsByName
      ensures r.Ok? ==> r.value == colsByName[colName]
      ensures Registered(cols, colsByName) && r.Ok? ==> r.value < |cols| && cols[r.value] == colName
    {
      if colName in colsByName then Ok(colsByName[colName])
      else Panic("called `Option::unwrap()` on a `None` value")
    }

    /** get_column_indexes: the indexes of the comma-separated, trimmed
        column names, in order; it panics when one is not a column. */
    function GetColumnIndexes(expression: string): (r: Result<seq<nat>>)
      reads this
      ensures var names := ColumnNames(expression);
        && (r.Ok? <==> forall i :: 0 <= i < |names| ==> names[i] in colsByName)
        && (r.Ok? ==>
              |r.value| == |names| && forall i :: 0 <= i < |names| ==> r.value[i] == colsByName[names[i]])
        && (Registered(cols, colsByName) && r.Ok? ==>
              forall i :: 0 <= i < |names| ==> r.value[i] < |cols| && cols[r.value[i]] == names[i])
    {
      Lookups(colsByName, ColumnNames(expression))
    }

    /** iter: an iterator over the root page from the first record. */
    method Iter() returns (it: TableIter)
      ensures fresh(it) && it.page == root && it.index == 0
    {
      it := new TableIter(root);
    }

    /** iter_colums: an iterator over the column names. */
    method IterColumns() returns (it: ListIter<string>)
      ensures fresh(it) && it.Valid() && it.Remaining() == cols
    {
      it := new ListIter(cols);
    }

    /** select_columns: an iterator over the given names. */
    method SelectColumns(columns: seq<string>) returns (it: ListIter<string>)
      ensures fresh(it) && it.Valid() && it.Remaining() == columns
    {
      it := new ListIter(columns);
    }
  }

  /** The index an iterator over the records moves to after a call to
      `next`: as written it stays put, corrected it moves on by one. */
  function NextIndex(index: nat, variant: Variant): (i: nat)
    ensures variant == AsWritten ==> i == index
    ensures variant == Corrected ==> i == index + 1
  {
    if variant == AsWritten then index else index + 1
  }

  /** The results of `steps` calls of `next` from `index` on. */
  function Iteration(buf: seq<byte>, n: nat, index: nat, steps: nat, variant: Variant): (r: seq<Result<Option<Record>>>)
    ensures |r| == steps
    decreases steps
  {
    if steps == 0 then []
    else [Lookup(buf, n, index, variant)] + Iteration(buf, n, NextIndex(index, variant), steps - 1, variant)
  }

  /** As written, every call of `next` reads the same record: a loop over
      a table with a record in it never ends. */
  lemma {:induction false} IterationRepeats(buf: seq<byte>, n: nat, index: nat, steps: nat)
    ensures forall i :: 0 <= i < steps ==> Iteration(buf, n, index, steps, AsWritten)[i] == Lookup(buf, n, index, AsWritten)
  {
    if steps > 0 {
      IterationRepeats(buf, n, index, steps - 1);
      var rest := Iteration(buf, n, index, steps - 1, AsWritten);
      assert Iteration(buf, n, index, steps, AsWritten) == [Lookup(buf, n, index, AsWritten)] + rest;
    }
  }

  /** As written, a page holding a record yields it over and over, and
      never the end of the iteration; an empty page ends at once. */
  lemma IterationNeverEnds(buf: seq<byte>, n: nat, steps: nat)
    requires n > 0
    ensures forall i :: 0 <= i < steps ==> Iteration(buf, n, 0, steps, AsWritten)[i] != Ok(None)
  {
    IterationRepeats(buf, n, 0, steps);
    LookupNone(buf, n, 0, AsWritten);
  }

  /** Corrected, the `i`-th call reads record `index + i`: the iteration
      visits the records in slot order and ends after the last one. */
  lemma {:induction false} IterationVisits(buf: seq<byte>, n: nat, index: nat, steps: nat)
    ensures forall i :: 0 <= i < steps ==> Iteration(buf, n, index, steps, Corrected)[i] == Lookup(buf, n, index + i, Corrected)
    decreases steps
  {
    if steps > 0 {
      IterationVisits(buf, n, index + 1, steps - 1);
      var rest := Iteration(buf, n, index + 1, steps - 1, Corrected);
      assert Iteration(buf, n, index, steps, Corrected) == [Lookup(buf, n, index, Corrected)] + rest;
      assert forall i :: 1 <= i < steps ==> Iteration(buf, n, index, steps, Corrected)[i] == rest[i - 1];
    }
  }

  /** TableIter: a position in the root page. */
  class TableIter {
    const page: Page
    var index: nat

    constructor (page: Page)
      ensures this.page == page && index == 0
    {
      this.page := page;
      index := 0;
    }

    /** TableIter::next: the record at the current index, or None past the
        last. As written, `index` is never advanced. */
    method Next(variant: Variant) returns (r: Result<Option<Record>>)
      modifies this
      ensures r == Iteration(page.data[..], page.nRecords, old(index), 1, variant)[0]
      ensures index == NextIndex(old(index), variant)
    {
      r := page.Get(index, variant);
      if variant == Corrected {
        index := index + 1;
      }
    }
  }

  /** ColIter and OwnedColIter (and, in src/lib.rs, the iterator over the
      records of a BTreeMap): a position in a list. */
  class ListIter<T> {
    const items: seq<T>
    var index: nat

    ghost predicate Valid()
      reads this
    {
      index <= |items|
    }

    /** The items still to come. */
    function Remaining(): seq<T>
      reads this
    {
      if index <= |items| then items[index..] else []
    }

    constructor (items: seq<T>)
      ensures Valid() && this.items == items && index == 0
    {
      this.items := items;
      index := 0;
    }

    /** next: the first of the remaining items, which is then no longer
        remaining; None once they are all gone. */
    method Next() returns (r: Option<T>)
      requires Valid()
      modifies this
      ensures Valid()
      ensures old(Remaining()) == [] ==> r == None && Remaining() == []
      ensures old(Remaining()) != [] ==> r == Some(old(Remaining())[0]) && Remaining() == old(Remaining())[1..]
    {
      if index < |items| {
        r := Some(items[index]);
        index := index + 1;
      } else {
        r := None;
      }
    }
  }
}
