/** Column widths for printing a table (src/print.rs): each column is as
    wide as the longest of its name and of its values over a window of
    the records. The console output itself is not modelled. */
module Print {
  import opened Wrappers
  import opened Strings
  import opened Records
  import Columns
  import Tables
  import Pages

  const UNWRAP_NONE := "called `Option::unwrap()` on a `None` value"

  function Max(a: nat, b: nat): nat
  {
    if a >= b then a else b
  }

  /** `skip(offset).take(nrecords)`: up to `nrecords` of the rows from
      `offset` on. */
  function Window<T>(rows: seq<T>, offset: nat, nrecords: nat): (w: seq<T>)
    ensures offset >= |rows| ==> w == []
    ensures offset < |rows| ==> |w| == if nrecords < |rows| - offset then nrecords else |rows| - offset
    ensures forall i :: 0 <= i < |w| ==> offset + i < |rows| && w[i] == rows[offset + i]
  {
    if offset >= |rows| then []
    else
      var rest := rows[offset..];
      if nrecords >= |rest| then rest else rest[..nrecords]
  }

  /** Every visited record can be read in every listed column: each name
      has an index (get_index), provided a record is visited at all, and each
      record has a value at that index (Record::get). */
  predicate Readable(colsByName: map<string, nat>, names: seq<string>, rows: seq<Record>)
  {
    && (|rows| > 0 ==> forall i :: 0 <= i < |names| ==> names[i] in colsByName)
    && forall k, i :: 0 <= k < |rows| && 0 <= i < |names| ==> colsByName[names[i]] < |rows[k].values|
  }

  /** The width of column `name` over the first `m` rows: the largest of
      the name's length and of the lengths of those rows' values in that
      column. */
  function ColumnWidth(colsByName: map<string, nat>, name: string, rows: seq<Record>, m: nat, cellLen: Cell -> nat): (w: nat)
    requires m <= |rows|
    requires m > 0 ==> name in colsByName
    requires forall k :: 0 <= k < m ==> colsByName[name] < |rows[k].values|
    ensures w >= |name|
    ensures forall k :: 0 <= k < m ==> w >= cellLen(rows[k].values[colsByName[name]])
  {
    if m == 0 then |name|
    else Max(ColumnWidth(colsByName, name, rows, m - 1, cellLen), cellLen(rows[m - 1].values[colsByName[name]]))
  }

  /** The width is attained: it is the name's length or the length of
      one of the values. */
  lemma {:induction false} ColumnWidthAttained(colsByName: map<string, nat>, name: string, rows: seq<Record>, m: nat, cellLen: Cell -> nat)
    requires m <= |rows|
    requires m > 0 ==> name in colsByName
    requires forall k :: 0 <= k < m ==> colsByName[name] < |rows[k].values|
    ensures var w := ColumnWidth(colsByName, name, rows, m, cellLen);
      w == |name| || exists k :: 0 <= k < m && w == cellLen(rows[k].values[colsByName[name]])
  {
    if m > 0 {
      ColumnWidthAttained(colsByName, name, rows, m - 1, cellLen);
    }
  }

  /** Record `k` has a value in every listed column. */
  predicate RowReadable(colsByName: map<string, nat>, names: seq<string>, row: Record)
  {
    forall i :: 0 <= i < |names| ==> names[i] in colsByName && colsByName[names[i]] < |row.values|
  }

  /** The widths after the first `m` records: every listed name is a key,
      each could be read in those records, and each holds its column's
      width over them. */
  ghost predicate WidthsAfter(widths: map<string, nat>, colsByName: map<string, nat>, names: seq<string>, rows: seq<Record>, m: nat, cellLen: Cell -> nat)
    requires m <= |rows|
  {
    WidthsAfterBy(widths, colsByName, names, rows, m, cellLen, 1)
  }

  /** WidthsAfter, whose definition is one step further away so that it
      is unfolded only where WidthsAfterIs is called. */
  ghost predicate WidthsAfterBy(widths: map<string, nat>, colsByName: map<string, nat>, names: seq<string>, rows: seq<Record>, m: nat, cellLen: Cell -> nat, steps: nat)
    requires m <= |rows|
    decreases steps
  {
    if steps > 0 then WidthsAfterBy(widths, colsByName, names, rows, m, cellLen, steps - 1)
    else
      && widths.Keys == Columns.Elements(names)
      && (m > 0 ==> forall n :: n in widths ==> n in colsByName)
      && (forall n, k :: n in widths && 0 <= k < m ==> colsByName[n] < |rows[k].values|)
      && forall n :: n in widths ==> widths[n] == ColumnWidth(colsByName, n, rows, m, cellLen)
  }

  lemma WidthsAfterIs(widths: map<string, nat>, colsByName: map<string, nat>, names: seq<string>, rows: seq<Record>, m: nat, cellLen: Cell -> nat)
    requires m <= |rows|
    ensures WidthsAfter(widths, colsByName, names, rows, m, cellLen) <==> WidthsAfterBy(widths, colsByName, names, rows, m, cellLen, 0)
  {
  }

  /** Part way through record `k`: the columns `names[..j]` have been
      widened by it, the others not yet. */
  ghost predicate Widening(current: map<string, nat>, colsByName: map<string, nat>, names: seq<string>, rows: seq<Record>, k: nat, j: nat, cellLen: Cell -> nat)
    requires k < |rows| && j <= |names|
  {
    && current.Keys == Columns.Elements(names)
    && (k > 0 ==> forall n :: n in current ==> n in colsByName)
    && (forall n, k' :: n in current && 0 <= k' < k ==> colsByName[n] < |rows[k'].values|)
    && (forall n :: n in names[..j] ==> n in colsByName)
    && (forall n :: n in names[..j] ==> colsByName[n] < |rows[k].values|)
    && forall n :: n in current ==>
      current[n] == ColumnWidth(colsByName, n, rows, if n in names[..j] then k + 1 else k, cellLen)
  }

  lemma WideningStarts(widths: map<string, nat>, colsByName: map<string, nat>, names: seq<string>, rows: seq<Record>, k: nat, cellLen: Cell -> nat)
    requires k < |rows| && WidthsAfter(widths, colsByName, names, rows, k, cellLen)
    ensures Widening(widths, colsByName, names, rows, k, 0, cellLen)
  {
    WidthsAfterIs(widths, colsByName, names, rows, k, cellLen);
  }

  /** Widening column `names[j]` by record `k` moves it to the widened
      side. */
  lemma WideningStep(current: map<string, nat>, colsByName: map<string, nat>, names: seq<string>, rows: seq<Record>, k: nat, j: nat, cellLen: Cell -> nat)
    requires k < |rows| && j < |names| && Widening(current, colsByName, names, rows, k, j, cellLen)
    requires names[j] in colsByName && colsByName[names[j]] < |rows[k].values|
    ensures Widening(current[names[j] := Max(current[names[j]], cellLen(rows[k].values[colsByName[names[j]]]))],
      colsByName, names, rows, k, j + 1, cellLen)
  {
    assert names[..j + 1] == names[..j] + [names[j]];
  }

  lemma WideningEnds(current: map<string, nat>, colsByName: map<string, nat>, names: seq<string>, rows: seq<Record>, k: nat, cellLen: Cell -> nat)
    requires k < |rows| && Widening(current, colsByName, names, rows, k, |names|, cellLen)
    ensures RowReadable(colsByName, names, rows[k])
    ensures WidthsAfter(current, colsByName, names, rows, k + 1, cellLen)
  {
    assert names[..|names|] == names;
    WidthsAfterIs(current, colsByName, names, rows, k + 1, cellLen);
  }

  /** One pass of the inner loop: record `k` widens each listed column in
      turn; a column it cannot be read in panics. */
  method Widen(widths: map<string, nat>, colsByName: map<string, nat>, names: seq<string>, rows: seq<Record>, k: nat, cellLen: Cell -> nat)
    returns (r: Result<map<string, nat>>)
    requires k < |rows| && WidthsAfter(widths, colsByName, names, rows, k, cellLen)
    ensures r.Ok? <==> RowReadable(colsByName, names, rows[k])
    ensures r.Panic? ==> r.reason == UNWRAP_NONE
    ensures r.Ok? ==> WidthsAfter(r.value, colsByName, names, rows, k + 1, cellLen)
  {
    var current: map<string, nat> := widths;
    WideningStarts(widths, colsByName, names, rows, k, cellLen);
    for j := 0 to |names|
      invariant Widening(current, colsByName, names, rows, k, j, cellLen)
    {
      var name := names[j];
      if name !in colsByName || colsByName[name] >= |rows[k].values| {
        return Panic(UNWRAP_NONE);
      }
      WideningStep(current, colsByName, names, rows, k, j, cellLen);
      var index := colsByName[name];
      current := current[name := Max(current[name], cellLen(rows[k].values[index]))];
    }
    WideningEnds(current, colsByName, names, rows, k, cellLen);
    r := Ok(current);
  }

  lemma WidthsStart(widths: map<string, nat>, colsByName: map<string, nat>, names: seq<string>, rows: seq<Record>, cellLen: Cell -> nat)
    requires widths.Keys == Columns.Elements(names) && forall n :: n in widths ==> widths[n] == |n|
    ensures WidthsAfter(widths, colsByName, names, rows, 0, cellLen)
  {
    WidthsAfterIs(widths, colsByName, names, rows, 0, cellLen);
  }

  /** After every record: the widths are the columns' widths over all of
      them, and all of them could be read. */
  lemma WidthsFinal(widths: map<string, nat>, colsByName: map<string, nat>, names: seq<string>, rows: seq<Record>, cellLen: Cell -> nat)
    requires WidthsAfter(widths, colsByName, names, rows, |rows|, cellLen)
    ensures Readable(colsByName, names, rows)
    ensures forall i :: 0 <= i < |names| ==>
      (names[i] in widths && widths[names[i]] == ColumnWidth(colsByName, names[i], rows, |rows|, cellLen))
  {
    WidthsAfterIs(widths, colsByName, names, rows, |rows|, cellLen);
    assert forall i :: 0 <= i < |names| ==> names[i] in widths;
  }

  /** A record that cannot be read in some column makes the whole window
      unreadable. */
  lemma UnreadableRow(colsByName: map<string, nat>, names: seq<string>, rows: seq<Record>, k: nat)
    requires k < |rows| && !RowReadable(colsByName, names, rows[k])
    ensures !Readable(colsByName, names, rows)
  {
  }

  /** The first loop: every listed name starts at its own length. */
  method NameWidths(names: seq<string>) returns (widths: map<string, nat>)
    ensures widths.Keys == Columns.Elements(names)
    ensures forall n :: n in widths ==> widths[n] == |n|
  {
    widths := map[];
    for i := 0 to |names|
      invariant widths.Keys == Columns.Elements(names[..i])
      invariant forall n :: n in widths ==> widths[n] == |n|
    {
      assert names[..i + 1] == names[..i] + [names[i]];
      widths := widths[names[i] := |names[i]|];
    }
    assert names[..|names|] == names;
  }

  /** select_column_widths (and get_column_widths with the table's
      columns): the widths map starts at each name's length and is widened
      by every record of the window, column by column. A name without an
      index or a record without a value there panics. */
  method Widths(colsByName: map<string, nat>, names: seq<string>, rows: seq<Record>, cellLen: Cell -> nat)
    returns (r: Result<map<string, nat>>)
    ensures r.Ok? <==> Readable(colsByName, names, rows)
    ensures r.Panic? ==> r.reason == UNWRAP_NONE
    ensures r.Ok? ==> r.value.Keys == Columns.Elements(names)
    ensures r.Ok? ==> forall i :: 0 <= i < |names| ==>
      r.value[names[i]] == ColumnWidth(colsByName, names[i], rows, |rows|, cellLen)
  {
    var widths := NameWidths(names);
    WidthsStart(widths, colsByName, names, rows, cellLen);
    for k := 0 to |rows|
      invariant WidthsAfter(widths, colsByName, names, rows, k, cellLen)
    {
      var next := Widen(widths, colsByName, names, rows, k, cellLen);
      if next.Panic? {
        UnreadableRow(colsByName, names, rows, k);
        return next;
      }
      widths := next.value;
    }
    WidthsFinal(widths, colsByName, names, rows, cellLen);
    r := Ok(widths);
  }

  /** `rows` are the records the corrected iteration of `t` yields: one
      per slot of the root page, in slot order, each read back by `get`
      (Tables.IterationVisits). */
  ghost predicate Visited(t: Tables.Table, rows: seq<Record>)
    reads t.root, t.root.data
  {
    |rows| == t.root.nRecords
    && forall k :: 0 <= k < |rows| ==> Pages.Lookup(t.root.data[..], t.root.nRecords, k, Corrected) == Ok(Some(rows[k]))
  }

  /** `usize::MAX`, the number of records the printing takes. */
  const USIZE_MAX: nat := 0xFFFF_FFFF_FFFF_FFFF

  /** get_column_widths: the widths of the table's columns over the window
      of the records the table's iteration yields (`rows`). */
  method GetColumnWidths(t: Tables.Table, rows: seq<Record>, offset: nat, nrecords: nat, cellLen: Cell -> nat)
    returns (r: Result<map<string, nat>>)
    requires t.Valid() && Visited(t, rows)
    ensures var window := Window(rows, offset, nrecords);
      && (r.Ok? <==> forall k, i :: 0 <= k < |window| && 0 <= i < |t.cols| ==> t.colsByName[t.cols[i]] < |window[k].values|)
      && (r.Panic? ==> r.reason == UNWRAP_NONE)
      && (r.Ok? ==> r.value.Keys == Columns.Elements(t.cols))
      && (r.Ok? ==> forall i :: 0 <= i < |t.cols| ==>
        r.value[t.cols[i]] == ColumnWidth(t.colsByName, t.cols[i], window, |window|, cellLen))
  {
    assert forall i :: 0 <= i < |t.cols| ==> t.cols[i] in Columns.Elements(t.cols);
    r := Widths(t.colsByName, t.cols, Window(rows, offset, nrecords), cellLen);
  }

  /** select_column_widths: the widths of the given columns over the
      window of the records the table's iteration yields (`rows`). */
  method SelectColumnWidths(t: Tables.Table, rows: seq<Record>, offset: nat, nrecords: nat, columns: seq<string>, cellLen: Cell -> nat)
    returns (r: Result<map<string, nat>>)
    requires Visited(t, rows)
    ensures var window := Window(rows, offset, nrecords);
      && (r.Ok? <==> Readable(t.colsByName, columns, window))
      && (r.Panic? ==> r.reason == UNWRAP_NONE)
      && (r.Ok? ==> r.value.Keys == Columns.Elements(columns))
      && (r.Ok? ==> forall i :: 0 <= i < |columns| ==>
        r.value[columns[i]] == ColumnWidth(t.colsByName, columns[i], window, |window|, cellLen))
  {
    r := Widths(t.colsByName, columns, Window(rows, offset, nrecords), cellLen);
  }

  /** The name at `i` is the first of `names` that is not a column. */
  predicate FirstMissing(colsByName: map<string, nat>, names: seq<string>, i: nat)
  {
    i < |names| && names[i] !in colsByName && forall j :: 0 <= j < i ==> names[j] in colsByName
  }

  /** `filter(..).any(panic)`: the first listed name that is not a column,
      if any. */
  function Missing(colsByName: map<string, nat>, names: seq<string>): (r: Option<string>)
    ensures r.None? <==> forall i :: 0 <= i < |names| ==> names[i] in colsByName
    ensures r.Some? ==> exists i: nat :: FirstMissing(colsByName, names, i) && r.value == names[i]
  {
    if |names| == 0 then None
    else if names[0] !in colsByName then
      assert FirstMissing(colsByName, names, 0);
      Some(names[0])
    else
      var rest := Missing(colsByName, names[1..]);
      if rest.Some? then
        var i: nat :| FirstMissing(colsByName, names[1..], i) && rest.value == names[1..][i];
        assert FirstMissing(colsByName, names, i + 1);
        rest
      else rest
  }

  /** select, without the printing: "*" lays out all the columns, and
      anything else is split on commas and trimmed into the columns to lay
      out, the first that is not a column panicking. The result is the
      columns in print order and their widths over all the records that
      the table's iteration yields (`rows`). */
  method Select(t: Tables.Table, expression: string, rows: seq<Record>, cellLen: Cell -> nat)
    returns (r: Result<(seq<string>, map<string, nat>)>)
    requires t.Valid() && Visited(t, rows)
    ensures var names := if expression == "*" then t.cols else Tables.ColumnNames(expression);
      var window := Window(rows, 0, USIZE_MAX);
      && (expression != "*" && Missing(t.colsByName, names).Some? ==>
        r == Panic(Missing(t.colsByName, names).value + " is not a column in this table"))
      && ((expression == "*" || Missing(t.colsByName, names).None?) ==>
        && (r.Ok? <==> Readable(t.colsByName, names, window))
        && (r.Panic? ==> r.reason == UNWRAP_NONE))
      && (r.Ok? ==> r.value.0 == names && r.value.1.Keys == Columns.Elements(names))
      && (r.Ok? ==> forall i :: 0 <= i < |names| ==>
        r.value.1[names[i]] == ColumnWidth(t.colsByName, names[i], window, |window|, cellLen))
  {
    var names: seq<string>;
    var widths: Result<map<string, nat>>;
    if expression == "*" {
      names := t.cols;
      widths := GetColumnWidths(t, rows, 0, USIZE_MAX, cellLen);
    } else {
      names := Tables.ColumnNames(expression);
      var missing := Missing(t.colsByName, names);
      if missing.Some? {
        return Panic(missing.value + " is not a column in this table");
      }
      widths := SelectColumnWidths(t, rows, 0, USIZE_MAX, names, cellLen);
    }
    if widths.Panic? {
      return Panic(widths.reason);
    }
    r := Ok((names, widths.value));
  }
}
