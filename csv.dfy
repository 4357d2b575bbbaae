/** CSV ingestion (src/read.rs): the separator guess and the building of
    a table from the lines of a text. */
module Csv {
  import opened Wrappers
  import opened Strings
  import opened Varint
  import opened Records
  import opened Pages
  import Columns
  import Tables

  /** The separators guessed between, in the order of their tie-break
      indexes 0 to 3. */
  const SEPARATORS: seq<char> := ['\t', ';', ',', '|']

  /** The number of times `c` occurs in `s`. */
  function Count(s: string, c: char): nat
  {
    if |s| == 0 then 0 else Count(s[..|s| - 1], c) + (if s[|s| - 1] == c then 1 else 0)
  }

  /** The pair (count, index) at `b` is at least the one at `j`, ordered as
      tuples: by count, then by index. */
  predicate AtLeast(counts: seq<nat>, b: nat, j: nat)
    requires b < |counts| && j < |counts|
  {
    counts[j] < counts[b] || (counts[j] == counts[b] && j <= b)
  }

  /** Iterator::max over the pairs (counts[i], i): the index of the
      largest count, the later index on a tie. */
  function MaxIndex(counts: seq<nat>): (b: nat)
    requires |counts| > 0
    ensures b < |counts|
    ensures forall j :: 0 <= j < |counts| ==> AtLeast(counts, b, j)
  {
    if |counts| == 1 then 0
    else
      var init := counts[..|counts| - 1];
      var b := MaxIndex(init);
      assert forall j :: 0 <= j < |init| ==> init[j] == counts[j] && AtLeast(init, b, j);
      if counts[|counts| - 1] >= counts[b] then |counts| - 1 else b
  }

  /** The counts of the four separators in `csv`. */
  function Counts(csv: string): (counts: seq<nat>)
    ensures |counts| == 4 && forall i :: 0 <= i < 4 ==> counts[i] == Count(csv, SEPARATORS[i])
  {
    [Count(csv, '\t'), Count(csv, ';'), Count(csv, ','), Count(csv, '|')]
  }

  /** guess_separator: the separator that occurs most often; on a tie the
      later of tab, `;`, `,`, `|`; `|` when there is none. It always
      guesses. */
  method GuessSeparator(csv: string) returns (r: Option<string>)
    ensures r.Some? && |r.value| == 1
    ensures var b := MaxIndex(Counts(csv));
      r.value == [SEPARATORS[b]] && forall j :: 0 <= j < 4 ==> AtLeast(Counts(csv), b, j)
  {
    var tabs, semis, commas, pipes := 0, 0, 0, 0;
    for i := 0 to |csv|
      invariant tabs == Count(csv[..i], '\t') && semis == Count(csv[..i], ';')
      invariant commas == Count(csv[..i], ',') && pipes == Count(csv[..i], '|')
    {
      assert csv[..i + 1][..i] == csv[..i];
      var c := csv[i];
      if c == '\t' {
        tabs := tabs + 1;
      } else if c == ';' {
        semis := semis + 1;
      } else if c == ',' {
        commas := commas + 1;
      } else if c == '|' {
        pipes := pipes + 1;
      }
    }
    assert csv[..|csv|] == csv;
    var m := MaxIndex([tabs, semis, commas, pipes]);
    r := Some([SEPARATORS[m]]);
  }

  /** With no separator in the text, the guess is `|`. */
  lemma GuessWithoutSeparators(csv: string)
    requires forall i :: 0 <= i < 4 ==> Count(csv, SEPARATORS[i]) == 0
    ensures SEPARATORS[MaxIndex(Counts(csv))] == '|'
  {
    var b := MaxIndex(Counts(csv));
    assert AtLeast(Counts(csv), b, 3);
  }

  /** The record of a data line: one cell per field, in order, each made
      by `cellOf` from the field's text. */
  function RowRecord(row: string, separator: string, cellOf: string -> Cell): (r: Record)
    ensures r.rowid == 0 && |r.values| == |Split(row, separator)|
    ensures forall i :: 0 <= i < |r.values| ==> r.values[i] == cellOf(Split(row, separator)[i])
  {
    var fields := Split(row, separator);
    Record(0, seq(|fields|, i requires 0 <= i < |fields| => cellOf(fields[i])))
  }

  /** The data lines among the first `n` lines: every non-empty line after
      the first, in order. */
  function DataRows(rows: seq<string>, n: nat): (r: seq<string>)
    requires n <= |rows|
    ensures forall i :: 0 <= i < |r| ==> |r[i]| > 0
  {
    if n <= 1 then []
    else DataRows(rows, n - 1) + (if |rows[n - 1]| > 0 then [rows[n - 1]] else [])
  }

  /** Each column was named the first free name for its header field. */
  ghost predicate HeaderColumns(cols: seq<string>, fields: seq<string>)
  {
    |cols| == |fields|
    && forall j :: 0 <= j < |fields| ==> Columns.FirstFree(fields[j], Columns.Elements(cols[..j]), cols[j])
  }

  /** The page holds the byte forms of the records of `rows`, in order. */
  ghost predicate HoldsRows(frames: seq<seq<byte>>, rows: seq<string>, separator: string, cellOf: string -> Cell, variant: Variant)
  {
    |frames| == |rows|
    && forall i :: 0 <= i < |rows| ==> Serialized(RowRecord(rows[i], separator, cellOf), variant) == Ok(frames[i])
  }

  /** The fields of the first line become the columns, renamed where they
      repeat. */
  method AddHeader(t: Tables.Table, fields: seq<string>)
    requires t.Valid() && t.cols == [] && t.colsByName == map[]
    modifies t
    ensures t.Valid() && HeaderColumns(t.cols, fields)
    ensures unchanged(t.root) && unchanged(t.root.data)
  {
    for j := 0 to |fields|
      invariant t.Valid() && unchanged(t.root) && unchanged(t.root.data)
      invariant |t.cols| == j
      invariant forall k :: 0 <= k < j ==> Columns.FirstFree(fields[k], Columns.Elements(t.cols[..k]), t.cols[k])
    {
      ghost var before := t.cols;
      t.AddColumn(fields[j], true);
      assert t.cols[..j] == before;
      forall k | 0 <= k < j
        ensures Columns.FirstFree(fields[k], Columns.Elements(t.cols[..k]), t.cols[k])
      {
        assert t.cols[..k] == before[..k] && t.cols[k] == before[k];
      }
    }
  }

  /** The cells of a data line, added to a default record one by one. */
  method BuildRecord(row: string, separator: string, cellOf: string -> Cell) returns (record: Record)
    ensures record == RowRecord(row, separator, cellOf)
  {
    var fields := Split(row, separator);
    record := Default();
    for j := 0 to |fields|
      invariant record == Record(0, seq(j, i requires 0 <= i < j => cellOf(fields[i])))
    {
      record := AddValue(record, cellOf(fields[j]));
    }
  }

  /** The page holds the records of the data lines among the first `n`
      lines. */
  ghost predicate RowsAdded(t: Tables.Table, rows: seq<string>, n: nat, separator: string, cellOf: string -> Cell, variant: Variant)
    requires n <= |rows|
    reads t.root
  {
    HoldsRows(t.root.frames, DataRows(rows, n), separator, cellOf, variant)
  }

  /** One more data line's record at the end keeps the page in step with
      the lines. */
  lemma HoldsRowsAppend(frames: seq<seq<byte>>, rows: seq<string>, row: string, bytes: seq<byte>, separator: string, cellOf: string -> Cell, variant: Variant)
    requires HoldsRows(frames, rows, separator, cellOf, variant)
    requires Serialized(RowRecord(row, separator, cellOf), variant) == Ok(bytes)
    ensures HoldsRows(frames + [bytes], rows + [row], separator, cellOf, variant)
  {
  }

  /** The length of the byte form of a data line's record, or why it has
      none. */
  function FrameLen(row: string, separator: string, cellOf: string -> Cell, variant: Variant): Result<nat>
  {
    FrameLenBy(row, separator, cellOf, variant, 2)
  }

  /** FrameLen, whose definition is two steps away so that it is unfolded
      only where FrameLenIs is called. */
  function FrameLenBy(row: string, separator: string, cellOf: string -> Cell, variant: Variant, steps: nat): Result<nat>
  {
    if steps > 0 then FrameLenBy(row, separator, cellOf, variant, steps - 1)
    else
      var bytes :- Serialized(RowRecord(row, separator, cellOf), variant);
      Ok(|bytes|)
  }

  lemma FrameLenIs(row: string, separator: string, cellOf: string -> Cell, variant: Variant)
    ensures var bytes := Serialized(RowRecord(row, separator, cellOf), variant);
      FrameLen(row, separator, cellOf, variant) == if bytes.Panic? then Panic(bytes.reason) else Ok(|bytes.value|)
  {
    assert FrameLenBy(row, separator, cellOf, variant, 1) == FrameLenBy(row, separator, cellOf, variant, 0);
  }

  /** FrameLen of each of `rows`, in order. */
  function FrameLens(rows: seq<string>, separator: string, cellOf: string -> Cell, variant: Variant): seq<Result<nat>>
  {
    seq(|rows|, i requires 0 <= i < |rows| => FrameLen(rows[i], separator, cellOf, variant))
  }

  /** The page cursors (index_pos, data_pos) after byte forms of the
      lengths `lens` are inserted one after the other from (indexPos,
      dataPos), or the panic of the first one that is missing or does not
      fit. */
  function Fill(lens: seq<Result<nat>>, indexPos: nat, dataPos: nat): Result<(nat, nat)>
    decreases |lens|
  {
    if lens == [] then Ok((indexPos, dataPos))
    else
      var before :- Fill(lens[..|lens| - 1], indexPos, dataPos);
      var len :- lens[|lens| - 1];
      var at :- Placement(before.0, before.1, len);
      Ok((before.0 + 2, at))
  }

  /** The sum of `lens`, or the first panic among them. */
  function Total(lens: seq<Result<nat>>): Result<nat>
    decreases |lens|
  {
    if lens == [] then Ok(0)
    else
      var before :- Total(lens[..|lens| - 1]);
      var len :- lens[|lens| - 1];
      Ok(before + len)
  }

  /** The cursors after the records of `rows` are added to a page from
      (indexPos, dataPos), or the panic of the first that cannot be. */
  function Adding(rows: seq<string>, indexPos: nat, dataPos: nat, separator: string, cellOf: string -> Cell, variant: Variant): Result<(nat, nat)>
  {
    AddingBy(rows, indexPos, dataPos, separator, cellOf, variant, 2)
  }

  /** Adding, whose definition is one step further away so that it is
      unfolded only where AddingIs is called. */
  function AddingBy(rows: seq<string>, indexPos: nat, dataPos: nat, separator: string, cellOf: string -> Cell, variant: Variant, steps: nat): Result<(nat, nat)>
  {
    if steps > 0 then AddingBy(rows, indexPos, dataPos, separator, cellOf, variant, steps - 1)
    else Fill(FrameLens(rows, separator, cellOf, variant), indexPos, dataPos)
  }

  lemma AddingIs(rows: seq<string>, indexPos: nat, dataPos: nat, separator: string, cellOf: string -> Cell, variant: Variant)
    ensures Adding(rows, indexPos, dataPos, separator, cellOf, variant) == Fill(FrameLens(rows, separator, cellOf, variant), indexPos, dataPos)
  {
    assert AddingBy(rows, indexPos, dataPos, separator, cellOf, variant, 1) == AddingBy(rows, indexPos, dataPos, separator, cellOf, variant, 0);
    assert AddingBy(rows, indexPos, dataPos, separator, cellOf, variant, 0) == Fill(FrameLens(rows, separator, cellOf, variant), indexPos, dataPos);
  }

  /** Filling a region from indexPos to dataPos succeeds exactly when no
      byte form is missing and the slots, 2 bytes each, and the byte forms
      together fit in the region; the cursors then move by those sizes. */
  lemma {:induction false} FillFits(lens: seq<Result<nat>>, indexPos: nat, dataPos: nat)
    requires indexPos <= dataPos < 0x10000
    ensures var filled := Fill(lens, indexPos, dataPos);
      && (filled.Ok? <==> Total(lens).Ok? && indexPos + 2 * |lens| + Total(lens).value <= dataPos)
      && (filled.Ok? ==> filled.value == (indexPos + 2 * |lens|, dataPos - Total(lens).value))
    decreases |lens|
  {
    if lens != [] {
      var init := lens[..|lens| - 1];
      FillFits(init, indexPos, dataPos);
      var before := Fill(init, indexPos, dataPos);
      var total := Total(init);
      var last := lens[|lens| - 1];
      if before.Ok? && last.Ok? {
        PlacementStep(indexPos, dataPos, |init|, total.value, last.value);
      } else if total.Ok? && Total(lens).Ok? {
        assert Total(lens).value >= total.value;
      }
    }
  }

  /** Adding the records of `rows` to a page whose free region runs from
      indexPos to dataPos succeeds exactly when every record has a byte
      form and the slots and byte forms together fit in that region. */
  lemma AddingFits(rows: seq<string>, indexPos: nat, dataPos: nat, separator: string, cellOf: string -> Cell, variant: Variant)
    requires indexPos <= dataPos < 0x10000
    ensures var added := Adding(rows, indexPos, dataPos, separator, cellOf, variant);
      var total := Total(FrameLens(rows, separator, cellOf, variant));
      && (added.Ok? <==> total.Ok? && indexPos + 2 * |rows| + total.value <= dataPos)
      && (added.Ok? ==> added.value == (indexPos + 2 * |rows|, dataPos - total.value))
  {
    AddingIs(rows, indexPos, dataPos, separator, cellOf, variant);
    FillFits(FrameLens(rows, separator, cellOf, variant), indexPos, dataPos);
  }

  /** One more byte form of `len` bytes after `n` of `total` bytes fits
      exactly when all of them fit. */
  lemma PlacementStep(indexPos: nat, dataPos: nat, n: nat, total: nat, len: nat)
    requires indexPos <= dataPos < 0x10000 && indexPos + 2 * n + total <= dataPos
    ensures var at := Placement(indexPos + 2 * n, dataPos - total, len);
      && (at.Ok? <==> indexPos + 2 * (n + 1) + (total + len) <= dataPos)
      && (at.Ok? ==> at.value == dataPos - (total + len))
  {
  }

  /** Once a byte form fails to be placed, every longer run fails with the
      same panic. */
  lemma {:induction false} FillStops(lens: seq<Result<nat>>, more: seq<Result<nat>>, indexPos: nat, dataPos: nat)
    requires |lens| <= |more| && more[..|lens|] == lens
    requires Fill(lens, indexPos, dataPos).Panic?
    ensures Fill(more, indexPos, dataPos) == Fill(lens, indexPos, dataPos)
    decreases |more|
  {
    if |more| > |lens| {
      var init := more[..|more| - 1];
      assert init[..|lens|] == lens;
      FillStops(lens, init, indexPos, dataPos);
    } else {
      assert more == more[..|lens|];
    }
  }

  /** Adding one more line's record: the cursors move on as the insert of
      that record moves them, or the insert's panic stops the whole. */
  lemma AddingStep(rows: seq<string>, row: string, indexPos: nat, dataPos: nat, separator: string, cellOf: string -> Cell, variant: Variant)
    requires Adding(rows, indexPos, dataPos, separator, cellOf, variant).Ok?
    ensures var before := Adding(rows, indexPos, dataPos, separator, cellOf, variant).value;
      var at := InsertAt(before.0, before.1, RowRecord(row, separator, cellOf), variant);
      Adding(rows + [row], indexPos, dataPos, separator, cellOf, variant) ==
        if at.Ok? then Ok((before.0 + 2, at.value)) else Panic(at.reason)
  {
    AddingIs(rows, indexPos, dataPos, separator, cellOf, variant);
    AddingIs(rows + [row], indexPos, dataPos, separator, cellOf, variant);
    var lens := FrameLens(rows, separator, cellOf, variant);
    var len := FrameLen(row, separator, cellOf, variant);
    assert FrameLens(rows + [row], separator, cellOf, variant) == lens + [len];
    FillLast(lens, len, indexPos, dataPos);
    var before := Fill(lens, indexPos, dataPos).value;
    InsertAtLen(before.0, before.1, row, separator, cellOf, variant);
  }

  /** Inserting a data line's record places a byte form of FrameLen bytes. */
  lemma InsertAtLen(indexPos: nat, dataPos: nat, row: string, separator: string, cellOf: string -> Cell, variant: Variant)
    ensures var len := FrameLen(row, separator, cellOf, variant);
      InsertAt(indexPos, dataPos, RowRecord(row, separator, cellOf), variant) ==
        if len.Ok? then Placement(indexPos, dataPos, len.value) else Panic(len.reason)
  {
    FrameLenIs(row, separator, cellOf, variant);
    InsertAtIs(indexPos, dataPos, RowRecord(row, separator, cellOf), variant);
  }

  /** Fill of one more length: the cursors move as Placement says, unless
      an earlier one already failed or the length is missing. */
  lemma FillLast(lens: seq<Result<nat>>, len: Result<nat>, indexPos: nat, dataPos: nat)
    requires Fill(lens, indexPos, dataPos).Ok?
    ensures var before := Fill(lens, indexPos, dataPos).value;
      var at := if len.Ok? then Placement(before.0, before.1, len.value) else Panic(len.reason);
      Fill(lens + [len], indexPos, dataPos) == if at.Ok? then Ok((before.0 + 2, at.value)) else Panic(at.reason)
  {
    assert (lens + [len])[..|lens|] == lens;
  }

  /** A data line whose record cannot be added stops the adding of all
      the lines with the same panic. */
  lemma AddingStops(rows: seq<string>, n: nat, indexPos: nat, dataPos: nat, separator: string, cellOf: string -> Cell, variant: Variant)
    requires n <= |rows|
    requires Adding(DataRows(rows, n), indexPos, dataPos, separator, cellOf, variant).Panic?
    ensures Adding(DataRows(rows, |rows|), indexPos, dataPos, separator, cellOf, variant) ==
      Adding(DataRows(rows, n), indexPos, dataPos, separator, cellOf, variant)
  {
    DataRowsPrefix(rows, n, |rows|);
    var all := DataRows(rows, |rows|);
    var some := DataRows(rows, n);
    AddingIs(all, indexPos, dataPos, separator, cellOf, variant);
    AddingIs(some, indexPos, dataPos, separator, cellOf, variant);
    assert FrameLens(all, separator, cellOf, variant)[..|some|] == FrameLens(some, separator, cellOf, variant);
    FillStops(FrameLens(some, separator, cellOf, variant), FrameLens(all, separator, cellOf, variant), indexPos, dataPos);
  }

  /** The data lines among the first `m` lines begin those among the
      first `n`. */
  lemma {:induction false} DataRowsPrefix(rows: seq<string>, m: nat, n: nat)
    requires m <= n <= |rows|
    ensures |DataRows(rows, m)| <= |DataRows(rows, n)| && DataRows(rows, n)[..|DataRows(rows, m)|] == DataRows(rows, m)
    decreases n
  {
    if m < n {
      DataRowsPrefix(rows, m, n - 1);
      var shorter := DataRows(rows, n - 1);
      assert DataRows(rows, n)[..|shorter|] == shorter;
      assert DataRows(rows, n)[..|DataRows(rows, m)|] == shorter[..|DataRows(rows, m)|];
    } else {
      assert DataRows(rows, n)[..|DataRows(rows, n)|] == DataRows(rows, n);
    }
  }

  /** One data line built into a record and added after the records of
      the lines `done`. */
  method AddRow(t: Tables.Table, ghost done: seq<string>, row: string, ghost indexPos: nat, ghost dataPos: nat, separator: string, cellOf: string -> Cell, variant: Variant)
    returns (r: Result<()>)
    requires t.Valid() && HoldsRows(t.root.frames, done, separator, cellOf, variant)
    requires Adding(done, indexPos, dataPos, separator, cellOf, variant) == Ok((t.root.indexPos, t.root.dataPos))
    modifies t.root, t.root.data
    ensures t.Valid() && unchanged(t)
    ensures r.Panic? ==> Adding(done + [row], indexPos, dataPos, separator, cellOf, variant) == Panic(r.reason)
    ensures r.Ok? ==> HoldsRows(t.root.frames, done + [row], separator, cellOf, variant)
    ensures r.Ok? ==> Adding(done + [row], indexPos, dataPos, separator, cellOf, variant) == Ok((t.root.indexPos, t.root.dataPos))
  {
    var record := BuildRecord(row, separator, cellOf);
    ghost var before := (t.root.indexPos, t.root.dataPos, t.root.frames);
    r := t.AddRecord(record, variant);
    AddedRow(done, row, indexPos, dataPos, before, (t.root.indexPos, t.root.dataPos, t.root.frames), r, separator, cellOf, variant);
  }

  /** What AddRow's postconditions take from add_record's: the page state
      (index_pos, data_pos, frames) before and after the insert. */
  lemma AddedRow(done: seq<string>, row: string, indexPos: nat, dataPos: nat,
                 before: (nat, nat, seq<seq<byte>>), after: (nat, nat, seq<seq<byte>>), r: Result<()>,
                 separator: string, cellOf: string -> Cell, variant: Variant)
    requires HoldsRows(before.2, done, separator, cellOf, variant)
    requires Adding(done, indexPos, dataPos, separator, cellOf, variant) == Ok((before.0, before.1))
    requires var at := InsertAt(before.0, before.1, RowRecord(row, separator, cellOf), variant);
      && (r.Ok? <==> at.Ok?)
      && (r.Panic? ==> r.reason == at.reason)
      && (r.Ok? ==> after.0 == before.0 + 2 && after.1 == at.value)
    requires r.Ok? ==>
      && Serialized(RowRecord(row, separator, cellOf), variant).Ok?
      && after.2 == before.2 + [Serialized(RowRecord(row, separator, cellOf), variant).value]
    ensures r.Panic? ==> Adding(done + [row], indexPos, dataPos, separator, cellOf, variant) == Panic(r.reason)
    ensures r.Ok? ==> HoldsRows(after.2, done + [row], separator, cellOf, variant)
    ensures r.Ok? ==> Adding(done + [row], indexPos, dataPos, separator, cellOf, variant) == Ok((after.0, after.1))
  {
    AddingStep(done, row, indexPos, dataPos, separator, cellOf, variant);
    if r.Ok? {
      HoldsRowsAppend(before.2, done, row, Serialized(RowRecord(row, separator, cellOf), variant).value, separator, cellOf, variant);
    }
  }

  /** The lines after the first: each non-empty one is built into a record
      and added; the first failure to add stops the whole. */
  method AddRows(t: Tables.Table, rows: seq<string>, separator: string, cellOf: string -> Cell, variant: Variant)
    returns (r: Result<()>)
    requires t.Valid() && |rows| > 0 && t.root.frames == []
    modifies t.root, t.root.data
    ensures t.Valid() && unchanged(t)
    ensures var added := Adding(DataRows(rows, |rows|), old(t.root.indexPos), old(t.root.dataPos), separator, cellOf, variant);
      && (r.Ok? <==> added.Ok?)
      && (r.Panic? ==> r.reason == added.reason)
    ensures r.Ok? ==> RowsAdded(t, rows, |rows|, separator, cellOf, variant)
  {
    ghost var start := (t.root.indexPos, t.root.dataPos);
    AddingIs([], start.0, start.1, separator, cellOf, variant);
    for index := 1 to |rows|
      invariant t.Valid() && unchanged(t)
      invariant RowsAdded(t, rows, index, separator, cellOf, variant)
      invariant Adding(DataRows(rows, index), start.0, start.1, separator, cellOf, variant) == Ok((t.root.indexPos, t.root.dataPos))
    {
      var added := AddLine(t, rows, index, start.0, start.1, separator, cellOf, variant);
      if added.Panic? {
        return added;
      }
    }
    r := Ok(());
  }

  /** The line at `index` added after the data lines before it: nothing
      for an empty line, else its record; a failure stops the whole. */
  method AddLine(t: Tables.Table, rows: seq<string>, index: nat, ghost indexPos: nat, ghost dataPos: nat, separator: string, cellOf: string -> Cell, variant: Variant)
    returns (r: Result<()>)
    requires 1 <= index < |rows| && t.Valid() && RowsAdded(t, rows, index, separator, cellOf, variant)
    requires Adding(DataRows(rows, index), indexPos, dataPos, separator, cellOf, variant) == Ok((t.root.indexPos, t.root.dataPos))
    modifies t.root, t.root.data
    ensures t.Valid() && unchanged(t)
    ensures r.Panic? ==> Adding(DataRows(rows, |rows|), indexPos, dataPos, separator, cellOf, variant) == Panic(r.reason)
    ensures r.Ok? ==> RowsAdded(t, rows, index + 1, separator, cellOf, variant)
    ensures r.Ok? ==> Adding(DataRows(rows, index + 1), indexPos, dataPos, separator, cellOf, variant) == Ok((t.root.indexPos, t.root.dataPos))
  {
    ghost var done := DataRows(rows, index);
    if |rows[index]| > 0 {
      assert DataRows(rows, index + 1) == done + [rows[index]];
      r := AddRow(t, done, rows[index], indexPos, dataPos, separator, cellOf, variant);
      if r.Panic? {
        AddingStops(rows, index + 1, indexPos, dataPos, separator, cellOf, variant);
      }
    } else {
      assert DataRows(rows, index + 1) == done;
      r := Ok(());
    }
  }

  /** Table::from_csv: the lines are split on `\n`; the fields of the first
      become the columns (renamed where they repeat), and every later line
      that is not empty becomes a record added to the table. An explicit
      separator is used as given; otherwise the guessed one. Adding a
      record may fail, and then so does the whole. */
  method FromCsv(csv: string, separator: Option<string>, cellOf: string -> Cell, variant: Variant)
    returns (r: Result<Tables.Table>)
    ensures var sep := if separator.Some? then separator.value else [SEPARATORS[MaxIndex(Counts(csv))]];
      var added := Adding(DataRows(Split(csv, "\n"), |Split(csv, "\n")|), 0, PAGE_SIZE - 1, sep, cellOf, variant);
      && (r.Ok? <==> added.Ok?)
      && (r.Panic? ==> r.reason == added.reason)
    ensures var sep := if separator.Some? then separator.value else [SEPARATORS[MaxIndex(Counts(csv))]];
      var rows := Split(csv, "\n");
      r.Ok? ==>
        && fresh(r.value) && r.value.Valid() && r.value.name == ""
        && HeaderColumns(r.value.cols, Split(rows[0], sep))
        && RowsAdded(r.value, rows, |rows|, sep, cellOf, variant)
  {
    var guess := GuessSeparator(csv);
    var sep := if separator.Some? then separator.value else guess.value;
    var t := new Tables.Table("");
    var rows := Split(csv, "\n");
    AddHeader(t, Split(rows[0], sep));
    var added := AddRows(t, rows, sep, cellOf, variant);
    if added.Panic? {
      return Panic(added.reason);
    }
    r := Ok(t);
  }
}
