/** The record layer of the paged table (src/record.rs): a row id and a
    sequence of cells, and their SQLite-style byte form
      length ++ rowid ++ header length ++ serial types ++ payloads
    with every number a varint. */
module Records {
  import opened Wrappers
  import opened Varint
  import opened Numbers

  /** A value as the record layer sees it: its serial type, the varint
      bytes of that type, and its payload bytes. */
  datatype Cell = Cell(tag: u64, tagBytes: seq<byte>, data: seq<byte>)

  /** `Value::new(datatype, data)`: a cell whose type bytes encode its
      serial type. */
  function NewCell(tag: u64, data: seq<byte>): (c: Cell)
    ensures c.tag == tag && c.data == data
    ensures Decode(c.tagBytes) == Some((|c.tagBytes|, tag))
  {
    EncodingDecodesBefore(tag, []);
    assert Encoding(tag) + [] == Encoding(tag);
    Cell(tag, Encoding(tag), data)
  }

  /** `Value::null()`: serial type 0 without payload. */
  function NullCell(): Cell
  {
    NewCell(0, [])
  }

  /** `Value::bytes_len`: the type bytes and the payload bytes. */
  function CellBytesLen(c: Cell): nat
  {
    |c.tagBytes| + |c.data|
  }

  datatype Record = Record(rowid: u64, values: seq<Cell>)

  /** Record::default: row id 0, no values. */
  function Default(): Record
  {
    Record(0, [])
  }

  // ---------------------------------------------------------------------
  // Values of a record

  /** Record::add_value: the cell goes after the existing ones. */
  function AddValue(r: Record, c: Cell): Record
  {
    Record(r.rowid, r.values + [c])
  }

  /** Record::get: the value at a column index; `unwrap` panics past the
      end. */
  function Get(r: Record, index: nat): (v: Result<Cell>)
    ensures v.Ok? <==> index < |r.values|
    ensures v.Ok? ==> v.value == r.values[index]
  {
    if index < |r.values| then Ok(r.values[index]) else Panic("called `Option::unwrap()` on a `None` value")
  }

  /** `&a + &b`: a default record holding the values of `a`, then those of
      `b`. */
  function Add(a: Record, b: Record): Record
  {
    var sum := Default();
    Record(sum.rowid, sum.values + a.values + b.values)
  }

  /** A value added is found at the next index, and the earlier ones stay
      where they were. */
  lemma AddValueGet(r: Record, c: Cell, index: nat)
    ensures Get(AddValue(r, c), |r.values|) == Ok(c)
    ensures index < |r.values| ==> Get(AddValue(r, c), index) == Get(r, index)
    ensures |AddValue(r, c).values| == |r.values| + 1 && AddValue(r, c).rowid == r.rowid
  {
  }

  /** The join has row id 0; its columns are those of `a`, followed by those
      of `b`. */
  lemma AddGet(a: Record, b: Record, index: nat)
    ensures Add(a, b).rowid == 0 && |Add(a, b).values| == |a.values| + |b.values|
    ensures index < |a.values| ==> Get(Add(a, b), index) == Get(a, index)
    ensures |a.values| <= index ==> Get(Add(a, b), index) == Get(b, index - |a.values|)
  {
  }

  /** Joining with the default record on either side keeps the values. */
  lemma AddDefault(r: Record)
    ensures Add(Default(), r).values == r.values && Add(r, Default()).values == r.values
  {
    assert [] + r.values == r.values && r.values + [] == r.values;
  }

  /** Record::string_len: the display lengths of the cells, added up;
      `cellLen` is `Value::string_len`. */
  function StringLen(cs: seq<Cell>, cellLen: Cell -> nat): nat
  {
    if |cs| == 0 then 0 else cellLen(cs[0]) + StringLen(cs[1..], cellLen)
  }

  /** The display length of a join is the sum of the two. */
  lemma {:induction false} StringLenAppend(a: seq<Cell>, b: seq<Cell>, cellLen: Cell -> nat)
    ensures StringLen(a + b, cellLen) == StringLen(a, cellLen) + StringLen(b, cellLen)
  {
    if |a| > 0 {
      assert (a + b)[0] == a[0] && (a + b)[1..] == a[1..] + b;
      StringLenAppend(a[1..], b, cellLen);
    } else {
      assert a + b == b;
    }
  }

  // ---------------------------------------------------------------------
  // Sizes

  const U16_MAX := 0xffff

  /** The bytes of all cells, added up. */
  function ValuesBytesLen(cs: seq<Cell>): nat
  {
    if |cs| == 0 then 0 else CellBytesLen(cs[0]) + ValuesBytesLen(cs[1..])
  }

  /** Record::bytes_len: the cells' bytes plus one, added in u16; past
      65535 the addition overflows and panics. */
  function BytesLen(r: Record): (n: Result<nat>)
    ensures n.Ok? <==> ValuesBytesLen(r.values) + 1 <= U16_MAX
    ensures n.Ok? ==> n.value == ValuesBytesLen(r.values) + 1
  {
    var total := ValuesBytesLen(r.values) + 1;
    if total > U16_MAX then Panic("attempt to add with overflow") else Ok(total)
  }

  /** Adding a value adds its bytes to bytes_len, while the sum still
      fits in a u16. */
  lemma {:induction false} ValuesBytesLenAppend(cs: seq<Cell>, c: Cell)
    ensures ValuesBytesLen(cs + [c]) == ValuesBytesLen(cs) + CellBytesLen(c)
  {
    if |cs| > 0 {
      assert (cs + [c])[1..] == cs[1..] + [c];
      ValuesBytesLenAppend(cs[1..], c);
    }
  }

  lemma BytesLenAddValue(r: Record, c: Cell)
    requires BytesLen(r).Ok?
    ensures BytesLen(AddValue(r, c)).Ok? ==> BytesLen(AddValue(r, c)).value == BytesLen(r).value + CellBytesLen(c)
    ensures BytesLen(r).value + CellBytesLen(c) <= U16_MAX ==> BytesLen(AddValue(r, c)).Ok?
  {
    ValuesBytesLenAppend(r.values, c);
  }

  // ---------------------------------------------------------------------
  // The byte form

  /** The type bytes of the cells, in column order. */
  function TagBytes(cs: seq<Cell>): seq<byte>
  {
    if |cs| == 0 then [] else cs[0].tagBytes + TagBytes(cs[1..])
  }

  /** The payloads of the cells, in column order. */
  function Payloads(cs: seq<Cell>): seq<byte>
  {
    if |cs| == 0 then [] else cs[0].data + Payloads(cs[1..])
  }

  /** The serial types of the cells, in column order. */
  function Tags(cs: seq<Cell>): (ts: seq<u64>)
    ensures |ts| == |cs|
  {
    if |cs| == 0 then [] else [cs[0].tag] + Tags(cs[1..])
  }

  /** `length_of_encoded_column_types`: the lengths of the cells' type
      bytes, added up. */
  function TagsLen(cs: seq<Cell>): (n: nat)
    ensures n == |TagBytes(cs)|
  {
    if |cs| == 0 then 0 else |cs[0].tagBytes| + TagsLen(cs[1..])
  }

  /** The record after its length prefix: the row id, the header length
      (the type bytes and the one byte counted for itself), the type bytes
      and the payloads. */
  function Body(r: Record): seq<byte>
  {
    Encoding(r.rowid) + Encoding(U64(TagsLen(r.values) + 1)) + TagBytes(r.values) + Payloads(r.values)
  }

  /** The whole byte form. The length prefix is, as written, bytes_len,
      which leaves out the row id and header length varints (and so
      panics past 65535); corrected, it is the length of the body that
      follows, which is how it is read back. */
  function Serialized(r: Record, variant: Variant): Result<seq<byte>>
  {
    SerializedBy(r, variant, 1)
  }

  /** Serialized, whose definition is one step further away so that it is
      unfolded only where SerializedDef is called. */
  function SerializedBy(r: Record, variant: Variant, steps: nat): Result<seq<byte>>
    decreases steps
  {
    if steps > 0 then SerializedBy(r, variant, steps - 1)
    else if variant == AsWritten then
      var n :- BytesLen(r);
      Ok(Encoding(U64(n)) + Body(r))
    else
      Ok(Encoding(U64(|Body(r)|)) + Body(r))
  }

  lemma SerializedDef(r: Record, variant: Variant)
    ensures Serialized(r, variant) == SerializedBy(r, variant, 0)
  {
  }

  /** One step of a loop that appends the type bytes (or the payloads) of
      `cs[i..]`, front first. */
  lemma TagBytesStep(cs: seq<Cell>, i: nat)
    requires i < |cs|
    ensures TagBytes(cs[i..]) == cs[i].tagBytes + TagBytes(cs[i + 1..])
    ensures Payloads(cs[i..]) == cs[i].data + Payloads(cs[i + 1..])
  {
    assert cs[i..][1..] == cs[i + 1..];
  }

  /** `From<Record> for Vec<u8>`: the length prefix, the row id, the
      header length, all type bytes, then all payloads. */
  method Serialize(r: Record, variant: Variant) returns (out: Result<seq<byte>>)
    ensures out == Serialized(r, variant)
  {
    var lengthBytes: seq<byte>;
    var rowidBytes := Write(r.rowid);
    var typesLen := TagsLen(r.values);
    var headerBytes := Write(U64(typesLen + 1));
    if variant == AsWritten {
      var recordLength :- BytesLen(r);
      lengthBytes := Write(U64(recordLength));
    } else {
      assert |rowidBytes| + |headerBytes| + typesLen + |Payloads(r.values)| == |Body(r)|;
      lengthBytes := Write(U64(|rowidBytes| + |headerBytes| + typesLen + |Payloads(r.values)|));
    }
    var head := lengthBytes + rowidBytes + headerBytes;
    var buffer := head;
    for i := 0 to |r.values|
      invariant buffer + TagBytes(r.values[i..]) == head + TagBytes(r.values)
    {
      TagBytesStep(r.values, i);
      buffer := buffer + r.values[i].tagBytes;
    }
    assert r.values[|r.values|..] == [] && buffer + [] == buffer;
    assert buffer == head + TagBytes(r.values);
    var middle := buffer;
    for i := 0 to |r.values|
      invariant buffer + Payloads(r.values[i..]) == middle + Payloads(r.values)
    {
      TagBytesStep(r.values, i);
      buffer := buffer + r.values[i].data;
    }
    assert r.values[|r.values|..] == [] && buffer + [] == buffer;
    assert buffer == middle + Payloads(r.values);
    SerializedIs(r, variant, lengthBytes, buffer);
    out := Ok(buffer);
  }

  /** The byte form is the length prefix followed by the body. */
  lemma SerializedIs(r: Record, variant: Variant, lengthBytes: seq<byte>, buffer: seq<byte>)
    requires variant == AsWritten ==> BytesLen(r).Ok? && lengthBytes == Encoding(U64(BytesLen(r).value))
    requires variant == Corrected ==> lengthBytes == Encoding(U64(|Body(r)|))
    requires buffer == lengthBytes + Encoding(r.rowid) + Encoding(U64(TagsLen(r.values) + 1)) + TagBytes(r.values) + Payloads(r.values)
    ensures Serialized(r, variant) == Ok(buffer)
  {
    SerializedDef(r, variant);
    Associate(lengthBytes, Encoding(r.rowid), Encoding(U64(TagsLen(r.values) + 1)), TagBytes(r.values), Payloads(r.values));
  }

  lemma Associate(a: seq<byte>, b: seq<byte>, c: seq<byte>, d: seq<byte>, e: seq<byte>)
    ensures a + b + c + d + e == a + (b + c + d + e)
  {
  }

  // ---------------------------------------------------------------------
  // Reading the byte form back

  /** `read_int_len`: the payload sizes of the integer serial types. */
  function ReadIntLen(dt: u64): nat
  {
    if dt == 6 then 8 else if dt == 5 then 6 else ToNat(dt)
  }

  /** The integer serial types 1..6 have 1, 2, 3, 4, 6 and 8 payload bytes,
      as in section 2.1 of the SQLite Database File Format. */
  lemma ReadIntLenSizes()
    ensures ReadIntLen(1) == 1 && ReadIntLen(2) == 2 && ReadIntLen(3) == 3
    ensures ReadIntLen(4) == 4 && ReadIntLen(5) == 6 && ReadIntLen(6) == 8
  {
    ToNatSmall(1); ToNatSmall(2); ToNatSmall(3); ToNatSmall(4);
  }

  /** The payload length the decoder takes for a serial type `dt`, in
      terms of its number t: odd types from 13 carry (t-13)/2 bytes (the
      shift right by one); even types from 12 carry, as written,
      t/2 - 12 (which underflows below 24) and, corrected, (t-12)/2;
      8 and 9 none, 7 eight, 1..6 `read_int_len`, 0 (NULL) none; 10 and 11
      are unknown. */
  function PayloadLen(dt: u64, variant: Variant): Result<nat>
  {
    PayloadLenAfter(dt, variant, 1)
  }

  /** PayloadLen behind one step of recursion, so that its arithmetic is
      only unfolded where PayloadLenIs is called. */
  function PayloadLenAfter(dt: u64, variant: Variant, steps: nat): Result<nat>
  {
    if steps == 0 then PayloadLenOf(ToNat(dt), dt, variant) else PayloadLenAfter(dt, variant, steps - 1)
  }

  function PayloadLenOf(t: nat, dt: u64, variant: Variant): Result<nat>
  {
    if t >= 13 && t % 2 == 1 then Ok((t - 13) / 2)
    else if t >= 12 && t % 2 == 0 then
      if variant == Corrected then Ok((t - 12) / 2)
      else if t / 2 < 12 then Panic("attempt to subtract with overflow")
      else Ok(t / 2 - 12)
    else if t == 8 || t == 9 then Ok(0)
    else if t == 7 then Ok(8)
    else if 1 <= t <= 6 then Ok(ReadIntLen(dt))
    else if t == 0 then Ok(0)
    else Panic("unknown datatype")
  }

  lemma PayloadLenIs(dt: u64, variant: Variant)
    ensures PayloadLen(dt, variant) == PayloadLenOf(ToNat(dt), dt, variant)
  {
    assert PayloadLenAfter(dt, variant, 0) == PayloadLenOf(ToNat(dt), dt, variant);
  }

  /** The corrected lengths are those of section 2.1 of the SQLite
      Database File Format: serial types 12 + 2n (a blob) and 13 + 2n (a
      text) carry n bytes, shown here for the first ones and for 94 bytes;
      only 10 and 11 are unknown. */
  lemma PayloadLenSerialTypes()
    ensures PayloadLen(12, Corrected) == Ok(0) && PayloadLen(13, Corrected) == Ok(0)
    ensures PayloadLen(14, Corrected) == Ok(1) && PayloadLen(15, Corrected) == Ok(1)
    ensures PayloadLen(22, Corrected) == Ok(5) && PayloadLen(23, Corrected) == Ok(5)
    ensures PayloadLen(200, Corrected) == Ok(94) && PayloadLen(201, Corrected) == Ok(94)
    ensures PayloadLen(10, Corrected) == Panic("unknown datatype") && PayloadLen(11, Corrected) == Panic("unknown datatype")
  {
    ToNatSmall(12); ToNatSmall(13); ToNatSmall(14); ToNatSmall(15); ToNatSmall(22);
    ToNatSmall(23); ToNatSmall(200); ToNatSmall(201); ToNatSmall(10); ToNatSmall(11);
    PayloadLenIs(12, Corrected); PayloadLenIs(13, Corrected); PayloadLenIs(14, Corrected);
    PayloadLenIs(15, Corrected); PayloadLenIs(22, Corrected); PayloadLenIs(23, Corrected);
    PayloadLenIs(200, Corrected); PayloadLenIs(201, Corrected); PayloadLenIs(10, Corrected);
    PayloadLenIs(11, Corrected);
  }

  /** Serial types 12 + 2n (a blob) and 13 + 2n (a text) carry n bytes,
      as section 2.1 of the SQLite Database File Format has it: the odd
      ones under both variants, the even ones once corrected. As written,
      an even type carries n - 6 bytes and panics for n below 6. */
  lemma PayloadLenBlobText(n: nat)
    requires 13 + 2 * n < 0x1_0000_0000_0000_0000
    ensures PayloadLen(U64(12 + 2 * n), Corrected) == Ok(n)
    ensures PayloadLen(U64(13 + 2 * n), Corrected) == Ok(n)
    ensures PayloadLen(U64(13 + 2 * n), AsWritten) == Ok(n)
    ensures PayloadLen(U64(12 + 2 * n), AsWritten) ==
      if n < 6 then Panic("attempt to subtract with overflow") else Ok(n - 6)
  {
    ToNatU64(12 + 2 * n); ToNatU64(13 + 2 * n);
    PayloadLenIs(U64(12 + 2 * n), Corrected); PayloadLenIs(U64(13 + 2 * n), Corrected);
    PayloadLenIs(U64(12 + 2 * n), AsWritten); PayloadLenIs(U64(13 + 2 * n), AsWritten);
  }

  /** varint::read on `data[offset..]`: bytes consumed and value; a slice
      too short for a varint panics. */
  function VarintAt(data: seq<byte>, offset: nat): (r: Result<(nat, u64)>)
    requires offset <= |data|
    ensures r.Ok? ==> 1 <= r.value.0 && offset + r.value.0 <= |data|
  {
    VarintAfter(data, offset, 1)
  }

  /** VarintAt behind one step of recursion, like CellAt. */
  function VarintAfter(data: seq<byte>, offset: nat, steps: nat): (r: Result<(nat, u64)>)
    requires offset <= |data|
    ensures r.Ok? ==> 1 <= r.value.0 && offset + r.value.0 <= |data|
  {
    if steps == 0 then
      DecodeBounds(data[offset..]);
      match Decode(data[offset..])
      case None => Panic("index out of bounds")
      case Some(p) => Ok(p)
    else VarintAfter(data, offset, steps - 1)
  }

  lemma VarintAtIs(data: seq<byte>, offset: nat)
    requires offset <= |data|
    ensures VarintAt(data, offset) == match Decode(data[offset..]) case None => Panic("index out of bounds") case Some(p) => Ok(p)
  {
    assert VarintAfter(data, offset, 0) == match Decode(data[offset..]) case None => Panic("index out of bounds") case Some(p) => Ok(p);
  }

  /** Puts `ds` in front of the sequence a parse produced. */
  function Prepend<T>(ds: seq<T>, r: Result<(seq<T>, nat)>): Result<(seq<T>, nat)>
  {
    match r
    case Ok(p) => Ok((ds + p.0, p.1))
    case Panic(m) => Panic(m)
  }

  /** The serial types end where the data does, or before. */
  lemma {:induction false} ParseTagsBounds(data: seq<byte>, offset: nat, end: nat)
    requires offset <= |data|
    ensures ParseTags(data, offset, end).Ok? ==> offset <= ParseTags(data, offset, end).value.1 <= |data|
    decreases |data| - offset
  {
    if offset < end {
      var p := VarintAt(data, offset);
      if p.Ok? {
        ParseTagsBounds(data, offset + p.value.0, end);
      }
    }
  }

  lemma PrependNothing<T>(r: Result<(seq<T>, nat)>)
    ensures Prepend([], r) == r
  {
    if r.Ok? {
      assert [] + r.value.0 == r.value.0;
    }
  }

  /** The serial types read from `offset` while the offset is below `end`,
      and the offset where the reading stops. */
  function ParseTags(data: seq<byte>, offset: nat, end: nat): (r: Result<(seq<u64>, nat)>)
    requires offset <= |data|
    decreases |data| - offset
  {
    if offset >= end then Ok(([], offset))
    else
      var p :- VarintAt(data, offset);
      Prepend([p.1], ParseTags(data, offset + p.0, end))
  }

  /** The cell the reader makes of serial type `dt` and the `len` bytes at
      `offset`: `Value::null()` for 0, else `Value::new`. */
  function CellAt(data: seq<byte>, offset: nat, dt: u64, len: nat): Cell
    requires offset + len <= |data|
  {
    CellAfter(data, offset, dt, len, 1)
  }

  /** CellAt behind one step of recursion, so that proofs about whole
      parses only look into a cell where CellAtIs is called. */
  function CellAfter(data: seq<byte>, offset: nat, dt: u64, len: nat, steps: nat): Cell
    requires offset + len <= |data|
  {
    if steps == 0 then (if dt == 0 then NullCell() else NewCell(dt, data[offset..offset + len]))
    else CellAfter(data, offset, dt, len, steps - 1)
  }

  lemma CellAtIs(data: seq<byte>, offset: nat, dt: u64, len: nat)
    requires offset + len <= |data|
    ensures CellAt(data, offset, dt, len) == if dt == 0 then NullCell() else NewCell(dt, data[offset..offset + len])
  {
    assert CellAfter(data, offset, dt, len, 0) == if dt == 0 then NullCell() else NewCell(dt, data[offset..offset + len]);
  }

  /** The cells of the serial types `tags`, their payloads read from
      `offset` on, and the offset after the last. */
  function ParseValues(data: seq<byte>, offset: nat, tags: seq<u64>, variant: Variant): Result<(seq<Cell>, nat)>
    requires offset <= |data|
    decreases |tags|
  {
    if |tags| == 0 then Ok(([], offset))
    else
      var len :- PayloadLen(tags[0], variant);
      if offset + len > |data| then Panic("range end index out of range for slice")
      else Prepend([CellAt(data, offset, tags[0], len)], ParseValues(data, offset + len, tags[1..], variant))
  }

  /** `offset + dt_len as usize - 1`, the offset where the serial types
      end; the addition panics past the largest usize. */
  function EndOfTypes(offset: nat, dtLen: u64): Result<nat>
    requires offset >= 1
  {
    var sum := offset + ToNat(dtLen);
    if sum >= 0x1_0000_0000_0000_0000 then Panic("attempt to add with overflow") else Ok(sum - 1)
  }

  /** The start of the byte form: the row id, then the header length,
      which counts itself as one byte, so that the serial types end one
      byte before the offset plus the header length. Gives the row id, the
      offset of the first serial type and the offset where they end. */
  function ReadHeader(data: seq<byte>): (r: Result<(u64, nat, nat)>)
    ensures r.Ok? ==> r.value.1 <= |data|
  {
    var rowid :- VarintAt(data, 0);
    var header :- VarintAt(data, rowid.0);
    var offset := rowid.0 + header.0;
    var end :- EndOfTypes(offset, header.1);
    Ok((rowid.1, offset, end))
  }

  /** What `Into<Record> for (u64, &[u8])` computes: the header, the serial
      types, then a cell per serial type. */
  function Parse(data: seq<byte>, variant: Variant): Result<Record>
  {
    var header :- ReadHeader(data);
    var types :- ParseTags(data, header.1, header.2);
    ParseTagsBounds(data, header.1, header.2);
    var cells :- ParseValues(data, types.1, types.0, variant);
    Ok(Record(header.0, cells.0))
  }

  /** The varint at `offset` is read back from its encoding. */
  lemma VarintAtEncoding(data: seq<byte>, offset: nat, v: u64, rest: seq<byte>)
    requires offset <= |data| && data[offset..] == Encoding(v) + rest
    ensures VarintAt(data, offset) == Ok((|Encoding(v)|, v))
    ensures 1 <= |Encoding(v)| <= 9
  {
    VarintAtIs(data, offset);
    EncodingDecodesBefore(v, rest);
  }

  lemma ParseTagsStep(data: seq<byte>, offset: nat, end: nat, ds: seq<u64>)
    requires offset < end && offset <= |data| && VarintAt(data, offset).Ok?
    ensures Prepend(ds, ParseTags(data, offset, end))
         == Prepend(ds + [VarintAt(data, offset).value.1], ParseTags(data, offset + VarintAt(data, offset).value.0, end))
  {
    var p := VarintAt(data, offset).value;
    match ParseTags(data, offset + p.0, end)
    case Ok(q) =>
      assert ds + ([p.1] + q.0) == ds + [p.1] + q.0;
    case Panic(_) =>
  }

  lemma ParseValuesStep(data: seq<byte>, offset: nat, ts: seq<u64>, k: nat, variant: Variant, vs: seq<Cell>, len: nat)
    requires offset <= |data| && k < |ts|
    requires PayloadLen(ts[k], variant) == Ok(len) && offset + len <= |data|
    ensures Prepend(vs, ParseValues(data, offset, ts[k..], variant))
         == Prepend(vs + [CellAt(data, offset, ts[k], len)], ParseValues(data, offset + len, ts[k + 1..], variant))
  {
    assert ts[k..][0] == ts[k] && ts[k..][1..] == ts[k + 1..];
    var cell := CellAt(data, offset, ts[k], len);
    match ParseValues(data, offset + len, ts[k + 1..], variant)
    case Ok(q) =>
      assert vs + ([cell] + q.0) == vs + [cell] + q.0;
    case Panic(_) =>
  }

  /** `Into<Record> for (u64, &[u8])`: the row id, the header length, the
      serial types while the offset is below the header's end, then for
      each serial type a cell taking its payload bytes. */
  method Deserialize(data: seq<byte>, variant: Variant) returns (r: Result<Record>)
    ensures r == Parse(data, variant)
  {
    var offset := 0;
    var rowid := VarintAt(data, offset);
    if rowid.Panic? {
      ParseHeaderPanics(data, variant);
      return Panic(rowid.reason);
    }
    offset := offset + rowid.value.0;
    var header := VarintAt(data, offset);
    if header.Panic? {
      ParseHeaderPanics(data, variant);
      return Panic(header.reason);
    }
    offset := offset + header.value.0;
    var endOfDt := EndOfTypes(offset, header.value.1);
    if endOfDt.Panic? {
      ParseHeaderPanics(data, variant);
      return Panic(endOfDt.reason);
    }
    ghost var h := (rowid.value.1, offset, endOfDt.value);
    assert ReadHeader(data) == Ok(h);
    var datatypes := ReadTags(data, offset, endOfDt.value);
    if datatypes.Panic? {
      ParseTagsPanics(data, variant, h);
      return Panic(datatypes.reason);
    }
    ParseTagsBounds(data, offset, endOfDt.value);
    var values := ReadCells(data, datatypes.value.1, datatypes.value.0, variant);
    if values.Panic? {
      ParseValuesPanics(data, variant, h, datatypes.value.0, datatypes.value.1);
      return Panic(values.reason);
    }
    ParseOf(data, variant, h.0, h.1, h.2, datatypes.value.0, datatypes.value.1, values.value.0, values.value.1);
    r := Ok(Record(rowid.value.1, values.value.0));
  }

  /** The loop over the serial types: varints read while the offset is
      below `end`. */
  method ReadTags(data: seq<byte>, start: nat, end: nat) returns (r: Result<(seq<u64>, nat)>)
    requires start <= |data|
    ensures r == ParseTags(data, start, end)
  {
    var offset := start;
    var datatypes: seq<u64> := [];
    PrependNothing(ParseTags(data, start, end));
    while offset < end
      invariant start <= offset <= |data|
      invariant ParseTags(data, start, end) == Prepend(datatypes, ParseTags(data, offset, end))
      decreases |data| - offset
    {
      var p := VarintAt(data, offset);
      if p.Panic? {
        return Panic(p.reason);
      }
      ParseTagsStep(data, offset, end, datatypes);
      datatypes := datatypes + [p.value.1];
      offset := offset + p.value.0;
    }
    assert datatypes + [] == datatypes;
    r := Ok((datatypes, offset));
  }

  /** The loop over the cells: for each serial type, its payload length
      and the cell made of that many bytes. */
  method ReadCells(data: seq<byte>, first: nat, datatypes: seq<u64>, variant: Variant) returns (r: Result<(seq<Cell>, nat)>)
    requires first <= |data|
    ensures r == ParseValues(data, first, datatypes, variant)
  {
    var offset := first;
    var values: seq<Cell> := [];
    assert datatypes[0..] == datatypes;
    PrependNothing(ParseValues(data, first, datatypes, variant));
    for k := 0 to |datatypes|
      invariant first <= offset <= |data|
      invariant ParseValues(data, first, datatypes, variant) == Prepend(values, ParseValues(data, offset, datatypes[k..], variant))
    {
      var dt := datatypes[k];
      var len := PayloadLen(dt, variant);
      if len.Panic? {
        return Panic(len.reason);
      }
      if offset + len.value > |data| {
        return Panic("range end index out of range for slice");
      }
      var cell := if dt == 0 then NullCell() else NewCell(dt, data[offset..offset + len.value]);
      CellAtIs(data, offset, dt, len.value);
      assert cell == CellAt(data, offset, dt, len.value);
      ParseValuesStep(data, offset, datatypes, k, variant, values, len.value);
      values := values + [cell];
      offset := offset + len.value;
    }
    assert datatypes[|datatypes|..] == [] && values + [] == values;
    r := Ok((values, offset));
  }

  /** A header that does not read makes the whole parse fail. */
  lemma ParseHeaderPanics(data: seq<byte>, variant: Variant)
    requires ReadHeader(data).Panic?
    ensures Parse(data, variant) == Panic(ReadHeader(data).reason)
  {
  }

  /** So do serial types that do not read. */
  lemma ParseTagsPanics(data: seq<byte>, variant: Variant, h: (u64, nat, nat))
    requires ReadHeader(data) == Ok(h) && ParseTags(data, h.1, h.2).Panic?
    ensures Parse(data, variant) == Panic(ParseTags(data, h.1, h.2).reason)
  {
  }

  /** And so does a cell that does not read. */
  lemma ParseValuesPanics(data: seq<byte>, variant: Variant, h: (u64, nat, nat), tags: seq<u64>, stop: nat)
    requires ReadHeader(data) == Ok(h) && ParseTags(data, h.1, h.2) == Ok((tags, stop)) && stop <= |data|
    requires ParseValues(data, stop, tags, variant).Panic?
    ensures Parse(data, variant) == Panic(ParseValues(data, stop, tags, variant).reason)
  {
  }

  // ---------------------------------------------------------------------
  // Round trip

  /** A cell as `Value::new` makes it, whose payload has the length its
      serial type calls for. */
  predicate WellFormed(c: Cell)
  {
    c.tagBytes == Encoding(c.tag) && PayloadLen(c.tag, Corrected) == Ok(|c.data|)
  }

  /** A record of well-formed cells whose header length fits in a u64. */
  predicate AllWellFormed(cs: seq<Cell>)
  {
    |cs| == 0 || (WellFormed(cs[0]) && AllWellFormed(cs[1..]))
  }

  predicate Writable(r: Record)
  {
    AllWellFormed(r.values) && TagsLen(r.values) + 32 < 0x1_0000_0000_0000_0000
  }

  /** A serial type read at `offset` goes in front of the ones after it. */
  lemma ParseTagsCons(data: seq<byte>, offset: nat, end: nat, len: nat, v: u64, rest: seq<u64>, stop: nat)
    requires offset < end && offset <= |data| && VarintAt(data, offset) == Ok((len, v))
    requires ParseTags(data, offset + len, end) == Ok((rest, stop))
    ensures ParseTags(data, offset, end) == Ok(([v] + rest, stop))
  {
  }

  /** `s` sits in `data` at `offset`. The comparison of the slice sits
      behind one step of recursion, so that proofs about a whole record
      only look at the bytes where AtIs is called. */
  predicate At(data: seq<byte>, offset: nat, s: seq<byte>)
  {
    offset + |s| <= |data| && AtAfter(data, offset, s, 1)
  }

  predicate AtAfter(data: seq<byte>, offset: nat, s: seq<byte>, steps: nat)
    requires offset + |s| <= |data|
  {
    if steps == 0 then data[offset..offset + |s|] == s else AtAfter(data, offset, s, steps - 1)
  }

  lemma AtIs(data: seq<byte>, offset: nat, s: seq<byte>)
    ensures At(data, offset, s) <==> offset + |s| <= |data| && data[offset..offset + |s|] == s
  {
    if offset + |s| <= |data| {
      assert AtAfter(data, offset, s, 0) == (data[offset..offset + |s|] == s);
    }
  }

  /** The two halves of what sits at `offset`. */
  lemma AtSplit(data: seq<byte>, offset: nat, a: seq<byte>, b: seq<byte>)
    requires At(data, offset, a + b)
    ensures At(data, offset, a) && At(data, offset + |a|, b)
  {
    AtIs(data, offset, a + b);
    AtIs(data, offset, a);
    AtIs(data, offset + |a|, b);
    assert data[offset..offset + |a|] == (a + b)[..|a|];
    assert data[offset + |a|..offset + |a| + |b|] == (a + b)[|a|..];
  }

  /** The two halves of a body made of four parts. */
  lemma AtHalves(data: seq<byte>, a: seq<byte>, b: seq<byte>, c: seq<byte>, d: seq<byte>)
    requires data == a + b + c + d
    ensures At(data, 0, a + b) && At(data, |a| + |b|, c + d)
    ensures |data| == |a| + |b| + |c| + |d|
  {
    AtIs(data, 0, a + b);
    AtIs(data, |a| + |b|, c + d);
    assert data[..|a| + |b|] == a + b;
    assert data[|a| + |b|..] == c + d;
  }

  /** A varint sitting at `offset` is read back. */
  lemma VarintAtOf(data: seq<byte>, offset: nat, v: u64)
    requires At(data, offset, Encoding(v))
    ensures VarintAt(data, offset) == Ok((|Encoding(v)|, v))
  {
    AtIs(data, offset, Encoding(v));
    var rest := data[offset + |Encoding(v)|..];
    assert data[offset..] == Encoding(v) + rest;
    VarintAtEncoding(data, offset, v, rest);
  }

  lemma {:induction false} ParseTagsOf(data: seq<byte>, offset: nat, cs: seq<Cell>)
    requires At(data, offset, TagBytes(cs)) && AllWellFormed(cs)
    ensures ParseTags(data, offset, offset + |TagBytes(cs)|) == Ok((Tags(cs), offset + |TagBytes(cs)|))
    decreases |cs|
  {
    if |cs| > 0 {
      var e := cs[0].tagBytes;
      var rest := TagBytes(cs[1..]);
      assert TagBytes(cs) == e + rest;
      AtSplit(data, offset, e, rest);
      VarintAtOf(data, offset, cs[0].tag);
      ParseTagsOf(data, offset + |e|, cs[1..]);
      var end := offset + |e| + |rest|;
      ParseTagsCons(data, offset, end, |e|, cs[0].tag, Tags(cs[1..]), end);
      assert Tags(cs) == [cs[0].tag] + Tags(cs[1..]);
    }
  }

  /** A cell read at `offset` goes in front of the ones after it. */
  lemma ParseValuesCons(data: seq<byte>, offset: nat, tags: seq<u64>, len: nat, rest: seq<Cell>, stop: nat)
    requires offset + len <= |data| && 0 < |tags| && PayloadLen(tags[0], Corrected) == Ok(len)
    requires ParseValues(data, offset + len, tags[1..], Corrected) == Ok((rest, stop))
    ensures ParseValues(data, offset, tags, Corrected) == Ok(([CellAt(data, offset, tags[0], len)] + rest, stop))
  {
  }

  /** A cell read at `offset` as `cs[0]` goes in front of the rest of `cs`. */
  lemma ParseValuesConsOf(data: seq<byte>, offset: nat, cs: seq<Cell>, stop: nat)
    requires 0 < |cs| && offset + |cs[0].data| <= |data| && PayloadLen(cs[0].tag, Corrected) == Ok(|cs[0].data|)
    requires CellAt(data, offset, cs[0].tag, |cs[0].data|) == cs[0]
    requires ParseValues(data, offset + |cs[0].data|, Tags(cs[1..]), Corrected) == Ok((cs[1..], stop))
    ensures ParseValues(data, offset, Tags(cs), Corrected) == Ok((cs, stop))
  {
    assert Tags(cs)[0] == cs[0].tag && Tags(cs)[1..] == Tags(cs[1..]);
    ParseValuesCons(data, offset, Tags(cs), |cs[0].data|, cs[1..], stop);
    assert [cs[0]] + cs[1..] == cs;
  }

  /** A well-formed cell is what the reader makes of its serial type and
      its payload. */
  lemma CellAtOf(data: seq<byte>, offset: nat, c: Cell)
    requires At(data, offset, c.data) && WellFormed(c)
    ensures CellAt(data, offset, c.tag, |c.data|) == c
  {
    AtIs(data, offset, c.data);
    CellAtIs(data, offset, c.tag, |c.data|);
    if c.tag == 0 {
      ToNatSmall(0);
      PayloadLenIs(0, Corrected);
    }
  }

  lemma {:induction false} ParseValuesOf(data: seq<byte>, offset: nat, cs: seq<Cell>)
    requires At(data, offset, Payloads(cs)) && AllWellFormed(cs)
    ensures ParseValues(data, offset, Tags(cs), Corrected) == Ok((cs, offset + |Payloads(cs)|))
    decreases |cs|
  {
    if |cs| > 0 {
      var c := cs[0];
      var rest := Payloads(cs[1..]);
      assert Payloads(cs) == c.data + rest;
      AtSplit(data, offset, c.data, rest);
      ParseValuesOf(data, offset + |c.data|, cs[1..]);
      CellAtOf(data, offset, c);
      ParseValuesConsOf(data, offset, cs, offset + |c.data| + |rest|);
    }
  }

  /** A header written as the varint of a row id and the varint of a
      header length `n` reads back as that row id, the offset after the two
      varints, and the end of the serial types `n - 1` bytes further on. */
  lemma ReadHeaderOf(data: seq<byte>, v: u64, n: nat)
    requires 1 <= n && n + 31 < 0x1_0000_0000_0000_0000
    requires At(data, 0, Encoding(v) + Encoding(U64(n)))
    ensures var offset := |Encoding(v)| + |Encoding(U64(n))|;
      ReadHeader(data) == Ok((v, offset, offset + n - 1))
  {
    var ea := Encoding(v);
    var h := U64(n);
    var eb := Encoding(h);
    AtSplit(data, 0, ea, eb);
    VarintAtOf(data, 0, v);
    VarintAtOf(data, |ea|, h);
    EncodingDecodesBefore(v, []);
    EncodingDecodesBefore(h, []);
    ToNatU64(n);
    assert EndOfTypes(|ea| + |eb|, h) == Ok(|ea| + |eb| + n - 1);
  }

  /** Parse from the results of its three stages. */
  lemma ParseOf(data: seq<byte>, variant: Variant, rowid: u64, offset: nat, end: nat, tags: seq<u64>, stop: nat, cells: seq<Cell>, last: nat)
    requires ReadHeader(data) == Ok((rowid, offset, end))
    requires ParseTags(data, offset, end) == Ok((tags, stop)) && stop <= |data|
    requires ParseValues(data, stop, tags, variant) == Ok((cells, last))
    ensures Parse(data, variant) == Ok(Record(rowid, cells))
  {
  }

  /** The type bytes and the payloads of well-formed cells read back as
      their serial types and then as the cells. */
  lemma CellsOf(data: seq<byte>, offset: nat, cs: seq<Cell>)
    requires At(data, offset, TagBytes(cs) + Payloads(cs)) && AllWellFormed(cs)
    ensures ParseTags(data, offset, offset + |TagBytes(cs)|) == Ok((Tags(cs), offset + |TagBytes(cs)|))
    ensures ParseValues(data, offset + |TagBytes(cs)|, Tags(cs), Corrected) == Ok((cs, offset + |TagBytes(cs)| + |Payloads(cs)|))
  {
    AtSplit(data, offset, TagBytes(cs), Payloads(cs));
    ParseTagsOf(data, offset, cs);
    ParseValuesOf(data, offset + |TagBytes(cs)|, cs);
  }

  /** Where the serial types start in the body of a record. */
  function TypesStart(r: Record): nat
  {
    |Encoding(r.rowid)| + |Encoding(U64(TagsLen(r.values) + 1))|
  }

  /** The body of a record: its header, then its cells. */
  lemma BodyParts(r: Record)
    requires Writable(r)
    ensures ReadHeader(Body(r)) == Ok((r.rowid, TypesStart(r), TypesStart(r) + |TagBytes(r.values)|))
    ensures At(Body(r), TypesStart(r), TagBytes(r.values) + Payloads(r.values))
    ensures |Body(r)| == TypesStart(r) + |TagBytes(r.values)| + |Payloads(r.values)|
  {
    BodyHalves(r);
    ReadHeaderOf(Body(r), r.rowid, TagsLen(r.values) + 1);
  }

  lemma BodyHalves(r: Record)
    ensures At(Body(r), 0, Encoding(r.rowid) + Encoding(U64(TagsLen(r.values) + 1)))
    ensures At(Body(r), TypesStart(r), TagBytes(r.values) + Payloads(r.values))
    ensures |Body(r)| == TypesStart(r) + |TagBytes(r.values)| + |Payloads(r.values)|
  {
    AtHalves(Body(r), Encoding(r.rowid), Encoding(U64(TagsLen(r.values) + 1)), TagBytes(r.values), Payloads(r.values));
  }

  /** Reading back the body of a writable record gives the record. */
  lemma ParseBody(r: Record)
    requires Writable(r)
    ensures Parse(Body(r), Corrected) == Ok(r)
  {
    BodyParts(r);
    var offset := TypesStart(r);
    CellsOf(Body(r), offset, r.values);
    var stop := offset + |TagBytes(r.values)|;
    ParseOf(Body(r), Corrected, r.rowid, offset, stop, Tags(r.values), stop, r.values, stop + |Payloads(r.values)|);
  }

  /** The corrected form reads back: the length prefix decodes to the
      number of bytes that follow it, and parsing that many bytes gives the
      record, whatever comes after them. */
  lemma SerializedRoundTrip(r: Record, rest: seq<byte>)
    requires Writable(r) && |Body(r)| < 0x1_0000_0000_0000_0000
    ensures Serialized(r, Corrected).Ok?
    ensures var bytes := Serialized(r, Corrected).value + rest;
      Decode(bytes).Some?
      && var n := Decode(bytes).value.0;
      var len := ToNat(Decode(bytes).value.1);
      n + len <= |bytes| && Parse(bytes[n..n + len], Corrected) == Ok(r)
  {
    var body := Body(r);
    var e := Encoding(U64(|body|));
    SerializedDef(r, Corrected);
    assert Serialized(r, Corrected) == Ok(e + body);
    EncodingDecodesBefore(U64(|body|), body + rest);
    ToNatU64(|body|);
    ParseBody(r);
    FrameReads(e + body + rest, e, body, rest, U64(|body|), r);
  }

  /** The step of the round trip that slices the body out of the frame. */
  lemma FrameReads(bytes: seq<byte>, e: seq<byte>, body: seq<byte>, rest: seq<byte>, h: u64, r: Record)
    requires bytes == e + body + rest && Decode(e + (body + rest)) == Some((|e|, h))
    requires ToNat(h) == |body| && Parse(body, Corrected) == Ok(r)
    ensures Decode(bytes) == Some((|e|, h)) && |e| + |body| <= |bytes|
    ensures Parse(bytes[|e|..|e| + |body|], Corrected) == Ok(r)
  {
    assert bytes == e + (body + rest);
    assert bytes[|e|..|e| + |body|] == body;
  }

  // ---------------------------------------------------------------------
  // Findings

  /** As written, the even serial type 24 (a six-byte blob) is read with no
      payload, where six bytes were meant; 12 (an empty blob) panics. */
  lemma EvenTagAsWritten()
    ensures PayloadLen(24, AsWritten) == Ok(0) && PayloadLen(24, Corrected) == Ok(6)
    ensures PayloadLen(12, AsWritten).Panic? && PayloadLen(12, Corrected) == Ok(0)
  {
    ToNatSmall(24); ToNatSmall(12);
    PayloadLenIs(24, AsWritten); PayloadLenIs(24, Corrected);
    PayloadLenIs(12, AsWritten); PayloadLenIs(12, Corrected);
  }

  lemma {:induction false} TagsLenBound(cs: seq<Cell>)
    ensures ValuesBytesLen(cs) == TagsLen(cs) + |Payloads(cs)|
  {
    if |cs| > 0 {
      TagsLenBound(cs[1..]);
    }
  }

  /** As written, the length prefix counts the cells and one byte but not
      the row id varint, nor more than one byte of header length: it is
      always shorter than the body that follows it. */
  lemma PrefixShorterThanBody(r: Record)
    requires BytesLen(r).Ok?
    ensures BytesLen(r).value < |Body(r)|
  {
    TagsLenBound(r.values);
    EncodingDecodesBefore(r.rowid, []);
    EncodingDecodesBefore(U64(TagsLen(r.values) + 1), []);
  }

  /** The body of a record with row id 0 and no values, such as the
      default record: row id 0 and a header length of 1. */
  lemma EmptyBody(r: Record)
    requires r.rowid == 0 && r.values == []
    ensures Body(r) == [0, 1]
  {
    EncodingZero();
    var one := TagsLen(r.values) + 1;
    assert one == 1;
    U64Small(one);
    assert ByteOf(one) == 1;
    EncodingSmall(1);
  }

  /** Such a record as written is [1, 0, 1]: a length of 1 followed by a
      body of two bytes; corrected, it is [2, 0, 1]. */
  lemma EmptySerialized(r: Record)
    requires r.rowid == 0 && r.values == []
    ensures Serialized(r, AsWritten) == Ok([1, 0, 1])
    ensures Serialized(r, Corrected) == Ok([2, 0, 1])
  {
    EmptyBody(r);
    var one := BytesLen(r).value;
    assert BytesLen(r) == Ok(one) && one == 1;
    var two := |Body(r)|;
    assert two == 2;
    U64Small(one);
    U64Small(two);
    assert ByteOf(one) == 1 && ByteOf(two) == 2;
    EncodingSmall(1);
    EncodingSmall(2);
    assert Encoding(U64(one)) == [1] && Encoding(U64(two)) == [2];
    SerializedDef(r, AsWritten);
    SerializedDef(r, Corrected);
    assert Serialized(r, AsWritten) == Ok(Encoding(U64(one)) + Body(r));
    assert Serialized(r, Corrected) == Ok(Encoding(U64(two)) + Body(r));
    var b: seq<byte> := [0, 1];
    assert [1] + b == [1, 0, 1] && [2] + b == [2, 0, 1];
  }

  /** The reader is handed the one byte [0] the length prefix counts, where
      the header length is missing, and panics. */
  lemma ShortFramePanics()
    ensures Parse([0], AsWritten).Panic?
  {
    var data: seq<byte> := [0];
    DecodeIs(data[1..]);
    assert data[1..] == [];
    VarintAtIs(data, 1);
    assert VarintAt(data, 1).Panic?;
  }

  /** As written, the default record panics when read back; corrected it
      reads back. */
  lemma DefaultFrameAsWritten()
    ensures Serialized(Default(), AsWritten) == Ok([1, 0, 1]) && Parse([0], AsWritten).Panic?
    ensures Serialized(Default(), Corrected) == Ok([2, 0, 1]) && Parse([0, 1], Corrected) == Ok(Default())
  {
    EmptySerialized(Default());
    ShortFramePanics();
    EmptyBody(Default());
    ParseBody(Default());
  }

  /** A value below 128 is one byte. */
  lemma EncodingSmall(v: u64)
    requires 0 < v < 128
    ensures Encoding(v) == [v as byte]
  {
    EncodingIs(v);
    assert Short(v);
    assert Chop(v, 1) == 0;
    assert Groups(v) == 1;
    assert ShortEncoding(v) == [GroupByte(v, 0)];
    assert Low7(v) == v as byte;
  }
}
