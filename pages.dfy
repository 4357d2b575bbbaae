/** The slotted page of src/page.rs: a buffer of 4096 bytes in which
    two-byte big-endian slots grow up from offset 0 and the byte forms of
    records grow down from offset 4095; each slot holds the offset of its
    record. */
module Pages {
  import opened Wrappers
  import opened Varint
  import opened Numbers
  import opened Records

  const PAGE_SIZE: nat := 4096

  datatype PageType = Root | Interior | Leaf

  /** BigEndian::read_u16 of two bytes. */
  function ReadU16(hi: byte, lo: byte): (v: nat)
    ensures v < 0x10000
  {
    hi as nat * 0x100 + lo as nat
  }

  /** u16_to_bytes: the two big-endian bytes of a u16. */
  function U16ToBytes(value: nat): (buf: seq<byte>)
    requires value < 0x10000
    ensures |buf| == 2 && ReadU16(buf[0], buf[1]) == value
  {
    ByteOfValue(value / 0x100);
    ByteOfValue(value % 0x100);
    [ByteOf(value / 0x100), ByteOf(value % 0x100)]
  }

  /** `Vec::splice` of a range as long as `s`: `buf` with `s` written over
      it from `at` on. */
  function Splice(buf: seq<byte>, at: nat, s: seq<byte>): (r: seq<byte>)
    requires at + |s| <= |buf|
    ensures |r| == |buf|
  {
    SpliceBy(buf, at, s, 2)
  }

  /** Splice, whose definition is one step further away so that it is
      unfolded only where SpliceIs is called. */
  function SpliceBy(buf: seq<byte>, at: nat, s: seq<byte>, steps: nat): (r: seq<byte>)
    requires at + |s| <= |buf|
    ensures |r| == |buf|
    decreases steps
  {
    if steps > 0 then SpliceBy(buf, at, s, steps - 1) else buf[..at] + s + buf[at + |s|..]
  }

  lemma SpliceIs(buf: seq<byte>, at: nat, s: seq<byte>)
    requires at + |s| <= |buf|
    ensures Splice(buf, at, s) == buf[..at] + s + buf[at + |s|..]
  {
    assert SpliceBy(buf, at, s, 1) == SpliceBy(buf, at, s, 0);
  }

  /** A splice changes the bytes of its range and no others. */
  lemma SpliceIndex(buf: seq<byte>, at: nat, s: seq<byte>, j: nat)
    requires at + |s| <= |buf| && j < |buf|
    ensures Splice(buf, at, s)[j] == if at <= j < at + |s| then s[j - at] else buf[j]
  {
    SpliceIs(buf, at, s);
  }

  /** What sits outside a splice's range stays there. */
  lemma AtSpliceOutside(buf: seq<byte>, at: nat, s: seq<byte>, o: nat, f: seq<byte>)
    requires at + |s| <= |buf| && At(buf, o, f)
    requires o + |f| <= at || at + |s| <= o
    ensures At(Splice(buf, at, s), o, f)
  {
    AtIs(buf, o, f);
    AtIs(Splice(buf, at, s), o, f);
    forall j | 0 <= j < |f|
      ensures Splice(buf, at, s)[o + j] == f[j]
    {
      SpliceIndex(buf, at, s, o + j);
      assert buf[o..o + |f|][j] == buf[o + j];
    }
  }

  /** What a splice writes sits where it was written. */
  lemma AtSplice(buf: seq<byte>, at: nat, s: seq<byte>)
    requires at + |s| <= |buf|
    ensures At(Splice(buf, at, s), at, s)
  {
    AtIs(Splice(buf, at, s), at, s);
    SpliceIs(buf, at, s);
    assert Splice(buf, at, s)[at..at + |s|] == s;
  }

  /** The splice of an array's elements in place. */
  method WriteAt(a: array<byte>, at: nat, s: seq<byte>)
    requires at + |s| <= a.Length
    modifies a
    ensures a[..] == Splice(old(a[..]), at, s)
  {
    for i := 0 to |s|
      invariant forall j :: 0 <= j < a.Length ==> a[j] == if at <= j < at + i then s[j - at] else old(a[j])
    {
      a[at + i] := s[i];
    }
    forall j | 0 <= j < a.Length
      ensures a[..][j] == Splice(old(a[..]), at, s)[j]
    {
      SpliceIndex(old(a[..]), at, s, j);
    }
  }

  /** Slot `k` holds `o`, the offset where the byte form `f` sits, inside
      the record area from `dataPos` up to the last byte, which is never
      written. */
  predicate Holds(buf: seq<byte>, dataPos: nat, k: nat, o: nat, f: seq<byte>)
  {
    2 * k + 1 < |buf| && ReadU16(buf[2 * k], buf[2 * k + 1]) == o
    && dataPos <= o && o + |f| < PAGE_SIZE && At(buf, o, f)
  }

  /** The layout of a page that holds the byte forms `frames`, the k-th at
      `offsets[k]`: a slot per record below `indexPos`, which is twice the
      number of records, and every record at or above `dataPos`. */
  predicate Layout(buf: seq<byte>, indexPos: nat, dataPos: nat, n: nat, offsets: seq<nat>, frames: seq<seq<byte>>)
  {
    LayoutBy(buf, indexPos, dataPos, n, offsets, frames, 2)
  }

  /** Layout, whose definition is one step further away so that it is
      unfolded only where LayoutIs is called. */
  predicate LayoutBy(buf: seq<byte>, indexPos: nat, dataPos: nat, n: nat, offsets: seq<nat>, frames: seq<seq<byte>>, steps: nat)
    decreases steps
  {
    if steps > 0 then LayoutBy(buf, indexPos, dataPos, n, offsets, frames, steps - 1)
    else
      |buf| == PAGE_SIZE && |offsets| == n && |frames| == n && indexPos == 2 * n
      && indexPos <= dataPos < PAGE_SIZE
      && forall k :: 0 <= k < n ==> Holds(buf, dataPos, k, offsets[k], frames[k])
  }

  lemma LayoutIs(buf: seq<byte>, indexPos: nat, dataPos: nat, n: nat, offsets: seq<nat>, frames: seq<seq<byte>>)
    ensures Layout(buf, indexPos, dataPos, n, offsets, frames) <==>
      && |buf| == PAGE_SIZE && |offsets| == n && |frames| == n && indexPos == 2 * n
      && indexPos <= dataPos < PAGE_SIZE
      && forall k :: 0 <= k < n ==> Holds(buf, dataPos, k, offsets[k], frames[k])
  {
    assert LayoutBy(buf, indexPos, dataPos, n, offsets, frames, 1) == LayoutBy(buf, indexPos, dataPos, n, offsets, frames, 0);
  }

  /** Where `insert` puts a byte form of `len` bytes: `data_pos` lowered by
      the length as a u16, which panics below zero. Where the source would
      go on to write the slot over record bytes, or a range shorter than
      the bytes, the page counts as full. */
  function Placement(indexPos: nat, dataPos: nat, len: nat): (r: Result<nat>)
    ensures r.Ok? ==> r.value + len == dataPos && indexPos + 2 <= r.value
  {
    if len % 0x10000 > dataPos then Panic("attempt to subtract with overflow")
    else if len >= 0x10000 || dataPos - len < indexPos + 2 then Panic("page is full")
    else Ok(dataPos - len)
  }

  /** The `data_pos` after `insert` of `record`, or the panic that stops
      it: the record's byte form must exist and fit. */
  function InsertAt(indexPos: nat, dataPos: nat, record: Record, variant: Variant): Result<nat>
  {
    InsertAtBy(indexPos, dataPos, record, variant, 2)
  }

  /** InsertAt, whose definition is two steps away so that it is unfolded
      only where InsertAtIs is called. */
  function InsertAtBy(indexPos: nat, dataPos: nat, record: Record, variant: Variant, steps: nat): Result<nat>
  {
    if steps > 0 then InsertAtBy(indexPos, dataPos, record, variant, steps - 1)
    else
      var bytes :- Serialized(record, variant);
      Placement(indexPos, dataPos, |bytes|)
  }

  lemma InsertAtIs(indexPos: nat, dataPos: nat, record: Record, variant: Variant)
    ensures InsertAt(indexPos, dataPos, record, variant) ==
      if Serialized(record, variant).Panic? then Panic(Serialized(record, variant).reason)
      else Placement(indexPos, dataPos, |Serialized(record, variant).value|)
  {
    assert InsertAtBy(indexPos, dataPos, record, variant, 1) == InsertAtBy(indexPos, dataPos, record, variant, 0);
  }

  /** The buffer after `insert` of the byte form `bytes`: the bytes just
      below `dataPos`, then their offset as the slot at `indexPos`. */
  function Stored(buf: seq<byte>, indexPos: nat, dataPos: nat, bytes: seq<byte>): (r: seq<byte>)
    requires |bytes| <= dataPos <= |buf| && indexPos + 2 <= |buf| && dataPos - |bytes| < 0x10000
    ensures |r| == |buf|
  {
    var at := dataPos - |bytes|;
    Splice(Splice(buf, at, bytes), indexPos, U16ToBytes(at))
  }

  /** A record kept by an insert stays where it is. */
  lemma HoldsKept(buf: seq<byte>, indexPos: nat, dataPos: nat, k: nat, o: nat, f: seq<byte>, bytes: seq<byte>, at: nat)
    requires |buf| == PAGE_SIZE && Holds(buf, dataPos, k, o, f) && 2 * k + 2 <= indexPos
    requires at + |bytes| == dataPos && indexPos + 2 <= at
    ensures Holds(Splice(Splice(buf, at, bytes), indexPos, U16ToBytes(at)), at, k, o, f)
  {
    var b1 := Splice(buf, at, bytes);
    var b2 := Splice(b1, indexPos, U16ToBytes(at));
    SpliceIndex(buf, at, bytes, 2 * k);
    SpliceIndex(buf, at, bytes, 2 * k + 1);
    SpliceIndex(b1, indexPos, U16ToBytes(at), 2 * k);
    SpliceIndex(b1, indexPos, U16ToBytes(at), 2 * k + 1);
    AtSpliceOutside(buf, at, bytes, o, f);
    AtSpliceOutside(b1, indexPos, U16ToBytes(at), o, f);
  }

  /** The record an insert adds sits where its slot says. */
  lemma HoldsNew(buf: seq<byte>, k: nat, bytes: seq<byte>, at: nat)
    requires |buf| == PAGE_SIZE && at + |bytes| < PAGE_SIZE && 2 * k + 2 <= at
    ensures Holds(Splice(Splice(buf, at, bytes), 2 * k, U16ToBytes(at)), at, k, at, bytes)
  {
    var b1 := Splice(buf, at, bytes);
    SpliceIndex(b1, 2 * k, U16ToBytes(at), 2 * k);
    SpliceIndex(b1, 2 * k, U16ToBytes(at), 2 * k + 1);
    AtSplice(buf, at, bytes);
    AtSpliceOutside(b1, 2 * k, U16ToBytes(at), at, bytes);
  }

  /** An insert keeps the layout, with the new byte form last. */
  lemma InsertLayout(buf: seq<byte>, indexPos: nat, dataPos: nat, n: nat, offsets: seq<nat>, frames: seq<seq<byte>>, bytes: seq<byte>, at: nat)
    requires Layout(buf, indexPos, dataPos, n, offsets, frames)
    requires at + |bytes| == dataPos && indexPos + 2 <= at
    ensures Layout(Splice(Splice(buf, at, bytes), indexPos, U16ToBytes(at)), indexPos + 2, at, n + 1, offsets + [at], frames + [bytes])
  {
    var b2 := Splice(Splice(buf, at, bytes), indexPos, U16ToBytes(at));
    forall k | 0 <= k < n + 1
      ensures Holds(b2, at, k, (offsets + [at])[k], (frames + [bytes])[k])
    {
      if k < n {
        HoldsKept(buf, indexPos, dataPos, k, offsets[k], frames[k], bytes, at);
      } else {
        HoldsNew(buf, n, bytes, at);
      }
    }
  }

  /** Page::get on the buffer: for a slot below `n`, the record at the
      offset the slot holds; Ok(None) past the last slot. */
  function Lookup(buf: seq<byte>, n: nat, index: nat, variant: Variant): Result<Option<Record>>
  {
    if index >= n then Ok(None)
    else if 2 * index + 1 >= |buf| then Panic("range end index out of range for slice")
    else RecordAt(buf, ReadU16(buf[2 * index], buf[2 * index + 1]), variant)
  }

  /** The record at offset `o`: the varint length there, then the record
      parsed from that many bytes after the varint. Each slice and the
      length sum panic as their Rust counterparts do. Behind one step of
      recursion, so that the page's own proofs do not look into it. */
  function RecordAt(buf: seq<byte>, o: nat, variant: Variant): (r: Result<Option<Record>>)
    ensures r.Ok? ==> r.value.Some?
  {
    RecordAfter(buf, o, variant, 1)
  }

  function RecordAfter(buf: seq<byte>, o: nat, variant: Variant, steps: nat): (r: Result<Option<Record>>)
    ensures r.Ok? ==> r.value.Some?
  {
    if steps == 0 then RecordOf(buf, o, variant) else RecordAfter(buf, o, variant, steps - 1)
  }

  function RecordOf(buf: seq<byte>, o: nat, variant: Variant): (r: Result<Option<Record>>)
    ensures r.Ok? ==> r.value.Some?
  {
    if o > |buf| then Panic("range start index out of range for slice")
    else
      match Decode(buf[o..])
      case None => Panic("index out of bounds")
      case Some(p) => Payload(buf, p.0 + o, ToNat(p.1), variant)
  }

  /** The `len` bytes from `start` on, parsed as a record. */
  function Payload(buf: seq<byte>, start: nat, len: nat, variant: Variant): (r: Result<Option<Record>>)
    ensures r.Ok? ==> r.value.Some?
  {
    if start + len >= 0x1_0000_0000_0000_0000 then Panic("attempt to add with overflow")
    else if start + len > |buf| then Panic("range end index out of range for slice")
    else
      var record :- Parse(buf[start..start + len], variant);
      Ok(Some(record))
  }

  lemma RecordAtIs(buf: seq<byte>, o: nat, variant: Variant)
    ensures RecordAt(buf, o, variant) == RecordOf(buf, o, variant)
  {
    assert RecordAfter(buf, o, variant, 0) == RecordOf(buf, o, variant);
  }

  /** `get` gives None exactly past the last record. */
  lemma LookupNone(buf: seq<byte>, n: nat, index: nat, variant: Variant)
    ensures Lookup(buf, n, index, variant) == Ok(None) <==> index >= n
  {
  }

  /** A record stored in its corrected byte form reads back. */
  lemma StoredReadsBack(buf: seq<byte>, indexPos: nat, dataPos: nat, n: nat, offsets: seq<nat>, frames: seq<seq<byte>>, k: nat, r: Record)
    requires Layout(buf, indexPos, dataPos, n, offsets, frames) && k < n
    requires Writable(r) && |Body(r)| < 0x1_0000_0000_0000_0000 && Serialized(r, Corrected) == Ok(frames[k])
    ensures Lookup(buf, n, k, Corrected) == Ok(Some(r))
  {
    assert Holds(buf, dataPos, k, offsets[k], frames[k]);
    FrameReadsBack(buf, offsets[k], frames[k], r);
  }

  lemma FrameReadsBack(buf: seq<byte>, o: nat, f: seq<byte>, r: Record)
    requires At(buf, o, f) && |buf| < 0x1_0000_0000_0000_0000
    requires Writable(r) && |Body(r)| < 0x1_0000_0000_0000_0000 && Serialized(r, Corrected) == Ok(f)
    ensures RecordAt(buf, o, Corrected) == Ok(Some(r))
  {
    AtIs(buf, o, f);
    var rest := buf[o + |f|..];
    assert buf[o..] == f + rest;
    SerializedRoundTrip(r, rest);
    FrameSliceReads(buf, o, f + rest, r);
  }

  /** A slice of a suffix is a slice of the whole. */
  lemma SliceOfSuffix(s: seq<byte>, o: nat, a: nat, b: nat)
    requires o <= |s| && a <= b <= |s| - o
    ensures s[o..][a..b] == s[a + o..b + o]
  {
  }

  /** The slice `get` takes out of the page is the one the frame's length
      prefix delimits. */
  lemma FrameSliceReads(buf: seq<byte>, o: nat, bytes: seq<byte>, r: Record)
    requires o <= |buf| && buf[o..] == bytes && |buf| < 0x1_0000_0000_0000_0000
    requires Decode(bytes).Some?
      && var n := Decode(bytes).value.0;
      var len := ToNat(Decode(bytes).value.1);
      n + len <= |bytes| && Parse(bytes[n..n + len], Corrected) == Ok(r)
    ensures RecordAt(buf, o, Corrected) == Ok(Some(r))
  {
    var n := Decode(bytes).value.0;
    var len := ToNat(Decode(bytes).value.1);
    assert n + o + len <= |buf|;
    SliceOfSuffix(buf, o, n, n + len);
    assert buf[n + o..n + o + len] == bytes[n..n + len];
    assert Payload(buf, n + o, len, Corrected) == Ok(Some(r));
    RecordAtIs(buf, o, Corrected);
  }

  /** The default record stored as written does not read back: its length
      prefix stops one byte short of its serial types. */
  lemma DefaultStoredAsWritten(buf: seq<byte>, indexPos: nat, dataPos: nat, n: nat, offsets: seq<nat>, frames: seq<seq<byte>>, k: nat)
    requires Layout(buf, indexPos, dataPos, n, offsets, frames) && k < n
    requires Serialized(Default(), AsWritten) == Ok(frames[k])
    ensures Lookup(buf, n, k, AsWritten).Panic?
  {
    assert Holds(buf, dataPos, k, offsets[k], frames[k]);
    DefaultFrameAsWritten();
    DefaultFrameFails(buf, offsets[k], frames[k]);
  }

  lemma DefaultFrameFails(buf: seq<byte>, o: nat, f: seq<byte>)
    requires At(buf, o, f) && f == [1, 0, 1]
    requires Parse([0], AsWritten).Panic?
    ensures RecordAt(buf, o, AsWritten).Panic?
  {
    AtIs(buf, o, f);
    var rest := buf[o + 3..];
    assert buf[o..] == [1] + ([0, 1] + rest);
    EncodingSmall(1);
    EncodingDecodesBefore(1, [0, 1] + rest);
    ToNatSmall(1);
    assert buf[1 + o..1 + o + 1] == [0];
    RecordAtIs(buf, o, AsWritten);
  }

  class Page {
    const pageType: PageType
    const id: nat
    const data: array<byte>
    var indexPos: nat
    var dataPos: nat
    var nRecords: nat
    /** The byte forms inserted so far, in order, and where each went. */
    ghost var frames: seq<seq<byte>>
    ghost var offsets: seq<nat>

    ghost predicate Valid()
      reads this, data
    {
      Layout(data[..], indexPos, dataPos, nRecords, offsets, frames)
    }

    /** Page::new: a zeroed buffer, no slots, and the record area ending at
        offset 4095. */
    constructor (pageType: PageType, id: nat)
      ensures Valid() && fresh(data)
      ensures this.pageType == pageType && this.id == id
      ensures data[..] == seq(PAGE_SIZE, _ => 0)
      ensures indexPos == 0 && dataPos == PAGE_SIZE - 1 && nRecords == 0 && frames == []
    {
      this.pageType := pageType;
      this.id := id;
      data := new byte[PAGE_SIZE](_ => 0);
      indexPos := 0;
      dataPos := PAGE_SIZE - 1;
      nRecords := 0;
      frames := [];
      offsets := [];
    }

    /** Page::insert: the record's byte form goes just below the record
        area, and a slot holding its offset goes after the last slot. */
    method Insert(record: Record, variant: Variant) returns (r: Result<()>)
      requires Valid()
      modifies this, data
      ensures Valid()
      ensures Serialized(record, variant).Panic? ==> r == Panic(Serialized(record, variant).reason)
      ensures Serialized(record, variant).Ok? ==>
        var at := Placement(old(indexPos), old(dataPos), |Serialized(record, variant).value|);
        r == (if at.Ok? then Ok(()) else Panic(at.reason))
      ensures r.Panic? ==> unchanged(this) && unchanged(data)
      ensures r.Ok? ==>
        var bytes := Serialized(record, variant).value;
        var at := old(dataPos) - |bytes|;
        && dataPos == at && indexPos == old(indexPos) + 2 && nRecords == old(nRecords) + 1
        && data[..] == Stored(old(data[..]), old(indexPos), old(dataPos), bytes)
        && frames == old(frames) + [bytes] && offsets == old(offsets) + [at]
    {
      var bytes := Serialized(record, variant);
      if bytes.Panic? {
        return Panic(bytes.reason);
      }
      var placement := Placement(indexPos, dataPos, |bytes.value|);
      if placement.Panic? {
        return Panic(placement.reason);
      }
      Place(bytes.value);
      r := Ok(());
    }

    /** The part of Page::insert after the capacity check: the bytes at
        the new `data_pos`, then the slot pointing at them. */
    method Place(bytes: seq<byte>)
      requires Valid() && Placement(indexPos, dataPos, |bytes|).Ok?
      modifies this, data
      ensures Valid()
      ensures var at := old(dataPos) - |bytes|;
        && dataPos == at && indexPos == old(indexPos) + 2 && nRecords == old(nRecords) + 1
        && data[..] == Stored(old(data[..]), old(indexPos), old(dataPos), bytes)
        && frames == old(frames) + [bytes] && offsets == old(offsets) + [at]
    {
      ghost var buf := data[..];
      var ok := InsertData(bytes);
      var at := dataPos;
      ghost var written := data[..];
      assert written == Splice(buf, at, bytes);
      InsertLayout(buf, old(indexPos), old(dataPos), old(nRecords), offsets, frames, bytes, at);
      nRecords := nRecords + 1;
      frames := frames + [bytes];
      offsets := offsets + [at];
      InsertIndex(at);
    }

    /** insert_data: `data_pos` lowered by the length as a u16, and the
        bytes written from there up to the old `data_pos`. */
    method InsertData(bytes: seq<byte>) returns (r: Result<()>)
      requires data.Length == PAGE_SIZE && dataPos < PAGE_SIZE
      requires |bytes| < 0x10000 || |bytes| % 0x10000 > dataPos
      modifies this, data
      ensures r.Ok? <==> |bytes| <= old(dataPos)
      ensures r.Panic? ==> r.reason == "attempt to subtract with overflow" && unchanged(this) && unchanged(data)
      ensures r.Ok? ==> dataPos == old(dataPos) - |bytes| && data[..] == Splice(old(data[..]), dataPos, bytes)
      ensures indexPos == old(indexPos) && nRecords == old(nRecords)
      ensures frames == old(frames) && offsets == old(offsets)
    {
      var end := dataPos;
      var len := |bytes| % 0x10000;
      if len > dataPos {
        return Panic("attempt to subtract with overflow");
      }
      dataPos := dataPos - len;
      WriteAt(data, dataPos, bytes);
      r := Ok(());
    }

    /** insert_index: the two bytes of `value` written at `index_pos`,
        which moves past them. */
    method InsertIndex(value: nat)
      requires value < 0x10000 && indexPos + 2 <= data.Length
      modifies this, data
      ensures indexPos == old(indexPos) + 2
      ensures data[..] == Splice(old(data[..]), old(indexPos), U16ToBytes(value))
      ensures dataPos == old(dataPos) && nRecords == old(nRecords)
      ensures frames == old(frames) && offsets == old(offsets)
    {
      var bytes := U16ToBytes(value);
      var start := indexPos;
      indexPos := indexPos + |bytes|;
      WriteAt(data, start, bytes);
    }

    /** Page::get. */
    method Get(index: nat, variant: Variant) returns (r: Result<Option<Record>>)
      ensures r == Lookup(data[..], nRecords, index, variant)
    {
      if index >= nRecords {
        return Ok(None);
      }
      if 2 * index + 1 >= data.Length {
        return Panic("range end index out of range for slice");
      }
      var o := ReadU16(data[2 * index], data[2 * index + 1]);
      r := ReadRecord(o, variant);
    }

    /** The rest of Page::get: the varint length at the slot's offset and
        the record in the bytes after it. */
    method ReadRecord(o: nat, variant: Variant) returns (r: Result<Option<Record>>)
      ensures r == RecordAt(data[..], o, variant)
    {
      RecordAtIs(data[..], o, variant);
      if o > data.Length {
        return Panic("range start index out of range for slice");
      }
      var p := Decode(data[o..]);
      if p.None? {
        return Panic("index out of bounds");
      }
      var nbytes := p.value.0;
      var len := ToNat(p.value.1);
      if nbytes + o + len >= 0x1_0000_0000_0000_0000 {
        return Panic("attempt to add with overflow");
      }
      if nbytes + o + len > data.Length {
        return Panic("range end index out of range for slice");
      }
      var record := Deserialize(data[nbytes + o..nbytes + o + len], variant);
      if record.Panic? {
        return Panic(record.reason);
      }
      r := Ok(Some(record.value));
    }
  }
}
