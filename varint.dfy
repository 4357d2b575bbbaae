/**
 * The SQLite variable-length integer (section 1.6, "B-tree Pages", of the
 * SQLite Database File Format document), as written in src/varint.rs.
 *
 * A value is split into 7-bit groups, most significant group first; every
 * byte but the last has its high bit set.  A value that needs more than 56
 * bits is written as eight bytes of seven bits each followed by one byte of
 * eight bits.
 *
 * The source's `write` takes an `i64`; the model works on its 64-bit pattern
 * (`u64`).  Arithmetic and logical right shifts differ only in the bits they
 * shift in at the top, and `write` never uses those bits, so the bytes are
 * the same.
 */
module Varint {
  import opened Wrappers

  type byte = bv8
  type u64 = bv64

  const SLOT_2_0: u64 := 0x001fc07f
  const SLOT_4_2_0: u64 := 0xf01fc07f

  /** The mask `(0xff00_0000) << 32` that selects the 9-byte form. */
  const TOP_BYTE: u64 := 0xff00_0000_0000_0000

  /** The value fits the short form: bits 56..63 are zero. */
  predicate Short(v: u64)
  {
    v & TOP_BYTE == 0
  }

  /** `v` shifted right by `7 * k` bits, seven bits at a time. */
  function Chop(v: u64, k: nat): u64
  {
    if k == 0 then v else Chop(v, k - 1) >> 7
  }

  /** The low seven bits of `x`, as a byte with a clear high bit. */
  function Low7(x: u64): (r: byte)
    ensures r & 0x80 == 0
  {
    (x & 0x7f) as byte
  }

  /** The low seven bits of `x` with the continuation bit set. */
  function High7(x: u64): (r: byte)
    ensures r & 0x80 != 0 && r & 0x7f == Low7(x)
  {
    Low7(x) | 0x80
  }

  /** The number of 7-bit groups the short form writes for `v`: the least
      `n >= 1` with nothing left after `n` groups (at most 8). */
  function GroupsFrom(v: u64, n: nat): (r: nat)
    requires 1 <= n <= 8
    ensures n <= r <= 8
    ensures r == 8 || Chop(v, r) == 0
    decreases 8 - n
  {
    if n == 8 || Chop(v, n) == 0 then n else GroupsFrom(v, n + 1)
  }

  function Groups(v: u64): nat
  {
    GroupsFrom(v, 1)
  }

  /** Reference encoding of `v`: `Expanded(v)`, reached through one step
      of recursion, so that proofs which need only the lemmas about it (it
      decodes back to `v`, it takes one to nine bytes) do not expand the two
      forms; `EncodingIs` gives the expansion. */
  function Encoding(v: u64): seq<byte>
  {
    EncodingAfter(v, 1)
  }

  function EncodingAfter(v: u64, steps: nat): seq<byte>
  {
    if steps == 0 then Expanded(v) else EncodingAfter(v, steps - 1)
  }

  /** The short form when bits 56..63 are zero, the 9-byte form otherwise. */
  function Expanded(v: u64): seq<byte>
  {
    if Short(v) then ShortEncoding(v) else LongEncoding(v)
  }

  lemma EncodingIs(v: u64)
    ensures Encoding(v) == Expanded(v)
  {
    assert EncodingAfter(v, 0) == Expanded(v);
  }

  /** The short form, byte by byte: the groups of `v`, most significant
      first, all but the last with the continuation bit set. */
  function ShortEncoding(v: u64): seq<byte>
  {
    var n := Groups(v);
    seq(n, j requires 0 <= j < n => GroupByte(v, n - 1 - j))
  }

  /** The byte of the short form that carries group `i` of `v` (group 0 is
      the lowest): the lowest group ends the encoding, so only it has a clear
      high bit. */
  function GroupByte(v: u64, i: nat): byte
  {
    if i == 0 then Low7(v) else High7(Chop(v, i))
  }

  /** The 9-byte form: eight groups of the top 56 bits with continuation
      bits set, then the low byte whole. */
  function LongEncoding(v: u64): seq<byte>
  {
    var w, low := v >> 8, (v & 0xff) as byte;
    seq(9, j requires 0 <= j < 9 => if j == 8 then low else High7(Chop(w, 7 - j)))
  }

  lemma ChopStep(v: u64, k: nat)
    ensures Chop(v, k + 1) == Chop(v, k) >> 7
  {
  }

  lemma Shift56(v: u64)
    requires Short(v)
    ensures ((((((((v >> 7) >> 7) >> 7) >> 7) >> 7) >> 7) >> 7) >> 7) == 0
  {
  }

  /** A short value has nothing left after eight groups. */
  lemma ChopShort(v: u64)
    requires Short(v)
    ensures Chop(v, 8) == 0
  {
    ChopStep(v, 0); ChopStep(v, 1); ChopStep(v, 2); ChopStep(v, 3);
    ChopStep(v, 4); ChopStep(v, 5); ChopStep(v, 6); ChopStep(v, 7);
    Shift56(v);
  }

  /** `v >> 8` has 56 bits, so eight groups exhaust it. */
  lemma ChopLong(v: u64)
    ensures Chop(v >> 8, 8) == 0
  {
    assert Short(v >> 8);
    ChopShort(v >> 8);
  }

  /** Reverses a sequence (the source's `Vec::reverse`). */
  function Reverse<T>(s: seq<T>): (r: seq<T>)
    ensures |r| == |s| && forall i :: 0 <= i < |s| ==> r[i] == s[|s| - 1 - i]
  {
    if s == [] then [] else Reverse(s[1..]) + [s[0]]
  }

  /** `write(0)` is the single byte 0. */
  lemma EncodingZero()
    ensures Encoding(0) == [0]
  {
    EncodingIs(0);
    assert Chop(0, 1) == 0;
    assert Groups(0) == 1;
    assert ShortEncoding(0)[0] == GroupByte(0, 0) == 0;
  }

  /** The byte the source pushes for the group at the bottom of `v`. */
  lemma PushedByte(v: u64)
    ensures ((v & 0x7f) | 0x80) as byte == High7(v)
  {
  }

  /** The first `k` groups of `value`, least significant first, each with
      its continuation bit set: what the source's loop has pushed after `k`
      rounds. */
  function Pushed(value: u64, k: nat): (r: seq<byte>)
    ensures |r| == k
    ensures forall i :: 0 <= i < k ==> r[i] == High7(Chop(value, i))
  {
    if k == 0 then [] else Pushed(value, k - 1) + [High7(Chop(value, k - 1))]
  }

  lemma PushedNext(value: u64, k: nat)
    ensures Pushed(value, k + 1) == Pushed(value, k) + [High7(Chop(value, k))]
  {
  }

  /** One round of the short branch's loop pushes the next group. */
  lemma PushStep(value: u64, k: nat, v: u64, pushed: seq<byte>)
    requires v == Chop(value, k) && pushed == Pushed(value, k)
    ensures pushed + [((v & 0x7f) | 0x80) as byte] == Pushed(value, k + 1)
    ensures v >> 7 == Chop(value, k + 1)
  {
    PushedByte(v);
    PushedNext(value, k);
    ChopStep(value, k);
  }

  /** `Groups(v)` is the least count of groups after which nothing is left. */
  /** While something is left, fewer than `Groups(v)` groups were taken. */
  lemma GroupsBound(v: u64, k: nat)
    requires Short(v) && k <= Groups(v) && Chop(v, k) != 0
    ensures k < Groups(v)
  {
    if k == Groups(v) && k == 8 {
      ChopShort(v);
    }
  }

  lemma GroupsLeast(v: u64, k: nat)
    requires 1 <= k <= Groups(v) && Chop(v, k) == 0
    ensures k == Groups(v)
  {
    GroupsFromLeast(v, 1, k);
  }

  lemma {:induction false} GroupsFromLeast(v: u64, n: nat, k: nat)
    requires 1 <= n <= 8 && n <= k <= GroupsFrom(v, n) && Chop(v, k) == 0
    ensures k == GroupsFrom(v, n)
    decreases 8 - n
  {
    if n < 8 && Chop(v, n) != 0 {
      GroupsFromLeast(v, n + 1, k);
    }
  }

  /** The short form is the pushed groups, least significant first, with the
      first one's continuation bit cleared, reversed. */
  lemma ShortForm(value: u64, pushed: seq<byte>)
    requires Short(value) && pushed == Pushed(value, Groups(value))
    ensures Reverse(pushed[0 := pushed[0] & 0x7f]) == ShortEncoding(value)
  {
    ShortLayout(value);
    ClearedGroups(value, Groups(value));
    ReversedBy(pushed[0 := pushed[0] & 0x7f], ShortEncoding(value), Groups(value));
  }

  /** The pushed groups with the first one's continuation bit cleared are
      the group bytes, least significant first. */
  lemma ClearedGroups(value: u64, n: nat)
    requires n >= 1
    ensures forall i :: 0 <= i < n ==> Pushed(value, n)[0 := Pushed(value, n)[0] & 0x7f][i] == GroupByte(value, i)
  {
    ClearFirst(value);
  }

  /** Clearing the continuation bit of the first pushed byte leaves the
      lowest group. */
  lemma ClearFirst(value: u64)
    ensures High7(Chop(value, 0)) & 0x7f == Low7(value)
  {
  }

  /** `e` is `q` back to front. */
  lemma ReversedBy<T>(q: seq<T>, e: seq<T>, n: nat)
    requires |q| == n && |e| == n && forall i :: 0 <= i < n ==> e[n - 1 - i] == q[i]
    ensures Reverse(q) == e
  {
    forall j | 0 <= j < n
      ensures e[j] == q[n - 1 - j]
    {
      var i := n - 1 - j;
      assert e[n - 1 - i] == q[i];
    }
  }

  /** The long form is the fixed 9-byte buffer the source fills. */
  lemma LongForm(value: u64, buf: seq<byte>)
    requires !Short(value) && |buf| == 9 && buf[8] == (value & 0xff) as byte
    requires forall j :: 0 <= j < 8 ==> buf[j] == High7(Chop(value >> 8, 7 - j))
    ensures buf == LongEncoding(value)
  {
  }

  /** The shape of the short form: one to eight bytes, each but the last
      with its high bit set, the last with it clear; and never a leading
      0x80, because the loop stops as soon as nothing is left. */
  lemma ShortShape(v: u64)
    requires Short(v)
    ensures var e := Encoding(v);
      && 1 <= |e| <= 8
      && (forall i :: 0 <= i < |e| - 1 ==> e[i] & 0x80 != 0)
      && e[|e| - 1] & 0x80 == 0
      && e[0] != 0x80
  {
    EncodingIs(v);
    ShortLayout(v);
    var e, n := ShortEncoding(v), Groups(v);
    forall i | 0 <= i < n - 1
      ensures e[i] & 0x80 != 0
    {
      assert e[n - 1 - (n - 1 - i)] == GroupByte(v, n - 1 - i);
    }
    assert e[n - 1 - 0] == GroupByte(v, 0);
    if n > 1 {
      assert e[n - 1 - (n - 1)] == GroupByte(v, n - 1);
      if Chop(v, n - 1) == 0 {
        GroupsLeast(v, n - 1);
      }
      if n == 8 {
        ChopShort(v);
      }
      ChopStep(v, n - 1);
      LeadingGroup(Chop(v, n - 1));
    }
  }

  /** The last group of a value, when it is not zero, is not a bare
      continuation byte. */
  lemma LeadingGroup(x: u64)
    requires x != 0 && x >> 7 == 0
    ensures High7(x) != 0x80
  {
  }

  /** varint::write: the 1- to 8-byte form when bits 56..63 are zero,
      the 9-byte form otherwise. */
  method Write(value: u64) returns (result: seq<byte>)
    ensures result == Encoding(value)
  {
    EncodingIs(value);
    if value & TOP_BYTE == 0 {
      if value == 0 {
        EncodingZero();
        return [0];
      }
      result := WriteShort(value);
    } else {
      result := WriteLong(value);
    }
  }

  /** The short branch of varint::write: push the groups least significant
      first, clear the first one's continuation bit, reverse. */
  method WriteShort(value: u64) returns (result: seq<byte>)
    requires Short(value) && value != 0
    ensures result == ShortEncoding(value)
  {
    var v := value;
    ChopShort(value);
    result := [];
    ghost var k: nat := 0;
    while v != 0
      invariant k <= Groups(value)
      invariant v == Chop(value, k)
      invariant result == Pushed(value, k)
      invariant k == 0 || Chop(value, k - 1) != 0
      decreases Groups(value) - k
    {
      GroupsBound(value, k);
      PushStep(value, k, v, result);
      result := result + [((v & 0x7f) | 0x80) as byte];
      v := v >> 7;
      k := k + 1;
    }
    GroupsLeast(value, k);
    ShortForm(value, result);
    result := result[0 := result[0] & 0x7f];
    result := Reverse(result);
  }

  /** The 9-byte buffer after the source's `for` loop has filled the last
      `k` of the eight 7-bit slots. */
  function Filled(value: u64, k: nat): (r: seq<byte>)
    requires k <= 8
    ensures |r| == 9 && r[8] == (value & 0xff) as byte
    ensures forall j :: 8 - k <= j < 8 ==> r[j] == High7(Chop(value >> 8, 7 - j))
  {
    if k == 0 then seq(9, _ => 0)[8 := (value & 0xff) as byte]
    else Filled(value, k - 1)[8 - k := High7(Chop(value >> 8, k - 1))]
  }

  /** One round of the 9-byte branch's loop fills the next slot from the
      back. */
  lemma FillStep(value: u64, k: nat, v: u64, buf: seq<byte>)
    requires k < 8 && v == Chop(value >> 8, k) && buf == Filled(value, k)
    ensures buf[7 - k := ((v & 0x7f) | 0x80) as byte] == Filled(value, k + 1)
    ensures v >> 7 == Chop(value >> 8, k + 1)
  {
    PushedByte(v);
    ChopStep(value >> 8, k);
  }

  /** The 9-byte branch of varint::write: the low byte last, then eight
      groups of seven bits filled from the back. */
  method WriteLong(value: u64) returns (result: seq<byte>)
    requires !Short(value)
    ensures result == LongEncoding(value)
  {
    var v := value;
    var buf: seq<byte> := seq(9, _ => 0);
    buf := buf[8 := (v & 0xff) as byte];
    v := v >> 8;
    ghost var w := v;
    ghost var k: nat := 0;
    for i := 8 downto 0
      invariant k == 8 - i && v == Chop(w, k) && buf == Filled(value, k)
    {
      FillStep(value, k, v, buf);
      k := k + 1;
      buf := buf[i := ((v & 0x7f) | 0x80) as byte];
      v := v >> 7;
    }
    LongForm(value, buf);
    result := buf;
  }

  // ---------------------------------------------------------------------
  // Decoding

  /** The accumulator after a byte with its continuation bit set. */
  function Absorb(acc: u64, b: byte): u64
  {
    (acc << 7) | (b & 0x7f) as u64
  }

  /** The accumulator after the final byte of the 1- to 8-byte form (the
      byte's high bit is clear, so all of it is taken). */
  function Finish(acc: u64, b: byte): u64
  {
    (acc << 7) | b as u64
  }

  /** The accumulator after the ninth byte, which carries eight bits. */
  function Finish9(acc: u64, b: byte): u64
  {
    (acc << 8) | b as u64
  }

  /** Reference decoder from byte `i` on, with `acc` the groups read so far:
      `None` when the input ends first; otherwise byte `i` is read. The
      result pairs the number of bytes consumed with the value. */
  function DecodeFrom(data: seq<byte>, i: nat, acc: u64): Option<(nat, u64)>
    requires i <= 8
    decreases 8 - i, 1
  {
    if i >= |data| then None else DecodeByte(data, i, acc)
  }

  /** Byte `i` of the input: bytes 0..7 contribute seven bits while their
      high bit is set; the first byte with a clear high bit ends the
      encoding; a ninth byte contributes all eight bits. */
  function DecodeByte(data: seq<byte>, i: nat, acc: u64): Option<(nat, u64)>
    requires i < |data| && i <= 8
    decreases 8 - i, 0
  {
    if i == 8 then Some((9, Finish9(acc, data[8])))
    else if data[i] & 0x80 == 0 then Some((i + 1, Finish(acc, data[i])))
    else DecodeFrom(data, i + 1, Absorb(acc, data[i]))
  }

  /** The decoder `(usize, u64)` interface that src/record.rs and src/page.rs
      call: bytes consumed and value. */
  function Decode(data: seq<byte>): Option<(nat, u64)>
  {
    DecodeAfter(data, 1)
  }

  function DecodeAfter(data: seq<byte>, steps: nat): Option<(nat, u64)>
  {
    if steps == 0 then DecodeFrom(data, 0, 0) else DecodeAfter(data, steps - 1)
  }

  lemma DecodeIs(data: seq<byte>)
    ensures Decode(data) == DecodeFrom(data, 0, 0)
  {
    assert DecodeAfter(data, 0) == DecodeFrom(data, 0, 0);
  }

  lemma DecodeBounds(data: seq<byte>)
    ensures Decode(data).Some? ==> 1 <= Decode(data).value.0 <= |data| && Decode(data).value.0 <= 9
  {
    DecodeIs(data);
    DecodeFromBounds(data, 0, 0);
  }

  /** The decoder consumes at least the byte it starts at, at most nine
      bytes, and no more than there are. */
  lemma {:induction false} DecodeFromBounds(data: seq<byte>, i: nat, acc: u64)
    requires i <= 8
    ensures DecodeFrom(data, i, acc).Some? ==> i < DecodeFrom(data, i, acc).value.0 <= |data| && DecodeFrom(data, i, acc).value.0 <= 9
    decreases 8 - i
  {
    if i < |data| && i < 8 && data[i] & 0x80 != 0 {
      DecodeFromBounds(data, i + 1, Absorb(acc, data[i]));
    }
  }

  /** The value `Decode` finds, without the length. */
  function DecodedValue(data: seq<byte>): Option<u64>
  {
    match Decode(data)
    case None => None
    case Some((_, v)) => Some(v)
  }

  /** A byte of the encoding that continues: reading it restores one more
      group of `x`. */
  lemma AbsorbHigh(x: u64)
    ensures High7(x) & 0x80 != 0
    ensures Absorb(x >> 7, High7(x)) == x
  {
  }

  /** The last byte of the short form restores its lowest group. */
  lemma FinishLow(x: u64)
    ensures Low7(x) & 0x80 == 0
    ensures Finish(x >> 7, Low7(x)) == x
  {
  }

  /** The ninth byte restores the low eight bits. */
  lemma FinishLowByte(v: u64)
    ensures Finish9(v >> 8, (v & 0xff) as byte) == v
  {
  }

  /** The bytes of the short form: group `i` is `i` bytes before the end. */
  lemma ShortLayout(v: u64)
    ensures |ShortEncoding(v)| == Groups(v)
    ensures forall i :: 0 <= i < Groups(v) ==> ShortEncoding(v)[Groups(v) - 1 - i] == GroupByte(v, i)
  {
  }

  /** The bytes of the 9-byte form. */
  lemma LongLayout(v: u64)
    ensures |LongEncoding(v)| == 9
    ensures LongEncoding(v)[8] == (v & 0xff) as byte
    ensures forall i :: 0 <= i < 8 ==> LongEncoding(v)[i] == High7(Chop(v >> 8, 7 - i))
  {
  }

  /** Decoding the 1- to 8-byte form of `v`, laid out in `e`, from byte `j`
      on, with the groups above byte `j` already read, yields the value and
      the length. */
  lemma {:induction false} ShortDecodes(v: u64, e: seq<byte>, n: nat, j: nat)
    requires j < n <= 8 && |e| == n
    requires forall i :: 0 <= i < n ==> e[n - 1 - i] == GroupByte(v, i)
    ensures DecodeFrom(e, j, Chop(v, n - j)) == Some((n, v))
    decreases n - j
  {
    var k := n - 1 - j;
    assert e[j] == GroupByte(v, k);
    if k == 0 {
      ShortLast(v, e, j);
    } else {
      ChopStep(v, k);
      GroupStep(e, j, Chop(v, k));
      ShortDecodes(v, e, n, j + 1);
      assert n - (j + 1) == k;
    }
  }

  /** The last byte of the short form ends the decoding with `v`. */
  lemma ShortLast(v: u64, e: seq<byte>, j: nat)
    requires j < 8 && |e| == j + 1 && e[j] == Low7(v)
    ensures DecodeFrom(e, j, Chop(v, 1)) == Some((j + 1, v))
  {
    ChopStep(v, 0);
    FinishLow(v);
  }

  /** Decoding the 9-byte form of `v`, laid out in `e`, from byte `j` on. */
  lemma {:induction false} LongDecodes(v: u64, e: seq<byte>, j: nat)
    requires j <= 8 && |e| == 9 && e[8] == (v & 0xff) as byte
    requires forall i :: j <= i < 8 ==> e[i] == High7(Chop(v >> 8, 7 - i))
    ensures DecodeFrom(e, j, Chop(v >> 8, 8 - j)) == Some((9, v))
    decreases 8 - j
  {
    if j == 8 {
      FinishLowByte(v);
    } else {
      LongStep(v, e, j);
      LongDecodes(v, e, j + 1);
    }
  }

  /** A continuing byte of the 9-byte form restores one more group. */
  lemma LongStep(v: u64, e: seq<byte>, j: nat)
    requires j < 8 && |e| == 9 && e[j] == High7(Chop(v >> 8, 7 - j))
    ensures DecodeFrom(e, j, Chop(v >> 8, 8 - j)) == DecodeFrom(e, j + 1, Chop(v >> 8, 8 - (j + 1)))
  {
    var k := 7 - j;
    ChopStep(v >> 8, k);
    GroupStep(e, j, Chop(v >> 8, k));
  }

  /** Reading a continuing byte of the encoding restores one group. */
  lemma GroupStep(e: seq<byte>, j: nat, x: u64)
    requires j < 8 && j < |e| && e[j] == High7(x)
    ensures DecodeFrom(e, j, x >> 7) == DecodeFrom(e, j + 1, x)
  {
    AbsorbHigh(x);
  }

  /** Round trip of the encoding through the reference decoder: all of
      `Encoding(v)` is consumed and `v` comes back. */
  lemma EncodingDecodes(v: u64)
    ensures Decode(Encoding(v)) == Some((|Encoding(v)|, v))
  {
    EncodingIs(v);
    if Short(v) {
      ShortEncodingDecodes(v);
    } else {
      LongEncodingDecodes(v);
    }
  }

  lemma ShortEncodingDecodes(v: u64)
    requires Short(v)
    ensures Decode(ShortEncoding(v)) == Some((|ShortEncoding(v)|, v))
  {
    var n := Groups(v);
    if n == 8 {
      ChopShort(v);
    }
    ShortLayout(v);
    ShortDecodes(v, ShortEncoding(v), n, 0);
    DecodeIs(ShortEncoding(v));
  }

  lemma LongEncodingDecodes(v: u64)
    ensures Decode(LongEncoding(v)) == Some((9, v))
  {
    ChopLong(v);
    LongLayout(v);
    LongDecodes(v, LongEncoding(v), 0);
    DecodeIs(LongEncoding(v));
  }

  /** The decoder reads nothing past the encoding: bytes after it do not
      change what it finds. */
  lemma {:induction false} DecodeFromExtends(d: seq<byte>, rest: seq<byte>, i: nat, acc: u64)
    requires i <= 8 && DecodeFrom(d, i, acc).Some?
    ensures DecodeFrom(d + rest, i, acc) == DecodeFrom(d, i, acc)
    decreases 8 - i
  {
    if i < 8 && d[i] & 0x80 != 0 {
      DecodeFromExtends(d, rest, i + 1, Absorb(acc, d[i]));
    }
  }

  lemma DecodeExtends(d: seq<byte>, rest: seq<byte>)
    requires Decode(d).Some?
    ensures Decode(d + rest) == Decode(d)
  {
    DecodeIs(d);
    DecodeIs(d + rest);
    DecodeFromExtends(d, rest, 0, 0);
  }

  /** An encoding followed by anything decodes to its value and length. */
  lemma EncodingDecodesBefore(v: u64, rest: seq<byte>)
    ensures Decode(Encoding(v) + rest) == Some((|Encoding(v)|, v))
    ensures 1 <= |Encoding(v)| <= 9
  {
    EncodingDecodes(v);
    DecodeExtends(Encoding(v), rest);
    DecodeBounds(Encoding(v) + rest);
  }
}
