module VarintRead {
  import opened Wrappers
  import opened Varint

  /** Byte `i` of `d`, or 0 past its end (never used there: `ReadBytes`
      stops with `None` before it would read such a byte). */
  function At(d: seq<byte>, i: nat): byte
  {
    if i < |d| then d[i] else 0
  }

  /** How far the 8-byte exit shifts the high register right, and the
      9-byte exit shifts it left: 14 as written (src/varint.rs:98 and :107),
      4 in SQLite's decoder. */
  function TopShift(variant: Variant): (r: nat)
    ensures r <= 14
  {
    match variant
    case AsWritten => 14
    case Corrected => 4
  }

  /** varint::read on an input of `n` bytes that begins `x0, x1, ...`.
      `None` where the source indexes past the end of its input and
      panics. */
  function ReadBytes(n: nat, x0: byte, x1: byte, x2: byte, x3: byte, x4: byte, x5: byte, x6: byte, x7: byte, x8: byte,
                     variant: Variant): Option<u64>
  {
    if n < 1 then None else
    var a: u64 := x0 as u64;
    if a & 0x80 == 0 then Some(a) else
    if n < 2 then None else
    var b: u64 := x1 as u64;
    if b & 0x80 == 0 then Some(((a & 0x7f) << 7) | b) else
    if n < 3 then None else
    var a := (a << 14) | x2 as u64;
    if a & 0x80 == 0 then Some((a & SLOT_2_0) | ((b & 0x7f) << 7)) else
    var a := a & SLOT_2_0;
    if n < 4 then None else
    var b := (b << 14) | x3 as u64;
    if b & 0x80 == 0 then Some((a << 7) | (b & SLOT_2_0)) else
    var b := b & SLOT_2_0;
    var s := a;
    if n < 5 then None else
    var m := x4 as u64;
    var a := (a << 14) | m;
    if a & 0x80 == 0 then Some(((s >> 18) << 32) | (a | (b << 7))) else
    var s := (s << 7) | b;
    if n < 6 then None else
    var b := (b << 14) | x5 as u64;
    if b & 0x80 == 0 then Some(((s >> 18) << 32) | (((a & SLOT_2_0) << 7) | b)) else
    if n < 7 then None else
    var a := (a << 14) | x6 as u64;
    if a & 0x80 == 0 then Some(((s >> 11) << 32) | ((a & SLOT_4_2_0) | ((b & SLOT_2_0) << 7))) else
    var a := a & SLOT_2_0;
    if n < 8 then None else
    var b := (b << 14) | x7 as u64;
    if b & 0x80 == 0 then Some(((s >> TopShift(variant)) << 32) | ((a << 7) | (b & SLOT_4_2_0))) else
    if n < 9 then None else
    var a := ((a << 15) | x8 as u64) | ((b & SLOT_2_0) << 8);
    var s := (s << TopShift(variant)) | ((m & 0x7f) >> 3);
    Some((s << 32) | a)
  }

  /** varint::read on `d`. */
  function ReadWith(d: seq<byte>, variant: Variant): Option<u64>
  {
    ReadBytes(|d|, At(d, 0), At(d, 1), At(d, 2), At(d, 3), At(d, 4), At(d, 5), At(d, 6), At(d, 7), At(d, 8), variant)
  }

  /** varint::read as written: the 8-byte exit shifts the high register
      right by 14 and the 9-byte exit shifts it left by 14. */
  function ReadAsWritten(d: seq<byte>): Option<u64>
  {
    ReadWith(d, AsWritten)
  }

  /** varint::read with the shifts SQLite's decoder uses at those exits
      (right by 4, left by 4), which the rest of the model uses. */
  function Read(d: seq<byte>): Option<u64>
  {
    ReadWith(d, Corrected)
  }

  // ---------------------------------------------------------------------
  // The nine exits of `ReadBytes`, each equal to the reference decoding of
  // the bytes it consumed.  Exits 1 to 7 hold for either variant.

  lemma Exit1(n: nat, x0: byte, x1: byte, x2: byte, x3: byte, x4: byte, x5: byte, x6: byte, x7: byte, x8: byte, variant: Variant)
    requires n >= 1
    requires x0 & 0x80 == 0
    ensures ReadBytes(n, x0, x1, x2, x3, x4, x5, x6, x7, x8, variant) == Some(Finish(0, x0))
  {
  }

  lemma Exit2(n: nat, x0: byte, x1: byte, x2: byte, x3: byte, x4: byte, x5: byte, x6: byte, x7: byte, x8: byte, variant: Variant)
    requires n >= 2
    requires x0 & 0x80 != 0 && x1 & 0x80 == 0
    ensures ReadBytes(n, x0, x1, x2, x3, x4, x5, x6, x7, x8, variant) == Some(Finish(Absorb(0, x0), x1))
  {
  }

  lemma Exit3(n: nat, x0: byte, x1: byte, x2: byte, x3: byte, x4: byte, x5: byte, x6: byte, x7: byte, x8: byte, variant: Variant)
    requires n >= 3
    requires x0 & 0x80 != 0 && x1 & 0x80 != 0 && x2 & 0x80 == 0
    ensures ReadBytes(n, x0, x1, x2, x3, x4, x5, x6, x7, x8, variant) == Some(Finish(Absorb(Absorb(0, x0), x1), x2))
  {
  }

  lemma Exit4(n: nat, x0: byte, x1: byte, x2: byte, x3: byte, x4: byte, x5: byte, x6: byte, x7: byte, x8: byte, variant: Variant)
    requires n >= 4
    requires x0 & 0x80 != 0 && x1 & 0x80 != 0 && x2 & 0x80 != 0 && x3 & 0x80 == 0
    ensures ReadBytes(n, x0, x1, x2, x3, x4, x5, x6, x7, x8, variant) == Some(Finish(Absorb(Absorb(Absorb(0, x0), x1), x2), x3))
  {
  }

  lemma Exit5(n: nat, x0: byte, x1: byte, x2: byte, x3: byte, x4: byte, x5: byte, x6: byte, x7: byte, x8: byte, variant: Variant)
    requires n >= 5
    requires x0 & 0x80 != 0 && x1 & 0x80 != 0 && x2 & 0x80 != 0 && x3 & 0x80 != 0 && x4 & 0x80 == 0
    ensures ReadBytes(n, x0, x1, x2, x3, x4, x5, x6, x7, x8, variant) == Some(Finish(Absorb(Absorb(Absorb(Absorb(0, x0), x1), x2), x3), x4))
  {
  }

  lemma Exit6(n: nat, x0: byte, x1: byte, x2: byte, x3: byte, x4: byte, x5: byte, x6: byte, x7: byte, x8: byte, variant: Variant)
    requires n >= 6
    requires x0 & 0x80 != 0 && x1 & 0x80 != 0 && x2 & 0x80 != 0 && x3 & 0x80 != 0 && x4 & 0x80 != 0 && x5 & 0x80 == 0
    ensures ReadBytes(n, x0, x1, x2, x3, x4, x5, x6, x7, x8, variant) == Some(Finish(Absorb(Absorb(Absorb(Absorb(Absorb(0, x0), x1), x2), x3), x4), x5))
  {
  }

  lemma Exit7(n: nat, x0: byte, x1: byte, x2: byte, x3: byte, x4: byte, x5: byte, x6: byte, x7: byte, x8: byte, variant: Variant)
    requires n >= 7
    requires x0 & 0x80 != 0 && x1 & 0x80 != 0 && x2 & 0x80 != 0 && x3 & 0x80 != 0 && x4 & 0x80 != 0 && x5 & 0x80 != 0 && x6 & 0x80 == 0
    ensures ReadBytes(n, x0, x1, x2, x3, x4, x5, x6, x7, x8, variant) == Some(Finish(Absorb(Absorb(Absorb(Absorb(Absorb(Absorb(0, x0), x1), x2), x3), x4), x5), x6))
  {
  }

  lemma Exit8(n: nat, x0: byte, x1: byte, x2: byte, x3: byte, x4: byte, x5: byte, x6: byte, x7: byte, x8: byte)
    requires n >= 8
    requires x0 & 0x80 != 0 && x1 & 0x80 != 0 && x2 & 0x80 != 0 && x3 & 0x80 != 0 && x4 & 0x80 != 0 && x5 & 0x80 != 0 && x6 & 0x80 != 0 && x7 & 0x80 == 0
    ensures ReadBytes(n, x0, x1, x2, x3, x4, x5, x6, x7, x8, Corrected) == Some(Finish(Absorb(Absorb(Absorb(Absorb(Absorb(Absorb(Absorb(0, x0), x1), x2), x3), x4), x5), x6), x7))
  {
  }

  lemma Exit9(n: nat, x0: byte, x1: byte, x2: byte, x3: byte, x4: byte, x5: byte, x6: byte, x7: byte, x8: byte)
    requires n >= 9
    requires x0 & 0x80 != 0 && x1 & 0x80 != 0 && x2 & 0x80 != 0 && x3 & 0x80 != 0 && x4 & 0x80 != 0 && x5 & 0x80 != 0 && x6 & 0x80 != 0 && x7 & 0x80 != 0
    ensures ReadBytes(n, x0, x1, x2, x3, x4, x5, x6, x7, x8, Corrected) == Some(Finish9(Absorb(Absorb(Absorb(Absorb(Absorb(Absorb(Absorb(Absorb(0, x0), x1), x2), x3), x4), x5), x6), x7), x8))
  {
  }

  /** The source panics when the input ends while every byte so far has
      its continuation bit set. */
  lemma ExitShort(n: nat, x0: byte, x1: byte, x2: byte, x3: byte, x4: byte, x5: byte, x6: byte, x7: byte, x8: byte, variant: Variant)
    requires n <= 8
    requires (n > 0 ==> x0 & 0x80 != 0) && (n > 1 ==> x1 & 0x80 != 0) && (n > 2 ==> x2 & 0x80 != 0)
    requires (n > 3 ==> x3 & 0x80 != 0) && (n > 4 ==> x4 & 0x80 != 0) && (n > 5 ==> x5 & 0x80 != 0)
    requires (n > 6 ==> x6 & 0x80 != 0) && (n > 7 ==> x7 & 0x80 != 0)
    ensures ReadBytes(n, x0, x1, x2, x3, x4, x5, x6, x7, x8, variant) == None
  {
  }
  /** As written, the 8-byte exit loses ten bits of the high register: the
      8-byte encoding of 2^49 reads back as 2^39. */
  lemma Exit8AsWritten()
    ensures ReadBytes(8, 0x81, 0x80, 0x80, 0x80, 0x80, 0x80, 0x80, 0x00, 0, AsWritten) == Some(0x80_0000_0000)
    ensures ReadBytes(8, 0x81, 0x80, 0x80, 0x80, 0x80, 0x80, 0x80, 0x00, 0, Corrected) == Some(0x2_0000_0000_0000)
  {
  }

  /** As written, the 9-byte exit pushes the top group out of the high
      register: the encoding of 2^56 reads back as 0. */
  lemma Exit9AsWritten()
    ensures ReadBytes(9, 0x80, 0xc0, 0x80, 0x80, 0x80, 0x80, 0x80, 0x80, 0x00, AsWritten) == Some(0)
    ensures ReadBytes(9, 0x80, 0xc0, 0x80, 0x80, 0x80, 0x80, 0x80, 0x80, 0x00, Corrected) == Some(0x100_0000_0000_0000)
  {
  }

  // ---------------------------------------------------------------------
  // The reference decoder, described by how far it reads.

  /** The first `k` bytes of `d` all have their continuation bit set. */
  predicate Continues(d: seq<byte>, k: nat)
    requires k <= |d|
  {
    forall i :: 0 <= i < k ==> d[i] & 0x80 != 0
  }

  /** The groups the decoder has gathered after `k` continuing bytes. */
  function Prefix(d: seq<byte>, k: nat): u64
    requires k <= |d|
  {
    if k == 0 then 0 else Absorb(Prefix(d, k - 1), d[k - 1])
  }

  lemma PrefixStep(d: seq<byte>, k: nat)
    requires k < |d|
    ensures Prefix(d, k + 1) == Absorb(Prefix(d, k), d[k])
  {
  }

  lemma Continue(d: seq<byte>, i: nat, acc: u64)
    requires i < 8 && i < |d| && d[i] & 0x80 != 0
    ensures DecodeFrom(d, i, acc) == DecodeFrom(d, i + 1, Absorb(acc, d[i]))
  {
  }

  lemma {:induction false} DecodePrefix(d: seq<byte>, k: nat)
    requires k <= 8 && k <= |d| && Continues(d, k)
    ensures Decode(d) == DecodeFrom(d, k, Prefix(d, k))
  {
    DecodeIs(d);
    if k > 0 {
      DecodePrefix(d, k - 1);
      Continue(d, k - 1, Prefix(d, k - 1));
    }
  }

  /** The decoder stops at the first of bytes 0..7 with a clear high bit. */
  lemma DecodeStop(d: seq<byte>, k: nat)
    requires k < 8 && k < |d| && Continues(d, k) && d[k] & 0x80 == 0
    ensures Decode(d) == Some((k + 1, Finish(Prefix(d, k), d[k])))
  {
    DecodePrefix(d, k);
  }

  /** After eight continuing bytes the ninth is taken whole. */
  lemma DecodeNinth(d: seq<byte>)
    requires 9 <= |d| && Continues(d, 8)
    ensures Decode(d) == Some((9, Finish9(Prefix(d, 8), d[8])))
  {
    DecodePrefix(d, 8);
  }

  /** The decoder finds nothing when the input ends first. */
  lemma DecodeEnds(d: seq<byte>)
    requires |d| <= 8 && Continues(d, |d|)
    ensures Decode(d) == None
  {
    DecodePrefix(d, |d|);
  }

  /** How far the decoder reads: the index of the first of bytes 0..7 with a
      clear high bit, or where the input or the eight bytes end. */
  function StopFrom(d: seq<byte>, i: nat): (k: nat)
    requires i <= 8 && i <= |d| && Continues(d, i)
    ensures i <= k <= 8 && k <= |d| && Continues(d, k)
    ensures k < 8 && k < |d| ==> d[k] & 0x80 == 0
    decreases 8 - i
  {
    if i == 8 || i == |d| || d[i] & 0x80 == 0 then i else StopFrom(d, i + 1)
  }

  lemma ReadStop1(d: seq<byte>, variant: Variant)
    requires 0 < |d| && Continues(d, 0) && d[0] & 0x80 == 0
    ensures ReadWith(d, variant) == DecodedValue(d)
  {
    DecodeStop(d, 0);
    
    Exit1(|d|, At(d, 0), At(d, 1), At(d, 2), At(d, 3), At(d, 4), At(d, 5), At(d, 6), At(d, 7), At(d, 8), variant);
  }

  lemma ReadStop2(d: seq<byte>, variant: Variant)
    requires 1 < |d| && Continues(d, 1) && d[1] & 0x80 == 0
    ensures ReadWith(d, variant) == DecodedValue(d)
  {
    DecodeStop(d, 1);
    PrefixStep(d, 0);
    Exit2(|d|, At(d, 0), At(d, 1), At(d, 2), At(d, 3), At(d, 4), At(d, 5), At(d, 6), At(d, 7), At(d, 8), variant);
  }

  lemma ReadStop3(d: seq<byte>, variant: Variant)
    requires 2 < |d| && Continues(d, 2) && d[2] & 0x80 == 0
    ensures ReadWith(d, variant) == DecodedValue(d)
  {
    DecodeStop(d, 2);
    PrefixStep(d, 0); PrefixStep(d, 1);
    Exit3(|d|, At(d, 0), At(d, 1), At(d, 2), At(d, 3), At(d, 4), At(d, 5), At(d, 6), At(d, 7), At(d, 8), variant);
  }

  lemma ReadStop4(d: seq<byte>, variant: Variant)
    requires 3 < |d| && Continues(d, 3) && d[3] & 0x80 == 0
    ensures ReadWith(d, variant) == DecodedValue(d)
  {
    DecodeStop(d, 3);
    PrefixStep(d, 0); PrefixStep(d, 1); PrefixStep(d, 2);
    Exit4(|d|, At(d, 0), At(d, 1), At(d, 2), At(d, 3), At(d, 4), At(d, 5), At(d, 6), At(d, 7), At(d, 8), variant);
  }

  lemma ReadStop5(d: seq<byte>, variant: Variant)
    requires 4 < |d| && Continues(d, 4) && d[4] & 0x80 == 0
    ensures ReadWith(d, variant) == DecodedValue(d)
  {
    DecodeStop(d, 4);
    PrefixStep(d, 0); PrefixStep(d, 1); PrefixStep(d, 2); PrefixStep(d, 3);
    Exit5(|d|, At(d, 0), At(d, 1), At(d, 2), At(d, 3), At(d, 4), At(d, 5), At(d, 6), At(d, 7), At(d, 8), variant);
  }

  lemma ReadStop6(d: seq<byte>, variant: Variant)
    requires 5 < |d| && Continues(d, 5) && d[5] & 0x80 == 0
    ensures ReadWith(d, variant) == DecodedValue(d)
  {
    DecodeStop(d, 5);
    PrefixStep(d, 0); PrefixStep(d, 1); PrefixStep(d, 2); PrefixStep(d, 3); PrefixStep(d, 4);
    Exit6(|d|, At(d, 0), At(d, 1), At(d, 2), At(d, 3), At(d, 4), At(d, 5), At(d, 6), At(d, 7), At(d, 8), variant);
  }

  lemma ReadStop7(d: seq<byte>, variant: Variant)
    requires 6 < |d| && Continues(d, 6) && d[6] & 0x80 == 0
    ensures ReadWith(d, variant) == DecodedValue(d)
  {
    DecodeStop(d, 6);
    PrefixStep(d, 0); PrefixStep(d, 1); PrefixStep(d, 2); PrefixStep(d, 3); PrefixStep(d, 4); PrefixStep(d, 5);
    Exit7(|d|, At(d, 0), At(d, 1), At(d, 2), At(d, 3), At(d, 4), At(d, 5), At(d, 6), At(d, 7), At(d, 8), variant);
  }

  lemma ReadStop8(d: seq<byte>)
    requires 7 < |d| && Continues(d, 7) && d[7] & 0x80 == 0
    ensures ReadWith(d, Corrected) == DecodedValue(d)
  {
    DecodeStop(d, 7);
    PrefixStep(d, 0); PrefixStep(d, 1); PrefixStep(d, 2); PrefixStep(d, 3); PrefixStep(d, 4); PrefixStep(d, 5); PrefixStep(d, 6);
    Exit8(|d|, At(d, 0), At(d, 1), At(d, 2), At(d, 3), At(d, 4), At(d, 5), At(d, 6), At(d, 7), At(d, 8));
  }

  lemma ReadNinth(d: seq<byte>)
    requires 9 <= |d| && Continues(d, 8)
    ensures Read(d) == DecodedValue(d)
  {
    DecodeNinth(d);
    PrefixStep(d, 0); PrefixStep(d, 1); PrefixStep(d, 2); PrefixStep(d, 3);
    PrefixStep(d, 4); PrefixStep(d, 5); PrefixStep(d, 6); PrefixStep(d, 7);
    Exit9(|d|, At(d, 0), At(d, 1), At(d, 2), At(d, 3), At(d, 4), At(d, 5), At(d, 6), At(d, 7), At(d, 8));
  }

  lemma ReadEnds(d: seq<byte>, variant: Variant)
    requires |d| <= 8 && Continues(d, |d|)
    ensures ReadWith(d, variant) == None && DecodedValue(d) == None
  {
    DecodeEnds(d);
    ExitShort(|d|, At(d, 0), At(d, 1), At(d, 2), At(d, 3), At(d, 4), At(d, 5), At(d, 6), At(d, 7), At(d, 8), variant);
  }
  // ---------------------------------------------------------------------
  // What read promises.

  /** With SQLite's shifts, read is the reference decoder on every input,
      including the inputs it panics on. */
  lemma ReadDecodes(d: seq<byte>)
    ensures Read(d) == DecodedValue(d)
  {
    var k := StopFrom(d, 0);
    if k < |d| && k < 8 {
      ReadStopAt(d, k, Corrected);
    } else if k == 8 && 9 <= |d| {
      ReadNinth(d);
    } else {
      ReadEnds(d, Corrected);
    }
  }

  lemma ReadStopAt(d: seq<byte>, k: nat, variant: Variant)
    requires k < 8 && k < |d| && Continues(d, k) && d[k] & 0x80 == 0
    requires k == 7 ==> variant == Corrected
    ensures ReadWith(d, variant) == DecodedValue(d)
  {
    if k == 0 { ReadStop1(d, variant); }
    else if k == 1 { ReadStop2(d, variant); }
    else if k == 2 { ReadStop3(d, variant); }
    else if k == 3 { ReadStop4(d, variant); }
    else if k == 4 { ReadStop5(d, variant); }
    else if k == 5 { ReadStop6(d, variant); }
    else if k == 6 { ReadStop7(d, variant); }
    else { ReadStop8(d); }
  }

  /** As written, read still agrees with the decoder whenever the encoding
      is at most seven bytes long, and on every input it panics on. */
  lemma ReadAsWrittenAgrees(d: seq<byte>)
    requires Decode(d).None? || Decode(d).value.0 <= 7
    ensures ReadAsWritten(d) == DecodedValue(d)
  {
    var k := StopFrom(d, 0);
    if k < |d| && k < 8 {
      DecodeStop(d, k);
      ReadStopAt(d, k, AsWritten);
    } else if k == 8 && 9 <= |d| {
      DecodeNinth(d);
    } else {
      ReadEnds(d, AsWritten);
    }
  }

  /** read looks at no byte past `data[8]`: the bytes after the ninth
      change nothing, as written and corrected. */
  lemma ReadFirstNine(d: seq<byte>, variant: Variant)
    requires |d| > 9
    ensures ReadWith(d, variant) == ReadWith(d[..9], variant)
  {
    var e := d[..9];
    assert At(d, 0) == At(e, 0) && At(d, 1) == At(e, 1) && At(d, 2) == At(e, 2);
    assert At(d, 3) == At(e, 3) && At(d, 4) == At(e, 4) && At(d, 5) == At(e, 5);
    assert At(d, 6) == At(e, 6) && At(d, 7) == At(e, 7) && At(d, 8) == At(e, 8);
    ReadBytesLong(|d|, 9, At(d, 0), At(d, 1), At(d, 2), At(d, 3), At(d, 4), At(d, 5), At(d, 6), At(d, 7), At(d, 8), variant);
  }

  /** Past nine bytes, the input length no longer matters to read. */
  lemma ReadBytesLong(n: nat, m: nat, x0: byte, x1: byte, x2: byte, x3: byte, x4: byte, x5: byte, x6: byte, x7: byte, x8: byte, variant: Variant)
    requires n >= 9 && m >= 9
    ensures ReadBytes(n, x0, x1, x2, x3, x4, x5, x6, x7, x8, variant) == ReadBytes(m, x0, x1, x2, x3, x4, x5, x6, x7, x8, variant)
  {
  }

  /** read panics exactly when the input ends while every byte so far has
      its continuation bit set. */
  lemma ReadPanics(d: seq<byte>)
    ensures Read(d).None? <==> |d| <= 8 && Continues(d, |d|)
    ensures |d| > 9 ==> Read(d) == Read(d[..9])
  {
    if |d| > 9 {
      ReadFirstNine(d, Corrected);
    }
    ReadDecodes(d);
    var k := StopFrom(d, 0);
    if k < |d| && k < 8 {
      DecodeStop(d, k);
    } else if k == 8 && 9 <= |d| {
      DecodeNinth(d);
    } else {
      DecodeEnds(d);
    }
  }

  /** read(write(v)) == v for every value. */
  lemma RoundTrip(v: u64)
    ensures Read(Encoding(v)) == Some(v)
  {
    EncodingDecodes(v);
    ReadDecodes(Encoding(v));
  }

  /** As written, the round trip holds for the values below 2^49, whose
      encodings have at most seven bytes. */
  lemma RoundTripAsWritten(v: u64)
    requires v >> 49 == 0
    ensures ReadAsWritten(Encoding(v)) == Some(v)
  {
    EncodingDecodes(v);
    SevenGroups(v);
    ReadAsWrittenAgrees(Encoding(v));
  }

  /** Values below 2^49 have at most seven groups. */
  lemma SevenGroups(v: u64)
    requires v >> 49 == 0
    ensures Short(v) && |Encoding(v)| <= 7
  {
    ChopStep(v, 0); ChopStep(v, 1); ChopStep(v, 2); ChopStep(v, 3);
    ChopStep(v, 4); ChopStep(v, 5); ChopStep(v, 6);
    Shift49(v);
    GroupsAtMost(v, 1, 7);
    ShortLayout(v);
    EncodingIs(v);
  }

  lemma Shift49(v: u64)
    requires v >> 49 == 0
    ensures Short(v) && (((((((v >> 7) >> 7) >> 7) >> 7) >> 7) >> 7) >> 7) == 0
  {
  }

  lemma {:induction false} GroupsAtMost(v: u64, n: nat, m: nat)
    requires 1 <= n <= m <= 8 && Chop(v, m) == 0
    ensures GroupsFrom(v, n) <= m
    decreases m - n
  {
    if n < m && Chop(v, n) != 0 {
      GroupsAtMost(v, n + 1, m);
    }
  }

  /** The 8-byte encoding of 2^49 reads back as 2^39 as written. */
  lemma RoundTripFails8()
    ensures Encoding(0x2_0000_0000_0000) == [0x81, 0x80, 0x80, 0x80, 0x80, 0x80, 0x80, 0x00]
    ensures ReadAsWritten(Encoding(0x2_0000_0000_0000)) == Some(0x80_0000_0000)
  {
    Encoding49();
    Exit8AsWritten();
  }

  lemma Encoding49()
    ensures Encoding(0x2_0000_0000_0000) == [0x81, 0x80, 0x80, 0x80, 0x80, 0x80, 0x80, 0x00]
  {
    var v: u64 := 0x2_0000_0000_0000;
    ChopStep(v, 0); ChopStep(v, 1); ChopStep(v, 2); ChopStep(v, 3);
    ChopStep(v, 4); ChopStep(v, 5); ChopStep(v, 6); ChopStep(v, 7);
    assert Chop(v, 7) == 1 && Chop(v, 6) == 0x80 && Chop(v, 5) == 0x4000;
    assert Chop(v, 4) == 0x20_0000 && Chop(v, 3) == 0x1000_0000;
    assert Chop(v, 2) == 0x8_0000_0000 && Chop(v, 1) == 0x400_0000_0000;
    assert Groups(v) == 8;
    ShortLayout(v);
  }

  /** The 9-byte encoding of 2^56 reads back as 0 as written. */
  lemma RoundTripFails9()
    ensures Encoding(0x100_0000_0000_0000) == [0x80, 0xc0, 0x80, 0x80, 0x80, 0x80, 0x80, 0x80, 0x00]
    ensures ReadAsWritten(Encoding(0x100_0000_0000_0000)) == Some(0)
  {
    Encoding56();
    Exit9AsWritten();
  }

  lemma Encoding56()
    ensures Encoding(0x100_0000_0000_0000) == [0x80, 0xc0, 0x80, 0x80, 0x80, 0x80, 0x80, 0x80, 0x00]
  {
    var w: u64 := 0x1_0000_0000_0000;
    ChopStep(w, 0); ChopStep(w, 1); ChopStep(w, 2); ChopStep(w, 3);
    ChopStep(w, 4); ChopStep(w, 5); ChopStep(w, 6);
    assert Chop(w, 7) == 0 && Chop(w, 6) == 0x40 && Chop(w, 5) == 0x2000;
    assert Chop(w, 4) == 0x10_0000 && Chop(w, 3) == 0x800_0000;
    assert Chop(w, 2) == 0x4_0000_0000 && Chop(w, 1) == 0x200_0000_0000;
    LongLayout(0x100_0000_0000_0000);
  }
}
