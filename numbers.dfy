/** Conversions between u64 and the numbers of `usize` arithmetic (`as
    u64`, `as usize`), eight bits at a time. */
module Numbers {
  import opened Varint

  function Pow256(k: nat): (p: nat)
    ensures p >= 1
  {
    if k == 0 then 1 else 0x100 * Pow256(k - 1)
  }

  /** The low byte of `v`, as a number. */
  function LowByte(v: u64): nat
  {
    ((v & 0xff) as byte) as nat
  }

  /** The number held in the low `k` bytes of `v`. */
  function ToNatBytes(v: u64, k: nat): nat
  {
    if k == 0 then 0 else ToNatBytes(v >> 8, k - 1) * 0x100 + LowByte(v)
  }

  /** The number a u64 stands for (`v as usize`). Its body sits behind one
      step of recursion, so that the byte arithmetic is only unfolded where
      ToNatIs is called. */
  function ToNat(v: u64): nat
  {
    ToNatAfter(v, 1)
  }

  function ToNatAfter(v: u64, steps: nat): nat
  {
    if steps == 0 then ToNatBytes(v, 8) else ToNatAfter(v, steps - 1)
  }

  lemma ToNatIs(v: u64)
    ensures ToNat(v) == ToNatBytes(v, 8)
  {
    assert ToNatAfter(v, 0) == ToNatBytes(v, 8);
  }

  /** A number below 256 as a byte, counted up from zero. */
  function ByteOf(n: nat): byte
    requires n < 0x100
  {
    if n == 0 then 0 else ByteOf(n - 1) + 1
  }

  lemma {:induction false} ByteOfValue(n: nat)
    requires n < 0x100
    ensures ByteOf(n) as nat == n
  {
    if n > 0 {
      ByteOfValue(n - 1);
      ByteIncrement(ByteOf(n - 1));
    }
  }

  lemma ByteIncrement(b: byte)
    requires b as nat < 0xff
    ensures (b + 1) as nat == b as nat + 1
  {
  }

  /** `y` moved up a byte, with `b` below it. Its body sits behind one
      step of recursion, so that proofs about the numbers built from it
      only see the bit operations where ShiftedIs is called. */
  function Shifted(y: u64, b: byte): u64
  {
    ShiftedAfter(y, b, 1)
  }

  function ShiftedAfter(y: u64, b: byte, steps: nat): u64
  {
    if steps == 0 then (y << 8) | b as u64 else ShiftedAfter(y, b, steps - 1)
  }

  lemma ShiftedIs(y: u64, b: byte)
    ensures Shifted(y, b) == (y << 8) | b as u64
  {
    assert ShiftedAfter(y, b, 0) == (y << 8) | b as u64;
  }

  /** The u64 whose low `k` bytes hold `n`. */
  function FromNatBytes(n: nat, k: nat): u64
  {
    if k == 0 then 0 else Shifted(FromNatBytes(n / 0x100, k - 1), ByteOf(n % 0x100))
  }

  /** `n as u64` on a usize: the u64 holding `n` modulo 2^64, behind one
      step of recursion like ToNat. */
  function U64(n: nat): u64
  {
    U64After(n, 1)
  }

  function U64After(n: nat, steps: nat): u64
  {
    if steps == 0 then FromNatBytes(n % 0x1_0000_0000_0000_0000, 8) else U64After(n, steps - 1)
  }

  lemma U64Is(n: nat)
    ensures U64(n) == FromNatBytes(n % 0x1_0000_0000_0000_0000, 8)
  {
    assert U64After(n, 0) == FromNatBytes(n % 0x1_0000_0000_0000_0000, 8);
  }

  lemma Pow256Eight()
    ensures Pow256(8) == 0x1_0000_0000_0000_0000
  {
  }

  /** The arithmetic of taking off the low byte of a number of `k` bytes. */
  lemma DivStep(n: nat, k: nat)
    requires 0 < k <= 8 && n < Pow256(k)
    ensures n / 0x100 < Pow256(k - 1)
    ensures (n / 0x100) * 0x100 + n % 0x100 == n
  {
  }

  /** The largest u64 of `k` bytes, for k = 0..7. */
  function MaskOf(k: nat): u64
    requires k < 8
  {
    if k == 0 then 0 else if k == 1 then 0xff else if k == 2 then 0xffff
    else if k == 3 then 0xff_ffff else if k == 4 then 0xffff_ffff
    else if k == 5 then 0xff_ffff_ffff else if k == 6 then 0xffff_ffff_ffff
    else 0xff_ffff_ffff_ffff
  }

  /** `v` has no bits above its low `k` bytes. The comparison sits behind
      one step of recursion, as in Shifted, so that the proofs that build
      a bound out of smaller ones do not reason about bits. */
  predicate Fits(v: u64, k: nat)
    requires k < 8
  {
    FitsAfter(v, k, 1)
  }

  predicate FitsAfter(v: u64, k: nat, steps: nat)
    requires k < 8
  {
    if steps == 0 then v <= MaskOf(k) else FitsAfter(v, k, steps - 1)
  }

  lemma FitsIs(v: u64, k: nat)
    requires k < 8
    ensures Fits(v, k) == (v <= MaskOf(k))
  {
    assert FitsAfter(v, k, 0) == (v <= MaskOf(k));
  }

  lemma FitsStep(y: u64, b: byte, k: nat)
    requires 0 < k < 8 && Fits(y, k - 1)
    ensures Fits(Shifted(y, b), k)
  {
    FitsIs(y, k - 1);
    FitsIs(Shifted(y, b), k);
    ShiftedIs(y, b);
    if k == 1 {
    } else if k == 2 {
    } else if k == 3 {
    } else if k == 4 {
    } else if k == 5 {
    } else if k == 6 {
    } else {
    }
  }

  /** A number of at most seven bytes leaves the top byte clear. */
  lemma FitsTop(v: u64, k: nat)
    requires k < 8 && Fits(v, k)
    ensures v <= 0x00ff_ffff_ffff_ffff
  {
    FitsIs(v, k);
  }

  lemma {:induction false} FromNatBytesBelow(n: nat, k: nat)
    requires k < 8 && n < Pow256(k)
    ensures Fits(FromNatBytes(n, k), k)
  {
    if k > 0 {
      DivStep(n, k);
      var y := FromNatBytes(n / 0x100, k - 1);
      var b := ByteOf(n % 0x100);
      FromNatBytesBelow(n / 0x100, k - 1);
      FitsStep(y, b, k);
      FromNatBytesUnfold(n, k, y, b);
    } else {
      FitsIs(0, 0);
    }
  }

  lemma FromNatBytesUnfold(n: nat, k: nat, y: u64, b: byte)
    requires 0 < k && y == FromNatBytes(n / 0x100, k - 1) && b == ByteOf(n % 0x100)
    ensures FromNatBytes(n, k) == Shifted(y, b)
  {
  }

  lemma ShiftByteIn(y: u64, b: byte)
    requires y <= 0x00ff_ffff_ffff_ffff
    ensures Shifted(y, b) >> 8 == y
    ensures (Shifted(y, b) & 0xff) as byte == b
  {
    ShiftedIs(y, b);
  }

  /** Shifting a byte in below `y` adds it to the number of `y`. */
  lemma ToNatBytesShift(y: u64, b: byte, k: nat)
    requires 0 < k && y <= 0x00ff_ffff_ffff_ffff
    ensures ToNatBytes(Shifted(y, b), k) == ToNatBytes(y, k - 1) * 0x100 + b as nat
  {
    ShiftByteIn(y, b);
  }

  lemma ToNatFromNatStep(n: nat, k: nat)
    requires 0 < k <= 8 && n < Pow256(k) && n / 0x100 < Pow256(k - 1)
    requires ToNatBytes(FromNatBytes(n / 0x100, k - 1), k - 1) == n / 0x100
    ensures ToNatBytes(FromNatBytes(n, k), k) == n
  {
    var y := FromNatBytes(n / 0x100, k - 1);
    var b := ByteOf(n % 0x100);
    FromNatBytesBelow(n / 0x100, k - 1);
    FitsTop(y, k - 1);
    ToNatBytesShift(y, b, k);
    ByteOfValue(n % 0x100);
  }

  lemma {:induction false} ToNatFromNatBytes(n: nat, k: nat)
    requires k <= 8 && n < Pow256(k)
    ensures ToNatBytes(FromNatBytes(n, k), k) == n
  {
    if k > 0 {
      DivStep(n, k);
      ToNatFromNatBytes(n / 0x100, k - 1);
      ToNatFromNatStep(n, k);
    }
  }

  /** A number below 2^64 survives the trip through u64. */
  lemma ToNatU64(n: nat)
    requires n < 0x1_0000_0000_0000_0000
    ensures ToNat(U64(n)) == n
  {
    Pow256Eight();
    ToNatIs(U64(n));
    U64Is(n);
    var m := n % 0x1_0000_0000_0000_0000;
    assert m == n;
    ToNatFromNatBytes(m, 8);
  }

  lemma {:induction false} ToNatBytesZero(k: nat)
    ensures ToNatBytes(0, k) == 0
  {
    if k > 0 {
      ToNatBytesZero(k - 1);
    }
  }

  /** A u64 below 256 is its low byte. */
  lemma ToNatSmall(v: u64)
    requires v < 0x100
    ensures ToNat(v) == LowByte(v)
  {
    ToNatIs(v);
    assert v >> 8 == 0;
    ToNatBytesZero(7);
  }

  lemma {:induction false} FromNatBytesZero(k: nat)
    ensures FromNatBytes(0, k) == 0
  {
    if k > 0 {
      FromNatBytesZero(k - 1);
      ShiftedIs(0, ByteOf(0));
    }
  }

  /** A number below 256 becomes the u64 of its byte. */
  lemma U64Small(n: nat)
    requires n < 0x100
    ensures U64(n) == ByteOf(n) as u64
  {
    var m := n % 0x1_0000_0000_0000_0000;
    assert m == n;
    assert m / 0x100 == 0 && m % 0x100 == n;
    U64Is(n);
    assert FromNatBytes(m, 8) == Shifted(FromNatBytes(0, 7), ByteOf(n));
    FromNatBytesZero(7);
    ShiftedIs(0, ByteOf(n));
  }

}
