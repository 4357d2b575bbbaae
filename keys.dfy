/** Row keys: a sequence of values. `Key` in src/table.rs and `Key` in
    src/lib.rs hold the same data and the same equality; they differ in
    how they order. */
module Keys {
  import opened Wrappers
  import opened Strings
  import V = Values

  datatype Key = Key(values: seq<V.Value>)

  /** `integer as i64` on a usize: the value modulo 2^64, read as two's
      complement. */
  function AsI64(n: nat): V.Int64
  {
    var m := n % 0x1_0000_0000_0000_0000;
    if m <= I64_MAX then m else m - 0x1_0000_0000_0000_0000
  }

  /** Key::integer: the one-value key of a row number. */
  function IntegerKey(n: nat): Key
  {
    Key([V.Integer(AsI64(n))])
  }

  /** PartialEq for Key: the same length and pairwise equal values. */
  predicate Equals(a: Key, b: Key)
  {
    |a.values| == |b.values| && forall i :: 0 <= i < |a.values| ==> V.Eq(a.values[i], b.values[i])
  }

  function Min(x: nat, y: nat): nat
  {
    if x <= y then x else y
  }

  /** The pair at `i` decides a comparison: it is ordered and unequal. */
  predicate Decides(x: seq<V.Value>, y: seq<V.Value>, i: nat)
    requires i < |x| && i < |y|
  {
    V.PartialCmp(x[i], y[i]) == Some(Less) || V.PartialCmp(x[i], y[i]) == Some(Greater)
  }

  // ---------------------------------------------------------------------
  // The ordering of src/table.rs

  function PartialCmpFrom(x: seq<V.Value>, y: seq<V.Value>, i: nat): Option<Ordering>
    decreases Min(|x|, |y|) - i
  {
    if i >= |x| || i >= |y| then None
    else
      match V.PartialCmp(x[i], y[i])
      case Some(Less) => Some(Less)
      case Some(Greater) => Some(Greater)
      case _ => PartialCmpFrom(x, y, i + 1)
  }

  /** PartialOrd for the Key of src/table.rs: the first Less or Greater of
      the values over the common prefix, pairs without an ordering being
      skipped; None when there is none. */
  function PartialCmp(a: Key, b: Key): Option<Ordering>
  {
    PartialCmpFrom(a.values, b.values, 0)
  }

  /** Ord for the Key of src/table.rs: a missing ordering counts as Equal. */
  function Cmp(a: Key, b: Key): Ordering
  {
    match PartialCmp(a, b)
    case Some(o) => o
    case None => Equal
  }

  lemma {:induction false} FirstDecidingFrom(x: seq<V.Value>, y: seq<V.Value>, i: nat, k: nat)
    requires i <= k < |x| && k < |y| && Decides(x, y, k)
    requires forall j :: i <= j < k ==> !Decides(x, y, j)
    ensures PartialCmpFrom(x, y, i) == V.PartialCmp(x[k], y[k])
    decreases k - i
  {
    if i < k {
      assert !Decides(x, y, i);
      FirstDecidingFrom(x, y, i + 1, k);
    }
  }

  lemma {:induction false} NoDecidingFrom(x: seq<V.Value>, y: seq<V.Value>, i: nat)
    requires forall j :: i <= j < |x| && j < |y| ==> !Decides(x, y, j)
    ensures PartialCmpFrom(x, y, i) == None
    decreases Min(|x|, |y|) - i
  {
    if i < |x| && i < |y| {
      assert !Decides(x, y, i);
      NoDecidingFrom(x, y, i + 1);
    }
  }

  /** The ordering of two keys is that of their first deciding pair of
      values over the common prefix, whatever the keys' lengths. */
  lemma CmpAtFirstDifference(a: Key, b: Key, k: nat)
    requires k < |a.values| && k < |b.values| && Decides(a.values, b.values, k)
    requires forall j :: 0 <= j < k ==> !Decides(a.values, b.values, j)
    ensures PartialCmp(a, b) == V.PartialCmp(a.values[k], b.values[k])
    ensures Cmp(a, b) == V.PartialCmp(a.values[k], b.values[k]).value
  {
    FirstDecidingFrom(a.values, b.values, 0, k);
  }

  /** Without a deciding pair, partial_cmp gives None, even for identical
      keys, and cmp gives Equal. */
  lemma CmpWithoutDifference(a: Key, b: Key)
    requires forall j :: 0 <= j < |a.values| && j < |b.values| ==> !Decides(a.values, b.values, j)
    ensures PartialCmp(a, b) == None && Cmp(a, b) == Equal
  {
    NoDecidingFrom(a.values, b.values, 0);
  }

  lemma {:induction false} PartialCmpFromReverse(x: seq<V.Value>, y: seq<V.Value>, i: nat)
    ensures PartialCmpFrom(y, x, i) == V.ReverseOpt(PartialCmpFrom(x, y, i))
    decreases Min(|x|, |y|) - i
  {
    if i < |x| && i < |y| {
      V.PartialCmpProperties(x[i], y[i]);
      PartialCmpFromReverse(x, y, i + 1);
    }
  }

  /** Swapping two keys reverses their ordering. */
  lemma CmpReverse(a: Key, b: Key)
    ensures PartialCmp(b, a) == V.ReverseOpt(PartialCmp(a, b))
    ensures Cmp(b, a) == Cmp(a, b).Reverse()
  {
    PartialCmpFromReverse(a.values, b.values, 0);
  }

  /** Equal keys compare Equal. */
  lemma EqualsCompareEqual(a: Key, b: Key)
    requires Equals(a, b)
    ensures Cmp(a, b) == Equal
  {
    forall j | 0 <= j < |a.values| && j < |b.values|
      ensures !Decides(a.values, b.values, j)
    {
      V.PartialCmpProperties(a.values[j], b.values[j]);
    }
    CmpWithoutDifference(a, b);
  }

  /** Every key compares Equal to itself, NaN or not. */
  lemma CmpSelf(a: Key)
    ensures Cmp(a, a) == Equal
  {
    forall j | 0 <= j < |a.values|
      ensures !Decides(a.values, a.values, j)
    {
      V.PartialCmpProperties(a.values[j], a.values[j]);
    }
    CmpWithoutDifference(a, a);
  }

  /** The converse fails: keys of different lengths with a common prefix
      compare Equal but are not equal. */
  lemma CmpEqualButUnequal()
    ensures var a := Key([V.Integer(1)]);
      var b := Key([V.Integer(1), V.Integer(2)]);
      Cmp(a, b) == Equal && !Equals(a, b)
  {
    var a := Key([V.Integer(1)]);
    var b := Key([V.Integer(1), V.Integer(2)]);
    assert !Decides(a.values, b.values, 0);
    CmpWithoutDifference(a, b);
  }

  // ---------------------------------------------------------------------
  // The ordering of src/lib.rs

  function LegacyCmpFrom(x: seq<V.Value>, y: seq<V.Value>, i: nat): Result<Ordering>
    decreases Min(|x|, |y|) - i
  {
    if i >= |x| || i >= |y| then Ok(Equal)
    else
      match V.PartialCmp(x[i], y[i])
      case None => Panic("called `Option::unwrap()` on a `None` value")
      case Some(Less) => Ok(Less)
      case Some(Greater) => Ok(Greater)
      case Some(Equal) => LegacyCmpFrom(x, y, i + 1)
  }

  /** PartialOrd (and, through its `unwrap`, Ord) for the Key of
      src/lib.rs: the first unequal pair of values over the common prefix,
      else Equal; a pair without an ordering panics. */
  function LegacyCmp(a: Key, b: Key): Result<Ordering>
  {
    LegacyCmpFrom(a.values, b.values, 0)
  }

  lemma {:induction false} LegacyAgreesFrom(x: seq<V.Value>, y: seq<V.Value>, i: nat)
    requires forall j :: i <= j < |x| && j < |y| ==> V.PartialCmp(x[j], y[j]).Some?
    ensures LegacyCmpFrom(x, y, i) == Ok(match PartialCmpFrom(x, y, i) case Some(o) => o case None => Equal)
    decreases Min(|x|, |y|) - i
  {
    if i < |x| && i < |y| {
      LegacyAgreesFrom(x, y, i + 1);
    }
  }

  /** Where every pair of the common prefix is ordered, the two versions
      of Key order alike; a pair without an ordering panics in the older
      one. */
  lemma LegacyAgrees(a: Key, b: Key)
    requires forall j :: 0 <= j < |a.values| && j < |b.values| ==> V.PartialCmp(a.values[j], b.values[j]).Some?
    ensures LegacyCmp(a, b) == Ok(Cmp(a, b))
  {
    LegacyAgreesFrom(a.values, b.values, 0);
  }

  /** Two row-number keys order as the row numbers (below 2^63). */
  lemma LegacyIntegerKeys(n: nat, m: nat)
    requires n <= I64_MAX && m <= I64_MAX
    ensures LegacyCmp(IntegerKey(n), IntegerKey(m)) == Ok(CompareInt(n, m))
  {
    var x := IntegerKey(n).values;
    var y := IntegerKey(m).values;
    assert AsI64(n) == n && AsI64(m) == m;
    assert V.PartialCmp(x[0], y[0]) == Some(CompareInt(n, m));
    assert LegacyCmpFrom(x, y, 1) == Ok(Equal);
  }
}
