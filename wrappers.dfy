/** Small datatypes shared by the whole model. */
module Wrappers {

  datatype Option<+T> = None | Some(value: T)

  /** The outcome of an operation that the Rust source may abort with a
      panic (an out-of-bounds index, an `unwrap` of nothing, an arithmetic
      overflow). `Panic` carries the reason. */
  datatype Result<+T> = Ok(value: T) | Panic(reason: string) {
    predicate IsFailure() { Panic? }

    function PropagateFailure<U>(): Result<U>
      requires Panic?
    {
      Panic(reason)
    }

    function Extract(): T
      requires Ok?
    {
      value
    }
  }

  /** std::cmp::Ordering. */
  datatype Ordering = Less | Equal | Greater {
    /** Ordering::reverse: the ordering of the swapped comparison. */
    function Reverse(): (r: Ordering)
      ensures (this == Less) == (r == Greater) && (this == Equal) == (r == Equal)
    {
      match this
      case Less => Greater
      case Equal => Equal
      case Greater => Less
    }
  }

  /** The three-way comparison of two integers (Ord::cmp on i64, u64, usize). */
  function CompareInt(a: int, b: int): (r: Ordering)
    ensures r == Less <==> a < b
    ensures r == Equal <==> a == b
    ensures r == Greater <==> a > b
  {
    if a < b then Less else if a == b then Equal else Greater
  }

  /** Which of two readings of a routine whose source holds a defect: the
      code as written, or the evidently intended code. */
  datatype Variant = AsWritten | Corrected
}
