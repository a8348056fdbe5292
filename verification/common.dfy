/** Small shared vocabulary: optional values, success/failure results and
    the 32-bit signed integers that C# `int` arithmetic works in. */
module Common {

  datatype Option<+T> = None | Some(value: T)

  datatype Result<+T, +E> = Success(value: T) | Failure(error: E)

  const Int32Min: int := -0x8000_0000
  const Int32Max: int := 0x7FFF_FFFF

  /** 2^32, the modulus of C#'s unchecked `int` arithmetic. */
  const Int32Modulus: int := 0x1_0000_0000

  predicate IsInt32(x: int) {
    Int32Min <= x <= Int32Max
  }

  /** The value an unchecked C# `int` operation yields for the mathematical
      result `x`: the unique 32-bit value congruent to `x` modulo 2^32. */
  function Wrap32(x: int): (r: int)
    ensures IsInt32(r)
    ensures (x - r) % Int32Modulus == 0
    ensures IsInt32(x) ==> r == x
  {
    var m := x % Int32Modulus;
    if m <= Int32Max then m else m - Int32Modulus
  }

  /** Unchecked arithmetic wraps at the ends of the range. */
  lemma WrapAtEnds()
    ensures Wrap32(Int32Max + 1) == Int32Min
    ensures Wrap32(Int32Min - 1) == Int32Max
  {
    assert (Int32Max + 1) % Int32Modulus == Int32Max + 1;
    assert (Int32Min - 1) % Int32Modulus == Int32Max;
  }
}
