/** Value types shared by the whole model: bytes, 16-bit group addresses, 32-bit unsigned
    words with their wrap-around, and the result type for values that may be missing. */
module Basics {

  datatype Option<+T> = None | Some(value: T)

  type Byte = x: int | 0 <= x < 0x100

  /** A KNX group address in its 16-bit form. */
  type Address = x: int | 0 <= x < 0x1_0000

  type Word32 = x: int | 0 <= x < 0x1_0000_0000

  /** Conversion to `uint32_t`; additions and subtractions on that type wrap here. */
  function Wrap(x: int): Word32 {
    x % 0x1_0000_0000
  }

  lemma WrapSucc(x: int)
    ensures Wrap(Wrap(x) + 1) == Wrap(x + 1)
  {}

  /** A subset is no larger, and is the whole set when it is as large. */
  lemma {:induction false} SubsetSize<T>(s: set<T>, all: set<T>)
    requires s <= all
    ensures |s| <= |all|
    ensures |s| == |all| ==> s == all
  {
    if s != {} {
      var x :| x in s;
      SubsetSize(s - {x}, all - {x});
    }
  }
}
