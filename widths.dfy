/**
 * The fixed-width integers of the .NET runtime that the writer uses, the unchecked
 * (wrap-around) C# `int` arithmetic, the casts between signed and unsigned widths,
 * and the `FilePosition` value type of WebcilWriter.cs.
 */
module Widths {

  const TwoTo16: int := 0x1_0000
  const TwoTo31: int := 0x8000_0000
  const TwoTo32: int := 0x1_0000_0000
  const Int32Max: int := 0x7FFF_FFFF

  type uint8 = x: int | 0 <= x < 0x100
  type uint16 = x: int | 0 <= x < 0x1_0000
  type int16 = x: int | -0x8000 <= x < 0x8000
  type uint32 = x: int | 0 <= x < 0x1_0000_0000
  type int32 = x: int | -0x8000_0000 <= x < 0x8000_0000

  predicate InInt32(x: int) {
    -0x8000_0000 <= x < 0x8000_0000
  }

  /**
   * Unchecked C# `int` arithmetic: the two's-complement value that is congruent
   * to the mathematical result modulo 2^32.
   */
  function Wrap32(x: int): (r: int32)
    ensures InInt32(x) ==> r == x
  {
    if InInt32(x) then x else Reduce32(x)
  }

  /** The two's-complement reading of the low 32 bits of `x`. */
  function Reduce32(x: int): (r: int32)
    ensures (x - r) % TwoTo32 == 0
  {
    var m := x % TwoTo32;
    if m < TwoTo31 then m else m - TwoTo32
  }

  /** Wrapping changes a value by a whole multiple of 2^32. */
  lemma Wrap32Congruent(x: int)
    ensures (x - Wrap32(x)) % TwoTo32 == 0
  {
    if InInt32(x) {
      assert x - Wrap32(x) == 0;
    }
  }

  /** The C# cast `(uint)x` of an `int`: the same 32 bits read as unsigned. */
  function ToUInt32(x: int32): (r: uint32)
    ensures x >= 0 ==> r == x
    ensures x < 0 ==> r == x + TwoTo32
  {
    x % TwoTo32
  }

  /** The C# cast `(int)x` of a `uint`: the same 32 bits read as signed. */
  function ToInt32(x: uint32): (r: int32)
    ensures ToUInt32(r) == x
  {
    if x < TwoTo31 then x else x - TwoTo32
  }

  /** The C# cast `(ushort)x` of a `short`. */
  function ToUInt16(x: int16): (r: uint16)
    ensures x >= 0 ==> r == x
    ensures x < 0 ==> r == x + TwoTo16
  {
    x % TwoTo16
  }

  /** Reading a 32-bit pattern as signed and back as unsigned loses nothing, and vice versa. */
  lemma SignedUnsignedRoundTrip(x: int32)
    ensures ToInt32(ToUInt32(x)) == x
  {
  }

  /** A file offset in the output or input file (WebcilWriter.cs:97-102). */
  datatype FilePosition = FilePosition(position: int32)

  /**
   * `FilePosition + int` (WebcilWriter.cs:101): unchecked `int` addition, so the
   * result wraps around past `int.MaxValue`; without overflow it is the plain sum.
   */
  function Add(left: FilePosition, right: int32): (r: FilePosition)
    ensures InInt32(left.position + right) ==> r.position == left.position + right
  {
    FilePosition(Wrap32(left.position + right))
  }

  /** Even when it overflows, `FilePosition +` is addition modulo 2^32. */
  lemma AddIsModular(left: FilePosition, right: int32)
    ensures (left.position + right - Add(left, right).position) % TwoTo32 == 0
  {
    Wrap32Congruent(left.position + right);
  }
}
