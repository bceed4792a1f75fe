/** Fixed-width integers of the Go source, as subsets of the unbounded integers, and Go's conversions. */
module MachineInts {

  const TWO_31 := 0x8000_0000
  const TWO_32 := 0x1_0000_0000
  const TWO_63 := 0x8000_0000_0000_0000
  const TWO_64 := 0x1_0000_0000_0000_0000

  type Byte = b: int | 0 <= b < 256
  type Uint32 = x: int | 0 <= x < TWO_32
  type Uint64 = x: int | 0 <= x < TWO_64
  type Int32 = x: int | -TWO_31 <= x < TWO_31
  type Int64 = x: int | -TWO_63 <= x < TWO_63

  function Zeros(n: nat): (bs: seq<Byte>)
    ensures |bs| == n
  {
    if n == 0 then [] else [0] + Zeros(n - 1)
  }

  /** Go's `uint32(x)`: keep the low 32 bits. */
  function ToUint32(x: int): Uint32 { x % TWO_32 }

  /** Go's `uint64(x)`: keep the low 64 bits; a negative signed value is sign-extended first. */
  function ToUint64(x: int): Uint64 { x % TWO_64 }

  /** Go's `int32(x)`: the low 32 bits read as two's complement. */
  function ToInt32(x: int): Int32 {
    var low := x % TWO_32;
    if low < TWO_31 then low else low - TWO_32
  }

  /** Go's `int64(x)`: the low 64 bits read as two's complement. */
  function ToInt64(x: int): Int64 {
    var low := x % TWO_64;
    if low < TWO_63 then low else low - TWO_64
  }

  /** Sign extension to 64 bits keeps the value, and zero apart from the rest. */
  lemma SignExtension64(x: Int64)
    ensures ToInt64(ToUint64(x)) == x && (ToUint64(x) == 0 <==> x == 0)
  {
  }

  lemma SignExtension32(x: Int32)
    ensures ToInt32(ToUint64(x)) == x && (ToUint64(x) == 0 <==> x == 0)
  {
  }

  /** Width of an unsigned accumulator. */
  datatype Width = W32 | W64

  /** The low bits of `x` at width `w`. */
  function Low(w: Width, x: nat): nat {
    if w.W32? then x % TWO_32 else x % TWO_64
  }

  lemma LowSum(w: Width, x: nat, y: nat)
    ensures Low(w, Low(w, x) + y) == Low(w, x + y)
  {
  }
}
