/** Small definitions shared by the models: optional values, bytes and fixed-width integers. */
module Common {

  /** A value that may be missing. With `:-`, a missing value ends the enclosing computation. */
  datatype Option<+T> = None | Some(value: T) {
    predicate IsFailure() { None? }
    function PropagateFailure<U>(): Option<U>
      requires None?
    {
      None
    }
    function Extract(): T
      requires Some?
    {
      value
    }
  }

  const TWO_32: int := 0x1_0000_0000
  const TWO_63: int := 0x8000_0000_0000_0000
  const TWO_64: int := 0x1_0000_0000_0000_0000

  type Byte = x: int | 0 <= x < 0x100

  /** A 32-bit word without sign. */
  type Word = x: int | 0 <= x < TWO_32

  function Wrap32(x: int): Word { x % TWO_32 }

  /** Four bytes as a word, low byte first. */
  function LittleEndian(b0: int, b1: int, b2: int, b3: int): int {
    b0 + 0x100 * (b1 + 0x100 * (b2 + 0x100 * b3))
  }

  type Int64 = x: int | -TWO_63 <= x < TWO_63

  /** Two's complement wrap-around of an exact result to 64 bits. */
  function Wrap64(x: int): Int64 {
    (x + TWO_63) % TWO_64 - TWO_63
  }

  /** Division that truncates toward zero, as Go and C divide; Dafny's own `/` is Euclidean. */
  function TruncDiv(x: int, y: int): int
    requires y != 0
  {
    if x >= 0 then x / y else -((-x) / y)
  }

  function Zeros(n: nat): (z: seq<Byte>)
    ensures |z| == n && forall i :: 0 <= i < n ==> z[i] == 0
  {
    seq(n, _ => 0)
  }

  function Reversed<T>(s: seq<T>): seq<T> {
    if s == [] then [] else Reversed(s[1..]) + [s[0]]
  }

  const UPPER: string := "ABCDEFGHIJKLMNOPQRSTUVWXYZ"
  const LOWER: string := "abcdefghijklmnopqrstuvwxyz"
  const DECIMALS: string := "0123456789"

  /** In ASCII, letters and digits are three runs. */
  lemma LettersAndDigits(c: Byte)
    ensures c as char in UPPER <==> 0x41 <= c <= 0x5a
    ensures c as char in LOWER <==> 0x61 <= c <= 0x7a
    ensures c as char in DECIMALS <==> 0x30 <= c <= 0x39
  {
  }

  predicate IsRun(letters: string, first: int, n: nat) {
    |letters| == n && forall i :: 0 <= i < n ==> letters[i] as int == first + i
  }

  lemma UpperIsRun()
    ensures IsRun(UPPER, 0x41, 26)
  {
  }

  lemma LowerIsRun()
    ensures IsRun(LOWER, 0x61, 26)
  {
  }

  lemma DecimalsAreRun()
    ensures IsRun(DECIMALS, 0x30, 10)
  {
  }
}
