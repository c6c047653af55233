/** C's integers: the range of int, and 64-bit unsigned counters (size_t) with the wrap-around written out. */
module Words {
  const INT_MIN := -0x8000_0000
  const INT_MAX := 0x7fff_ffff

  type Int32 = x: int | INT_MIN <= x <= INT_MAX

  const WORD: int := 0x1_0000_0000_0000_0000

  type Word = w: int | 0 <= w < WORD

  /** The new value of a counter after an atomic fetch_add of 1. */
  function Inc(w: Word): (r: Word)
    ensures w + 1 < WORD ==> r == w + 1
    ensures w + 1 == WORD ==> r == 0
  {
    (w + 1) % WORD
  }

  /** The new value of a counter after an atomic fetch_sub of 1. */
  function Dec(w: Word): (r: Word)
    ensures Inc(r) == w
    ensures w > 0 ==> r == w - 1
  {
    (w - 1) % WORD
  }

  /** Unsigned subtraction. */
  function Diff(a: Word, b: Word): (r: Word)
    ensures b <= a ==> r == a - b
    ensures a < b ==> r == WORD - (b - a)
  {
    (a - b) % WORD
  }
}
