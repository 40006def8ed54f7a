/** Small definitions that several parts share. */
module Basics {
  type Byte = b: int | 0 <= b < 256

  function Min(a: int, b: int): int { if a < b then a else b }

  lemma Assoc<T>(a: seq<T>, b: seq<T>, c: seq<T>)
    ensures (a + b) + c == a + (b + c)
  {
  }
}
