/** The smaller and the larger of two integers, shared by the modules that need them. */
module Ints {

  function Min(a: int, b: int): int
  {
    if a < b then a else b
  }

  function Max(a: int, b: int): int
  {
    if a > b then a else b
  }
}
