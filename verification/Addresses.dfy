/** Unsigned 64-bit addresses, with the wrap-around of `uint64_t` written out. */
module Addresses {

  const TWO_64: int := 0x1_0000_0000_0000_0000

  type Address = a: int | 0 <= a < TWO_64

  type Byte = b: int | 0 <= b < 0x100

  /** `a + b` on `uint64_t`. */
  function Plus(a: Address, b: Address): Address {
    if a + b < TWO_64 then a + b else a + b - TWO_64
  }

  /** `a - b` on `uint64_t`. */
  function Minus(a: Address, b: Address): Address {
    if a >= b then a - b else a - b + TWO_64
  }

  /** Both are the whole number's remainder by 2^64. */
  lemma WrapAround(a: Address, b: Address)
    ensures Plus(a, b) == (a + b) % TWO_64
    ensures Minus(a, b) == (a as int - b) % TWO_64
  {
  }

  function Min(a: int, b: int): int {
    if a < b then a else b
  }

  function Max(a: int, b: int): int {
    if a < b then b else a
  }

  /** A byte range as plain numbers: it may end exactly at 2^64. */
  datatype Range = Range(base: int, size: int) {
    function End(): int {
      base + size
    }

    predicate Has(b: int) {
      base <= b < base + size
    }

    /** Non-empty, and inside the address space. */
    predicate Proper() {
      0 <= base && 0 < size && base + size <= TWO_64
    }
  }

  ghost predicate Covered(rs: seq<Range>, b: int) {
    exists i :: 0 <= i < |rs| && rs[i].Has(b)
  }

  ghost predicate AllProper(rs: seq<Range>) {
    forall i :: 0 <= i < |rs| ==> rs[i].Proper()
  }

  /** In address order and pairwise disjoint. */
  ghost predicate Ladder(rs: seq<Range>) {
    forall i, j :: 0 <= i < j < |rs| ==> rs[i].End() <= rs[j].base
  }

  ghost predicate SortedByBase(rs: seq<Range>) {
    forall i, j :: 0 <= i < j < |rs| ==> rs[i].base <= rs[j].base
  }
}
