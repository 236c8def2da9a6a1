/**
 * Fixed-width integer types, the interval predicate and the small control
 * helpers shared by every other module (the counterpart of src/usuals.h).
 *
 * The C code's `uint32` is `unsigned long`; its packed on-disk structures only
 * have the documented layout where that type is 32 bits wide, so it is 32 bits
 * here. C's unsigned wrap-around is written out with `Wrap32`/`Wrap64`.
 */
module Usuals {

  const U16_LIMIT: nat := 0x1_0000
  const U32_LIMIT: nat := 0x1_0000_0000
  const U64_LIMIT: nat := 0x1_0000_0000_0000_0000

  type byte = x: int | 0 <= x < 0x100
  type uint16 = x: int | 0 <= x < 0x1_0000
  type uint32 = x: int | 0 <= x < 0x1_0000_0000
  type uint64 = x: int | 0 <= x < 0x1_0000_0000_0000_0000

  datatype Option<+T> = None | Some(value: T)

  /** Why a computation of the C program did not return normally. */
  datatype Halt =
    | Fatal        // err()/errx(): the process exits
    | Diverges     // the C loop never terminates (a zero-length step)
    | OutOfFuel    // recursion deeper than the model's explicit bound

  /** A computation that either returns a value or halts the way `Halt` says. */
  datatype Outcome<+T> = Done(value: T) | Stop(halt: Halt)

  /** Unsigned C arithmetic reduced to the destination width. */
  function Wrap32(x: int): (r: uint32)
    ensures 0 <= x < U32_LIMIT ==> r == x
    ensures (r - x) % U32_LIMIT == 0
  {
    x % U32_LIMIT
  }

  function Wrap64(x: int): (r: uint64)
    ensures 0 <= x < U64_LIMIT ==> r == x
    ensures (r - x) % U64_LIMIT == 0
  {
    x % U64_LIMIT
  }

  /**
   * INTERSECTS(b1, e1, b2, e2): the half-open ranges [b1, e1) and [b2, e2)
   * overlap. The comparison is strict, so ranges that only touch do not.
   */
  predicate Intersects(b1: int, e1: int, b2: int, e2: int)
  {
    b1 < e2 && e1 > b2
  }

  /** Two ranges intersect exactly when the later start lies before the earlier end. */
  lemma IntersectsIffOverlap(b1: int, e1: int, b2: int, e2: int)
    requires b1 < e1 && b2 < e2
    ensures Intersects(b1, e1, b2, e2) <==> (if b1 < b2 then b2 else b1) < (if e1 < e2 then e1 else e2)
  {
  }

  lemma IntersectsSymmetric(b1: int, e1: int, b2: int, e2: int)
    ensures Intersects(b1, e1, b2, e2) <==> Intersects(b2, e2, b1, e1)
  {
  }

  lemma TouchingRangesDoNotIntersect(b1: int, m: int, e2: int)
    ensures !Intersects(b1, m, m, e2)
  {
  }

  /** HIGHDWORD and LOWDWORD split a 64-bit value into its two 32-bit halves. */
  function HighDword(x: uint64): uint32
  {
    x / U32_LIMIT
  }

  function LowDword(x: uint64): uint32
  {
    x % U32_LIMIT
  }

  /** (HIGHDWORD(x) << 32) | LOWDWORD(x) rebuilds x; the halves' bits are disjoint. */
  lemma DwordsRebuild(x: uint64)
    ensures HighDword(x) * U32_LIMIT + LowDword(x) == x
    ensures LowDword(x) < U32_LIMIT
  {
  }
}
