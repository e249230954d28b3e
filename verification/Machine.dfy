/** Thirty-two bit machine arithmetic, as an i386 compiler gives it to the kernel's C++ sources. */
module Machine {

  const TWO_32 := 0x1_0000_0000
  const TWO_31 := 0x8000_0000

  /** Conversion to `uint32_t`. */
  function U32(x: int): int {
    x % TWO_32
  }

  /** Conversion to `int32_t` (two's complement). */
  function I32(x: int): int {
    if U32(x) < TWO_31 then U32(x) else U32(x) - TWO_32
  }

  predicate IsU32(x: int) {
    0 <= x < TWO_32
  }

  predicate IsI32(x: int) {
    -TWO_31 <= x < TWO_31
  }

  /** Both conversions keep the number modulo 2^32; the one is never negative, the other lies around 0. */
  lemma Conversions(x: int)
    ensures 0 <= U32(x) < 0x1_0000_0000 && (x - U32(x)) % 0x1_0000_0000 == 0
    ensures -0x8000_0000 <= I32(x) < 0x8000_0000 && (x - I32(x)) % 0x1_0000_0000 == 0
  {
    assert x == x / 0x1_0000_0000 * 0x1_0000_0000 + U32(x);
    assert (x - U32(x)) % 0x1_0000_0000 == 0;
  }
}
