/**
 Segment descriptors: a 32-bit base and a 32-bit limit packed into eight bytes, the limit in
 20 bits with byte or 4 KiB granularity (section 3.4.5 of the Intel 64 and IA-32
 Architectures Software Developer's Manual, Volume 3A).

 Words are non-negative integers. A right shift by k is a division by 2^k, a mask of k low bits
 a remainder, a left shift a product, and `|` of values without a common one bit a sum.
 */
module Gdt {
  import opened Machine

  predicate IsU8(x: int) {
    0 <= x < 0x100
  }

  const BYTE_GRANULAR_MAX := 65536

  /** `limit & 0xFFF`. */
  function PageOffset(limit: int): int {
    limit % 0x1000
  }

  /** The 20-bit field stored for a limit. */
  function LimitField(limit: int): int {
    if limit <= BYTE_GRANULAR_MAX then limit
    else if PageOffset(limit) != 0xFFF then limit / 0x1000 - 1
    else limit / 0x1000
  }

  function Flags(limit: int): int {
    if limit <= BYTE_GRANULAR_MAX then 0x40 else 0xC0
  }

  function Encode(base: int, limit: int, access: int): seq<int> {
    var f := LimitField(limit);
    [f % 0x100, f / 0x100 % 0x100,
     base % 0x100, base / 0x100 % 0x100, base / 0x1_0000 % 0x100,
     access,
     Flags(limit) + f / 0x1_0000 % 0x10,
     base / 0x100_0000 % 0x100]
  }

  function BaseOf(b: seq<int>): int
    requires |b| == 8
  {
    ((b[7] * 0x100 + b[4]) * 0x100 + b[3]) * 0x100 + b[2]
  }

  function LimitOf(b: seq<int>): int
    requires |b| == 8
  {
    var field := (b[6] % 0x10 * 0x100 + b[1]) * 0x100 + b[0];
    if b[6] / 0x40 == 3 then field * 0x1000 + 0xFFF else field
  }

  /** The eight bytes as one little-endian 64-bit number, as the processor reads them. */
  function Quadword(b: seq<int>): int
    requires |b| == 8
  {
    b[0] + b[1] * 0x100 + b[2] * 0x1_0000 + b[3] * 0x100_0000 + b[4] * 0x1_0000_0000
    + b[5] * 0x100_0000_0000 + b[6] * 0x1_0000_0000_0000 + b[7] * 0x100_0000_0000_0000
  }

  /**
   Each field lies where the processor expects it: limit bits 0 to 15 and base bits 0 to 23 from
   bit 0 on, the access byte at bit 40, limit bits 16 to 19 at bit 48, then two clear bits, the
   default-size bit, the granularity bit, set for limits above 65536, and base bits 24 to 31.
   */
  lemma Layout(base: int, limit: int, access: int)
    requires IsU32(base) && IsU32(limit) && IsU8(access)
    ensures var f, g := LimitField(limit), if limit > BYTE_GRANULAR_MAX then 1 else 0;
            && 0 <= f < 0x10_0000
            && Quadword(Encode(base, limit, access)) ==
               f % 0x1_0000 + base % 0x100_0000 * 0x1_0000 + access * 0x100_0000_0000
               + f / 0x1_0000 * 0x1_0000_0000_0000
               + 0x40_0000_0000_0000 + g * 0x80_0000_0000_0000
               + base / 0x100_0000 * 0x100_0000_0000_0000
  {
    FieldExpands(limit);
    LowBytes(LimitField(limit));
    LowBytes(base);
    TopParts(LimitField(limit), base);
  }

  lemma LowBytes(x: int)
    requires 0 <= x
    ensures x % 0x100 + x / 0x100 % 0x100 * 0x100 == x % 0x1_0000
    ensures x % 0x100 + x / 0x100 % 0x100 * 0x100 + x / 0x1_0000 % 0x100 * 0x1_0000 == x % 0x100_0000
  {
    LowByte(x, 0x100);
    LowByte(x, 0x1_0000);
  }

  lemma LowByte(x: int, m: int)
    requires 0 <= x && (m == 0x100 || m == 0x1_0000)
    ensures x % m + x / m % 0x100 * m == x % (m * 0x100)
  {
    if m == 0x100 {
      assert x / 0x100 / 0x100 == x / 0x1_0000;
    } else {
      assert x / 0x1_0000 / 0x100 == x / 0x100_0000;
    }
  }

  lemma TopParts(f: int, base: int)
    requires 0 <= f < 0x10_0000 && IsU32(base)
    ensures f / 0x1_0000 % 0x10 == f / 0x1_0000 && base / 0x100_0000 % 0x100 == base / 0x100_0000
  {
  }

  /** Every part is a byte, and base and access byte come back unchanged. */
  lemma BaseRoundTrip(base: int, limit: int, access: int)
    requires IsU32(base) && IsU32(limit) && IsU8(access)
    ensures var b := Encode(base, limit, access);
            && (forall k :: 0 <= k < 8 ==> IsU8(b[k]))
            && BaseOf(b) == base && b[5] == access
  {
    var b := Encode(base, limit, access);
    FlagsFit(limit);
    FourBytes(base);
    assert BaseOf(b) == ((b[7] * 0x100 + b[4]) * 0x100 + b[3]) * 0x100 + b[2];
  }

  lemma FlagsFit(limit: int)
    ensures IsU8(Flags(limit) + LimitField(limit) / 0x1_0000 % 0x10)
  {
  }

  lemma FourBytes(x: int)
    requires IsU32(x)
    ensures ((x / 0x100_0000 % 0x100 * 0x100 + x / 0x1_0000 % 0x100) * 0x100 + x / 0x100 % 0x100) * 0x100 + x % 0x100 == x
  {
    var a := x / 0x100;
    var c := a / 0x100;
    var d := c / 0x100;
    assert a == x / 0x100 && c == x / 0x1_0000 && d == x / 0x100_0000;
  }

  /**
   The limit is exact if and only if it is at most 65536 or ends in twelve one bits; otherwise
   the decoded limit falls short of it, by at most 4095 bytes.
   */
  lemma LimitLoss(base: int, limit: int, access: int)
    requires IsU32(base) && IsU32(limit) && IsU8(access)
    ensures var d := LimitOf(Encode(base, limit, access));
            && IsU32(d)
            && (d == limit <==> limit <= BYTE_GRANULAR_MAX || PageOffset(limit) == 0xFFF)
            && (d != limit ==> d < limit <= d + 4095)
  {
    LimitDecoded(base, limit, access);
  }

  /** What is decoded: the limit itself, or the last byte of the last 4 KiB page that ends within it. */
  lemma LimitDecoded(base: int, limit: int, access: int)
    requires IsU32(limit)
    ensures LimitOf(Encode(base, limit, access)) == Decoded(limit)
  {
    FieldExpands(limit);
    FieldParts(LimitField(limit), Flags(limit));
  }

  lemma FieldExpands(limit: int)
    requires IsU32(limit)
    ensures 0 <= LimitField(limit) < 0x10_0000
    ensures limit > BYTE_GRANULAR_MAX ==> LimitField(limit) * 0x1000 + 0xFFF == Decoded(limit)
  {
  }

  lemma FieldParts(f: int, flags: int)
    requires 0 <= f < 0x10_0000 && (flags == 0x40 || flags == 0xC0)
    ensures ((flags + f / 0x1_0000 % 0x10) % 0x10 * 0x100 + f / 0x100 % 0x100) * 0x100 + f % 0x100 == f
    ensures (flags + f / 0x1_0000 % 0x10) / 0x40 == 3 <==> flags == 0xC0
  {
    assert f / 0x1_0000 == f / 0x100 / 0x100;
  }

  /** Packing the decoded base and limit again decodes to the same pair: only the first packing loses. */
  lemma RepackingIsStable(base: int, limit: int, access: int)
    requires IsU32(base) && IsU32(limit) && IsU8(access)
    ensures var b := Encode(base, limit, access);
            var again := Encode(BaseOf(b), LimitOf(b), access);
            LimitOf(again) == LimitOf(b) && BaseOf(again) == BaseOf(b)
  {
    var d := LimitOf(Encode(base, limit, access));
    BaseRoundTrip(base, limit, access);
    LimitLoss(base, limit, access);
    BaseRoundTrip(base, d, access);
    LimitDecoded(base, limit, access);
    LimitDecoded(base, d, access);
    DecodedIsStable(limit);
  }

  /** The limit that limit n decodes to. */
  function Decoded(n: int): int {
    if n <= BYTE_GRANULAR_MAX then n else (n + 1) / 0x1000 * 0x1000 - 1
  }

  lemma DecodedIsStable(n: int)
    requires 0 <= n
    ensures Decoded(Decoded(n)) == Decoded(n)
  {
    var q := (n + 1) / 0x1000;
    assert (q * 0x1000) / 0x1000 == q;
  }

  /** Limits above 65536 decode in order. */
  lemma LargeInOrder(n: int, m: int)
    requires BYTE_GRANULAR_MAX < n <= m
    ensures BYTE_GRANULAR_MAX - 1 <= Decoded(n) <= Decoded(m)
  {
    assert 0x10 <= (n + 1) / 0x1000 <= (m + 1) / 0x1000;
  }

  lemma DecodedOrder(n: int, m: int)
    requires 0 <= n < m
    ensures Decoded(n) > Decoded(m) <==> n == BYTE_GRANULAR_MAX && m < 0x1_0FFF
  {
    if n > BYTE_GRANULAR_MAX {
      LargeInOrder(n, m);
    } else if m > BYTE_GRANULAR_MAX {
      LargeInOrder(BYTE_GRANULAR_MAX + 1, m);
      assert (m + 1) / 0x1000 == 0x10 <==> m < 0x1_0FFF;
    }
  }

  /** The decoded limit is monotone in the limit except from 65536 to the limits up to 69630. */
  lemma AlmostMonotone(base: int, limit: int, larger: int, access: int)
    requires IsU32(base) && IsU32(larger) && IsU8(access) && 0 <= limit < larger
    ensures LimitOf(Encode(base, limit, access)) > LimitOf(Encode(base, larger, access)) <==>
            limit == BYTE_GRANULAR_MAX && larger < 0x1_0FFF
  {
    LimitDecoded(base, limit, access);
    LimitDecoded(base, larger, access);
    DecodedOrder(limit, larger);
  }

  class SegmentDescriptor {
    const target: array<int>

    predicate Valid() {
      target.Length == 8
    }

    constructor (base: int, limit: int, access: int)
      requires IsU32(base) && IsU32(limit) && IsU8(access)
      ensures Valid() && fresh(target) && target[..] == Encode(base, limit, access)
    {
      target := new int[8](_ => 0);
      new;
      var field := limit;
      if limit <= 65536 {
        target[6] := 0x40;
      } else {
        if limit % 0x1000 != 0xFFF {
          field := limit / 0x1000 - 1;
        } else {
          field := limit / 0x1000;
        }
        target[6] := 0xC0;
      }
      target[0] := field % 0x100;
      target[1] := field / 0x100 % 0x100;
      target[6] := target[6] + field / 0x1_0000 % 0x10;
      target[2] := base % 0x100;
      target[3] := base / 0x100 % 0x100;
      target[4] := base / 0x1_0000 % 0x100;
      target[7] := base / 0x100_0000 % 0x100;
      target[5] := access;
    }

    method Base() returns (result: int)
      requires Valid()
      ensures result == BaseOf(target[..])
    {
      result := target[7];
      result := result * 0x100 + target[4];
      result := result * 0x100 + target[3];
      result := result * 0x100 + target[2];
    }

    method Limit() returns (result: int)
      requires Valid()
      ensures result == LimitOf(target[..])
    {
      result := target[6] % 0x10;
      result := result * 0x100 + target[1];
      result := result * 0x100 + target[0];
      if target[6] / 0x40 == 3 {
        result := result * 0x1000 + 0xFFF;
      }
    }
  }
}
