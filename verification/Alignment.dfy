/** The align-up expression both allocators use. */
module Alignment {
  import opened Bits

  /** A layout: `align` is 2^alignLog, as the allocator interface demands. */
  datatype Layout = Layout(size: nat, alignLog: nat) {
    function Align(): nat {
      Pow2(alignLog)
    }

    predicate Valid() {
      size > 0 && alignLog < 64
    }
  }

  lemma AlignBound(k: nat)
    requires k < 64
    ensures Pow2(k) < U64
  {
    Pow2Values();
    Pow2Monotone(k, 63);
    assert Pow2(64) == 2 * Pow2(63);
  }

  /** (addr + align - 1) & !(align - 1) in 64-bit arithmetic. */
  function AlignUp(addr: u64, k: nat): nat
    requires k < 64
  {
    AlignBound(k);
    And(WrapAdd(addr, Pow2(k) - 1), Not(Pow2(k) - 1, U64))
  }

  function WrapAdd(x: u64, y: u64): u64 {
    if x + y < U64 then x + y else x + y - U64
  }

  /** r is the first multiple of align at or after addr. */
  predicate FirstMultiple(r: nat, addr: nat, align: nat)
    requires align > 0
  {
    r % align == 0 && addr <= r < addr + align
  }

  /** r is some multiple of align at or after addr. */
  predicate AlignedFrom(r: nat, addr: nat, align: nat)
    requires align > 0
  {
    r % align == 0 && addr <= r
  }

  // The expression is right exactly when addr + align - 1 does not overflow; when it
  // does, the result is the null address.
  lemma AlignUpIff(addr: u64, k: nat)
    requires k < 64
    ensures FirstMultiple(AlignUp(addr, k), addr, Pow2(k)) <==> addr + Pow2(k) - 1 < U64
    ensures addr + Pow2(k) - 1 >= U64 ==> AlignUp(addr, k) == 0
  {
    AlignUpIsField(addr, k);
    if addr + Pow2(k) - 1 < U64 {
      RoundsUp(addr, Pow2(k));
    } else {
      AlignBound(k);
    }
  }

  lemma AlignUpIsField(addr: u64, k: nat)
    requires k < 64
    ensures var sum := addr + Pow2(k) - 1; AlignUp(addr, k) == if sum < U64 then sum - sum % Pow2(k) else 0
  {
    AlignBound(k);
    var sum := WrapAdd(addr, Pow2(k) - 1);
    ClearLowBits(sum, k);
    if addr + Pow2(k) - 1 >= U64 {
      FieldUnique(sum, k, 0, sum);
      ShrIsDiv(sum, k);
    }
  }

  lemma ClearLowBits(sum: u64, k: nat)
    requires k < 64 && Pow2(k) < U64
    ensures And(sum, Not(Pow2(k) - 1, U64)) == sum - sum % Pow2(k)
  {
    var w := WordWidth();
    AndClearMask(sum, k, w);
    ShrIsDiv(sum, k);
  }

  lemma WordWidth() returns (w: nat)
    ensures w == 64 && Pow2(w) == U64
  {
    Pow2Values();
    w := 64;
  }

  lemma RoundsUp(addr: nat, a: nat)
    requires a > 0
    ensures var sum := addr + a - 1; FirstMultiple(sum - sum % a, addr, a)
  {
    var sum := addr + a - 1;
    DivUnique(sum - sum % a, a, sum / a, 0);
  }

  // At the end of the address space the align-up expression wraps round to null.
  lemma AlignUpWraps()
    ensures AlignUp(0xFFFF_FFFF_FFFF_FFFF, 1) == 0
    ensures !FirstMultiple(AlignUp(0xFFFF_FFFF_FFFF_FFFF, 1), 0xFFFF_FFFF_FFFF_FFFF, 2)
  {
    assert Pow2(1) == 2;
    AlignUpIff(0xFFFF_FFFF_FFFF_FFFF, 1);
  }

  // The first multiple comes before every other one.
  lemma FirstMultipleLeast(r: nat, x: nat, addr: nat, align: nat)
    requires align > 0 && FirstMultiple(r, addr, align) && AlignedFrom(x, addr, align)
    ensures r <= x
  {
    if x < r {
      MultiplesApart(x, r, align);
    }
  }

  // When the sum overflows, the address space holds no multiple from addr on.
  lemma OverflowLeavesNothing(addr: u64, x: nat, k: nat)
    requires k < 64 && addr + Pow2(k) - 1 >= U64 && AlignedFrom(x, addr, Pow2(k))
    ensures x >= U64
  {
    if x < U64 {
      Pow2Add(64 - k, k);
      Pow2Values();
      DivUnique(U64, Pow2(k), Pow2(64 - k), 0);
      MultiplesApart(x, U64, Pow2(k));
    }
  }

  lemma MultiplesApart(x: nat, y: nat, a: nat)
    requires a > 0 && x % a == 0 && y % a == 0 && x < y
    ensures x + a <= y
  {
    var p, q := x / a, y / a;
    assert x == p * a && y == q * a;
    MultipleOutside(a, q - p);
  }
}
