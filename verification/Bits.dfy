/** Machine words as natural numbers. The bit operators are defined one bit at a
    time, and the lemmas connect them to division, remainder and addition. */
module Bits {

  const U32 := 0x1_0000_0000
  const U64 := 0x1_0000_0000_0000_0000

  type u64 = x: nat | x < U64

  function Pow2(n: nat): (p: nat)
    ensures p > 0
  {
    if n == 0 then 1 else 2 * Pow2(n - 1)
  }

  function And(x: nat, y: nat): nat {
    if x == 0 || y == 0 then 0
    else (if x % 2 == 1 && y % 2 == 1 then 1 else 0) + 2 * And(x / 2, y / 2)
  }

  function Or(x: nat, y: nat): nat {
    if x == 0 then y
    else if y == 0 then x
    else (if x % 2 == 1 || y % 2 == 1 then 1 else 0) + 2 * Or(x / 2, y / 2)
  }

  /** Complement in a word that has `width` values. */
  function Not(x: nat, width: nat): nat
    requires x < width
  {
    width - 1 - x
  }

  function Shr(x: nat, k: nat): nat {
    if k == 0 then x else Shr(x / 2, k - 1)
  }

  /** The low k bits. */
  function Low(x: nat, k: nat): nat {
    if k == 0 then 0 else x % 2 + 2 * Low(x / 2, k - 1)
  }

  /** Left shift of a 64-bit word: bits pushed past the top are lost. */
  function Shl64(x: nat, k: nat): (r: nat)
    ensures r < U64
  {
    (x * Pow2(k)) % 0x1_0000_0000_0000_0000
  }

  // ---------- one-bit recurrences ----------

  lemma AndHalves(x: nat, y: nat)
    ensures And(x, y) / 2 == And(x / 2, y / 2)
    ensures And(x, y) % 2 == if x % 2 == 1 && y % 2 == 1 then 1 else 0
  {
  }

  lemma OrHalves(x: nat, y: nat)
    ensures Or(x, y) / 2 == Or(x / 2, y / 2)
    ensures Or(x, y) % 2 == if x % 2 == 1 || y % 2 == 1 then 1 else 0
  {
  }

  // Two numbers with the same last bit and the same other bits are equal.
  lemma SameHalves(x: nat, y: nat)
    requires x / 2 == y / 2 && x % 2 == y % 2
    ensures x == y
  {
  }

  // Bit k of the operators is the operator on bit k.
  predicate Bit(x: nat, k: nat) {
    (x / Pow2(k)) % 2 == 1
  }

  lemma BitwiseOperators(x: nat, y: nat, k: nat)
    ensures Bit(And(x, y), k) <==> Bit(x, k) && Bit(y, k)
    ensures Bit(Or(x, y), k) <==> Bit(x, k) || Bit(y, k)
  {
    ShrIsDiv(x, k);
    ShrIsDiv(y, k);
    ShrIsDiv(And(x, y), k);
    ShrIsDiv(Or(x, y), k);
    AndFields(x, y, k);
    OrFields(x, y, k);
    AndHalves(Shr(x, k), Shr(y, k));
    OrHalves(Shr(x, k), Shr(y, k));
  }

  // ---------- shifts and fields are division and remainder ----------

  lemma {:induction false} ShrLow(x: nat, k: nat)
    ensures x == Shr(x, k) * Pow2(k) + Low(x, k)
    ensures Low(x, k) < Pow2(k)
  {
    if k > 0 {
      ShrLow(x / 2, k - 1);
      MulTwice(Shr(x, k), Pow2(k - 1));
    }
  }

  lemma MulTwice(q: nat, p: nat)
    ensures q * (2 * p) == 2 * (q * p)
  {
  }

  lemma ShrIsDiv(x: nat, k: nat)
    ensures Shr(x, k) == x / Pow2(k)
    ensures Low(x, k) == x % Pow2(k)
  {
    ShrLow(x, k);
    DivUnique(x, Pow2(k), Shr(x, k), Low(x, k));
  }

  lemma FieldUnique(x: nat, k: nat, hi: nat, lo: nat)
    requires x == hi * Pow2(k) + lo && lo < Pow2(k)
    ensures Shr(x, k) == hi && Low(x, k) == lo
  {
    ShrIsDiv(x, k);
    DivUnique(x, Pow2(k), hi, lo);
  }

  lemma DivUnique(x: nat, d: nat, q: nat, r: nat)
    requires d > 0 && x == q * d + r && r < d
    ensures x / d == q && x % d == r
  {
    assert (x / d - q) * d == r - x % d;
    MultipleOutside(d, x / d - q);
  }

  lemma MultipleOutside(d: int, e: int)
    requires d >= 0
    ensures e >= 1 ==> e * d >= d
    ensures e <= -1 ==> e * d <= -d
  {
    if e >= 1 {
      assert e * d == d + (e - 1) * d;
    } else if e <= -1 {
      assert e * d == -d - (-e - 1) * d;
    }
  }

  lemma {:induction false} Pow2Add(m: nat, n: nat)
    ensures Pow2(m + n) == Pow2(m) * Pow2(n)
  {
    if m > 0 {
      Pow2Add(m - 1, n);
    }
  }

  lemma Pow2Values()
    ensures Pow2(3) == 8 && Pow2(4) == 16 && Pow2(9) == 512 && Pow2(10) == 1024
    ensures Pow2(12) == 4096 && Pow2(21) == 0x20_0000 && Pow2(30) == 0x4000_0000
    ensures Pow2(31) == 0x8000_0000 && Pow2(32) == U32 && Pow2(64) == U64
  {
    assert Pow2(9) == 512 && Pow2(12) == 4096;
    Pow2Add(9, 12);
    Pow2Add(21, 9);
    Pow2Add(32, 32);
  }

  lemma {:induction false} ShrShr(x: nat, a: nat, b: nat)
    ensures Shr(Shr(x, a), b) == Shr(x, a + b)
  {
    if a > 0 {
      ShrShr(x / 2, a - 1, b);
    }
  }

  // Fields of a field: bits a .. a+b of x, and the low a bits.
  lemma {:induction false} LowFields(x: nat, a: nat, b: nat)
    ensures Shr(Low(x, a + b), a) == Low(Shr(x, a), b)
    ensures Low(Low(x, a + b), a) == Low(x, a)
  {
    if a > 0 {
      LowFields(x / 2, a - 1, b);
      assert Low(x, a + b) / 2 == Low(x / 2, a - 1 + b);
    }
  }

  lemma LowSplit(x: nat, a: nat, b: nat)
    ensures Low(x, a + b) == Low(Shr(x, a), b) * Pow2(a) + Low(x, a)
  {
    LowFields(x, a, b);
    ShrLow(Low(x, a + b), a);
  }

  // ---------- algebra ----------

  lemma {:induction false} AndOrDistributes(x: nat, y: nat, z: nat)
    ensures And(Or(x, y), z) == Or(And(x, z), And(y, z))
    decreases x + y + z
  {
    if x != 0 && y != 0 && z != 0 {
      AndOrDistributes(x / 2, y / 2, z / 2);
      OrHalves(x, y);
      AndHalves(Or(x, y), z);
      AndHalves(x, z);
      AndHalves(y, z);
      OrHalves(And(x, z), And(y, z));
      SameHalves(And(Or(x, y), z), Or(And(x, z), And(y, z)));
    }
  }

  lemma {:induction false} OrAssociative(x: nat, y: nat, z: nat)
    ensures Or(Or(x, y), z) == Or(x, Or(y, z))
    decreases x + y + z
  {
    if x != 0 && y != 0 && z != 0 {
      OrAssociative(x / 2, y / 2, z / 2);
      OrHalves(x, y);
      OrHalves(y, z);
      OrHalves(Or(x, y), z);
      OrHalves(x, Or(y, z));
      SameHalves(Or(Or(x, y), z), Or(x, Or(y, z)));
    }
  }

  lemma {:induction false} OrCommutative(x: nat, y: nat)
    ensures Or(x, y) == Or(y, x)
    decreases x + y
  {
    if x != 0 && y != 0 {
      OrCommutative(x / 2, y / 2);
      OrHalves(x, y);
      OrHalves(y, x);
      SameHalves(Or(x, y), Or(y, x));
    }
  }

  lemma OrIsZero(x: nat, y: nat)
    ensures Or(x, y) == 0 <==> x == 0 && y == 0
  {
  }

  // Both operators act on the high and the low bits separately.
  lemma {:induction false} OrFields(x: nat, y: nat, k: nat)
    ensures Shr(Or(x, y), k) == Or(Shr(x, k), Shr(y, k))
    ensures Low(Or(x, y), k) == Or(Low(x, k), Low(y, k))
    decreases k
  {
    if k > 0 {
      OrHalves(x, y);
      OrFields(x / 2, y / 2, k - 1);
      LowHalves(x, k);
      LowHalves(y, k);
      LowHalves(Or(x, y), k);
      OrHalves(Low(x, k), Low(y, k));
      SameHalves(Low(Or(x, y), k), Or(Low(x, k), Low(y, k)));
    }
  }

  lemma {:induction false} AndFields(x: nat, y: nat, k: nat)
    ensures Shr(And(x, y), k) == And(Shr(x, k), Shr(y, k))
    ensures Low(And(x, y), k) == And(Low(x, k), Low(y, k))
    decreases k
  {
    if k > 0 {
      AndHalves(x, y);
      AndFields(x / 2, y / 2, k - 1);
      LowHalves(x, k);
      LowHalves(y, k);
      LowHalves(And(x, y), k);
      AndHalves(Low(x, k), Low(y, k));
      SameHalves(Low(And(x, y), k), And(Low(x, k), Low(y, k)));
    }
  }

  lemma LowHalves(x: nat, k: nat)
    requires k > 0
    ensures Low(x, k) / 2 == Low(x / 2, k - 1) && Low(x, k) % 2 == x % 2
  {
  }

  lemma OrSplit(x: nat, a: nat, y: nat, b: nat, k: nat)
    requires a < Pow2(k) && b < Pow2(k)
    ensures Or(x * Pow2(k) + a, y * Pow2(k) + b) == Or(x, y) * Pow2(k) + Or(a, b)
    ensures Or(a, b) < Pow2(k)
  {
    var u, v := x * Pow2(k) + a, y * Pow2(k) + b;
    FieldUnique(u, k, x, a);
    FieldUnique(v, k, y, b);
    OrFields(u, v, k);
    ShrLow(Or(u, v), k);
  }

  lemma AndSplit(x: nat, a: nat, y: nat, b: nat, k: nat)
    requires a < Pow2(k) && b < Pow2(k)
    ensures And(x * Pow2(k) + a, y * Pow2(k) + b) == And(x, y) * Pow2(k) + And(a, b)
  {
    var u, v := x * Pow2(k) + a, y * Pow2(k) + b;
    FieldUnique(u, k, x, a);
    FieldUnique(v, k, y, b);
    AndFields(u, v, k);
    ShrLow(And(u, v), k);
  }

  lemma OrBound(x: nat, y: nat, k: nat)
    requires x < Pow2(k) && y < Pow2(k)
    ensures Or(x, y) < Pow2(k)
  {
    OrSplit(0, x, 0, y, k);
  }

  // A field and the bits below it simply add up.
  lemma OrAdds(x: nat, b: nat, k: nat)
    requires b < Pow2(k)
    ensures Or(x * Pow2(k), b) == x * Pow2(k) + b
  {
    OrSplit(x, 0, 0, b, k);
  }

  // ---------- masks ----------

  lemma {:induction false} AndMask(x: nat, k: nat)
    ensures And(x, Pow2(k) - 1) == Low(x, k)
    decreases k
  {
    if k > 0 {
      AndMask(x / 2, k - 1);
      AndHalves(x, Pow2(k) - 1);
      LowHalves(x, k);
      assert (Pow2(k) - 1) / 2 == Pow2(k - 1) - 1 && (Pow2(k) - 1) % 2 == 1;
      SameHalves(And(x, Pow2(k) - 1), Low(x, k));
    }
  }

  lemma MaskIsMod(x: nat, k: nat, m: nat)
    requires m == Pow2(k)
    ensures And(x, m - 1) == x % m
  {
    AndMask(x, k);
    ShrIsDiv(x, k);
  }

  // x & !(2^k - 1) rounds x down to a multiple of 2^k.
  lemma {:induction false} AndClearMask(x: nat, k: nat, w: nat)
    requires k <= w && x < Pow2(w) && Pow2(k) <= Pow2(w)
    ensures And(x, Not(Pow2(k) - 1, Pow2(w))) == x - Low(x, k)
    decreases w
  {
    var m := Not(Pow2(k) - 1, Pow2(w));
    if k == 0 {
      AndMask(x, w);
      FieldUnique(x, w, 0, x);
    } else {
      assert m / 2 == Not(Pow2(k - 1) - 1, Pow2(w - 1)) && m % 2 == 0;
      AndClearMask(x / 2, k - 1, w - 1);
      AndHalves(x, m);
    }
  }

  lemma {:induction false} Pow2Monotone(j: nat, k: nat)
    requires j <= k
    ensures Pow2(j) <= Pow2(k)
  {
    if j < k {
      Pow2Monotone(j, k - 1);
    }
  }
}
