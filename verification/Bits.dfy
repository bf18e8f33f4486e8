/** Machine words as natural numbers, with the bitwise operators the table uses.  A `uint64_t` is a
    number below `Pow2(64)`; shifts are multiplications and divisions by powers of two. */
module Bits {

  function Pow2(i: nat): (p: nat)
    ensures p > 0
  {
    if i == 0 then 1 else 2 * Pow2(i - 1)
  }

  /** Words have 64 bits. */
  const WORD: nat := 0x1_0000_0000_0000_0000

  /** Bit `i` of `w`. */
  predicate Bit(w: nat, i: nat)
  {
    if i == 0 then w % 2 == 1 else Bit(w / 2, i - 1)
  }

  function And(a: nat, b: nat): nat
  {
    if a == 0 || b == 0 then 0
    else 2 * And(a / 2, b / 2) + if a % 2 == 1 && b % 2 == 1 then 1 else 0
  }

  function Or(a: nat, b: nat): nat
    decreases a + b
  {
    if a == 0 && b == 0 then 0
    else 2 * Or(a / 2, b / 2) + if a % 2 == 1 || b % 2 == 1 then 1 else 0
  }

  function Xor(a: nat, b: nat): nat
    decreases a + b
  {
    if a == 0 && b == 0 then 0
    else 2 * Xor(a / 2, b / 2) + if a % 2 != b % 2 then 1 else 0
  }

  /** The number of ones among the lowest `i` bits of `w`. */
  function Rank(w: nat, i: nat): nat
  {
    if i == 0 then 0 else Rank(w, i - 1) + if Bit(w, i - 1) then 1 else 0
  }

  /** `__builtin_popcountll`. */
  function Popcount(w: nat): nat
  {
    Rank(w, 64)
  }

  // --- Powers of two ------------------------------------------------------------------------

  lemma {:induction false} Pow2Add(i: nat, j: nat)
    ensures Pow2(i + j) == Pow2(i) * Pow2(j)
  {
    if i > 0 {
      Pow2Add(i - 1, j);
    }
  }

  lemma {:induction false} Pow2Monotone(i: nat, j: nat)
    requires i <= j
    ensures Pow2(i) <= Pow2(j)
    ensures i < j ==> 2 * Pow2(i) <= Pow2(j)
    decreases j
  {
    if i < j {
      Pow2Monotone(i, j - 1);
    }
  }

  lemma Pow2Step(k: nat)
    ensures Pow2(k + 1) == 2 * Pow2(k)
    ensures k > 0 ==> Pow2(k) == 2 * Pow2(k - 1)
    ensures k == 0 ==> Pow2(k) == 1
  {
  }

  lemma Pow2Word()
    ensures Pow2(64) == WORD
  {
    assert Pow2(8) == 256;
    Pow2Add(8, 8);
    Pow2Add(16, 16);
    Pow2Add(32, 32);
  }

  // --- Single bits of the operators ---------------------------------------------------------

  lemma {:induction false} BitOfZero(i: nat)
    ensures !Bit(0, i)
  {
    if i > 0 {
      BitOfZero(i - 1);
    }
  }

  lemma {:induction false} BitOfAnd(a: nat, b: nat, i: nat)
    ensures Bit(And(a, b), i) <==> Bit(a, i) && Bit(b, i)
  {
    if a == 0 || b == 0 {
      BitOfZero(i);
    } else if i > 0 {
      BitOfAnd(a / 2, b / 2, i - 1);
    }
  }

  lemma {:induction false} BitOfOr(a: nat, b: nat, i: nat)
    ensures Bit(Or(a, b), i) <==> Bit(a, i) || Bit(b, i)
  {
    if a == 0 && b == 0 {
      BitOfZero(i);
    } else if i > 0 {
      BitOfOr(a / 2, b / 2, i - 1);
    }
  }

  lemma {:induction false} BitOfXor(a: nat, b: nat, i: nat)
    ensures Bit(Xor(a, b), i) <==> (Bit(a, i) != Bit(b, i))
  {
    if a == 0 && b == 0 {
      BitOfZero(i);
    } else if i > 0 {
      BitOfXor(a / 2, b / 2, i - 1);
    }
  }

  lemma {:induction false} BitOfPow2(i: nat, j: nat)
    ensures Bit(Pow2(i), j) <==> i == j
  {
    if i == 0 && j > 0 {
      BitOfZero(j - 1);
    } else if i > 0 && j > 0 {
      BitOfPow2(i - 1, j - 1);
    }
  }

  lemma {:induction false} BitOfLowOnes(i: nat, j: nat)
    ensures Bit(Pow2(i) - 1, j) <==> j < i
  {
    if i == 0 {
      BitOfZero(j);
    } else if j > 0 {
      assert (Pow2(i) - 1) / 2 == Pow2(i - 1) - 1;
      BitOfLowOnes(i - 1, j - 1);
    }
  }

  // --- Masks and ranks ----------------------------------------------------------------------

  /** `w & (1 << i) != 0` tests bit `i`. */
  lemma {:induction false} AndMask(w: nat, i: nat)
    ensures And(w, Pow2(i)) != 0 <==> Bit(w, i)
  {
    if w == 0 {
      BitOfZero(i);
    } else if i > 0 {
      AndMask(w / 2, i - 1);
    } else {
      assert And(w / 2, 0) == 0;
    }
  }

  lemma OrMask(w: nat, i: nat, j: nat)
    ensures Bit(Or(w, Pow2(i)), j) <==> i == j || Bit(w, j)
  {
    BitOfOr(w, Pow2(i), j);
    BitOfPow2(i, j);
  }

  lemma {:induction false} RankOfLow(w: nat, i: nat, k: nat)
    ensures Rank(And(w, Pow2(i) - 1), k) == Rank(w, if k < i then k else i)
  {
    if k > 0 {
      RankOfLow(w, i, k - 1);
      BitOfAnd(w, Pow2(i) - 1, k - 1);
      BitOfLowOnes(i, k - 1);
    }
  }

  /** The rank computed by `popcount(bv & (mask - 1))` is the number of ones below the bit. */
  lemma PopcountBelow(w: nat, i: nat)
    requires i <= 64
    ensures Popcount(And(w, Pow2(i) - 1)) == Rank(w, i)
  {
    RankOfLow(w, i, 64);
  }

  lemma {:induction false} RankOfZero(k: nat)
    ensures Rank(0, k) == 0
  {
    if k > 0 {
      RankOfZero(k - 1);
      BitOfZero(k - 1);
    }
  }

  lemma {:induction false} RankMonotone(w: nat, i: nat, j: nat)
    requires i <= j
    ensures Rank(w, i) <= Rank(w, j)
    ensures i < j && Bit(w, i) ==> Rank(w, i) < Rank(w, j)
    decreases j
  {
    if i < j {
      RankMonotone(w, i, j - 1);
    }
  }

  /** A clear rank means that no bit below is set. */
  lemma RankZeroBelow(w: nat, i: nat, j: nat)
    requires j < i && Rank(w, i) == 0
    ensures !Bit(w, j)
  {
    RankMonotone(w, j, i);
  }

  /** Setting a clear bit `i` raises by one exactly the ranks above `i`. */
  lemma {:induction false} RankOfOr(w: nat, i: nat, k: nat)
    requires !Bit(w, i)
    ensures Rank(Or(w, Pow2(i)), k) == Rank(w, k) + if i < k then 1 else 0
  {
    if k > 0 {
      RankOfOr(w, i, k - 1);
      OrMask(w, i, k - 1);
    }
  }

  /** A word of `k` bits that is not zero has a bit set. */
  lemma {:induction false} SomeBit(w: nat, k: nat) returns (i: nat)
    requires 0 < w < Pow2(k)
    ensures i < k && Bit(w, i)
  {
    if w % 2 == 1 {
      i := 0;
    } else {
      i := SomeBit(w / 2, k - 1);
      i := i + 1;
    }
  }

  lemma {:induction false} OrBound(a: nat, b: nat, k: nat)
    requires a < Pow2(k) && b < Pow2(k)
    ensures Or(a, b) < Pow2(k)
  {
    if k > 0 {
      OrBound(a / 2, b / 2, k - 1);
    }
  }

  lemma {:induction false} OrIdempotent(a: nat, b: nat)
    ensures Or(a, Or(a, b)) == Or(a, b)
    decreases a + b
  {
    if a != 0 || b != 0 {
      OrIdempotent(a / 2, b / 2);
    }
  }

  // --- Splitting a word at bit k ------------------------------------------------------------

  lemma {:induction false} OrZero(a: nat)
    ensures Or(a, 0) == a && Or(0, a) == a
  {
    if a > 0 {
      OrZero(a / 2);
    }
  }

  /** `(a << k) | b` is a sum when `b` has only `k` bits. */
  lemma {:induction false} OrDisjoint(a: nat, k: nat, b: nat)
    requires b < Pow2(k)
    ensures Or(a * Pow2(k), b) == a * Pow2(k) + b
  {
    if k == 0 {
      OrZero(a);
    } else {
      OrDisjoint(a, k - 1, b / 2);
      Half(a, Pow2(k - 1));
    }
  }

  lemma Half(a: nat, m: nat)
    ensures a * (2 * m) / 2 == a * m && a * (2 * m) % 2 == 0
  {
    assert a * (2 * m) == 2 * (a * m);
  }

  /** `w & ((1 << k) - 1)` is the remainder modulo `Pow2(k)`. */
  lemma {:induction false} AndLow(w: nat, k: nat)
    ensures And(w, Pow2(k) - 1) == w % Pow2(k)
  {
    if k == 0 {
    } else {
      AndLow(w / 2, k - 1);
      ModHalf(w, Pow2(k - 1));
      assert (Pow2(k) - 1) / 2 == Pow2(k - 1) - 1;
    }
  }

  lemma ModHalf(w: nat, m: nat)
    requires m > 0
    ensures w % (2 * m) == 2 * (w / 2 % m) + w % 2
  {
    var q, r := w / 2 / m, w / 2 % m;
    assert w / 2 == q * m + r;
    assert w == q * (2 * m) + (2 * r + w % 2);
    DivModUnique(w, 2 * m, q, 2 * r + w % 2);
  }

  lemma DivModUnique(x: int, m: nat, q: int, r: nat)
    requires r < m && x == q * m + r
    ensures x / m == q && x % m == r
  {
    var d := x / m - q;
    assert x == x / m * m + x % m;
    assert d * m == r - x % m;
    Multiples(d, m);
  }

  lemma SmallMod(x: nat, m: nat)
    requires x < m
    ensures x % m == x
  {
  }

  lemma Multiples(d: int, m: nat)
    ensures d >= 1 ==> d * m >= m
    ensures d <= -1 ==> d * m <= 0 - m
  {
  }

  lemma MulMono(a: nat, b: nat, m: nat)
    requires a <= b && m > 0
    ensures a * m <= b * m && a <= a * m
  {
  }

  lemma MulStrict(a: nat, b: nat, m: nat)
    requires a < b && m > 0
    ensures a * m < b * m
  {
  }

  lemma DivMod(x: nat, m: nat)
    requires m > 0
    ensures x == x / m * m + x % m
  {
  }

  lemma DivBelow(x: nat, m: nat, k: nat)
    requires m > 0 && x < k * m
    ensures x / m < k
  {
  }

  lemma DivZero(x: nat, m: nat)
    requires x < m
    ensures x / m == 0
  {
  }

  lemma ModMod(v: nat, a: nat, b: nat)
    requires a > 0 && b > 0 && a * b > 0
    ensures v % (a * b) % b == v % b
  {
    var q, r := v / (a * b), v % (a * b);
    assert v == q * (a * b) + r;
    assert r == r / b * b + r % b;
    Factor(q, a, b, r / b);
    DivModUnique(v, b, q * a + r / b, r % b);
  }

  lemma Factor(q: nat, a: nat, b: nat, c: nat)
    ensures q * (a * b) + c * b == (q * a + c) * b
  {
  }

  // --- Exclusive or -------------------------------------------------------------------------

  lemma {:induction false} XorZero(a: nat)
    ensures Xor(a, 0) == a
  {
    if a > 0 {
      XorZero(a / 2);
    }
  }

  lemma XorHalf(a: nat, b: nat)
    ensures Xor(a, b) / 2 == Xor(a / 2, b / 2)
    ensures Xor(a, b) % 2 == if a % 2 != b % 2 then 1 else 0
  {
  }

  lemma {:induction false} XorCancel(a: nat, b: nat)
    ensures Xor(Xor(a, b), b) == a
    decreases a + b
  {
    if a != 0 || b != 0 {
      XorCancel(a / 2, b / 2);
      XorHalf(a, b);
      XorHalf(Xor(a, b), b);
    }
  }

  lemma {:induction false} XorBound(a: nat, b: nat, k: nat)
    requires a < Pow2(k) && b < Pow2(k)
    ensures Xor(a, b) < Pow2(k)
  {
    if k > 0 {
      XorBound(a / 2, b / 2, k - 1);
    }
  }

  lemma DivTwice(a: nat, m: nat)
    requires m > 0
    ensures a / (2 * m) == a / 2 / m
  {
    ModHalf(a, m);
    DivModUnique(a, 2 * m, a / 2 / m, 2 * (a / 2 % m) + a % 2);
  }

  /** `a >> k` */
  function Shr(a: nat, k: nat): nat
  {
    DivNat(a, Pow2(k));
    a / Pow2(k)
  }

  lemma DivNat(a: nat, m: nat)
    requires m > 0
    ensures a / m >= 0
  {
  }

  lemma ShrHalf(a: nat, k: nat)
    requires k > 0
    ensures Shr(a, k) == Shr(a / 2, k - 1)
  {
    DivTwice(a, Pow2(k - 1));
  }

  /** Shifting right moves every bit down. */
  lemma {:induction false} BitOfShr(a: nat, k: nat, i: nat)
    ensures Bit(Shr(a, k), i) <==> Bit(a, k + i)
  {
    if k > 0 {
      ShrHalf(a, k);
      BitOfShr(a / 2, k - 1, i);
      hide Shr;
    }
  }

  /** The upper bits of an exclusive or. */
  lemma {:induction false} XorHigh(a: nat, b: nat, k: nat)
    ensures Shr(Xor(a, b), k) == Xor(Shr(a, k), Shr(b, k))
  {
    if k > 0 {
      hide Shr, Xor;
      XorHigh(a / 2, b / 2, k - 1);
      XorHalf(a, b);
      ShrHalf(a, k);
      ShrHalf(b, k);
      ShrHalf(Xor(a, b), k);
    }
  }

  /** The lower bits of an exclusive or. */
  lemma {:induction false} XorLow(a: nat, b: nat, k: nat)
    ensures Xor(a, b) % Pow2(k) == Xor(a % Pow2(k), b % Pow2(k))
  {
    if k > 0 {
      var m := Pow2(k - 1);
      XorLow(a / 2, b / 2, k - 1);
      XorHalf(a, b);
      hide Xor;
      ModHalf(a, m);
      ModHalf(b, m);
      ModHalf(Xor(a, b), m);
      XorJoin(a / 2 % m, a % 2, b / 2 % m, b % 2);
    }
  }

  lemma XorJoin(a: nat, x: nat, b: nat, y: nat)
    requires x < 2 && y < 2
    ensures Xor(2 * a + x, 2 * b + y) == 2 * Xor(a, b) + if x != y then 1 else 0
  {
    XorHalf(2 * a + x, 2 * b + y);
  }
}
