/** The bijective hash functions on `w`-bit keys: the prime multiplication hash (`Xorshift` of the
    poplar library, the default) and the plain xorshift (`xorshift_t`). */
module HashFunctions {
  import opened Bits
  import opened PrimeTable

  /** The hash function of a table, its template parameter `hash_t`. */
  datatype HashFn = Poplar | XorShift

  /** The widths a hash function supports. */
  predicate WidthOk(w: nat)
  {
    1 <= w <= 64
  }

  // --- The prime multiplication hash --------------------------------------------------------

  /** `x ^ (x >> (w / 2 + 1 + i))`. */
  function ShiftXor(w: nat, i: nat, x: nat): nat
  {
    Xor(x, Shr(x, w / 2 + 1 + i))
  }

  /** `(x * p) & mask`, where the product wraps around at 64 bits. */
  function MulMask(w: nat, p: nat, x: nat): nat
    requires WidthOk(w)
  {
    And(x * p % WORD, Pow2(w) - 1)
  }

  /** `hash_<i>` */
  function Round(w: nat, i: nat, x: nat): nat
    requires WidthOk(w) && i < 3
  {
    MulMask(w, PrimeRow(w).Prime(i), ShiftXor(w, i, x))
  }

  /** `hash_inv_<i>` */
  function RoundInv(w: nat, i: nat, x: nat): nat
    requires WidthOk(w) && i < 3
  {
    ShiftXor(w, i, MulMask(w, PrimeRow(w).Inverse(i), x))
  }

  function PoplarHash(w: nat, x: nat): nat
    requires WidthOk(w)
  {
    Round(w, 2, Round(w, 1, Round(w, 0, x)))
  }

  function PoplarHashInv(w: nat, x: nat): nat
    requires WidthOk(w)
  {
    RoundInv(w, 0, RoundInv(w, 1, RoundInv(w, 2, x)))
  }

  // --- The plain xorshift -------------------------------------------------------------------

  /** `(x xor ((x << j) & w_mask)) & w_mask` with `j = w / 2 + 1`; it is its own inverse. */
  function XorShiftHash(w: nat, x: nat): nat
    requires WidthOk(w)
  {
    And(Xor(x, And(x * Pow2(w / 2 + 1) % WORD, Pow2(w) - 1)), Pow2(w) - 1)
  }

  // --- Either -------------------------------------------------------------------------------

  function Hash(f: HashFn, w: nat, x: nat): nat
    requires WidthOk(w)
  {
    if f.Poplar? then PoplarHash(w, x) else XorShiftHash(w, x)
  }

  function HashInv(f: HashFn, w: nat, x: nat): nat
    requires WidthOk(w)
  {
    if f.Poplar? then PoplarHashInv(w, x) else XorShiftHash(w, x)
  }

  // --- Both are bijections on w-bit numbers -------------------------------------------------

  /** Xoring in the own upper bits undoes itself when they do not overlap their image. */
  lemma ShiftXorInvolution(w: nat, i: nat, x: nat)
    requires WidthOk(w) && x < Pow2(w)
    ensures ShiftXor(w, i, x) < Pow2(w)
    ensures ShiftXor(w, i, ShiftXor(w, i, x)) == x
  {
    hide Xor, Pow2;
    var s := w / 2 + 1 + i;
    var z := x / Pow2(s);
    DivDown(x, Pow2(s));
    XorBound(x, z, w);
    XorHigh(x, z, s);
    Pow2Add(s, s);
    Pow2Monotone(w, s + s);
    DivBelow(x, Pow2(s), Pow2(s));
    DivZero(z, Pow2(s));
    XorZero(z);
    XorCancel(x, z);
  }

  lemma DivDown(x: nat, m: nat)
    requires m > 0
    ensures x / m <= x
  {
    assert x == x / m * m + x % m;
    if x / m > x {
      MulMono(x + 1, x / m, m);
    }
  }

  /** Reduction modulo the word size is invisible modulo a smaller power of two. */
  lemma MulMaskIsMod(w: nat, p: nat, x: nat)
    requires WidthOk(w)
    ensures MulMask(w, p, x) == x * p % Pow2(w)
  {
    hide And, Pow2;
    AndLow(x * p % WORD, w);
    WordMod(x * p, w);
  }

  lemma WordMod(v: nat, w: nat)
    requires w <= 64
    ensures v % WORD % Pow2(w) == v % Pow2(w)
  {
    hide Pow2;
    Pow2Word();
    Pow2Add(64 - w, w);
    ModMod(v, Pow2(64 - w), Pow2(w));
  }

  /** Multiplying by `p` and then by its inverse modulo `m`. */
  lemma MulInverse(x: nat, p: nat, q: nat, m: nat)
    requires x < m && p * q % m == 1
    ensures x * p % m * q % m == x
  {
    var a, b := x * p / m, p * q / m;
    var r := x * p % m;
    assert x * p == a * m + r;
    assert p * q == b * m + 1;
    Regroup(x, p, q, a, b, m, r);
    DivModMul(r * q, m, x * b - a * q, x);
  }

  lemma Regroup(x: int, p: int, q: int, a: int, b: int, m: int, r: int)
    requires x * p == a * m + r && p * q == b * m + 1
    ensures r * q == (x * b - a * q) * m + x
  {
    assert x * p * q == (a * m + r) * q;
    assert x * (p * q) == x * (b * m + 1);
    assert x * p * q == x * (p * q);
  }

  lemma DivModMul(y: nat, m: nat, q: int, r: nat)
    requires r < m && y == q * m + r
    ensures y % m == r
  {
    DivModUnique(y, m, q, r);
  }

  lemma MulBothWays(w: nat, i: nat, x: nat)
    requires WidthOk(w) && i < 3 && x < Pow2(w)
    ensures MulMask(w, PrimeRow(w).Prime(i), x) < Pow2(w) && MulMask(w, PrimeRow(w).Inverse(i), x) < Pow2(w)
    ensures MulMask(w, PrimeRow(w).Inverse(i), MulMask(w, PrimeRow(w).Prime(i), x)) == x
    ensures MulMask(w, PrimeRow(w).Prime(i), MulMask(w, PrimeRow(w).Inverse(i), x)) == x
  {
    hide PrimeRow, Pow2, MulMask;
    var row, m := PrimeRow(w), Pow2(w);
    var p, q := row.Prime(i), row.Inverse(i);
    PrimeRowOk(w);
    PrimeRowModulus(w);
    assert p * q % m == 1;
    assert q * p == p * q;
    MulMaskIsMod(w, p, x);
    MulMaskIsMod(w, q, x);
    MulMaskIsMod(w, q, x * p % m);
    MulMaskIsMod(w, p, x * q % m);
    MulInverse(x, p, q, m);
    MulInverse(x, q, p, m);
  }

  lemma RoundBothWays(w: nat, i: nat, x: nat)
    requires WidthOk(w) && i < 3 && x < Pow2(w)
    ensures Round(w, i, x) < Pow2(w) && RoundInv(w, i, Round(w, i, x)) == x
    ensures RoundInv(w, i, x) < Pow2(w) && Round(w, i, RoundInv(w, i, x)) == x
  {
    hide PrimeRow, Pow2, MulMask, ShiftXor;
    var p, q := PrimeRow(w).Prime(i), PrimeRow(w).Inverse(i);
    ShiftXorInvolution(w, i, x);
    MulBothWays(w, i, ShiftXor(w, i, x));
    MulBothWays(w, i, x);
    ShiftXorInvolution(w, i, MulMask(w, q, x));
  }

  lemma PoplarBijective(w: nat, x: nat)
    requires WidthOk(w) && x < Pow2(w)
    ensures PoplarHash(w, x) < Pow2(w) && PoplarHashInv(w, PoplarHash(w, x)) == x
    ensures PoplarHashInv(w, x) < Pow2(w) && PoplarHash(w, PoplarHashInv(w, x)) == x
  {
    hide Round, RoundInv, Pow2;
    RoundBothWays(w, 0, x);
    RoundBothWays(w, 1, Round(w, 0, x));
    RoundBothWays(w, 2, Round(w, 1, Round(w, 0, x)));
    RoundBothWays(w, 2, x);
    RoundBothWays(w, 1, RoundInv(w, 2, x));
    RoundBothWays(w, 0, RoundInv(w, 1, RoundInv(w, 2, x)));
  }

  /** The shifted copy that the plain xorshift adds has nothing in the low bits. */
  lemma ShiftedLow(x: nat, j: nat, w: nat)
    requires j <= w <= 2 * j
    ensures x * Pow2(j) % Pow2(w) == x % Pow2(w - j) * Pow2(j)
    ensures x * Pow2(j) % Pow2(w) % Pow2(w - j) == 0
  {
    hide Pow2;
    var a, b := Pow2(w - j), Pow2(j);
    Pow2Add(w - j, j);
    var q, r := x / a, x % a;
    assert x == q * a + r;
    Factor(q, a, b, 0);
    assert x * b == q * (a * b) + r * b;
    MulStrict(r, a, b);
    DivModUnique(x * b, a * b, q, r * b);
    Pow2Add(2 * j - w, w - j);
    var c := Pow2(2 * j - w);
    assert r * b == r * c * a + 0;
    DivModUnique(r * b, a, r * c, 0);
  }

  lemma XorShiftInvolution(w: nat, x: nat)
    requires WidthOk(w) && x < Pow2(w)
    ensures XorShiftHash(w, x) < Pow2(w)
    ensures XorShiftHash(w, XorShiftHash(w, x)) == x
  {
    hide Xor, And, Pow2;
    var j := w / 2 + 1;
    if w == 1 {
      XorShiftOneBit(x);
    } else {
      var z, low := x * Pow2(j) % Pow2(w), Pow2(w - j);
      XorShiftValue(w, x, j);
      XorBound(x, z, w);
      var y := Xor(x, z);
      XorShiftValue(w, y, j);
      ShiftedLow(x, j, w);
      ShiftedLow(y, j, w);
      XorLow(x, z, w - j);
      XorZero(x % low);
      XorCancel(x, z);
    }
  }

  lemma XorShiftValue(w: nat, x: nat, j: nat)
    requires WidthOk(w) && x < Pow2(w) && j == w / 2 + 1
    ensures XorShiftHash(w, x) == Xor(x, x * Pow2(j) % Pow2(w))
  {
    hide Xor, And, Pow2;
    var z := x * Pow2(j) % Pow2(w);
    AndLow(x * Pow2(j) % WORD, w);
    WordMod(x * Pow2(j), w);
    XorBound(x, z, w);
    AndLow(Xor(x, z), w);
    SmallMod(Xor(x, z), Pow2(w));
  }

  lemma XorShiftOneBit(x: nat)
    requires x < Pow2(1)
    ensures XorShiftHash(1, x) == x
  {
  }

  /** The hash function is a bijection on `w`-bit numbers, and `HashInv` is its inverse. */
  lemma HashBijective(f: HashFn, w: nat, x: nat)
    requires WidthOk(w) && x < Pow2(w)
    ensures Hash(f, w, x) < Pow2(w) && HashInv(f, w, Hash(f, w, x)) == x
    ensures HashInv(f, w, x) < Pow2(w) && Hash(f, w, HashInv(f, w, x)) == x
  {
    hide PoplarHash, PoplarHashInv, XorShiftHash, Pow2;
    PoplarBijective(w, x);
    XorShiftInvolution(w, x);
  }

  /** The hash value of any number has at most `w` bits. */
  lemma HashBounded(f: HashFn, w: nat, x: nat)
    requires WidthOk(w)
    ensures Hash(f, w, x) < Pow2(w)
  {
    hide And, Xor, Pow2, PrimeRow, Shr;
    if f.Poplar? {
      var y := ShiftXor(w, 2, Round(w, 1, Round(w, 0, x)));
      AndLow(y * PrimeRow(w).Prime(2) % WORD, w);
    } else {
      AndLow(Xor(x, And(x * Pow2(w / 2 + 1) % WORD, Pow2(w) - 1)), w);
    }
  }

  /** Every bit is flipped if the bit `w / 2 + 1 + i` places above it is set. */
  lemma ShiftXorBit(w: nat, i: nat, x: nat, j: nat)
    ensures Bit(ShiftXor(w, i, x), j) <==> (Bit(x, j) != Bit(x, j + (w / 2 + 1 + i)))
  {
    hide Xor, Shr, Bit;
    BitOfXor(x, Shr(x, w / 2 + 1 + i), j);
    BitOfShr(x, w / 2 + 1 + i, j);
  }

  /** `x` is combined with its own bits from place `s` on, and multiplied by `p` modulo `m`. */
  function Scrambled(x: nat, s: nat, p: nat, m: nat): nat
    requires m > 0
  {
    Xor(x, Shr(x, s)) * p % m
  }

  /** The value of the prime multiplication hash: three scramblings with the three multipliers of the row,
      each with the upper bits taken one place further up. */
  lemma PoplarValue(w: nat, x: nat)
    requires WidthOk(w)
    ensures var m, s, row := Pow2(w), w / 2 + 1, PrimeRow(w);
      PoplarHash(w, x) == Scrambled(Scrambled(Scrambled(x, s, row.p, m), s + 1, row.p', m), s + 2, row.p'', m)
  {
    hide Xor, Pow2, PrimeRow, MulMask, Shr;
    var row := PrimeRow(w);
    MulMaskIsMod(w, row.p, ShiftXor(w, 0, x));
    var a := Round(w, 0, x);
    MulMaskIsMod(w, row.p', ShiftXor(w, 1, a));
    var b := Round(w, 1, a);
    MulMaskIsMod(w, row.p'', ShiftXor(w, 2, b));
  }

  /** The value of either hash function, on `w`-bit numbers. */
  lemma HashValue(f: HashFn, w: nat, x: nat)
    requires WidthOk(w) && x < Pow2(w)
    ensures var m, s, row := Pow2(w), w / 2 + 1, PrimeRow(w);
      Hash(f, w, x) == match f
        case Poplar => Scrambled(Scrambled(Scrambled(x, s, row.p, m), s + 1, row.p', m), s + 2, row.p'', m)
        case XorShift => Xor(x, x * Pow2(s) % m)
  {
    hide Xor, Pow2, PrimeRow, PoplarHash, XorShiftHash, Scrambled;
    PoplarValue(w, x);
    XorShiftValue(w, x, w / 2 + 1);
  }

  /** For four-bit numbers: 1 becomes 13, 15 and finally 9. */
  lemma PoplarSample()
    ensures Hash(Poplar, 4, 1) == 9
  {
    hide PoplarHash, PrimeRow, Scrambled;
    RowFour();
    PoplarValue(4, 1);
    ScrambledSmall(1, 3, 13, 16);
    ScrambledSmall(13, 4, 11, 16);
    ScrambledSmall(15, 5, 7, 16);
    assert Pow2(4) == 16;
  }

  lemma RowFour()
    ensures PrimeRow(4).p == 13 && PrimeRow(4).p' == 11 && PrimeRow(4).p'' == 7
  {
  }

  /** A number without upper bits is only multiplied. */
  lemma ScrambledSmall(x: nat, s: nat, p: nat, m: nat)
    requires m > 0 && x < Pow2(s)
    ensures Scrambled(x, s, p, m) == x * p % m
  {
    hide Xor, Pow2;
    DivZero(x, Pow2(s));
    XorZero(x);
  }

  /** A number that is too wide shares its hash value with one that is not. */
  lemma WideCollides()
    ensures Hash(XorShift, 2, 4) == Hash(XorShift, 2, 0) == 0
  {
    hide And, Xor;
    assert Pow2(2) == 4;
    AndLow(16, 2);
    AndLow(4, 2);
    AndLow(0, 2);
    XorZero(4);
    XorZero(0);
  }
}
