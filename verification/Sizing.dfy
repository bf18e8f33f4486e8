/** Table sizes and the arithmetic on positions and hash values (`size_manager_t`). */
module Sizing {
  import opened Bits

  // --- Positions modulo the capacity --------------------------------------------------------

  /** `mod_add`: masking with `capacity - 1` wraps around the capacity `n`; see `ModAddIsMasked`. */
  function ModAdd(v: nat, add: nat, n: nat): (r: nat)
    requires v < n && add <= n
    ensures r < n
  {
    if v + add < n then v + add else v + add - n
  }

  /** `mod_sub`: the 64-bit difference wraps around, and the mask brings it back below the capacity;
      see `ModSubIsMasked`. */
  function ModSub(v: nat, sub: nat, n: nat): (r: nat)
    requires v < n && sub <= n
    ensures r < n
  {
    if sub <= v then v - sub else v + n - sub
  }

  /** `(v + add) & mask` on 64-bit words. */
  lemma ModAddIsMasked(v: nat, add: nat, k: nat)
    requires k <= 63 && v < Pow2(k) && add <= Pow2(k)
    ensures And((v + add) % WORD, Pow2(k) - 1) == ModAdd(v, add, Pow2(k))
  {
    hide And, Pow2;
    MaskedIsMod(v + add, k);
    var n := Pow2(k);
    if v + add < n {
      DivModUnique(v + add, n, 0, v + add);
    } else {
      DivModUnique(v + add, n, 1, v + add - n);
    }
  }

  /** `(v - sub) & mask` on 64-bit words, where the difference may wrap around. */
  lemma ModSubIsMasked(v: nat, sub: nat, k: nat)
    requires k <= 63 && v < Pow2(k) && sub <= Pow2(k)
    ensures And((v - sub) % WORD, Pow2(k) - 1) == ModSub(v, sub, Pow2(k))
  {
    hide And, Pow2;
    var n := Pow2(k);
    Pow2Word();
    Pow2Monotone(k, 64);
    if sub <= v {
      SmallMod(v - sub, WORD);
      AndLow(v - sub, k);
      SmallMod(v - sub, n);
    } else {
      var wrapped: nat := v - sub + WORD;
      DivModUnique(v - sub, WORD, -1, wrapped);
      AndLow(wrapped, k);
      Pow2Add(64 - k, k);
      OneLess(Pow2(64 - k), n);
      DivModUnique(wrapped, n, Pow2(64 - k) - 1, v + n - sub);
    }
  }

  lemma OneLess(p: nat, n: nat)
    requires p > 0
    ensures (p - 1) * n == p * n - n
  {
  }

  lemma MaskedIsMod(x: nat, k: nat)
    requires k <= 63
    ensures And(x % WORD, Pow2(k) - 1) == x % Pow2(k)
  {
    hide And, Pow2;
    AndLow(x % WORD, k);
    Pow2Word();
    Pow2Add(64 - k, k);
    ModMod(x, Pow2(64 - k), Pow2(k));
  }

  // --- Splitting hash values ----------------------------------------------------------------

  /** The home of a key and the part of it that is stored (`decomposed_key_t`). */
  datatype DecomposedKey = DecomposedKey(initialAddress: nat, storedQuotient: nat)

  /** `decompose_hashed_value` for a table with `Pow2(k)` positions. */
  function DecomposeHashed(k: nat, h: nat): DecomposedKey
  {
    DecomposedKey(And(h, Pow2(k) - 1), Shr(h, k))
  }

  /** `compose_hashed_value`, on 64-bit words. */
  function ComposeHashed(k: nat, ia: nat, q: nat): nat
  {
    Or(q * Pow2(k) % WORD, ia)
  }

  /** Address and quotient do not overlap, and no bit is shifted out. */
  lemma ComposeValue(k: nat, w: nat, ia: nat, q: nat)
    requires k <= w <= 64 && ia < Pow2(k) && q < Pow2(w - k)
    ensures ComposeHashed(k, ia, q) == q * Pow2(k) + ia < Pow2(w)
  {
    hide Or, Pow2;
    var n := Pow2(k);
    Pow2Add(w - k, k);
    MulMono(q + 1, Pow2(w - k), n);
    assert (q + 1) * n == q * n + n;
    Pow2Word();
    Pow2Monotone(w, 64);
    SmallMod(q * n, WORD);
    OrDisjoint(q, k, ia);
  }

  lemma DecomposeCompose(k: nat, w: nat, h: nat)
    requires k <= w <= 64 && h < Pow2(w)
    ensures var d := DecomposeHashed(k, h);
      && d.initialAddress < Pow2(k) && d.storedQuotient < Pow2(w - k)
      && ComposeHashed(k, d.initialAddress, d.storedQuotient) == h
  {
    hide And, Pow2, ComposeHashed;
    AndLow(h, k);
    DivMod(h, Pow2(k));
    Pow2Add(w - k, k);
    DivBelow(h, Pow2(k), Pow2(w - k));
    ComposeValue(k, w, h % Pow2(k), h / Pow2(k));
  }

  lemma ComposeDecompose(k: nat, w: nat, ia: nat, q: nat)
    requires k <= w <= 64 && ia < Pow2(k) && q < Pow2(w - k)
    ensures ComposeHashed(k, ia, q) < Pow2(w)
    ensures DecomposeHashed(k, ComposeHashed(k, ia, q)) == DecomposedKey(ia, q)
  {
    hide And, Pow2, ComposeHashed;
    ComposeValue(k, w, ia, q);
    AndLow(q * Pow2(k) + ia, k);
    DivModUnique(q * Pow2(k) + ia, Pow2(k), q, ia);
  }

  // --- Growing ------------------------------------------------------------------------------

  function Min(a: int, b: int): (r: int)
    ensures r <= a && r <= b && (r == a || r == b)
  {
    if a < b then a else b
  }

  function Max(a: nat, b: nat): (r: nat)
    ensures r >= a && r >= b && (r == a || r == b)
  {
    if a < b then b else a
  }

  /** The largest number of elements a table of the given capacity takes without growing: the load
      factor, but always leaving one position free.  The difference is one of 64-bit words. */
  function Trigger(capacity: nat, z: real): int
  {
    Min((capacity - 1) % WORD, (capacity as real * z).Floor)
  }

  /** `needs_to_grow_capacity` */
  predicate NeedsToGrow(capacity: nat, newSize: nat, z: real)
  {
    Trigger(capacity, z) < newSize
  }

  /** A table has no room for `newSize` elements: they would fill every position, or be more than the
      load factor allows. */
  ghost predicate TooFull(capacity: nat, newSize: nat, z: real)
  {
    newSize >= capacity || newSize as real > capacity as real * z
  }

  /** The code grows a table exactly when it would be too full. */
  lemma GrowsIff(capacity: nat, newSize: nat, z: real)
    requires 0 < capacity <= Pow2(63) && z > 0.0
    ensures NeedsToGrow(capacity, newSize, z) <==> newSize >= capacity || newSize as real > capacity as real * z
  {
    hide Pow2;
    Pow2Word();
    Pow2Monotone(63, 64);
    TriggerValue(capacity, z);
    var x := capacity as real * z;
    assert x.Floor as real <= x < x.Floor as real + 1.0;
  }

  /** The same for a range of table sizes. */
  lemma GrowthIs(k: nat, newSize: nat, z: real)
    requires k <= 63 && z > 0.0
    ensures NeedsToGrow(Pow2(k), newSize, z) <==> TooFull(Pow2(k), newSize, z)
  {
    hide Pow2, NeedsToGrow;
    Pow2Monotone(k, 63);
    GrowsIff(Pow2(k), newSize, z);
  }

  /** A table of `Pow2(from)` positions is grown to `Pow2(to)`: the first doubling that is not too full. */
  ghost predicate LeastRoom(from: nat, to: nat, newSize: nat, z: real)
  {
    && from <= to && !TooFull(Pow2(to), newSize, z)
    && forall j :: from <= j < to ==> TooFull(Pow2(j), newSize, z)
  }

  /** A table grew from `Pow2(from)` to `Pow2(to)` positions, and no further than `total` elements demand. */
  ghost predicate GrownFor(from: nat, to: nat, total: nat, z: real)
  {
    from <= to && forall j :: from <= j < to ==> TooFull(Pow2(j), total, z)
  }

  lemma GrownNone(k: nat, total: nat, z: real)
    ensures GrownFor(k, k, total, z)
  {
  }

  /** One more growth step, for fewer elements than `total`. */
  lemma GrownNext(from: nat, to: nat, next: nat, newSize: nat, total: nat, z: real)
    requires GrownFor(from, to, total, z) && LeastRoom(to, next, newSize, z) && newSize <= total
    ensures GrownFor(from, next, total, z)
  {
    hide Pow2;
  }

  lemma GrowthSteps(i: nat, k: nat, newSize: nat, z: real)
    requires i <= k <= 63 && z > 0.0
    requires !NeedsToGrow(Pow2(k), newSize, z) && forall j :: i <= j < k ==> NeedsToGrow(Pow2(j), newSize, z)
    ensures LeastRoom(i, k, newSize, z)
  {
    hide Pow2, NeedsToGrow, TooFull;
    GrowthIs(k, newSize, z);
    forall j | i <= j < k ensures TooFull(Pow2(j), newSize, z) {
      GrowthIs(j, newSize, z);
    }
  }

  /** Whether a table is full decides whether the code grows it. */
  lemma RoomKnown(k: nat, size: nat, z: real)
    requires k <= 63 && z > 0.0
    ensures forall i, newSize :: i in {k, 63} && newSize in {size, size + 1} ==>
      (NeedsToGrow(Pow2(i), newSize, z) <==> TooFull(Pow2(i), newSize, z))
  {
    hide Pow2, NeedsToGrow, TooFull;
    GrowthIs(k, size, z);
    GrowthIs(k, size + 1, z);
    GrowthIs(63, size, z);
    GrowthIs(63, size + 1, z);
  }

  /** `grown_capacity` of the size manager, on 64-bit words. */
  function Grown(capacity: nat): nat
  {
    capacity * 2 % WORD
  }

  /** The capacity after `j` doublings. */
  function Doubled(capacity: nat, j: nat): nat
  {
    if j == 0 then capacity else Grown(Doubled(capacity, j - 1))
  }

  /** A table that need not grow for `size` elements keeps a position free. */
  lemma RoomLeft(k: nat, size: nat, z: real)
    requires k <= 63 && !NeedsToGrow(Pow2(k), size, z)
    ensures size < Pow2(k)
  {
    hide Pow2;
    Pow2Word();
    Pow2Monotone(k, 64);
    SmallMod(Pow2(k) - 1, WORD);
  }

  /** What a table need not grow for, it need not grow for with fewer elements. */
  lemma SmallerFits(capacity: nat, m: nat, newSize: nat, z: real)
    requires m <= newSize
    ensures NeedsToGrow(capacity, m, z) ==> NeedsToGrow(capacity, newSize, z)
  {
  }

  lemma RealMonotone(a: nat, b: nat, z: real)
    requires a <= b && z > 0.0
    ensures (a as real * z).Floor <= (b as real * z).Floor
  {
    assert a as real * z <= b as real * z;
  }

  lemma TriggerValue(capacity: nat, z: real)
    requires 0 < capacity <= WORD
    ensures Trigger(capacity, z) == Min(capacity - 1, (capacity as real * z).Floor)
  {
    SmallMod(capacity - 1, WORD);
  }

  lemma TriggerGrows(a: nat, b: nat, z: real)
    requires 0 < a <= b <= WORD && z > 0.0
    ensures Trigger(a, z) <= Trigger(b, z)
  {
    TriggerValue(a, z);
    TriggerValue(b, z);
    RealMonotone(a, b, z);
  }

  /** A larger table takes at least as many elements. */
  lemma TriggerMonotone(i: nat, j: nat, z: real)
    requires i <= j <= 63 && z > 0.0
    ensures Trigger(Pow2(i), z) <= Trigger(Pow2(j), z)
  {
    hide Pow2, Trigger;
    Pow2Word();
    Pow2Monotone(i, j);
    Pow2Monotone(j, 64);
    TriggerGrows(Pow2(i), Pow2(j), z);
  }

  /** Doubling walks through the powers of two up to the word size, and then sticks at zero. */
  lemma {:induction false} DoubledValue(k: nat, j: nat)
    requires k <= 63
    ensures Doubled(Pow2(k), j) == if k + j <= 63 then Pow2(k + j) else 0
  {
    if j > 0 {
      DoubledValue(k, j - 1);
      Pow2Word();
      if k + j <= 63 {
        Pow2Monotone(k + j, 63);
        assert Pow2(64) == 2 * Pow2(63);
        SmallMod(Pow2(k + j), WORD);
      } else if k + j == 64 {
        assert Pow2(64) == 2 * Pow2(63);
      }
    }
  }

  /** The growth loop ends if and only if the largest table of a 64-bit machine is large enough.  A
      tiny load factor that is legal by the checks of `max_load_factor` makes it loop forever. */
  lemma GrowthEnds(k: nat, newSize: nat, z: real)
    requires k <= 63 && z > 0.0
    ensures (exists j :: !NeedsToGrow(Doubled(Pow2(k), j), newSize, z)) <==> !NeedsToGrow(Pow2(63), newSize, z)
  {
    hide Pow2, Doubled;
    if !NeedsToGrow(Pow2(63), newSize, z) {
      DoubledValue(k, 63 - k);
      assert !NeedsToGrow(Doubled(Pow2(k), 63 - k), newSize, z);
    }
    forall j: nat | !NeedsToGrow(Doubled(Pow2(k), j), newSize, z)
      ensures !NeedsToGrow(Pow2(63), newSize, z)
    {
      DoubledValue(k, j);
      if k + j <= 63 {
        TriggerMonotone(k + j, 63, z);
      } else {
        ZeroCapacity(newSize, z);
      }
    }
  }

  lemma ZeroCapacity(newSize: nat, z: real)
    requires z > 0.0 && !NeedsToGrow(0, newSize, z)
    ensures !NeedsToGrow(Pow2(63), newSize, z)
  {
    hide Pow2;
    assert 0 as real * z == 0.0;
    RealMonotone(0, Pow2(63), z);
    Pow2Word();
    Pow2Monotone(63, 64);
    SmallMod(Pow2(63) - 1, WORD);
  }

  /** A load factor that the checks accept and for which the growth loop never ends. */
  lemma TinyLoadFactor()
    ensures var z := 1.0 / (WORD as real); 0.0 < z <= 1.0 && forall j :: NeedsToGrow(Doubled(Pow2(1), j), 1, z)
  {
    hide Pow2, Doubled;
    var z := 1.0 / (WORD as real);
    Pow2Word();
    Pow2Monotone(63, 64);
    assert Pow2(63) as real * z < 1.0;
    GrowthEnds(1, 1, z);
  }

  /** The sizing state of a table (`size_manager_t`). */
  class SizeManager {
    var capacityLog2: nat
    var size: nat
    var loadFactor: real

    ghost predicate Valid()
      reads this
      ensures Valid() ==> 1 <= capacityLog2 <= 63 && 0.0 < loadFactor <= 1.0
    {
      && 1 <= capacityLog2 <= 63
      && size < Pow2(capacityLog2)
      && 0.0 < loadFactor <= 1.0
    }

    /** A size manager for `capacity` positions, at least two; the capacity must be a power of two. */
    constructor (capacity: nat, z: real, ghost k: nat)
      requires 0.0 < z <= 1.0
      requires k <= 63 && AdjustSize(capacity) == Pow2(k)
      ensures Valid() && capacityLog2 == k && size == 0 && loadFactor == z
      ensures Pow2(capacityLog2) == if capacity >= 2 then capacity else 2
    {
      var adjusted := AdjustSize(capacity);
      var log := Log2Upper(adjusted);
      PowerUnique(k, log);
      capacityLog2, size, loadFactor := log, 0, z;
      new;
      assert k >= 1;
    }

    /** `set_size`, which demands that a position stays free. */
    method SetSize(newSize: nat)
      requires Valid() && newSize < Pow2(capacityLog2)
      modifies this`size
      ensures Valid() && size == newSize
    {
      size := newSize;
    }

    /** `max_load_factor` */
    method MaxLoadFactor(z: real)
      requires Valid() && 0.0 < z <= 1.0
      modifies this`loadFactor
      ensures Valid() && loadFactor == z
    {
      loadFactor := z;
    }

    /** The growth loop of the tables: the first doubling that is large enough. */
    method GrownCapacity(newSize: nat) returns (capacity: nat, ghost k: nat)
      requires Valid() && !NeedsToGrow(Pow2(63), newSize, loadFactor)
      ensures capacityLog2 <= k <= 63 && capacity == Pow2(k)
      ensures !NeedsToGrow(Pow2(k), newSize, loadFactor)
      ensures forall i :: capacityLog2 <= i < k ==> NeedsToGrow(Pow2(i), newSize, loadFactor)
      ensures newSize < capacity && newSize as real <= capacity as real * loadFactor
      ensures LeastRoom(capacityLog2, k, newSize, loadFactor)
    {
      hide Pow2, NeedsToGrow;
      capacity, k := Pow2(capacityLog2), capacityLog2;
      while NeedsToGrow(capacity, newSize, loadFactor)
        invariant capacityLog2 <= k <= 63 && capacity == Pow2(k)
        invariant forall i :: capacityLog2 <= i < k ==> NeedsToGrow(Pow2(i), newSize, loadFactor)
        decreases 63 - k
      {
        capacity := Grown(capacity);
        GrownPow2(k);
        k := k + 1;
      }
      GrowthSteps(capacityLog2, k, newSize, loadFactor);
    }
  }

  lemma GrownPow2(k: nat)
    requires k < 63
    ensures Grown(Pow2(k)) == Pow2(k + 1)
  {
    Pow2Word();
    Pow2Monotone(k + 1, 63);
    Pow2Monotone(63, 64);
    assert Pow2(k + 1) == 2 * Pow2(k);
    SmallMod(Pow2(k + 1), WORD);
  }

  /** `adjust_size` */
  function AdjustSize(size: nat): nat
  {
    if size < 2 then 2 else size
  }

  lemma CapacityOk(k: nat)
    requires k >= 1
    ensures AdjustSize(Pow2(k)) == Pow2(k)
  {
  }

  /** `log2_upper`: the position of the highest set bit. */
  method Log2Upper(v: nat) returns (m: nat)
    requires v > 0
    ensures Pow2(m) <= v < Pow2(m + 1)
  {
    hide *;
    var bits, x := 0, v;
    ShiftedStart(v);
    while x != 0
      invariant ShiftedOut(v, bits, x)
      invariant x == 0 ==> bits > 0 && Pow2(bits - 1) <= v < Pow2(bits)
      decreases x
    {
      ShiftedStep(v, bits, x);
      x, bits := x / 2, bits + 1;
    }
    m := bits - 1;
  }

  /** `x` is what is left of `v` after `bits` positions were shifted out. */
  ghost predicate ShiftedOut(v: nat, bits: nat, x: nat)
  {
    x * Pow2(bits) <= v < (x + 1) * Pow2(bits)
  }

  lemma ShiftedStart(v: nat)
    ensures ShiftedOut(v, 0, v)
  {
  }

  lemma ShiftedStep(v: nat, bits: nat, x: nat)
    requires x > 0 && ShiftedOut(v, bits, x)
    ensures ShiftedOut(v, bits + 1, x / 2)
    ensures x / 2 == 0 ==> Pow2(bits) <= v < Pow2(bits + 1)
  {
    var h, r, p := x / 2, x % 2, Pow2(bits);
    assert x == 2 * h + r;
    assert h * (2 * p) + r * p == x * p;
    assert (h + 1) * (2 * p) == (x + 1) * p + (1 - r) * p;
  }

  lemma PowerUnique(k: nat, m: nat)
    requires Pow2(m) <= Pow2(k) < Pow2(m + 1)
    ensures k == m
  {
    if k < m {
      Pow2Monotone(k, m);
    } else if m + 1 <= k {
      Pow2Monotone(m + 1, k);
    }
  }

  /** `is_pot`: clearing the lowest set bit leaves zero. */
  predicate IsPot(n: nat)
  {
    n > 0 && And(n, n - 1) == 0
  }

  /** The check of the constructor accepts exactly the powers of two. */
  lemma {:induction false} IsPotIff(n: nat)
    ensures IsPot(n) <==> exists k: nat :: n == Pow2(k)
    decreases n
  {
    assert Pow2(0) == 1 && And(1, 0) == 0;
    hide Pow2, And;
    if n == 1 {
      assert n == Pow2(0);
    } else if n > 1 {
      IsPotIff(n / 2);
      if n % 2 == 1 {
        OddPot(n);
      } else {
        EvenPot(n);
        EvenIsPot(n);
      }
    } else {
      forall k: nat ensures n != Pow2(k) { }
    }
  }

  lemma OddPot(n: nat)
    requires n > 1 && n % 2 == 1
    ensures !IsPot(n) && forall k: nat :: n != Pow2(k)
  {
    AndSame(n / 2);
    assert (n - 1) / 2 == n / 2;
    forall k: nat ensures n != Pow2(k) {
      if k > 0 {
        assert Pow2(k) == 2 * Pow2(k - 1);
      }
    }
  }

  lemma EvenPot(n: nat)
    requires n > 1 && n % 2 == 0
    ensures (exists k: nat :: n == Pow2(k)) <==> exists k: nat :: n / 2 == Pow2(k)
  {
    hide Pow2;
    if k: nat :| n == Pow2(k) {
      Pow2Step(k);
      var j: nat := k - 1;
      Pow2Step(j);
      assert n / 2 == Pow2(j);
    } else if k: nat :| n / 2 == Pow2(k) {
      Pow2Step(k);
    }
  }

  lemma EvenIsPot(n: nat)
    requires n > 1 && n % 2 == 0
    ensures IsPot(n) <==> IsPot(n / 2)
  {
  }

  lemma {:induction false} AndSame(a: nat)
    ensures And(a, a) == a
  {
    if a > 0 {
      AndSame(a / 2);
    }
  }
}
