/** Layouts of the `v`/`c` bit table (Cleary): the invariant, and what follows from it on the circle
    cut open at a free position, where homes never decrease. */
module CvLayout {
  import opened Layouts

  /** The slot before position `i` of the circle. */
  function Prev(i: nat, n: nat): (p: nat)
    requires i < n
    ensures p < n
  {
    if i == 0 then n - 1 else i - 1
  }

  /** `b` may come right after `a`: at its home, or no further displaced than its home order allows. */
  ghost predicate Follows<V>(a: Slot<V>, b: Slot<V>)
  {
    b.Used? ==> b.disp <= if a.Free? then 0 else a.disp + 1
  }

  /** `b`, coming right after `a`, is the first entry of its group. */
  ghost predicate Starts<V>(a: Slot<V>, b: Slot<V>)
  {
    b.Used? && !(a.Used? && b.disp == a.disp + 1)
  }

  /** The neighbour conditions on the circle: placement and `c` bits. */
  ghost predicate Chained<V>(s: seq<Slot<V>>, c: seq<bool>)
  {
    && |c| == |s|
    && forall i :: 0 <= i < |s| ==> Follows(s[Prev(i, |s|)], s[i]) && (c[i] <==> Starts(s[Prev(i, |s|)], s[i]))
  }

  /** The `v` bits mark the homes that have entries. */
  ghost predicate Virgin<V>(s: seq<Slot<V>>, v: seq<bool>)
  {
    && |v| == |s|
    && forall p :: 0 <= p < |s| ==> (v[p] <==> Group(s, p) != [])
  }

  /** The neighbour conditions between slot `i - 1` and slot `i`. */
  ghost predicate Link<V>(u: seq<Slot<V>>, c: seq<bool>, i: nat)
    requires 0 < i < |u| == |c|
  {
    Follows(u[i - 1], u[i]) && (c[i] <==> Starts(u[i - 1], u[i]))
  }

  /** The same neighbour conditions on the circle cut open at a free position. */
  ghost predicate Linear<V>(u: seq<Slot<V>>, c: seq<bool>)
  {
    && |c| == |u| > 0
    && u[0].Free? && !c[0]
    && forall i :: 0 < i < |u| ==> Link(u, c, i)
  }

  /** The home of slot `i` on the cut circle. */
  ghost function Home<V>(u: seq<Slot<V>>, i: nat): int
    requires i < |u| && u[i].Used?
  {
    i - u[i].disp
  }

  lemma ToLinear<V>(s: seq<Slot<V>>, c: seq<bool>, e: nat)
    requires Chained(s, c) && e < |s| && s[e].Free?
    ensures Linear(Unroll(s, e), Unroll(c, e))
  {
  }

  lemma FromLinear<V>(s: seq<Slot<V>>, c: seq<bool>, e: nat)
    requires |c| == |s| && e < |s| && Linear(Unroll(s, e), Unroll(c, e))
    ensures Chained(s, c) && s[e].Free?
  {
    var n, u := |s|, Unroll(s, e);
    assert Pos(e, 0, n) == e;
    forall p | 0 <= p < n
      ensures Follows(s[Prev(p, n)], s[p]) && (c[p] <==> Starts(s[Prev(p, n)], s[p]))
    {
      var i := Steps(e, p, n);
      if i > 0 {
        assert Prev(p, n) == Pos(e, i - 1, n) && Link(u, Unroll(c, e), i);
        assert s[p] == u[i] && c[p] == Unroll(c, e)[i] && s[Prev(p, n)] == u[i - 1];
      }
    }
  }

  // --- Homes on the cut circle --------------------------------------------------------------

  /** No free slot lies between a home and its entry. */
  lemma {:induction false} NoGap<V>(u: seq<Slot<V>>, c: seq<bool>, i: nat)
    requires Linear(u, c) && i < |u| && u[i].Used?
    ensures 0 < Home(u, i) <= i
    ensures forall k :: Home(u, i) <= k <= i ==> u[k].Used?
  {
    assert Link(u, c, i);
    if u[i].disp > 0 {
      NoGap(u, c, i - 1);
    }
  }

  lemma NoGaps<V>(u: seq<Slot<V>>, c: seq<bool>)
    requires Linear(u, c)
    ensures forall i :: 0 <= i < |u| && u[i].Used? ==> u[i].disp < i
  {
    forall i | 0 <= i < |u| && u[i].Used? ensures u[i].disp < i {
      NoGap(u, c, i);
    }
  }

  /** Homes never decrease, and they lie behind every free slot passed. */
  lemma {:induction false} HomesOrdered<V>(u: seq<Slot<V>>, c: seq<bool>, i: nat, j: nat)
    requires Linear(u, c) && i <= j < |u| && u[j].Used?
    ensures u[i].Used? ==> Home(u, i) <= Home(u, j)
    ensures u[i].Free? ==> i < Home(u, j)
    decreases j
  {
    if i < j {
      assert Link(u, c, j);
      if u[j - 1].Used? {
        HomesOrdered(u, c, i, j - 1);
      } else if u[i].Used? {
        assert Home(u, i) <= i;
      }
    }
  }

  /** On the cut circle the group of home `r` is listed by `Homed`. */
  lemma GroupOnCut<V>(s: seq<Slot<V>>, c: seq<bool>, e: nat, r: nat)
    requires Chained(s, c) && e < |s| && s[e].Free? && r < |s|
    ensures Group(s, Pos(e, r, |s|)) == Homed(Unroll(s, e), 0, |s|, r)
  {
    ToLinear(s, c, e);
    NoGaps(Unroll(s, e), Unroll(c, e));
    GroupFrom(s, e, r);
  }

  /** `[r, t)` is the rest of the cluster that position `r` is in. */
  ghost predicate Run<V>(u: seq<Slot<V>>, r: nat, t: nat)
  {
    && r <= t <= |u|
    && (forall k :: r <= k < t ==> u[k].Used?)
    && (t < |u| ==> u[t].Free?)
  }

  /** `g` separates the entries with homes below `r` from those with homes from `r` on. */
  ghost predicate Boundary<V>(u: seq<Slot<V>>, r: nat, g: nat, t: nat)
  {
    && r <= g <= t <= |u|
    && (forall i :: 0 <= i < g && u[i].Used? ==> Home(u, i) < r)
    && (forall i :: g <= i < t ==> u[i].Used? && Home(u, i) >= r)
  }

  /** The first entry of the group that slot `i` belongs to. */
  lemma {:induction false} GroupStart<V>(u: seq<Slot<V>>, c: seq<bool>, i: nat) returns (g: nat)
    requires Linear(u, c) && i < |u| && u[i].Used?
    ensures 0 < g <= i && c[g]
    ensures forall k :: g <= k <= i ==> u[k].Used? && Home(u, k) == Home(u, i)
    ensures forall k :: g < k <= i ==> !c[k]
    ensures forall k :: 0 <= k < g && u[k].Used? ==> Home(u, k) < Home(u, i)
  {
    assert Link(u, c, i);
    if c[i] {
      g := i;
      forall k | 0 <= k < g && u[k].Used? ensures Home(u, k) < Home(u, i)
      {
        NoGap(u, c, k);
        if u[i - 1].Used? {
          HomesOrdered(u, c, k, i - 1);
        }
      }
    } else {
      g := GroupStart(u, c, i - 1);
    }
  }

  // --- Counting v bits against c bits -------------------------------------------------------

  /** The number of set bits in `[a, b)`. */
  function Count(bits: seq<bool>, a: nat, b: nat): nat
    requires b <= |bits|
    decreases b - a
  {
    if a >= b then 0 else (if bits[a] then 1 else 0) + Count(bits, a + 1, b)
  }

  lemma {:induction false} CountSplit(bits: seq<bool>, a: nat, m: nat, b: nat)
    requires a <= m <= b <= |bits|
    ensures Count(bits, a, b) == Count(bits, a, m) + Count(bits, m, b)
    decreases m - a
  {
    if a < m {
      CountSplit(bits, a + 1, m, b);
    }
  }

  lemma CountFirst(bits: seq<bool>, a: nat, b: nat)
    requires a < b <= |bits|
    ensures Count(bits, a, b) == (if bits[a] then 1 else 0) + Count(bits, a + 1, b)
  {
  }

  lemma CountNext(bits: seq<bool>, a: nat, b: nat)
    requires a <= b < |bits|
    ensures Count(bits, a, b + 1) == Count(bits, a, b) + if bits[b] then 1 else 0
  {
    CountSplit(bits, a, b, b + 1);
    CountFirst(bits, b, b + 1);
  }

  lemma {:induction false} CountNone(bits: seq<bool>, a: nat, b: nat)
    requires b <= |bits| && forall k :: a <= k < b ==> !bits[k]
    ensures Count(bits, a, b) == 0
    decreases b - a
  {
    if a < b {
      CountNone(bits, a + 1, b);
    }
  }

  /** The `c` bit at a boundary inside a cluster is set. */
  lemma BoundaryStarts<V>(u: seq<Slot<V>>, c: seq<bool>, r: nat, g: nat, t: nat)
    requires Linear(u, c) && Boundary(u, r, g, t) && g < t
    ensures g > 0 && c[g]
  {
    assert Link(u, c, g);
  }

  /** From position `r` to the end of its cluster there are as many `v` bits as there are groups
      with homes from `r` on, that is, as many `c` bits behind the boundary of `r`. */
  lemma {:induction false} BitsMatch<V>(u: seq<Slot<V>>, c: seq<bool>, v: seq<bool>, r: nat, t: nat) returns (g: nat)
    requires Linear(u, c) && 0 < r && Run(u, r, t) && |v| == |u|
    requires forall p :: r <= p < t ==> (v[p] <==> Homed(u, 0, |u|, p) != [])
    ensures Boundary(u, r, g, t) && Count(v, r, t) == Count(c, g, t)
    decreases t - r
  {
    if r == t {
      g := t;
      forall i | 0 <= i < t && u[i].Used? ensures Home(u, i) < r {
        NoGap(u, c, i);
      }
    } else {
      var g' := BitsMatch(u, c, v, r + 1, t);
      if v[r] {
        g := GroupBefore(u, c, r, g', t);
        CountSplit(c, g, g + 1, t);
        CountSplit(c, g + 1, g', t);
        CountNone(c, g + 1, g');
      } else {
        g := g';
        forall i | 0 <= i < g && u[i].Used? ensures Home(u, i) < r {
          if Home(u, i) == r {
            HomedAt(u, i, r);
          }
        }
      }
    }
  }

  /** A group with home `r` ends at the boundary of `r + 1` and has exactly one `c` bit, its first. */
  lemma GroupBefore<V>(u: seq<Slot<V>>, c: seq<bool>, r: nat, g': nat, t: nat) returns (g: nat)
    requires Linear(u, c) && 0 < r && Run(u, r, t) && Boundary(u, r + 1, g', t)
    requires Homed(u, 0, |u|, r) != []
    ensures Boundary(u, r, g, t) && g < g' && c[g]
    ensures forall k :: g < k < g' ==> !c[k]
    ensures forall k :: g <= k < g' ==> u[k].Used? && Home(u, k) == r
  {
    var i := HomedSlot(u, 0, |u|, r, 0);
    if i >= t {
      HomesOrdered(u, c, t, i);
    }
    HomesOrdered(u, c, i, g' - 1);
    g := GroupStart(u, c, g' - 1);
    assert u[g].Used?;
    NoGap(u, c, g);
  }
}
