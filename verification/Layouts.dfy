/** The abstraction both placements share.  A layout gives each table position its entry together
    with the displacement of the entry from its home (initial address).  What a table means is the
    list of entries of every home, in order of displacement: `Groups`. */
module Layouts {
  import opened Entries
  import opened Sizing

  datatype Slot<+V> = Free | Used(disp: nat, entry: Entry<V>)

  // --- Circular positions -------------------------------------------------------------------

  /** The position `i` steps after `e` on a circle of `n` positions. */
  function Pos(e: nat, i: nat, n: nat): (p: nat)
    requires e < n && i <= n
    ensures p < n
  {
    ModAdd(e, i, n)
  }

  /** How many steps after `e` the position `p` comes. */
  function Steps(e: nat, p: nat, n: nat): (i: nat)
    requires e < n && p < n
    ensures i < n && Pos(e, i, n) == p
  {
    ModSub(p, e, n)
  }

  /** `p` is in the circular range `[from, to)`. */
  predicate Between(from: nat, p: nat, to: nat)
  {
    if from <= to then from <= p < to else p >= from || p < to
  }

  /** The circle `s`, read from position `e` on. */
  function Unroll<T>(s: seq<T>, e: nat): (u: seq<T>)
    requires e < |s|
    ensures |u| == |s|
    ensures forall i :: 0 <= i < |s| ==> u[i] == s[Pos(e, i, |s|)]
  {
    seq(|s|, i requires 0 <= i < |s| => s[Pos(e, i, |s|)])
  }

  /** The circle that reads `w` from position `e` on. */
  function Roll<T>(w: seq<T>, e: nat): (s: seq<T>)
    requires e < |w|
    ensures |s| == |w|
    ensures forall p :: 0 <= p < |w| ==> s[p] == w[Steps(e, p, |w|)]
  {
    seq(|w|, p requires 0 <= p < |w| => w[Steps(e, p, |w|)])
  }

  lemma UnrollRoll<T>(w: seq<T>, e: nat)
    requires e < |w|
    ensures Unroll(Roll(w, e), e) == w
  {
  }

  // --- Slots of a table ---------------------------------------------------------------------

  /** What the storage holds for a slot. */
  ghost function EntryOf<V>(x: Slot<V>): Option<Entry<V>>
  {
    if x.Used? then Some(x.entry) else None
  }

  /** The home of the entry in slot `p`. */
  ghost function HomePos<V>(s: seq<Slot<V>>, p: nat): (h: nat)
    requires p < |s| && s[p].Used? && s[p].disp < |s|
    ensures h < |s| && Pos(h, s[p].disp, |s|) == p
  {
    if s[p].disp <= p then p - s[p].disp else p + |s| - s[p].disp
  }

  /** Slot `p` holds `entry`, whose home is `h`. */
  ghost predicate Sits<V>(s: seq<Slot<V>>, p: nat, h: nat, entry: Entry<V>)
  {
    p < |s| && s[p].Used? && s[p].entry == entry && s[p].disp < |s| && HomePos(s, p) == h
  }

  /** The positions that store an entry. */
  ghost function Occupied<T>(slots: seq<Option<T>>): set<nat>
  {
    set p: nat | p < |slots| && slots[p].Some?
  }

  /** The positions below `m`. */
  ghost function Below(m: nat): (b: set<nat>)
    ensures |b| == m
    ensures forall p: nat :: p in b <==> p < m
  {
    if m == 0 then {} else Below(m - 1) + {m - 1}
  }

  /** A table that is not full has a free position. */
  lemma SomeFree<T>(slots: seq<Option<T>>, but: set<nat>) returns (e: nat)
    requires |Occupied(slots)| + |but| < |slots|
    ensures e < |slots| && slots[e].None? && e !in but
  {
    var all := Below(|slots|);
    if all <= Occupied(slots) + but {
      Cardinality(all, Occupied(slots) + but);
      assert false;
    }
    e :| e in all && e !in Occupied(slots) + but;
  }

  lemma {:induction false} Cardinality(a: set<nat>, b: set<nat>)
    requires a <= b
    ensures |a| <= |b|
  {
    if a != {} {
      var x :| x in a;
      Cardinality(a - {x}, b - {x});
    }
  }

  /** With two free positions, the circle can be cut at one of them so that the other one ends the
      cluster that position `ia` is in. */
  lemma ChooseCut<T>(slots: seq<Option<T>>, ia: nat) returns (e: nat)
    requires ia < |slots| && |Occupied(slots)| + 2 <= |slots|
    ensures e < |slots| && slots[e].None? && e != ia
    ensures exists i :: Steps(e, ia, |slots|) <= i < |slots| && slots[Pos(e, i, |slots|)].None?
  {
    var n := |slots|;
    var a := SomeFree(slots, {});
    var b := SomeFree(slots, {a});
    var other: nat;
    if Steps(ia, a, n) > Steps(ia, b, n) {
      e, other := a, b;
    } else {
      e, other := b, a;
    }
    assert Steps(e, ia, n) <= Steps(e, other, n);
    assert Pos(e, Steps(e, other, n), n) == other;
  }

  // --- Groups -------------------------------------------------------------------------------

  /** The entries of `u[lo..hi]` whose home is position `r` of the cut circle, in order. */
  ghost function Homed<V>(u: seq<Slot<V>>, lo: nat, hi: nat, r: int): seq<Entry<V>>
    requires hi <= |u|
    decreases hi
  {
    if lo >= hi then []
    else if HasHome(u[hi - 1], hi - 1, r) then Homed(u, lo, hi - 1, r) + [u[hi - 1].entry]
    else Homed(u, lo, hi - 1, r)
  }

  /** The slot `x`, at position `i`, holds an entry with home `r`. */
  ghost predicate HasHome<V>(x: Slot<V>, i: int, r: int)
  {
    x.Used? && i - x.disp == r
  }

  /** The entries with home `p`, in order of displacement. */
  ghost function Group<V>(s: seq<Slot<V>>, p: nat): seq<Entry<V>>
    requires p < |s|
  {
    Homed(Unroll(s, p), 0, |s|, 0)
  }

  /** What a table stores: for each home, its entries. */
  ghost function Groups<V>(s: seq<Slot<V>>): (g: seq<seq<Entry<V>>>)
    ensures |g| == |s|
    ensures forall p :: 0 <= p < |s| ==> g[p] == Group(s, p)
  {
    seq(|s|, p requires 0 <= p < |s| => Group(s, p))
  }

  /** The index of the first entry with quotient `q`, or -1. */
  ghost function IndexOf<V>(g: seq<Entry<V>>, q: nat): (j: int)
    ensures -1 <= j < |g|
    ensures 0 <= j ==> g[j].quotient == q && forall k :: 0 <= k < j ==> g[k].quotient != q
    ensures j == -1 ==> forall k :: 0 <= k < |g| ==> g[k].quotient != q
  {
    if g == [] then -1
    else if g[0].quotient == q then 0
    else
      var j := IndexOf(g[1..], q);
      assert forall k :: 0 < k < |g| ==> g[k] == g[1..][k - 1];
      if j == -1 then -1 else j + 1
  }

  /** No two entries of a home have the same quotient. */
  ghost predicate Distinct<V>(g: seq<Entry<V>>)
  {
    forall i, j :: 0 <= i < j < |g| ==> g[i].quotient != g[j].quotient
  }

  ghost predicate AllDistinct<V>(g: seq<seq<Entry<V>>>)
  {
    forall h :: 0 <= h < |g| ==> Distinct(g[h])
  }

  /** All quotients stored are below `limit`. */
  ghost predicate Fits<V>(g: seq<seq<Entry<V>>>, limit: nat)
  {
    forall h, j :: 0 <= h < |g| && 0 <= j < |g[h]| ==> g[h][j].quotient < limit
  }

  /** The quotients of a group. */
  ghost function QuotientSet<V>(g: seq<Entry<V>>): (q: set<nat>)
    ensures forall x :: x in q <==> exists j :: 0 <= j < |g| && g[j].quotient == x
  {
    if g == [] then {}
    else
      assert g == g[..|g| - 1] + [g[|g| - 1]];
      QuotientSet(g[..|g| - 1]) + {g[|g| - 1].quotient}
  }

  lemma {:induction false} QuotientCount<V>(g: seq<Entry<V>>)
    requires Distinct(g)
    ensures |QuotientSet(g)| == |g|
  {
    if g != [] {
      QuotientCount(g[..|g| - 1]);
    }
  }

  /** A group has at most as many entries as there are quotients. */
  lemma GroupSize<V>(g: seq<seq<Entry<V>>>, h: nat, limit: nat)
    requires h < |g| && AllDistinct(g) && Fits(g, limit)
    ensures |g[h]| <= limit
  {
    assert Distinct(g[h]);
    QuotientCount(g[h]);
    Cardinality(QuotientSet(g[h]), Below(limit));
  }

  /** In a group without duplicates an entry is found at its own index. */
  lemma IndexOfDistinct<V>(g: seq<Entry<V>>, j: nat)
    requires Distinct(g) && j < |g|
    ensures IndexOf(g, g[j].quotient) == j
  {
  }

  lemma IndexOfAppended<V>(g: seq<Entry<V>>, x: Entry<V>, q: nat)
    ensures IndexOf(g + [x], q) ==
      if IndexOf(g, q) >= 0 then IndexOf(g, q) else if x.quotient == q then |g| else -1
  {
    var j := IndexOf(g + [x], q);
    assert forall k :: 0 <= k < |g| ==> (g + [x])[k] == g[k];
    assert (g + [x])[|g|] == x;
  }

  lemma IndexOfReplaced<V>(g: seq<Entry<V>>, j: nat, val: V, q: nat)
    requires j < |g|
    ensures IndexOf(g[j := Entry(g[j].quotient, val)], q) == IndexOf(g, q)
  {
    var g' := g[j := Entry(g[j].quotient, val)];
    assert forall k :: 0 <= k < |g| ==> g'[k].quotient == g[k].quotient;
  }

  lemma IndexFound<V>(g: seq<Entry<V>>, q: nat, j: nat)
    requires j < |g| && g[j].quotient == q && forall k :: 0 <= k < j ==> g[k].quotient != q
    ensures IndexOf(g, q) == j
  {
  }

  lemma IndexMissing<V>(g: seq<Entry<V>>, q: nat)
    requires forall k :: 0 <= k < |g| ==> g[k].quotient != q
    ensures IndexOf(g, q) == -1
  {
  }

  // --- Lemmas about Homed -------------------------------------------------------------------

  lemma {:induction false} HomedSplit<V>(u: seq<Slot<V>>, lo: nat, m: nat, hi: nat, r: int)
    requires lo <= m <= hi <= |u|
    ensures Homed(u, lo, hi, r) == Homed(u, lo, m, r) + Homed(u, m, hi, r)
    decreases hi
  {
    if m < hi {
      HomedSplit(u, lo, m, hi - 1, r);
    }
  }

  /** Slot `i` of `u` counts for home `r` just as slot `i + k` of `w` counts for home `r'`. */
  ghost predicate Alike<V>(u: seq<Slot<V>>, i: nat, r: int, w: seq<Slot<V>>, k: int, r': int)
    requires i < |u| && 0 <= i + k < |w|
  {
    && (HasHome(u[i], i, r) <==> HasHome(w[i + k], i + k, r'))
    && (HasHome(u[i], i, r) ==> u[i].entry == w[i + k].entry)
  }

  /** Two stretches that list the same entries slot by slot. */
  lemma {:induction false} HomedSame<V>(u: seq<Slot<V>>, lo: nat, hi: nat, r: int, w: seq<Slot<V>>, k: int, r': int)
    requires lo <= hi <= |u| && 0 <= lo + k && hi + k <= |w|
    requires forall i :: lo <= i < hi ==> Alike(u, i, r, w, k, r')
    ensures Homed(u, lo, hi, r) == Homed(w, lo + k, hi + k, r')
    decreases hi
  {
    if lo < hi {
      HomedSame(u, lo, hi - 1, r, w, k, r');
      assert Alike(u, hi - 1, r, w, k, r');
    }
  }

  lemma {:induction false} HomedNone<V>(u: seq<Slot<V>>, lo: nat, hi: nat, r: int)
    requires hi <= |u| && forall i :: lo <= i < hi ==> !HasHome(u[i], i, r)
    ensures Homed(u, lo, hi, r) == []
    decreases hi
  {
    if lo < hi {
      HomedNone(u, lo, hi - 1, r);
    }
  }

  /** A stretch in which every slot has home `r` is listed completely. */
  lemma {:induction false} HomedAll<V>(u: seq<Slot<V>>, lo: nat, hi: nat, r: int)
    requires lo <= hi <= |u| && forall i :: lo <= i < hi ==> HasHome(u[i], i, r)
    ensures |Homed(u, lo, hi, r)| == hi - lo
    ensures forall k :: 0 <= k < hi - lo ==> u[lo + k].Used? && Homed(u, lo, hi, r)[k] == u[lo + k].entry
    decreases hi
  {
    if lo < hi {
      HomedAll(u, lo, hi - 1, r);
      assert HasHome(u[hi - 1], hi - 1, r);
    }
  }

  /** The list of the single slot `i`. */
  lemma HomedOne<V>(u: seq<Slot<V>>, i: nat, r: int)
    requires i < |u|
    ensures Homed(u, i, i + 1, r) == if HasHome(u[i], i, r) then [u[i].entry] else []
  {
    assert Homed(u, i, i, r) == [];
  }

  /** Where a listed entry sits: slot `i` is number `|Homed(u, 0, i, r)|` of its group. */
  lemma HomedAt<V>(u: seq<Slot<V>>, i: nat, r: int)
    requires i < |u| && HasHome(u[i], i, r)
    ensures var k := |Homed(u, 0, i, r)|;
      k < |Homed(u, 0, |u|, r)| && Homed(u, 0, |u|, r)[k] == u[i].entry
  {
    HomedSplit(u, 0, i, |u|, r);
    HomedSplit(u, i, i + 1, |u|, r);
    HomedOne(u, i, r);
  }

  /** The list around slot `i`. */
  lemma HomedAround<V>(u: seq<Slot<V>>, i: nat, r: int)
    requires i < |u|
    ensures HasHome(u[i], i, r) ==>
      Homed(u, 0, |u|, r) == Homed(u, 0, i, r) + [u[i].entry] + Homed(u, i + 1, |u|, r)
    ensures !HasHome(u[i], i, r) ==> Homed(u, 0, |u|, r) == Homed(u, 0, i, r) + Homed(u, i + 1, |u|, r)
  {
    HomedSplit(u, 0, i + 1, |u|, r);
    HomedNext(u, i, r);
  }

  lemma HomedNext<V>(u: seq<Slot<V>>, i: nat, r: int)
    requires i < |u|
    ensures HasHome(u[i], i, r) ==> Homed(u, 0, i + 1, r) == Homed(u, 0, i, r) + [u[i].entry]
    ensures !HasHome(u[i], i, r) ==> Homed(u, 0, i + 1, r) == Homed(u, 0, i, r)
  {
  }

  /** An entry makes the list longer. */
  lemma HomedLonger<V>(u: seq<Slot<V>>, i: nat, j: nat, r: int)
    requires i < j <= |u| && HasHome(u[i], i, r)
    ensures |Homed(u, 0, i, r)| < |Homed(u, 0, j, r)|
  {
  }

  /** Replacing the entry of slot `i` replaces that entry in the group of its home, and no other. */
  lemma HomedUpdate<V>(u: seq<Slot<V>>, i: nat, e: Entry<V>, r: int)
    requires i < |u| && u[i].Used?
    ensures HasHome(u[i], i, r) ==> |Homed(u, 0, i, r)| < |Homed(u, 0, |u|, r)|
    ensures Homed(u[i := Used(u[i].disp, e)], 0, |u|, r) ==
      if HasHome(u[i], i, r) then Homed(u, 0, |u|, r)[|Homed(u, 0, i, r)| := e] else Homed(u, 0, |u|, r)
  {
    var w := u[i := Used(u[i].disp, e)];
    HomedAround(u, i, r);
    HomedAround(w, i, r);
    HomedSame(u, 0, i, r, w, 0, r);
    HomedSame(u, i + 1, |u|, r, w, 0, r);
  }

  /** The entry found at index `k` of a group sits in some slot with that home. */
  lemma {:induction false} HomedSlot<V>(u: seq<Slot<V>>, lo: nat, hi: nat, r: int, k: nat) returns (i: nat)
    requires lo <= hi <= |u| && k < |Homed(u, lo, hi, r)|
    ensures lo <= i < hi && HasHome(u[i], i, r)
    ensures u[i].entry == Homed(u, lo, hi, r)[k] && |Homed(u, lo, i, r)| == k
    decreases hi
  {
    if k < |Homed(u, lo, hi - 1, r)| {
      i := HomedSlot(u, lo, hi - 1, r, k);
    } else {
      i := hi - 1;
    }
  }

  lemma UnrollAgain<T>(s: seq<T>, e: nat, r: nat)
    requires e < |s| && r < |s|
    ensures Unroll(s, Pos(e, r, |s|)) == Unroll(s, e)[r..] + Unroll(s, e)[..r]
  {
  }

  /** Cutting the circle `r` slots later, when no displacement leads back across the cut. */
  lemma HomedRotated<V>(u: seq<Slot<V>>, r: nat, w: seq<Slot<V>>)
    requires r < |u| && w == u[r..] + u[..r]
    requires forall i :: 0 <= i < |u| && u[i].Used? ==> u[i].disp <= i
    ensures Homed(w, 0, |u|, 0) == Homed(u, 0, |u|, r)
  {
    var n, m := |u|, |u| - r;
    calc {
      Homed(w, 0, n, 0);
      { HomedSplit(w, 0, m, n, 0); }
      Homed(w, 0, m, 0) + Homed(w, m, n, 0);
      { HomedNone(w, m, n, 0); }
      Homed(w, 0, m, 0) + [];
      { HomedSame(w, 0, m, 0, u, r, r); }
      [] + Homed(u, r, n, r);
      { HomedNone(u, 0, r, r); }
      Homed(u, 0, r, r) + Homed(u, r, n, r);
      { HomedSplit(u, 0, r, n, r); }
      Homed(u, 0, n, r);
    }
  }

  /** Reading the circle from any position from which no displacement leads back across the cut
      gives the same groups. */
  lemma GroupFrom<V>(s: seq<Slot<V>>, e: nat, r: nat)
    requires e < |s| && r < |s|
    requires forall i :: 0 <= i < |s| && Unroll(s, e)[i].Used? ==> Unroll(s, e)[i].disp <= i
    ensures Group(s, Pos(e, r, |s|)) == Homed(Unroll(s, e), 0, |s|, r)
  {
    UnrollAgain(s, e, r);
    HomedRotated(Unroll(s, e), r, Unroll(s, Pos(e, r, |s|)));
  }

  /** The storage of an entry. */
  lemma SitsStored<V>(s: seq<Slot<V>>, slots: seq<Option<Entry<V>>>, p: nat, h: nat, entry: Entry<V>)
    requires |slots| == |s| && Sits(s, p, h, entry)
    requires forall x :: 0 <= x < |s| ==> slots[x] == EntryOf(s[x])
    ensures p < |s| && h < |s| && slots[p] == Some(entry) && s[p].Used? && s[p].entry == entry
  {
  }

  /** Writing a new value into one entry changes it in the group of its home. */
  lemma GroupsUpdate<V>(s: seq<Slot<V>>, p: nat, h: nat, entry: Entry<V>, val: V)
    requires Sits(s, p, h, entry) && h < |s| && Distinct(Group(s, h))
    ensures 0 <= IndexOf(Group(s, h), entry.quotient)
    ensures Groups(s[p := Used(s[p].disp, Entry(entry.quotient, val))]) ==
      Groups(s)[h := Group(s, h)[IndexOf(Group(s, h), entry.quotient) := Entry(entry.quotient, val)]]
  {
    var e', n := Entry(entry.quotient, val), |s|;
    var s' := s[p := Used(s[p].disp, e')];
    var k := |Homed(Unroll(s, h), 0, s[p].disp, 0)|;
    HomedAt(Unroll(s, h), s[p].disp, 0);
    IndexOfDistinct(Group(s, h), k);
    forall x | 0 <= x < n
      ensures Group(s', x) == if x == h then Group(s, h)[k := e'] else Group(s, x)
    {
      var i := Steps(x, p, n);
      assert Unroll(s', x) == Unroll(s, x)[i := Used(s[p].disp, e')];
      HomedUpdate(Unroll(s, x), i, e', 0);
    }
  }

  // --- Walking over all entries -------------------------------------------------------------

  /** One entry handed out by a walk over the table, with its home. */
  datatype Delivery<+V> = Delivery(home: nat, entry: Entry<V>)

  /** What a walk hands out for home `h`, in order. */
  ghost function DeliveredTo<V>(out: seq<Delivery<V>>, h: nat): seq<Entry<V>>
  {
    if out == [] then []
    else
      var last := out[|out| - 1];
      DeliveredTo(out[..|out| - 1], h) + if last.home == h then [last.entry] else []
  }

  /** No displacement leads back across the cut. */
  ghost predicate Uncrossed<V>(u: seq<Slot<V>>)
  {
    forall i :: 0 <= i < |u| && u[i].Used? ==> u[i].disp <= i
  }

  /** What the walk over the first `k` slots after the cut at `e` hands out. */
  ghost function Walk<V>(u: seq<Slot<V>>, e: nat, k: nat): seq<Delivery<V>>
    requires e < |u| && k <= |u| && Uncrossed(u)
  {
    if k == 0 then []
    else if u[k - 1].Used? then Walk(u, e, k - 1) + [Delivery(Pos(e, k - 1 - u[k - 1].disp, |u|), u[k - 1].entry)]
    else Walk(u, e, k - 1)
  }

  lemma DeliveredNext<V>(out: seq<Delivery<V>>, d: Delivery<V>, h: nat)
    ensures DeliveredTo(out + [d], h) == DeliveredTo(out, h) + if d.home == h then [d.entry] else []
  {
    assert (out + [d])[..|out|] == out;
  }

  /** The walk hands out the entries of every home exactly once, in order. */
  lemma {:induction false} WalkDelivers<V>(u: seq<Slot<V>>, e: nat, k: nat, r: nat)
    requires e < |u| && k <= |u| && r < |u| && Uncrossed(u)
    ensures DeliveredTo(Walk(u, e, k), Pos(e, r, |u|)) == Homed(u, 0, k, r)
  {
    if k > 0 {
      WalkDelivers(u, e, k - 1, r);
      if u[k - 1].Used? {
        var home := k - 1 - u[k - 1].disp;
        DeliveredNext(Walk(u, e, k - 1), Delivery(Pos(e, home, |u|), u[k - 1].entry), Pos(e, r, |u|));
        assert Pos(e, home, |u|) == Pos(e, r, |u|) <==> home == r;
      }
    }
  }

  lemma {:induction false} WalkHomes<V>(u: seq<Slot<V>>, e: nat, k: nat)
    requires e < |u| && k <= |u| && Uncrossed(u)
    ensures forall i :: 0 <= i < |Walk(u, e, k)| ==> Walk(u, e, k)[i].home < |u|
  {
    if k > 0 {
      WalkHomes(u, e, k - 1);
    }
  }

  /** A complete walk hands out exactly the contents of the table. */
  lemma WalkComplete<V>(s: seq<Slot<V>>, e: nat)
    requires e < |s| && Uncrossed(Unroll(s, e))
    ensures forall h :: 0 <= h < |s| ==> DeliveredTo(Walk(Unroll(s, e), e, |s|), h) == Group(s, h)
  {
    forall h | 0 <= h < |s| ensures DeliveredTo(Walk(Unroll(s, e), e, |s|), h) == Group(s, h) {
      WalkDelivers(Unroll(s, e), e, |s|, Steps(e, h, |s|));
      GroupFrom(s, e, Steps(e, h, |s|));
    }
  }

  /** During a draining walk: everything from step `k` on is still stored, and nothing is new. */
  ghost predicate Pending<V>(slots: seq<Option<Entry<V>>>, before: seq<Option<Entry<V>>>, e: nat, k: nat)
    requires e < |before|
  {
    && |slots| == |before|
    && (forall p :: 0 <= p < |slots| ==> slots[p] == before[p] || slots[p].None?)
    && (forall j :: k <= j < |slots| ==> slots[Pos(e, j, |slots|)] == before[Pos(e, j, |slots|)])
  }

  /** Freeing positions between two visited ones loses nothing that is still pending. */
  lemma TrimKeepsPending<V>(slots: seq<Option<Entry<V>>>, before: seq<Option<Entry<V>>>, e: nat, m: nat, k: nat,
      trimmed: seq<Option<Entry<V>>>)
    requires e < |before| && m <= k < |before| && Pending(slots, before, e, k) && |trimmed| == |slots|
    requires forall p :: 0 <= p < |slots| ==>
      trimmed[p] == slots[p] || (trimmed[p].None? && Between(Pos(e, m, |slots|), p, Pos(e, k, |slots|)))
    ensures Pending(trimmed, before, e, k)
  {
  }

  /** The entry to be visited next is still stored. */
  lemma StillThere<V>(slots: seq<Option<Entry<V>>>, before: seq<Option<Entry<V>>>, e: nat, k: nat)
    requires e < |before| && k < |before| && Pending(slots, before, e, k)
    ensures |slots| == |before| && slots[Pos(e, k, |slots|)] == before[Pos(e, k, |slots|)]
  {
  }

  // --- Freeing buckets during a walk --------------------------------------------------------

  /** No position before `pos` in its bucket of 64 positions is occupied. */
  ghost predicate Leads<T>(slots: seq<Option<T>>, pos: nat)
  {
    forall p :: 0 <= p < pos && p < |slots| && p / 64 == pos / 64 ==> slots[p].None?
  }

  /** If both positions lead their buckets, then all buckets from that of `from` up to that of `end` are
      freed, and otherwise nothing happens. */
  ghost predicate Trimmed<T>(slots: seq<Option<T>>, from: nat, end: nat, trimmed: seq<Option<T>>)
  {
    if Leads(slots, from) && Leads(slots, end) then
      && |trimmed| == |slots|
      && forall p :: 0 <= p < |slots| ==>
           trimmed[p] == if Between(from / 64, p / 64, end / 64) then None else slots[p]
    else
      trimmed == slots
  }

  /** The bucket of the position `j` steps after `e`. */
  function BucketOf(e: nat, j: nat, n: nat): int
    requires e < n && j <= n
  {
    Pos(e, j, n) / 64
  }

  /** What a draining walk has left behind before step `k`: nothing was met yet; or `f` was the first step
      with an entry and `l` the last one, only their buckets may still be in use, and the bucket of `l` will
      be freed from step `m` on, unless it is the first one. */
  ghost predicate Trail<T>(slots: seq<Option<T>>, before: seq<Option<T>>, e: nat, k: nat, first: bool, f: nat, l: nat,
      m: nat)
    requires e < |before|
  {
    var n := |before|;
    && |slots| == n && k <= n
    && if first then forall j :: 0 <= j < k ==> before[Pos(e, j, n)].None?
       else
         && f <= m <= l < k && before[Pos(e, f, n)].Some? && before[Pos(e, l, n)].Some?
         && (forall j :: 0 <= j < k && before[Pos(e, j, n)].Some? ==> f <= j <= l)
         && BucketOf(e, m, n) == BucketOf(e, l, n)
         && (BucketOf(e, l, n) != BucketOf(e, f, n) ==> Leads(slots, Pos(e, m, n)))
         && (forall j :: f <= j <= l && slots[Pos(e, j, n)].Some? ==>
               BucketOf(e, j, n) == BucketOf(e, f, n) || BucketOf(e, j, n) == BucketOf(e, l, n))
  }

  lemma TrailStart<T>(before: seq<Option<T>>, e: nat)
    requires e < |before| && before[e].None?
    ensures Trail(before, before, e, 1, true, 0, 0, 0)
  {
    assert Pos(e, 0, |before|) == e;
  }

  /** Passing free positions. */
  lemma TrailFree<T>(slots: seq<Option<T>>, before: seq<Option<T>>, e: nat, k: nat, k': nat, first: bool, f: nat,
      l: nat, m: nat)
    requires e < |before| && k <= k' <= |before| && Trail(slots, before, e, k, first, f, l, m)
    requires forall j :: k <= j < k' ==> before[Pos(e, j, |before|)].None?
    ensures Trail(slots, before, e, k', first, f, l, m)
  {
  }

  /** Visiting an entry, which trims the storage from the last start on, or from here on if it is the first. */
  lemma TrailVisit<V>(slots: seq<Option<Entry<V>>>, before: seq<Option<Entry<V>>>, e: nat, k: nat, first: bool, f: nat,
      l: nat, m: nat, trimmed: seq<Option<Entry<V>>>)
    requires e < |before| && k < |before| && Trail(slots, before, e, k, first, f, l, m) && Pending(slots, before, e, k)
    requires forall p :: 0 <= p < e ==> before[p].Some?
    requires before[Pos(e, k, |before|)].Some? && m <= |before|
    requires Trimmed(slots, Pos(e, if first then k else m, |before|), Pos(e, k, |before|), trimmed)
    ensures Trail(trimmed, before, e, k + 1, false, if first then k else f, k,
      if first || Leads(slots, Pos(e, k, |before|)) then k else m)
  {
    hide Pending, Leads;
    if !first {
      TrailNext(slots, before, e, k, f, l, m, trimmed);
    }
  }

  /** Walking into a bucket, no position below the one reached is occupied. */
  lemma EntersLeading<V>(slots: seq<Option<Entry<V>>>, before: seq<Option<Entry<V>>>, e: nat, k: nat, f: nat, l: nat,
      m: nat)
    requires e < |before| && k < |before| && Trail(slots, before, e, k, false, f, l, m) && Pending(slots, before, e, k)
    requires forall p :: 0 <= p < e ==> before[p].Some?
    requires BucketOf(e, k, |before|) != BucketOf(e, l, |before|)
    ensures Leads(slots, Pos(e, k, |before|))
  {
    var n, end := |before|, Pos(e, k, |before|);
    forall q | 0 <= q < end && q / 64 == end / 64 ensures slots[q].None? {
      assert q == Pos(e, Steps(e, q, n), n);
    }
  }

  /** One more entry: when the walk enters another bucket, the one left behind is freed. */
  lemma TrailNext<V>(slots: seq<Option<Entry<V>>>, before: seq<Option<Entry<V>>>, e: nat, k: nat, f: nat, l: nat,
      m: nat, trimmed: seq<Option<Entry<V>>>)
    requires e < |before| && k < |before| && Trail(slots, before, e, k, false, f, l, m) && Pending(slots, before, e, k)
    requires forall p :: 0 <= p < e ==> before[p].Some?
    requires before[Pos(e, k, |before|)].Some?
    requires Trimmed(slots, Pos(e, m, |before|), Pos(e, k, |before|), trimmed)
    ensures Trail(trimmed, before, e, k + 1, false, f, k, if Leads(slots, Pos(e, k, |before|)) then k else m)
  {
    var n := |before|;
    var from, end := Pos(e, m, n), Pos(e, k, n);
    if BucketOf(e, k, n) != BucketOf(e, l, n) {
      EntersLeading(slots, before, e, k, f, l, m);
      if BucketOf(e, l, n) != BucketOf(e, f, n) {
        assert Between(from / 64, from / 64, end / 64);
      }
    }
  }

  /** After a drain from the first free position `e` on: the entries were handed out in the order of their
      positions around the circle, and only the buckets of the first and of the last one are still in use. */
  ghost predicate Drained<V>(s: seq<Slot<V>>, e: nat, out: seq<Delivery<V>>, after: seq<Option<Entry<V>>>)
  {
    && e < |s| && s[e].Free? && (forall p :: 0 <= p < e ==> s[p].Used?)
    && Uncrossed(Unroll(s, e)) && out == Walk(Unroll(s, e), e, |s|)
    && |after| == |s|
    && ((forall p :: 0 <= p < |s| ==> after[p].None?) || exists f, l :: InTwoBuckets(s, e, f, l, after))
  }

  /** The first entry behind `e` is `f` steps away and the last one `l`; all that is occupied lies in the
      buckets of these two. */
  ghost predicate InTwoBuckets<V>(s: seq<Slot<V>>, e: nat, f: nat, l: nat, after: seq<Option<Entry<V>>>)
    requires e < |s| == |after|
  {
    && f <= l < |s| && s[Pos(e, f, |s|)].Used? && s[Pos(e, l, |s|)].Used?
    && (forall j :: 0 <= j < |s| && s[Pos(e, j, |s|)].Used? ==> f <= j <= l)
    && (forall p :: 0 <= p < |s| && after[p].Some? ==> p / 64 == BucketOf(e, f, |s|) || p / 64 == BucketOf(e, l, |s|))
  }

  lemma TrailEnd<V>(s: seq<Slot<V>>, slots: seq<Option<Entry<V>>>, before: seq<Option<Entry<V>>>, e: nat, first: bool,
      f: nat, l: nat, m: nat)
    requires e < |before| == |s| && Trail(slots, before, e, |s|, first, f, l, m) && Pending(slots, before, e, |s|)
    requires forall p :: 0 <= p < |s| ==> before[p] == EntryOf(s[p])
    ensures |slots| == |s|
    ensures (forall p :: 0 <= p < |s| ==> slots[p].None?) || InTwoBuckets(s, e, f, l, slots)
  {
    var n := |s|;
    forall p | 0 <= p < n && slots[p].Some?
      ensures !first && (p / 64 == BucketOf(e, f, n) || p / 64 == BucketOf(e, l, n)) {
      assert p == Pos(e, Steps(e, p, n), n) && before[p].Some?;
    }
  }
}
