/** Inserting into a layout with `v`/`c` bits: one entry goes in at the end of its group, and the
    rest of the cluster moves one slot to the right. */
module CvInsert {
  import opened Entries
  import opened Layouts
  import opened CvLayout

  /** The slot after moving one to the right: same home, one more away from it. */
  ghost function Moved<V>(x: Slot<V>): Slot<V>
  {
    if x.Used? then x.(disp := x.disp + 1) else Free
  }

  /** Slot `i` of the cut circle after inserting `x` at `g`, where `t` was the next free slot. */
  ghost function InsertedAt<V>(u: seq<Slot<V>>, g: nat, t: nat, x: Slot<V>, i: nat): Slot<V>
    requires g <= t < |u| && i < |u|
  {
    if i == g then x else if g < i <= t then Moved(u[i - 1]) else u[i]
  }

  ghost function Inserted<V>(u: seq<Slot<V>>, g: nat, t: nat, x: Slot<V>): (w: seq<Slot<V>>)
    requires g <= t < |u|
    ensures |w| == |u| && forall i :: 0 <= i < |u| ==> w[i] == InsertedAt(u, g, t, x, i)
  {
    seq(|u|, i requires 0 <= i < |u| => InsertedAt(u, g, t, x, i))
  }

  /** Bits shifted the same way: `c[g..t]` one to the right, and `b` at `g`. */
  ghost predicate ShiftedBits(c: seq<bool>, g: nat, t: nat, b: bool, d: seq<bool>)
    requires g <= t < |c|
  {
    |d| == |c| && forall i :: 0 <= i < |c| ==> d[i] == ShiftedBit(c, g, t, b, i)
  }

  ghost predicate ShiftedBit(c: seq<bool>, g: nat, t: nat, b: bool, i: nat)
    requires g <= t < |c| && i < |c|
  {
    if i == g then b else if g < i <= t then c[i - 1] else c[i]
  }

  /** Where the new entry of home `r` goes: behind the entries with homes up to `r`, in the cluster
      that position `r` is in, whose next free slot is `t`. */
  ghost predicate InsertionPoint<V>(u: seq<Slot<V>>, r: nat, g: nat, t: nat)
  {
    && 0 < r <= g <= t < |u|
    && Run(u, r, t)
    && (forall i :: 0 <= i < g && u[i].Used? ==> Home(u, i) <= r)
    && (forall i :: g <= i < t ==> Home(u, i) > r)
  }

  /** The insertion keeps every neighbour condition, if the new `c` bit says whether the group is new. */
  lemma InsertKeepsLinear<V>(u: seq<Slot<V>>, c: seq<bool>, r: nat, g: nat, t: nat, entry: Entry<V>, d: seq<bool>)
    requires Linear(u, c) && InsertionPoint(u, r, g, t)
    requires ShiftedBits(c, g, t, Homed(u, 0, |u|, r) == [], d)
    ensures Linear(Inserted(u, g, t, Used(g - r, entry)), d)
  {
    var x := Used(g - r, entry);
    var w := Inserted(u, g, t, x);
    NewEntryLinks(u, c, r, g, t);
    forall i | 0 < i < |u| ensures Link(w, d, i) {
      assert Link(u, c, i);
      if i < g {
        assert w[i - 1] == u[i - 1] && w[i] == u[i] && d[i] == c[i];
      } else if i == g {
        assert w[i - 1] == u[i - 1] && w[i] == x;
      } else if i == g + 1 && i <= t {
        assert Link(u, c, g);
        assert u[g].Used? && Home(u, g) > r;
        assert u[g - 1].Used? ==> Home(u, g - 1) <= r;
        assert w[i - 1] == x && w[i] == Moved(u[g]) && d[i] == c[g];
      } else if i <= t {
        assert Link(u, c, i - 1);
        assert u[i - 2].Used?;
        assert w[i - 1] == Moved(u[i - 2]) && w[i] == Moved(u[i - 1]) && d[i] == c[i - 1];
      } else {
        assert w[i] == u[i] && d[i] == c[i];
      }
    }
    assert w[0] == u[0] && d[0] == c[0];
  }

  /** The new entry fits behind slot `g - 1`, and starts a group iff its home had none. */
  lemma NewEntryLinks<V>(u: seq<Slot<V>>, c: seq<bool>, r: nat, g: nat, t: nat)
    requires Linear(u, c) && InsertionPoint(u, r, g, t)
    ensures u[g - 1].Free? ==> g == r
    ensures u[g - 1].Used? ==> g - r <= u[g - 1].disp + 1
    ensures (u[g - 1].Used? && Home(u, g - 1) == r) <==> Homed(u, 0, |u|, r) != []
  {
    if Homed(u, 0, |u|, r) != [] {
      var i := HomedSlot(u, 0, |u|, r, 0);
      NoGap(u, c, i);
      if i >= t {
        HomesOrdered(u, c, t, i);
      }
      if u[g - 1].Used? {
        HomesOrdered(u, c, i, g - 1);
      }
    }
    if u[g - 1].Used? && Home(u, g - 1) == r {
      HomedAt(u, g - 1, r);
    }
  }

  /** The list of a home before the insertion: the free slot contributes nothing. */
  lemma PartsBefore<V>(u: seq<Slot<V>>, g: nat, t: nat, p: nat)
    requires g <= t < |u| && u[t].Free?
    ensures Homed(u, 0, |u|, p) == Homed(u, 0, g, p) + Homed(u, g, t, p) + Homed(u, t + 1, |u|, p)
  {
    HomedAround(u, t, p);
    HomedSplit(u, 0, g, t, p);
  }

  /** The list of a home behind the insertion point, after the insertion. */
  lemma PartsBehind<V>(u: seq<Slot<V>>, g: nat, t: nat, x: Slot<V>, p: nat)
    requires g <= t < |u|
    ensures Homed(Inserted(u, g, t, x), g + 1, |u|, p) == Homed(u, g, t, p) + Homed(u, t + 1, |u|, p)
  {
    var w := Inserted(u, g, t, x);
    HomedSplit(w, g + 1, t + 1, |u|, p);
    MovedSame(u, g, t, w, p);
    assert Homed(w, t + 1, |u|, p) == Homed(u, t + 1, |u|, p) by {
      HomedSame(u, t + 1, |u|, p, w, 0, p);
    }
  }

  /** Moving a stretch one to the right keeps its homes. */
  lemma MovedSame<V>(u: seq<Slot<V>>, g: nat, t: nat, w: seq<Slot<V>>, p: nat)
    requires g <= t < |u| == |w|
    requires forall i :: g < i <= t ==> w[i] == Moved(u[i - 1])
    ensures Homed(w, g + 1, t + 1, p) == Homed(u, g, t, p)
  {
    forall i | g <= i < t ensures Alike(u, i, p, w, 1, p) {
      assert w[i + 1] == Moved(u[i]);
    }
    HomedSame(u, g, t, p, w, 1, p);
  }

  /** The list of a home after the insertion. */
  lemma PartsAfter<V>(u: seq<Slot<V>>, g: nat, t: nat, r: nat, entry: Entry<V>, p: nat)
    requires r <= g <= t < |u|
    ensures Homed(Inserted(u, g, t, Used(g - r, entry)), 0, |u|, p) ==
      Homed(u, 0, g, p) + (if p == r then [entry] else []) + (Homed(u, g, t, p) + Homed(u, t + 1, |u|, p))
  {
    var x := Used(g - r, entry);
    var w := Inserted(u, g, t, x);
    HomedAround(w, g, p);
    HomedSame(u, 0, g, p, w, 0, p);
    PartsBehind(u, g, t, x, p);
    assert HasHome(w[g], g, p) <==> p == r;
    assert Homed(u, 0, g, p) + [] == Homed(u, 0, g, p);
  }

  /** The insertion appends the new entry to the group of its home and changes no other group. */
  lemma InsertAppends<V>(u: seq<Slot<V>>, c: seq<bool>, r: nat, g: nat, t: nat, entry: Entry<V>, p: nat)
    requires Linear(u, c) && InsertionPoint(u, r, g, t)
    ensures Homed(Inserted(u, g, t, Used(g - r, entry)), 0, |u|, p) ==
      Homed(u, 0, |u|, p) + if p == r then [entry] else []
  {
    var before, moved, behind := Homed(u, 0, g, p), Homed(u, g, t, p), Homed(u, t + 1, |u|, p);
    PartsBefore(u, g, t, p);
    PartsAfter(u, g, t, r, entry, p);
    if p == r {
      forall i | g <= i < t ensures !HasHome(u[i], i, r) {
        assert Home(u, i) > r;
      }
      HomedNone(u, g, t, r);
      NothingBehind(u, c, r, t);
    } else {
      Reassociate(before, moved, behind);
    }
  }

  lemma Reassociate<T>(a: seq<T>, b: seq<T>, c: seq<T>)
    ensures (a + b) + c == a + (b + c)
  {
  }

  /** No entry behind the free slot `t` has a home before it. */
  lemma NothingBehind<V>(u: seq<Slot<V>>, c: seq<bool>, r: nat, t: nat)
    requires Linear(u, c) && r <= t < |u| && u[t].Free?
    ensures Homed(u, t + 1, |u|, r) == []
  {
    forall i | t < i < |u| ensures !HasHome(u[i], i, r) {
      if u[i].Used? {
        HomesOrdered(u, c, t, i);
      }
    }
    HomedNone(u, t + 1, |u|, r);
  }

  /** The entries of home `r` are exactly the slots from `gs` up to `ge`. */
  lemma BlockIsGroup<V>(u: seq<Slot<V>>, c: seq<bool>, r: nat, gs: nat, ge: nat, t: nat)
    requires Linear(u, c) && gs <= ge <= t <= |u|
    requires forall i :: 0 <= i < gs && u[i].Used? ==> Home(u, i) < r
    requires forall i :: gs <= i < ge ==> u[i].Used? && Home(u, i) == r
    requires forall i :: ge <= i < t ==> u[i].Used? && Home(u, i) > r
    requires r < t && (t < |u| ==> u[t].Free?)
    ensures |Homed(u, 0, |u|, r)| == ge - gs
    ensures forall k :: 0 <= k < ge - gs ==> Homed(u, 0, |u|, r)[k] == u[gs + k].entry
  {
    HomedSplit(u, 0, gs, |u|, r);
    HomedSplit(u, gs, ge, |u|, r);
    HomedNone(u, 0, gs, r);
    HomedAll(u, gs, ge, r);
    forall i | ge <= i < |u| ensures !HasHome(u[i], i, r) {
      if u[i].Used? && i >= t {
        HomesOrdered(u, c, t, i);
      }
    }
    HomedNone(u, ge, |u|, r);
  }
}
