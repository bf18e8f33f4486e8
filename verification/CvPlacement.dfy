/** The placement with two bits per position (`cv_bvs_t`): only quotients are stored, and the home of
    an entry is recovered by matching `v` bits with `c` bits inside a cluster. */
module CvPlacement {
  import opened Bits
  import opened Sizing
  import opened Entries
  import opened Layouts
  import opened CvLayout
  import opened CvInsert
  import opened CvResult
  import opened SparseStorage

  /** A half-open range of the table, the entries of one home, with the next free position. */
  datatype GroupRange = GroupRange(start: nat, end: nat, terminator: nat)

  /** `local_id_to_global_id`: the home in the low bits, the index in the group in the bits above. */
  function GlobalId(capacityLog2: nat, ia: nat, local: nat): nat
  {
    ComposeHashed(capacityLog2, ia, local)
  }

  /** What `SearchExistingGroup` finds on the circle cut open at a free position: `[gs, ge)` is one
      whole group, the last one with a home not behind `r`, and `t` ends the cluster of `r`. */
  ghost predicate Located<V>(u: seq<Slot<V>>, r: nat, gs: nat, ge: nat, t: nat)
  {
    && 0 < gs < ge <= t <= |u|
    && 0 < r < ge
    && Run(u, r, t)
    && Boundary(u, r + 1, ge, t)
    && (forall i :: gs <= i < ge ==> u[i].Used?)
    && (forall i :: gs <= i < ge ==> Home(u, i) == Home(u, gs))
    && (forall i :: 0 <= i < gs && u[i].Used? ==> Home(u, i) < Home(u, gs))
  }

  /** The home of slot `i`, or -1. */
  ghost function HomeOrNone<V>(u: seq<Slot<V>>, i: nat): int
  {
    if i < |u| && u[i].Used? && u[i].disp <= i then Home(u, i) else -1
  }

  /** There is only one such block, so the result of the search is determined. */
  lemma LocatedOnce<V>(u: seq<Slot<V>>, r: nat, gs: nat, ge: nat, t: nat, gs': nat, ge': nat, t': nat)
    requires Uncrossed(u) && Located(u, r, gs, ge, t) && Located(u, r, gs', ge', t')
    ensures gs == gs' && ge == ge' && t == t'
  {
    assert (t < t' ==> HomeOrNone(u, t) >= 0) && (t' < t ==> HomeOrNone(u, t') >= 0);
    assert t == t';
    assert (ge < ge' ==> HomeOrNone(u, ge) > r) && (ge' < ge ==> HomeOrNone(u, ge') > r);
    assert ge == ge';
    assert gs < ge ==> HomeOrNone(u, gs) == HomeOrNone(u, ge - 1);
    assert gs' < ge ==> HomeOrNone(u, gs') == HomeOrNone(u, ge - 1);
  }

  /** The slots while `[.., to)` is moved one to the right: position `i` is the next one to fill. */
  ghost function Shifted<T>(before: seq<T>, i: nat, to: nat): (s: seq<T>)
    ensures |s| == |before|
  {
    seq(|before|, p requires 0 <= p < |before| => before[if i < p < to then p - 1 else p])
  }

  /** `[from, to)` one to the right, and its last element to the front. */
  ghost function Rotated<T>(before: seq<T>, from: nat, to: nat): (s: seq<T>)
    requires from < to <= |before|
    ensures |s| == |before|
  {
    seq(|before|, p requires 0 <= p < |before| =>
      if p == from then before[to - 1] else before[if from < p < to then p - 1 else p])
  }

  /** The `c` bits while the circular range up to `to` is moved one to the right: position `i` is
      the next one to fill. */
  ghost function Slid(before: seq<bool>, i: nat, to: nat): (c: seq<bool>)
    ensures |c| == |before|
  {
    seq(|before|, p requires 0 <= p < |before| =>
      before[Source(i, p, to, |before|)])
  }

  lemma SlideNone(before: seq<bool>, to: nat)
    ensures Slid(before, to, to) == before
  {
  }

  lemma SlideStep(before: seq<bool>, from: nat, i: nat, to: nat)
    requires from < |before| && i < |before| && to < |before| && i != from
    requires i == to || Between(from, i, to)
    ensures var next := ModSub(i, 1, |before|);
      && Steps(from, next, |before|) < Steps(from, i, |before|)
      && Between(from, next, to)
      && Slid(before, i, to)[i := Slid(before, i, to)[next]] == Slid(before, next, to)
  {
  }

  lemma SlideEnd(before: seq<bool>, from: nat, to: nat)
    requires from < |before| && to < |before|
    ensures OpenedBits(before, from, to, Slid(before, from, to)[from := false])
  {
  }

  lemma RangeOccupied<V>(s: seq<Option<Entry<V>>>, from: nat, to: nat)
    requires from < |s| && to < |s| && from != to
    requires forall p :: 0 <= p < |s| && Between(from, p, to) ==> s[p].Some?
    ensures from < to ==> forall p :: from <= p < to ==> s[p].Some?
    ensures to < from ==> forall p :: from <= p < |s| ==> s[p].Some?
    ensures to < from ==> forall p :: 0 <= p < to ==> s[p].Some?
  {
  }

  lemma RotatedSides<V>(s: seq<Option<Entry<V>>>, from: nat, to: nat)
    requires from < to <= |s| && forall p :: from <= p < to ==> s[p].Some?
    ensures forall p :: 0 <= p < from ==> Rotated(s, from, to)[p] == s[p]
    ensures forall p :: to <= p < |s| ==> Rotated(s, from, to)[p] == s[p]
    ensures forall p :: from <= p < to ==> Rotated(s, from, to)[p].Some?
  {
  }

  /** The rotations, the swap of the front entries, and the move of the front entry to the free
      position together open up `from`. */
  lemma OpenedUp<V>(before: seq<Option<Entry<V>>>, from: nat, to: nat, shifted: seq<Option<Entry<V>>>)
    requires from < |before| && to < |before| && from != to && before[to].None?
    requires forall p :: 0 <= p < |before| && Between(from, p, to) ==> before[p].Some?
    requires from < to ==> shifted == Rotated(before, from, to)
    requires to < from && to == 0 ==> shifted == Rotated(before, from, |before|)
    requires to < from && to > 0 ==>
      var twice := Rotated(Rotated(before, from, |before|), 0, to);
      shifted == twice[from := twice[0]][0 := twice[from]]
    ensures |shifted| == |before| && shifted[from].Some? && shifted[to].None?
    ensures OpenedAt(before, from, to, shifted[to := shifted[from]])
  {
  }

  lemma ShiftNone<T>(before: seq<T>, i: nat, to: nat)
    requires to <= i + 1
    ensures Shifted(before, i, to) == before
  {
  }

  lemma ShiftStep<V>(before: seq<Option<Entry<V>>>, i: nat, to: nat)
    requires 0 < i < to <= |before| && before[i - 1].Some? && before[i].Some?
    ensures var s := Shifted(before, i, to);
      && (forall p :: 0 <= p <= i ==> s[p] == before[p])
      && s[i := before[i - 1]] == Shifted(before, i - 1, to)
    ensures forall p :: 0 <= p <= i - 1 ==> Shifted(before, i - 1, to)[p] == before[p]
  {
  }

  lemma ShiftLast<T>(before: seq<T>, from: nat, to: nat)
    requires from < to <= |before|
    ensures Shifted(before, from, to)[from] == before[from]
    ensures Shifted(before, from, to)[from := before[to - 1]] == Rotated(before, from, to)
  {
  }

  class CvBvs<V(0)> {
    const capacityLog2: nat
    const n: nat
    const cv: array<bv2>
    const storage: BucketsBv<V>
    /** The layout: what each position stores, and how far away from its home. */
    ghost var layout: seq<Slot<V>>
    /** The bits of `cv`. */
    ghost var v: seq<bool>
    ghost var c: seq<bool>

    /** `v` and `c` are the bits of `cv`. */
    ghost predicate BitsOk()
      reads this, cv
      ensures BitsOk() ==> |v| == |c| == n && n >= 2
    {
      && n >= 2
      && cv.Length == |v| == |c| == n
      && forall p :: 0 <= p < n ==> v[p] == (cv[p] & 1 != 0) && c[p] == (cv[p] & 2 != 0)
    }

    /** The sizes fit. */
    ghost predicate Sized()
      reads this, storage, storage.buckets, cv
      ensures Sized() ==> BitsOk() && StorageOk() && |layout| == n
    {
      BitsOk() && StorageOk() && |layout| == n
    }

    ghost predicate StorageOk()
      reads this, storage, storage.buckets
      ensures StorageOk() ==> storage.Valid() && storage.n == n && cv as object != storage.buckets as object
    {
      storage.Valid() && storage.n == n && cv as object != storage.buckets as object
    }

    /** The storage holds exactly the entries of the layout. */
    ghost predicate Stored()
      reads this, storage
    {
      && |layout| == |storage.slots|
      && forall p :: 0 <= p < |layout| ==> storage.slots[p] == EntryOf(layout[p])
    }

    ghost predicate Valid()
      reads this, storage, storage.buckets, cv
      ensures Valid() ==> |layout| == |storage.slots| == n >= 2
    {
      && BitsOk() && StorageOk()
      && n == Pow2(capacityLog2)
      && TableOk(layout, storage.slots, c, v)
    }

    /** What the table means. */
    ghost function Contents(): (g: seq<seq<Entry<V>>>)
      reads this
      ensures |g| == |layout|
      ensures forall p :: 0 <= p < |g| ==> g[p] == Group(layout, p)
    {
      Groups(layout)
    }

    /** An empty table. */
    constructor (capacityLog2: nat)
      requires capacityLog2 >= 1
      ensures Valid() && this.capacityLog2 == capacityLog2 && n == Pow2(capacityLog2)
      ensures fresh(storage) && fresh(storage.buckets) && fresh(cv)
      ensures storage.slots == seq(n, _ => None)
      ensures Contents() == seq(n, _ => [])
    {
      var size := Pow2(capacityLog2);
      this.capacityLog2 := capacityLog2;
      this.n := size;
      this.cv := new bv2[size](_ => 0);
      this.storage := new BucketsBv<V>(size);
      this.layout := seq(size, _ => Free);
      this.v, this.c := seq(size, _ => false), seq(size, _ => false);
      new;
      forall p | 0 <= p < n ensures Group(layout, p) == [] {
        HomedNone(Unroll(layout, p), 0, n, 0);
      }
      assert layout[0].Free?;
    }

    method GetV(pos: nat) returns (b: bool)
      requires BitsOk() && pos < n
      ensures b == v[pos]
    {
      b := cv[pos] & 1 != 0;
    }

    method GetC(pos: nat) returns (b: bool)
      requires BitsOk() && pos < n
      ensures b == c[pos]
    {
      b := cv[pos] & 2 != 0;
    }

    method SetV(pos: nat, b: bool)
      requires BitsOk() && pos < n
      modifies cv, this`v
      ensures BitsOk() && v == old(v)[pos := b]
    {
      var x := cv[pos] & 2;
      cv[pos] := x | if b then 1 else 0;
      v := v[pos := b];
    }

    method SetC(pos: nat, b: bool)
      requires BitsOk() && pos < n
      modifies cv, this`c
      ensures BitsOk() && c == old(c)[pos := b]
    {
      var x := cv[pos] & 1;
      cv[pos] := x | if b then 2 else 0;
      c := c[pos := b];
    }

    method SetCV(pos: nat, bits: bv2)
      requires BitsOk() && pos < n
      modifies cv, this`v, this`c
      ensures BitsOk() && v == old(v)[pos := bits & 1 != 0] && c == old(c)[pos := bits & 2 != 0]
    {
      cv[pos] := bits;
      v := v[pos := bits & 1 != 0];
      c := c[pos := bits & 2 != 0];
    }

    /** `search_existing_group`: from a position with its `v` bit set, count `v` bits forward to the
        next free position, then as many `c` bits back.  If the home `ia` has no entries yet (its
        `v` bit was just set), the group found is the one right before the new group. */
    method SearchExistingGroup(ia: nat, ghost e: nat) returns (g: GroupRange, ghost gs: nat, ghost ge: nat,
        ghost t: nat)
      requires Sized() && Stored() && ia < n && e < n
      requires layout[e].Free? && layout[ia].Used? && Chained(layout, c)
      requires v[ia] && forall p :: 0 <= p < n && p != ia ==> (v[p] <==> Group(layout, p) != [])
      ensures Located(Unroll(layout, e), Steps(e, ia, n), gs, ge, t)
      ensures g == GroupRange(Pos(e, gs, n), Pos(e, ge, n), Pos(e, t, n))
    {
      hide *;
      var terminator, vCounter;
      terminator, vCounter, t := CountForward(ia, e);
      gs, ge := LastGroup(layout, c, v, ia, e, t);
      var end := BackToEnd(terminator, vCounter, e, Steps(e, ia, n) + 1, ge, t);
      var start := BackToStart(end, e, gs, ge);
      g := GroupRange(start, end, terminator);
    }

    /** The walk back to the end of the group: until as many `c` bits are passed as there are `v` bits
        behind the home. */
    method BackToEnd(terminator: nat, vCounter: nat, ghost e: nat, ghost r: nat, ghost ge: nat,
        ghost t: nat) returns (cursor: nat)
      requires Sized() && e < n && Linear(Unroll(layout, e), Unroll(c, e))
      requires Boundary(Unroll(layout, e), r, ge, t) && terminator == Pos(e, t, n)
      requires vCounter == 1 + Count(Unroll(c, e), ge, t)
      ensures cursor == Pos(e, ge, n)
    {
      ghost var cu, k := Unroll(c, e), t;
      cursor := terminator;
      var cCounter := vCounter;
      while cCounter != 1
        invariant ge <= k <= t && cursor == Pos(e, k, n)
        invariant cCounter == 1 + Count(cu, ge, k)
        decreases k
      {
        CountNext(cu, ge, k - 1);
        var starts := GetC(ModSub(cursor, 1, n));
        cCounter := cCounter - if starts then 1 else 0;
        cursor := ModSub(cursor, 1, n);
        k := k - 1;
      }
      BoundaryReached(Unroll(layout, e), cu, r, ge, k, t);
    }

    /** The walk further back to the start of the group: to its single `c` bit. */
    method BackToStart(end: nat, ghost e: nat, ghost gs: nat, ghost ge: nat) returns (cursor: nat)
      requires Sized() && e < n && gs < ge <= n && end == Pos(e, ge, n)
      requires Unroll(c, e)[gs] && forall k :: gs < k < ge ==> !Unroll(c, e)[k]
      ensures cursor == Pos(e, gs, n)
    {
      ghost var cu, k := Unroll(c, e), ge;
      cursor := end;
      var cCounter := 1;
      while cCounter != 0
        invariant gs <= k <= ge && cursor == Pos(e, k, n)
        invariant cCounter == if k == gs then 0 else 1
        decreases k
      {
        assert cu[k - 1] == c[Pos(e, k - 1, n)];
        var starts := GetC(ModSub(cursor, 1, n));
        cCounter := cCounter - if starts then 1 else 0;
        cursor := ModSub(cursor, 1, n);
        k := k - 1;
      }
    }

    /** The forward walk of `search_existing_group`: to the next free position, counting `v` bits. */
    method CountForward(ia: nat, ghost e: nat) returns (cursor: nat, vCounter: nat, ghost t: nat)
      requires Sized() && Stored() && ia < n && e < n
      requires layout[e].Free? && layout[ia].Used? && v[ia]
      ensures Steps(e, ia, n) < t <= n && cursor == Pos(e, t, n)
      ensures Run(Unroll(layout, e), Steps(e, ia, n), t)
      ensures vCounter == 1 + Count(Unroll(v, e), Steps(e, ia, n) + 1, t)
    {
      hide Count, Unroll, StorageOk, BitsOk;
      ghost var u, vu, r := Unroll(layout, e), Unroll(v, e), Steps(e, ia, n);
      cursor, vCounter, t := ia, 0, r;
      CountNone(vu, r, r);
      var empty := storage.PosIsEmpty(cursor);
      while !empty
        invariant r <= t <= n && cursor == Pos(e, t, n)
        invariant empty <==> layout[cursor].Free?
        invariant forall j :: r <= j < t ==> u[j].Used?
        invariant vCounter == Count(vu, r, t)
        decreases n - t
      {
        assert t < n && u[t] == layout[cursor] && vu[t] == v[cursor];
        CountNext(vu, r, t);
        var marked := GetV(cursor);
        vCounter := vCounter + if marked then 1 else 0;
        cursor := ModAdd(cursor, 1, n);
        empty := storage.PosIsEmpty(cursor);
        t := t + 1;
      }
      assert u[r] == layout[ia];
      CountFirst(vu, r, t);
    }

    /** `search_in_group`: the first slot of the group with the given quotient. */
    method SearchInGroup(g: GroupRange, q: nat, ghost e: nat, ghost gs: nat, ghost ge: nat) returns (r: EntryRef,
        ghost p: nat)
      requires Sized() && Stored() && e < n && gs <= ge <= n && 0 < gs
      requires g.start == Pos(e, gs, n) && g.end == Pos(e, ge, n)
      requires forall i :: gs <= i < ge ==> Unroll(layout, e)[i].Used?
      ensures r.NotFound? ==> forall i :: gs <= i < ge ==> Unroll(layout, e)[i].entry.quotient != q
      ensures r.Found? ==>
        && r.keyAlreadyExist && gs + r.id < ge && p == Pos(e, gs + r.id, n)
        && Unroll(layout, e)[gs + r.id].entry.quotient == q
        && (forall i :: gs <= i < gs + r.id ==> Unroll(layout, e)[i].entry.quotient != q)
        && r.ptr == PtrOf(storage.bvs, p)
    {
      hide PtrOf, IterAt;
      ghost var u, k := Unroll(layout, e), gs;
      var i := g.start;
      while i != g.end
        invariant gs <= k <= ge && i == Pos(e, k, n)
        invariant forall j :: gs <= j < k ==> u[j].entry.quotient != q
        decreases ge - k
      {
        assert u[k] == layout[i];
        var ptr := storage.At(i);
        var entry := storage.Read(ptr, i);
        if entry.quotient == q {
          r, p := Found(ModSub(i, g.start, n), true, ptr), i;
          return;
        }
        i := ModAdd(i, 1, n);
        k := k + 1;
      }
      r, p := NotFound, 0;
    }

    /** `sparse_shift`: all entries of `[from, to)` one to the right, and the last one to the front. */
    method SparseShift(from: nat, to: nat)
      requires storage.Valid() && from < to <= storage.n
      requires forall p :: from <= p < to ==> storage.slots[p].Some?
      modifies storage.buckets, storage`slots
      ensures storage.Valid()
      ensures storage.slots == Rotated(old(storage.slots), from, to)
    {
      hide *;
      ghost var i := to - 1;
      ghost var before := storage.slots;
      var fromIter := storage.MakeIter(from);
      var src := storage.MakeIter(to - 1);
      var dst := storage.MakeIter(to);
      var last := storage.At(to - 1);
      var tmp := storage.Read(last, to - 1);
      IterDistinct(storage, from, i);
      ShiftNone(before, to - 1, to);
      while src.current != fromIter.current
        invariant from <= i < to && src == IterAt(storage.bvs, i) && dst == IterAt(storage.bvs, i + 1)
        invariant src.current != fromIter.current <==> i != from
        invariant storage.Valid() && storage.slots == Shifted(before, i, to)
        decreases i
      {
        ShiftStep(before, i, to);
        src := storage.Decrement(src, i, i - 1);
        dst := storage.Decrement(dst, i + 1, i);
        IterCurrent(storage.bvs, i - 1);
        IterCurrent(storage.bvs, i);
        var entry := storage.Read(src.current, i - 1);
        storage.Write(dst.current, entry, i);
        i := i - 1;
        IterDistinct(storage, from, i);
      }
      ShiftLast(before, from, to);
      var front := storage.At(from);
      storage.Write(front, tmp, from);
    }

    /** `shift_elements_and_insert`: the entries of the circular range `[from, to)` one to the right,
        leaving an uninitialized entry at `from`.  A range that wraps around is rotated in two parts,
        whose front entries are then swapped. */
    method ShiftElementsAndInsert(from: nat, to: nat) returns (ptr: Ptr)
      requires storage.Valid() && storage.n == n
      requires from < n && to < n && from != to && storage.slots[to].None?
      requires forall p :: 0 <= p < n && Between(from, p, to) ==> storage.slots[p].Some?
      modifies storage.buckets, storage`slots, storage`bvs
      ensures storage.Valid()
      ensures OpenedAt(old(storage.slots), from, to, storage.slots)
      ensures ptr == PtrOf(storage.bvs, from)
    {
      hide *;
      ghost var before := storage.slots;
      RangeOccupied(before, from, to);
      if to < from {
        SparseShift(from, n);
        RotatedSides(before, from, n);
        if to > 0 {
          SparseShift(0, to);
          RotatedSides(Rotated(before, from, n), 0, to);
          SwapEntries(from, 0);
        }
      } else {
        SparseShift(from, to);
        RotatedSides(before, from, to);
      }
      ghost var shifted := storage.slots;
      OpenedUp(before, from, to, shifted);
      var newLoc := storage.AllocatePos(to);
      ptr := storage.At(from);
      var entry := storage.Read(ptr, from);
      storage.Write(newLoc, entry, to);
      assert storage.slots == shifted[to := shifted[from]];
    }

    /** `swap_with`: exchanges the entries of two occupied positions. */
    method SwapEntries(p: nat, q: nat)
      requires storage.Valid() && p < storage.n && q < storage.n
      requires storage.slots[p].Some? && storage.slots[q].Some?
      modifies storage.buckets, storage`slots
      ensures storage.Valid()
      ensures storage.slots == old(storage.slots)[p := old(storage.slots)[q]][q := old(storage.slots)[p]]
    {
      hide *;
      var pPtr := storage.At(p);
      var qPtr := storage.At(q);
      var tmp := storage.Read(pPtr, p);
      var other := storage.Read(qPtr, q);
      storage.Write(pPtr, other, p);
      storage.Write(qPtr, tmp, q);
    }

    /** `shift_groups_and_insert`: moves `c` bits and entries of the circular range `[from, to)` one
        to the right. */
    method ShiftGroupsAndInsert(from: nat, to: nat) returns (ptr: Ptr)
      requires BitsOk() && StorageOk()
      requires from < n && to < n && from != to && storage.slots[to].None?
      requires forall p :: 0 <= p < n && Between(from, p, to) ==> storage.slots[p].Some?
      modifies storage.buckets, storage`slots, storage`bvs, cv, this`c
      ensures BitsOk() && storage.Valid()
      ensures OpenedAt(old(storage.slots), from, to, storage.slots)
      ensures OpenedBits(old(c), from, to, c)
      ensures ptr == PtrOf(storage.bvs, from)
    {
      hide *;
      ghost var before := c;
      var i := to;
      SlideNone(before, to);
      while i != from
        invariant 0 <= i < n && (i == to || Between(from, i, to))
        invariant BitsOk() && storage.Valid() && c == Slid(before, i, to)
        invariant storage.slots == old(storage.slots)
        decreases Steps(from, i, n)
      {
        var next := ModSub(i, 1, n);
        var starts := GetC(next);
        SetC(i, starts);
        SlideStep(before, from, i, to);
        i := next;
      }
      SetC(from, false);
      SlideEnd(before, from, to);
      ptr := ShiftElementsAndInsert(from, to);
    }

    /** `insert_value_after_group`: room for an entry at the end of the group, either in the free
        position there or by moving the groups behind it. */
    method InsertValueAfterGroup(g: GroupRange) returns (ptr: Ptr)
      requires BitsOk() && StorageOk() && g.end < n && g.terminator < n
      requires storage.slots[g.terminator].None? && !c[g.terminator]
      requires forall p :: 0 <= p < n && Between(g.end, p, g.terminator) ==> storage.slots[p].Some?
      modifies storage.buckets, storage`slots, storage`bvs, cv, this`c
      ensures BitsOk() && StorageOk()
      ensures OpenedAt(old(storage.slots), g.end, g.terminator, storage.slots)
      ensures OpenedBits(old(c), g.end, g.terminator, c)
      ensures |c| == n && !c[g.end] && |storage.slots| == n && storage.slots[g.end].Some?
      ensures ptr == PtrOf(storage.bvs, g.end)
    {
      hide PtrOf, IterAt;
      var empty := storage.PosIsEmpty(g.end);
      if empty {
        ptr := storage.AllocatePos(g.end);
      } else {
        ptr := ShiftGroupsAndInsert(g.end, g.terminator);
      }
    }

    /** `lookup_insert`: finds the quotient among the entries of home `ia`, or appends it to them. */
    method LookupInsert(ia: nat, q: nat) returns (r: EntryRef, ghost p: nat)
      requires Valid() && ia < n && |Occupied(storage.slots)| + 2 <= n
      modifies storage.buckets, storage`slots, storage`bvs, cv, this`c, this`v, this`layout
      ensures Valid()
      ensures r.Found? && r.ptr == PtrOf(storage.bvs, p)
      ensures r.keyAlreadyExist <==> IndexOf(old(Contents())[ia], q) >= 0
      ensures r.keyAlreadyExist ==>
        && r.id == GlobalId(capacityLog2, ia, IndexOf(old(Contents())[ia], q))
        && Sits(layout, p, ia, old(Contents())[ia][IndexOf(old(Contents())[ia], q)])
        && layout == old(layout) && storage.slots == old(storage.slots)
      ensures !r.keyAlreadyExist ==>
        && r.id == GlobalId(capacityLog2, ia, |old(Contents())[ia]|)
        && p < n && layout[p].Used? && layout[p].entry.quotient == q
        && Sits(layout, p, ia, layout[p].entry)
        && Contents() == old(Contents())[ia := old(Contents())[ia] + [layout[p].entry]]
        && |Occupied(storage.slots)| == |Occupied(old(storage.slots))| + 1
    {
      hide TableOk, PtrOf, Appended, Occupied, Sits, GlobalId, Group, IndexOf;
      ghost var e := ChooseCut(storage.slots, ia);
      assert old(Contents())[ia] == Group(old(layout), ia);
      var empty := storage.PosIsEmpty(ia);
      if empty {
        r, p := InsertFresh(ia, q, e);
        AppendedContents(old(layout), ia, q, layout, p);
      } else {
        var groupExists := GetV(ia);
        if groupExists {
          r, p := InsertIntoGroup(ia, q, e);
        } else {
          r, p := InsertNewGroup(ia, q, e);
        }
        if !r.keyAlreadyExist {
          AppendedContents(old(layout), ia, q, layout, p);
        }
      }
    }

    /** First case of `lookup_insert`: the home is free, so the entry goes there. */
    method InsertFresh(ia: nat, q: nat, ghost e: nat) returns (r: EntryRef, ghost p: nat)
      requires Valid() && ia < n && storage.slots[ia].None?
      requires e < n && e != ia && storage.slots[e].None?
      modifies storage.buckets, storage`slots, storage`bvs, cv, this`c, this`v, this`layout
      ensures Valid()
      ensures IndexOf(Group(old(layout), ia), q) == -1
      ensures r == Found(GlobalId(capacityLog2, ia, |Group(old(layout), ia)|), false, PtrOf(storage.bvs, p))
      ensures Appended(old(layout), ia, q, layout, p)
      ensures |Occupied(storage.slots)| == |Occupied(old(storage.slots))| + 1
    {
      hide TableOk, PtrOf, InsertionPoint, Unroll, InsertedLayout, OpenedAt, OpenedBits, Appended, Occupied, Sits,
          GlobalId, Group;
      ghost var s, slots, bits, i := layout, storage.slots, c, Steps(e, ia, n);
      FreshPoint(s, slots, c, v, e, ia);
      p := ia;
      var ptr := storage.AllocatePos(ia);
      OpenedInPlace(slots, ia, storage.slots, q);
      storage.SetQuotient(ptr, q, ia);
      SetCV(ia, 3);
      InsertionKeeps(s, slots, bits, old(v), e, ia, i, i, storage.slots[ia].value, storage.slots, bits);
      layout := InsertedLayout(s, e, i, i, i, storage.slots[ia].value);
      InsertionAppended(s, e, ia, i, i, storage.slots[ia].value, layout);
      r := Found(GlobalId(capacityLog2, ia, 0), false, ptr);
    }

    /** Second case of `lookup_insert`: the home has entries; the quotient is one of theirs, or a new
        entry goes in behind them. */
    method InsertIntoGroup(ia: nat, q: nat, ghost e: nat) returns (r: EntryRef, ghost p: nat)
      requires Valid() && ia < n && storage.slots[ia].Some? && v[ia]
      requires e < n && storage.slots[e].None?
      requires exists i :: Steps(e, ia, n) <= i < n && storage.slots[Pos(e, i, n)].None?
      modifies storage.buckets, storage`slots, storage`bvs, cv, this`c, this`v, this`layout
      ensures Valid()
      ensures r.Found? && r.ptr == PtrOf(storage.bvs, p)
      ensures r.keyAlreadyExist <==> IndexOf(Group(old(layout), ia), q) >= 0
      ensures r.keyAlreadyExist ==>
        && r.id == GlobalId(capacityLog2, ia, IndexOf(Group(old(layout), ia), q))
        && Sits(layout, p, ia, Group(old(layout), ia)[IndexOf(Group(old(layout), ia), q)])
        && layout == old(layout) && storage.slots == old(storage.slots)
      ensures !r.keyAlreadyExist ==>
        && r.id == GlobalId(capacityLog2, ia, |Group(old(layout), ia)|)
        && Appended(old(layout), ia, q, layout, p)
        && |Occupied(storage.slots)| == |Occupied(old(storage.slots))| + 1
    {
      hide TableOk, PtrOf, InsertionPoint, Unroll, InsertedLayout, OpenedAt, OpenedBits, Appended, Occupied, Sits,
        GlobalId, Group, Located, IndexOf, Chained, Steps, Pos;
      ghost var s, slots := layout, storage.slots;
      SearchReady(s, slots, c, v, e, ia);
      var g;
      ghost var gs, ge, t;
      g, gs, ge, t := SearchExistingGroup(ia, e);
      GroupLocated(s, slots, c, v, e, ia, gs, ge, t);
      r, p := SearchInGroup(g, q, e, gs, ge);
      if r.Found? {
        IndexFound(Group(s, ia), q, r.id);
        r := Found(GlobalId(capacityLog2, ia, r.id), true, r.ptr);
      } else {
        IndexMissing(Group(s, ia), q);
        p := g.end;
        r := AppendToGroup(g, ia, q, e, gs, ge, t);
      }
    }

    /** The end of the second case: a new entry goes behind the group found. */
    method AppendToGroup(g: GroupRange, ia: nat, q: nat, ghost e: nat, ghost gs: nat, ghost ge: nat, ghost t: nat)
        returns (r: EntryRef)
      requires Valid() && ia < n && e < n && storage.slots[e].None? && v[ia]
      requires exists i :: Steps(e, ia, n) <= i < n && storage.slots[Pos(e, i, n)].None?
      requires Located(Unroll(layout, e), Steps(e, ia, n), gs, ge, t)
      requires g == GroupRange(Pos(e, gs, n), Pos(e, ge, n), Pos(e, t, n))
      requires IndexOf(Group(layout, ia), q) == -1 && ModSub(g.end, g.start, n) == |Group(layout, ia)| > 0
      modifies storage.buckets, storage`slots, storage`bvs, cv, this`c, this`layout
      ensures Valid() && g.end < n
      ensures r == Found(GlobalId(capacityLog2, ia, |Group(old(layout), ia)|), false, PtrOf(storage.bvs, g.end))
      ensures Appended(old(layout), ia, q, layout, g.end)
      ensures |Occupied(storage.slots)| == |Occupied(old(storage.slots))| + 1
    {
      hide TableOk, PtrOf, InsertionPoint, Unroll, InsertedLayout, OpenedAt, OpenedBits, Appended, Occupied, Sits,
        GlobalId, Group, Located, IndexOf, Chained, Steps, Pos;
      ghost var s, slots, bits := layout, storage.slots, c;
      SearchReady(s, slots, c, v, e, ia);
      LocatedPoint(s, slots, c, v, e, ia, gs, ge, t);
      var ptr := InsertValueAfterGroup(g);
      ghost var moved := storage.slots;
      storage.SetQuotient(ptr, q, g.end);
      OpenedUpdate(slots, g.end, g.terminator, moved, storage.slots[g.end]);
      ghost var entry := storage.slots[g.end].value;
      InsertionDone(s, slots, bits, v, e, ia, ge, t, entry, storage.slots, c);
      layout := InsertedLayout(s, e, Steps(e, ia, n), ge, t, entry);
      r := Found(GlobalId(capacityLog2, ia, ModSub(g.end, g.start, n)), false, ptr);
    }

    /** Third case of `lookup_insert`: the home is occupied by entries of other homes.  Its `v` bit is
        set ahead of its entry, which makes the search find the group right before the new one; the
        `c` bit that restores the balance is set last. */
    method InsertNewGroup(ia: nat, q: nat, ghost e: nat) returns (r: EntryRef, ghost p: nat)
      requires Valid() && ia < n && storage.slots[ia].Some? && !v[ia]
      requires e < n && storage.slots[e].None?
      requires exists i :: Steps(e, ia, n) <= i < n && storage.slots[Pos(e, i, n)].None?
      modifies storage.buckets, storage`slots, storage`bvs, cv, this`c, this`v, this`layout
      ensures Valid()
      ensures IndexOf(Group(old(layout), ia), q) == -1
      ensures r == Found(GlobalId(capacityLog2, ia, |Group(old(layout), ia)|), false, PtrOf(storage.bvs, p))
      ensures Appended(old(layout), ia, q, layout, p)
      ensures |Occupied(storage.slots)| == |Occupied(old(storage.slots))| + 1
    {
      hide TableOk, PtrOf, InsertionPoint, Unroll, InsertedLayout, OpenedAt, OpenedBits, Appended, Occupied, Sits,
        GlobalId, Group, Located, IndexOf, Chained, Steps, Pos;
      ghost var s, slots, bits := layout, storage.slots, c;
      SearchReady(s, slots, c, v, e, ia);
      SetV(ia, true);
      var g;
      ghost var gs, ge, t;
      g, gs, ge, t := SearchExistingGroup(ia, e);
      LocatedPoint(s, slots, c, v, e, ia, gs, ge, t);
      p := g.end;
      var ptr := InsertValueAfterGroup(g);
      ghost var moved := storage.slots;
      storage.SetQuotient(ptr, q, p);
      OpenedUpdate(slots, g.end, g.terminator, moved, storage.slots[p]);
      ghost var shifted, entry := c, storage.slots[p].value;
      SetC(g.end, true);
      InsertionDone(s, slots, bits, old(v), e, ia, ge, t, entry, storage.slots, shifted);
      layout := InsertedLayout(s, e, Steps(e, ia, n), ge, t, entry);
      r := Found(GlobalId(capacityLog2, ia, 0), false, ptr);
    }

    /** `search`: the entry of home `ia` with quotient `q`, if there is one. */
    method Search(ia: nat, q: nat) returns (r: EntryRef, ghost p: nat)
      requires Valid() && ia < n
      ensures r.Found? <==> IndexOf(Contents()[ia], q) >= 0
      ensures r.Found? ==>
        && r == Found(GlobalId(capacityLog2, ia, IndexOf(Contents()[ia], q)), true, PtrOf(storage.bvs, p))
        && Sits(layout, p, ia, Contents()[ia][IndexOf(Contents()[ia], q)])
    {
      hide PtrOf, Unroll, Occupied, Sits, GlobalId, Group, Located, IndexOf, Chained, Virgin, Steps, Pos;
      ghost var e :| 0 <= e < n && layout[e].Free?;
      SearchReady(layout, storage.slots, c, v, e, ia);
      var marked := GetV(ia);
      if !marked {
        r, p := NotFound, 0;
      } else {
        MarkedOccupied(layout, storage.slots, c, v, ia);
        var g;
        ghost var gs, ge, t;
        g, gs, ge, t := SearchExistingGroup(ia, e);
        GroupLocated(layout, storage.slots, c, v, e, ia, gs, ge, t);
        r, p := SearchInGroup(g, q, e, gs, ge);
        if r.Found? {
          IndexFound(Group(layout, ia), q, r.id);
          r := Found(GlobalId(capacityLog2, ia, r.id), true, r.ptr);
        } else {
          IndexMissing(Group(layout, ia), q);
        }
      }
    }

    /** The storage holds exactly the entries of the layout, and no home has a quotient twice. */
    lemma Facts()
      requires Valid()
      ensures n == Pow2(capacityLog2) == |storage.slots| && AllDistinct(Contents())
      ensures forall p :: 0 <= p < n ==> storage.slots[p] == EntryOf(layout[p])
    {
      hide Pow2, Group, Distinct, Chained;
      TableStored(layout, storage.slots, c, v);
    }

    lemma Opened()
      requires Valid()
      ensures BitsOk() && StorageOk() && TableOk(layout, storage.slots, c, v)
    {
    }

    /** The index of an entry in its group is never too large for an id: quotients that share a home
        differ, and fit into the bits of a word that the home leaves. */
    lemma LocalFits(ia: nat, local: nat)
      requires Valid() && capacityLog2 <= 64 && Fits(Contents(), Pow2(64 - capacityLog2))
      requires ia < n && local < |Contents()[ia]|
      ensures local < Pow2(64 - capacityLog2)
    {
      hide Pow2, Group, Fits, Chained, Virgin;
      GroupSize(Contents(), ia, Pow2(64 - capacityLog2));
    }

    /** `lookup_id`: the entry whose home and index in its group make up the id. */
    method LookupId(id: nat, ghost ia: nat, ghost local: nat) returns (r: EntryRef, ghost p: nat)
      requires Valid() && ia < n && local < |Contents()[ia]| && id == GlobalId(capacityLog2, ia, local)
      requires capacityLog2 <= 64 && Fits(Contents(), Pow2(64 - capacityLog2))
      ensures r.Found? && r.id == id && r.keyAlreadyExist
      ensures r.ptr == PtrOf(storage.bvs, p)
      ensures Sits(layout, p, ia, Contents()[ia][local])
    {
      hide *;
      Facts();
      LocalFits(ia, local);
      GlobalIdParts(capacityLog2, ia, local);
      var localId := Shr(id, capacityLog2);
      var home := And(id, n - 1);
      var ptr;
      ptr, p := LookupLocal(home, localId);
      r := Found(id, true, ptr);
    }

    /** The entry with the given index in the group of home `ia`. */
    method LookupLocal(ia: nat, local: nat) returns (ptr: Ptr, ghost p: nat)
      requires Valid() && ia < n && local < |Contents()[ia]|
      ensures ptr == PtrOf(storage.bvs, p)
      ensures Sits(layout, p, ia, Contents()[ia][local])
    {
      hide PtrOf, Unroll, Occupied, Sits, Group, Located, IndexOf, Chained, Steps, Virgin;
      ghost var e :| 0 <= e < n && layout[e].Free?;
      MarkedOccupied(layout, storage.slots, c, v, ia);
      SearchReady(layout, storage.slots, c, v, e, ia);
      var g;
      ghost var gs, ge, t;
      g, gs, ge, t := SearchExistingGroup(ia, e);
      GroupLocated(layout, storage.slots, c, v, e, ia, gs, ge, t);
      var position := ModAdd(g.start, local, n);
      p := position;
      PositionOf(e, gs, local, ge, n);
      SitsStored(layout, storage.slots, p, ia, Group(layout, ia)[local]);
      ptr := storage.At(position);
    }

    /** `set_val` through the pointer of an entry: the value changes in the group of its home. */
    method SetValue(ptr: Ptr, val: V, ghost p: nat, ghost h: nat, ghost entry: Entry<V>)
      requires Valid() && Sits(layout, p, h, entry) && ptr == PtrOf(storage.bvs, p)
      modifies storage.buckets, storage`slots, this`layout
      ensures Valid()
      ensures h < n && 0 <= IndexOf(old(Contents())[h], entry.quotient)
      ensures Contents() == old(Contents())[h :=
        old(Contents())[h][IndexOf(old(Contents())[h], entry.quotient) := Entry(entry.quotient, val)]]
      ensures layout == old(layout)[p := Used(old(layout)[p].disp, Entry(entry.quotient, val))]
      ensures Occupied(storage.slots) == Occupied(old(storage.slots))
    {
      hide PtrOf, TableOk;
      ghost var s, slots := layout, storage.slots;
      TableStored(s, slots, c, v);
      SitsStored(s, slots, p, h, entry);
      storage.SetValue(ptr, val, p);
      layout := s[p := Used(s[p].disp, Entry(entry.quotient, val))];
      ValueUpdate(s, slots, c, v, p, h, entry, val);
    }

    /** `drain_all` over `for_all_allocated`: walks around the circle from the first empty position,
        recovers each home by pairing the next `c` bit with the next `v` bit, frees the buckets left
        behind, and hands out every entry. */
    method DrainAll() returns (out: seq<Delivery<V>>)
      requires Valid()
      modifies storage.buckets, storage`slots, storage`bvs
      ensures forall h :: 0 <= h < n ==> DeliveredTo(out, h) == old(Contents())[h]
      ensures forall i :: 0 <= i < |out| ==> out[i].home < n
      ensures exists e :: Drained(layout, e, out, storage.slots)
    {
      hide *;
      ghost var before := storage.slots;
      Opened();
      TableFree(layout, before, c, v);
      var originalStart := storage.FirstEmpty();
      ghost var e := originalStart;
      var initialAddress: nat, i: nat := originalStart, ModAdd(originalStart, 1, n);
      var first, drainStart := true, originalStart;
      ghost var k: nat, m: nat, f: nat, l: nat := 1, 0, 0, 0;
      out := [];
      WalkStart(layout, before, c, v, e);
      TrailStart(before, e);
      while true
        invariant m <= k <= n && drainStart == Pos(e, m, n)
        invariant BitsOk() && StorageOk() && Walking(layout, before, storage.slots, e, k, i, initialAddress, out)
        invariant Trail(storage.slots, before, e, k, first, f, l, m)
        decreases n - k
      {
        var done;
        ghost var k0 := k;
        i, initialAddress, done, k := SkipFree(originalStart, before, k, i, initialAddress, out);
        TrailFree(storage.slots, before, e, k0, k, first, f, l, m);
        if done {
          WalkDone(layout, before, c, v, storage.slots, e, i, initialAddress, out);
          WalkDrained(layout, before, c, v, storage.slots, e, i, initialAddress, out, first, f, l, m);
          return;
        }
        WalkBounds(layout, before, storage.slots, e, k, i, initialAddress, out);
        ghost var pending, from := storage.slots, m;
        var entry;
        initialAddress, entry, drainStart, m :=
          HandOut(initialAddress, if first then i else drainStart, i, before, e, if first then k else m, k, out);
        TrailVisit(pending, before, e, k, first, f, l, from, storage.slots);
        f, l := if first then k else f, k;
        first := false;
        out := out + [Delivery(initialAddress, entry)];
        i := ModAdd(i, 1, n);
        k := k + 1;
      }
    }

    /** One entry of the walk: at the start of a group the next `v` bit tells its home. */
    method HandOut(initialAddress: nat, drainStart: nat, i: nat, ghost before: seq<Option<Entry<V>>>,
                   ghost e: nat, ghost m: nat, ghost k: nat, ghost out: seq<Delivery<V>>)
      returns (home: nat, entry: Entry<V>, start: nat, ghost m': nat)
      requires BitsOk() && StorageOk() && TableOk(layout, before, c, v) && |layout| == n && e < n && before[e].None?
      requires Walking(layout, before, storage.slots, e, k, i, initialAddress, out)
      requires i < n && storage.slots[i].Some? && m <= k <= n && drainStart == Pos(e, m, n)
      modifies storage.buckets, storage`slots, storage`bvs
      ensures StorageOk() && k < n && before[i].Some?
      ensures m' == (if Leads(old(storage.slots), i) then k else m) && start == Pos(e, m', n)
      ensures Trimmed(old(storage.slots), drainStart, i, storage.slots)
      ensures Walking(layout, before, storage.slots, e, k + 1, ModAdd(i, 1, n), home, out + [Delivery(home, entry)])
    {
      hide PtrOf, TableOk, Walking, AtEntry, Pending, Pos, BitsOk, Unroll, Leads, Trimmed;
      ghost var a, h := WalkUsed(layout, before, c, v, storage.slots, e, k, i, initialAddress, out);
      home := initialAddress;
      var starts := GetC(i);
      if starts {
        home := NextHome(initialAddress, e, a, h);
      }
      start, entry, m' := storage.Visit(drainStart, i, before, e, m, k);
      WalkStep(layout, before, c, v, storage.slots, e, k, i, h, out);
    }

    /** The inner loop of the walk: past free positions, to the next entry or back to the start. */
    method SkipFree(e: nat, ghost before: seq<Option<Entry<V>>>, ghost k: nat, start: nat, ia: nat,
        ghost out: seq<Delivery<V>>)
      returns (i: nat, initialAddress: nat, done: bool, ghost k': nat)
      requires StorageOk() && e < n && TableOk(layout, before, c, v) && |layout| == n && before[e].None?
      requires Walking(layout, before, storage.slots, e, k, start, ia, out)
      ensures k <= k' <= n && i < n
      ensures Walking(layout, before, storage.slots, e, k', i, initialAddress, out)
      ensures forall j :: k <= j < k' ==> before[Pos(e, j, n)].None?
      ensures done ==> k' == n
      ensures !done ==> i < |storage.slots| && storage.slots[i].Some?
    {
      hide PtrOf, TableOk, Walking;
      WalkBounds(layout, before, storage.slots, e, k, start, ia, out);
      i, initialAddress, k' := start, ia, k;
      var empty := storage.PosIsEmpty(i);
      while empty
        invariant k <= k' <= n && i < n && Walking(layout, before, storage.slots, e, k', i, initialAddress, out)
        invariant forall j :: k <= j < k' ==> before[Pos(e, j, n)].None?
        invariant empty <==> storage.slots[i].None?
        decreases n - k'
      {
        WalkFree(layout, before, c, v, storage.slots, e, k', i, initialAddress, out);
        if i == e {
          done := true;
          return;
        }
        initialAddress := i;
        i := ModAdd(i, 1, n);
        k' := k' + 1;
        empty := storage.PosIsEmpty(i);
      }
      done := false;
    }

    /** From one home to the next one that has entries: along the `v` bits. */
    method NextHome(initialAddress: nat, ghost e: nat, ghost a: nat, ghost h: nat) returns (home: nat)
      requires BitsOk() && e < n && a < h < n && initialAddress == Pos(e, a, n)
      requires v[Pos(e, h, n)] && forall x :: a < x < h ==> !v[Pos(e, x, n)]
      ensures home == Pos(e, h, n)
    {
      home := ModAdd(initialAddress, 1, n);
      ghost var x := a + 1;
      var marked := GetV(home);
      while !marked
        invariant a < x <= h && home == Pos(e, x, n) && marked == v[home]
        decreases h - x
      {
        home := ModAdd(home, 1, n);
        x := x + 1;
        marked := GetV(home);
      }
    }
  }

  /** `entry`, at position `p`, is the new last entry of home `ia`. */
  ghost predicate Appended<V>(before: seq<Slot<V>>, ia: nat, q: nat, after: seq<Slot<V>>, p: nat)
  {
    && |after| == |before| && ia < |before| && p < |after|
    && after[p].Used? && after[p].entry.quotient == q
    && Sits(after, p, ia, after[p].entry)
    && Groups(after) == Groups(before)[ia := Group(before, ia) + [after[p].entry]]
  }

  /** The `v` bits behind `ia` count the groups with homes behind `ia`. */
  lemma CountedBoundary<V>(s: seq<Slot<V>>, c: seq<bool>, v: seq<bool>, ia: nat, e: nat, t: nat) returns (g: nat)
    requires Chained(s, c) && |v| == |s| && ia < |s| && e < |s| && s[e].Free?
    requires forall p :: 0 <= p < |s| && p != ia ==> (v[p] <==> Group(s, p) != [])
    requires 0 < Steps(e, ia, |s|) < t && Run(Unroll(s, e), Steps(e, ia, |s|), t)
    ensures Boundary(Unroll(s, e), Steps(e, ia, |s|) + 1, g, t)
    ensures Count(Unroll(v, e), Steps(e, ia, |s|) + 1, t) == Count(Unroll(c, e), g, t)
  {
    var n, u, vu, r := |s|, Unroll(s, e), Unroll(v, e), Steps(e, ia, |s|);
    ToLinear(s, c, e);
    forall p | r + 1 <= p < t ensures vu[p] <==> Homed(u, 0, |u|, p) != [] {
      GroupOnCut(s, c, e, p);
      assert Steps(e, Pos(e, p, n), n) == p;
    }
    g := BitsMatch(u, Unroll(c, e), vu, r + 1, t);
  }

  /** A free home has no entries, and is itself where its first entry goes. */
  lemma FreshPoint<V>(s: seq<Slot<V>>, slots: seq<Option<Entry<V>>>, c: seq<bool>, v: seq<bool>, e: nat, ia: nat)
    requires TableOk(s, slots, c, v) && e < |s| && ia < |s| && e != ia && slots[e].None? && slots[ia].None?
    ensures s[e].Free? && 0 < Steps(e, ia, |s|) < |s|
    ensures InsertionPoint(Unroll(s, e), Steps(e, ia, |s|), Steps(e, ia, |s|), Steps(e, ia, |s|))
    ensures Group(s, ia) == [] && OpenedBits(c, ia, ia, c)
  {
    var r, u := Steps(e, ia, |s|), Unroll(s, e);
    ToLinear(s, c, e);
    NoGaps(u, Unroll(c, e));
    GroupOnCut(s, c, e, r);
    assert u[r] == s[ia];
    if Homed(u, 0, |u|, r) != [] {
      var i := HomedSlot(u, 0, |u|, r, 0);
      HomesOrdered(u, Unroll(c, e), r, i);
    }
  }

  /** Taking an empty position opens it up without moving anything. */
  lemma OpenedInPlace<V>(slots: seq<Option<Entry<V>>>, ia: nat, taken: seq<Option<Entry<V>>>, q: nat)
    requires ia < |slots| && slots[ia].None? && |taken| == |slots|
    requires taken[ia].Some? && taken == slots[ia := taken[ia]]
    ensures OpenedAt(slots, ia, ia, taken[ia := Some(Entry(q, taken[ia].value.value))])
  {
  }

  /** Writing to the opened position leaves it opened. */
  lemma OpenedUpdate<V>(slots: seq<Option<Entry<V>>>, from: nat, to: nat, moved: seq<Option<Entry<V>>>,
      x: Option<Entry<V>>)
    requires OpenedAt(slots, from, to, moved) && x.Some?
    ensures OpenedAt(slots, from, to, moved[from := x])
  {
  }

  /** What `SearchExistingGroup` needs of a valid table. */
  lemma SearchReady<V>(s: seq<Slot<V>>, slots: seq<Option<Entry<V>>>, c: seq<bool>, v: seq<bool>, e: nat, ia: nat)
    requires TableOk(s, slots, c, v) && e < |s| && ia < |s| && slots[e].None?
    ensures forall p :: 0 <= p < |s| ==> slots[p] == EntryOf(s[p])
    ensures s[e].Free? && (s[ia].Used? <==> slots[ia].Some?) && Chained(s, c)
    ensures forall p :: 0 <= p < |s| ==> (v[p] <==> Group(s, p) != [])
  {
  }

  /** For a home with entries, the block located is its group. */
  lemma GroupLocated<V>(s: seq<Slot<V>>, slots: seq<Option<Entry<V>>>, c: seq<bool>, v: seq<bool>, e: nat, ia: nat,
      gs: nat, ge: nat, t: nat)
    requires TableOk(s, slots, c, v) && e < |s| && ia < |s| && slots[e].None? && v[ia]
    requires Located(Unroll(s, e), Steps(e, ia, |s|), gs, ge, t)
    ensures 0 < gs < ge <= t <= |s| && |Group(s, ia)| == ge - gs
    ensures ModSub(Pos(e, ge, |s|), Pos(e, gs, |s|), |s|) == ge - gs
    ensures forall i :: gs <= i < ge ==> Unroll(s, e)[i].Used? && Unroll(s, e)[i].entry == Group(s, ia)[i - gs]
    ensures forall k :: 0 <= k < ge - gs ==> Sits(s, Pos(e, gs + k, |s|), ia, Group(s, ia)[k])
  {
    hide Group, TableOk, Chained, Linear, Homed, Sits, Unroll;
    SearchReady(s, slots, c, v, e, ia);
    var u, r := Unroll(s, e), Steps(e, ia, |s|);
    ToLinear(s, c, e);
    GroupOnCut(s, c, e, r);
    LocatedHome(u, Unroll(c, e), r, gs, ge, t);
    BlockIsGroup(u, Unroll(c, e), r, gs, ge, t);
    forall k | 0 <= k < ge - gs ensures Sits(s, Pos(e, gs + k, |s|), ia, Group(s, ia)[k]) {
      assert u[gs + k].Used? && Home(u, gs + k) == r;
      SitsOnCut(s, c, e, ia, gs + k);
    }
  }

  lemma SitsOnCut<V>(s: seq<Slot<V>>, c: seq<bool>, e: nat, ia: nat, i: nat)
    requires |c| == |s| && e < |s| && ia < |s| && i < |s| && Linear(Unroll(s, e), Unroll(c, e))
    requires Unroll(s, e)[i].Used? && Home(Unroll(s, e), i) == Steps(e, ia, |s|)
    ensures Sits(s, Pos(e, i, |s|), ia, Unroll(s, e)[i].entry)
  {
    NoGap(Unroll(s, e), Unroll(c, e), i);
  }

  /** If home `r` has entries, they form the last group with a home not behind `r`. */
  lemma LocatedHome<V>(u: seq<Slot<V>>, c: seq<bool>, r: nat, gs: nat, ge: nat, t: nat)
    requires Linear(u, c) && Located(u, r, gs, ge, t) && Homed(u, 0, |u|, r) != []
    ensures Home(u, gs) == r
  {
    var i := HomedSlot(u, 0, |u|, r, 0);
    if i >= t {
      HomesOrdered(u, c, t, i);
    }
    assert i < ge;
    HomesOrdered(u, c, i, ge - 1);
    assert Home(u, ge - 1) == Home(u, gs);
  }

  /** The end of the block located is where an entry of home `ia` goes. */
  lemma LocatedPoint<V>(s: seq<Slot<V>>, slots: seq<Option<Entry<V>>>, c: seq<bool>, v: seq<bool>, e: nat, ia: nat,
      gs: nat, ge: nat, t: nat)
    requires |slots| == |s| && forall p :: 0 <= p < |s| ==> slots[p] == EntryOf(s[p])
    requires Chained(s, c) && e < |s| && ia < |s| && slots[e].None?
    requires exists i :: Steps(e, ia, |s|) <= i < |s| && slots[Pos(e, i, |s|)].None?
    requires Located(Unroll(s, e), Steps(e, ia, |s|), gs, ge, t)
    ensures t < |s| && InsertionPoint(Unroll(s, e), Steps(e, ia, |s|), ge, t)
    ensures slots[Pos(e, t, |s|)].None? && !c[Pos(e, t, |s|)]
    ensures forall p :: 0 <= p < |s| && Between(Pos(e, ge, |s|), p, Pos(e, t, |s|)) ==> slots[p].Some?
  {
    var n, u, r := |s|, Unroll(s, e), Steps(e, ia, |s|);
    ToLinear(s, c, e);
    var i :| r <= i < n && slots[Pos(e, i, n)].None?;
    assert u[i] == s[Pos(e, i, n)];
    assert t < n;
    assert u[t] == s[Pos(e, t, n)] && Unroll(c, e)[t] == c[Pos(e, t, n)];
    assert Link(u, Unroll(c, e), t);
    forall p | 0 <= p < n && Between(Pos(e, ge, n), p, Pos(e, t, n)) ensures slots[p].Some? {
      var j := Steps(e, p, n);
      assert ge <= j < t;
      assert u[j] == s[p];
    }
  }

  /** The end of an insertion: the table is whole again, and has one more entry. */
  lemma InsertionDone<V>(s: seq<Slot<V>>, slots: seq<Option<Entry<V>>>, c: seq<bool>, v: seq<bool>, e: nat, ia: nat,
      g: nat, t: nat, entry: Entry<V>, slots': seq<Option<Entry<V>>>, shifted: seq<bool>)
    requires TableOk(s, slots, c, v) && e < |s| && ia < |s| && s[e].Free?
    requires InsertionPoint(Unroll(s, e), Steps(e, ia, |s|), g, t)
    requires OpenedAt(slots, Pos(e, g, |s|), Pos(e, t, |s|), slots') && slots'[Pos(e, g, |s|)] == Some(entry)
    requires OpenedBits(c, Pos(e, g, |s|), Pos(e, t, |s|), shifted)
    requires IndexOf(Group(s, ia), entry.quotient) == -1
    ensures var s', p := InsertedLayout(s, e, Steps(e, ia, |s|), g, t, entry), Pos(e, g, |s|);
      && TableOk(s', slots', shifted[p := Group(s, ia) == []], v[ia := true])
      && (v[ia] && shifted[p] == (Group(s, ia) == []) ==> TableOk(s', slots', shifted, v))
      && Appended(s, ia, entry.quotient, s', p)
    ensures |Occupied(slots')| == |Occupied(slots)| + 1
  {
    hide TableOk, Unroll, InsertedLayout, OpenedAt, Appended, Occupied, Sits, Group, IndexOf, Steps, Pos;
    var s', p := InsertedLayout(s, e, Steps(e, ia, |s|), g, t, entry), Pos(e, g, |s|);
    InsertionKeeps(s, slots, c, v, e, ia, g, t, entry, slots', shifted);
    InsertionAppended(s, e, ia, g, t, entry, s');
    assert v[ia] ==> v[ia := true] == v;
    assert shifted[p] == (Group(s, ia) == []) ==> shifted[p := Group(s, ia) == []] == shifted;
  }

  /** The result of an insertion, as its caller sees it. */
  lemma InsertionAppended<V>(s: seq<Slot<V>>, e: nat, ia: nat, g: nat, t: nat, entry: Entry<V>, s': seq<Slot<V>>)
    requires e < |s| && ia < |s| && Steps(e, ia, |s|) <= g <= t < |s| && |s'| == |s|
    requires Groups(s') == Groups(s)[ia := Group(s, ia) + [entry]]
    requires s'[Pos(e, g, |s|)] == Used(g - Steps(e, ia, |s|), entry)
    ensures Appended(s, ia, entry.quotient, s', Pos(e, g, |s|))
  {
  }

  lemma AppendedContents<V>(before: seq<Slot<V>>, ia: nat, q: nat, after: seq<Slot<V>>, p: nat)
    requires Appended(before, ia, q, after, p)
    ensures p < |after| && after[p].Used? && after[p].entry.quotient == q && Sits(after, p, ia, after[p].entry)
    ensures ia < |before| && Groups(after) == Groups(before)[ia := Groups(before)[ia] + [after[p].entry]]
  {
  }

  /** A home with entries is occupied. */
  lemma MarkedOccupied<V>(s: seq<Slot<V>>, slots: seq<Option<Entry<V>>>, c: seq<bool>, v: seq<bool>, ia: nat)
    requires TableOk(s, slots, c, v) && ia < |s| && Group(s, ia) != []
    ensures v[ia] && slots[ia].Some?
  {
    var e :| 0 <= e < |s| && s[e].Free?;
    var r, u := Steps(e, ia, |s|), Unroll(s, e);
    ToLinear(s, c, e);
    GroupOnCut(s, c, e, r);
    var i := HomedSlot(u, 0, |u|, r, 0);
    NoGap(u, Unroll(c, e), i);
    assert u[r] == s[ia];
  }

  lemma TableStored<V>(s: seq<Slot<V>>, slots: seq<Option<Entry<V>>>, c: seq<bool>, v: seq<bool>)
    requires TableOk(s, slots, c, v)
    ensures forall x :: 0 <= x < |s| ==> slots[x] == EntryOf(s[x])
  {
  }

  lemma PositionOf(e: nat, gs: nat, local: nat, ge: nat, n: nat)
    requires e < n && gs + local < ge <= n
    ensures ModAdd(Pos(e, gs, n), local, n) == Pos(e, gs + local, n)
  {
  }

  /** Writing a new value into one entry. */
  lemma ValueUpdate<V>(s: seq<Slot<V>>, slots: seq<Option<Entry<V>>>, c: seq<bool>, v: seq<bool>, p: nat, h: nat,
      entry: Entry<V>, val: V)
    requires TableOk(s, slots, c, v) && Sits(s, p, h, entry)
    ensures h < |s| && 0 <= IndexOf(Group(s, h), entry.quotient)
    ensures var s' := s[p := Used(s[p].disp, Entry(entry.quotient, val))];
      && TableOk(s', slots[p := Some(Entry(entry.quotient, val))], c, v)
      && Groups(s') == Groups(s)[h := Group(s, h)[IndexOf(Group(s, h), entry.quotient) := Entry(entry.quotient, val)]]
    ensures Occupied(slots[p := Some(Entry(entry.quotient, val))]) == Occupied(slots)
  {
    var e' := Entry(entry.quotient, val);
    var s' := s[p := Used(s[p].disp, e')];
    GroupsUpdate(s, p, h, entry, val);
    forall i | 0 <= i < |s|
      ensures Follows(s'[Prev(i, |s|)], s'[i]) && (c[i] <==> Starts(s'[Prev(i, |s|)], s'[i]))
    {
      assert Follows(s[Prev(i, |s|)], s[i]) && (c[i] <==> Starts(s[Prev(i, |s|)], s[i]));
    }
    forall x | 0 <= x < |s| ensures (v[x] <==> Group(s', x) != []) && Distinct(Group(s', x)) {
      assert Groups(s')[x] == Group(s', x) && Groups(s)[x] == Group(s, x);
    }
    var e :| 0 <= e < |s| && s[e].Free?;
    assert s'[e].Free?;
  }

  /** Home and index can be read off an id: no bit of the index is shifted out. */
  lemma GlobalIdParts(k: nat, ia: nat, local: nat)
    requires k <= 64 && ia < Pow2(k) && local < Pow2(64 - k)
    ensures Shr(GlobalId(k, ia, local), k) == local
    ensures And(GlobalId(k, ia, local), Pow2(k) - 1) == ia
  {
    hide Pow2, And, ComposeHashed;
    ComposeDecompose(k, 64, ia, local);
  }

  // --- The draining walk --------------------------------------------------------------------

  /** The home that the walk has reached before slot `k`. */
  ghost function Reached<V>(u: seq<Slot<V>>, k: nat): int
    requires 0 < k <= |u|
  {
    if u[k - 1].Used? then Home(u, k - 1) else k - 1
  }

  /** The state of the draining walk before step `k`: at position `i`, having reached home `ia`, and
      having handed out `out`. */
  ghost predicate Walking<V>(s: seq<Slot<V>>, before: seq<Option<Entry<V>>>, slots: seq<Option<Entry<V>>>,
                             e: nat, k: nat, i: nat, ia: nat, out: seq<Delivery<V>>)
  {
    && e < |s| == |before| && 0 < k <= |s|
    && Uncrossed(Unroll(s, e))
    && i == Pos(e, k, |s|)
    && Pending(slots, before, e, k)
    && 0 <= Reached(Unroll(s, e), k) < |s| && ia == Pos(e, Reached(Unroll(s, e), k), |s|)
    && out == Walk(Unroll(s, e), e, k)
  }

  lemma WalkBounds<V>(s: seq<Slot<V>>, before: seq<Option<Entry<V>>>, slots: seq<Option<Entry<V>>>,
                      e: nat, k: nat, i: nat, ia: nat, out: seq<Delivery<V>>)
    requires Walking(s, before, slots, e, k, i, ia, out)
    ensures k <= |s| && i < |s| && |slots| == |s| == |before| && i == Pos(e, k, |s|)
    ensures e < |before| && Pending(slots, before, e, k)
  {
  }

  lemma TableFree<V>(s: seq<Slot<V>>, slots: seq<Option<Entry<V>>>, c: seq<bool>, v: seq<bool>)
    requires TableOk(s, slots, c, v)
    ensures exists p :: 0 <= p < |slots| && slots[p].None?
  {
  }

  lemma CutUncrossed<V>(s: seq<Slot<V>>, slots: seq<Option<Entry<V>>>, c: seq<bool>, v: seq<bool>, e: nat)
    requires TableOk(s, slots, c, v) && e < |s| && slots[e].None?
    ensures Uncrossed(Unroll(s, e)) && Linear(Unroll(s, e), Unroll(c, e))
  {
    ToLinear(s, c, e);
    NoGaps(Unroll(s, e), Unroll(c, e));
  }

  lemma WalkStart<V>(s: seq<Slot<V>>, slots: seq<Option<Entry<V>>>, c: seq<bool>, v: seq<bool>, e: nat)
    requires TableOk(s, slots, c, v) && e < |s| && |s| >= 2 && slots[e].None?
    ensures Walking(s, slots, slots, e, 1, ModAdd(e, 1, |s|), e, [])
    ensures Pos(e, 0, |s|) == e
  {
    CutUncrossed(s, slots, c, v, e);
    assert Unroll(s, e)[0].Free?;
  }

  /** Passing a free position. */
  lemma WalkFree<V>(s: seq<Slot<V>>, before: seq<Option<Entry<V>>>, c: seq<bool>, v: seq<bool>,
      slots: seq<Option<Entry<V>>>,
                    e: nat, k: nat, i: nat, ia: nat, out: seq<Delivery<V>>)
    requires TableOk(s, before, c, v) && Walking(s, before, slots, e, k, i, ia, out)
    requires before[e].None? && i < |slots| && slots[i].None?
    ensures i < |s| && k <= |s| && (i == e <==> k == |s|)
    ensures k < |s| ==> before[Pos(e, k, |s|)].None?
    ensures k < |s| ==> Walking(s, before, slots, e, k + 1, ModAdd(i, 1, |s|), i, out)
  {
  }

  /** Before step `k`, at position `i`, an entry with home `h` is reached. */
  ghost predicate AtEntry<V>(s: seq<Slot<V>>, e: nat, k: nat, i: nat, h: nat, out: seq<Delivery<V>>)
  {
    && e < |s| && 0 < k < |s| && i == Pos(e, k, |s|)
    && Uncrossed(Unroll(s, e)) && out == Walk(Unroll(s, e), e, k)
    && Unroll(s, e)[k].Used? && h == Home(Unroll(s, e), k)
  }

  /** Reaching an entry: its home is the next one marked, if its `c` bit says so, or the one before. */
  lemma WalkUsed<V>(s: seq<Slot<V>>, before: seq<Option<Entry<V>>>, c: seq<bool>, v: seq<bool>,
      slots: seq<Option<Entry<V>>>,
                    e: nat, k: nat, i: nat, ia: nat, out: seq<Delivery<V>>) returns (a: nat, h: nat)
    requires TableOk(s, before, c, v) && Walking(s, before, slots, e, k, i, ia, out)
    requires before[e].None? && i < |slots| && slots[i].Some?
    ensures k < |s| && a <= h < |s| && i < |s| && before[i].Some?
    ensures ia == Pos(e, a, |s|) && Pending(slots, before, e, k) && i == Pos(e, k, |s|)
    ensures AtEntry(s, e, k, i, h, out)
    ensures c[i] ==> a < h && v[Pos(e, h, |s|)] && forall x :: a < x < h ==> !v[Pos(e, x, |s|)]
    ensures !c[i] ==> a == h
  {
    var n, u, cu := |s|, Unroll(s, e), Unroll(c, e);
    CutUncrossed(s, before, c, v, e);
    assert u[k] == s[Pos(e, k, n)] && cu[k] == c[Pos(e, k, n)];
    a, h := Reached(u, k), Home(u, k);
    HomeReached(u, cu, k);
    if cu[k] {
      GroupOnCut(s, c, e, h);
      HomedAt(u, k, h);
      forall x | a < x < h ensures !v[Pos(e, x, n)] {
        NoHomesBetween(u, cu, k, x);
        GroupOnCut(s, c, e, x);
      }
    }
  }

  lemma HomeReached<V>(u: seq<Slot<V>>, c: seq<bool>, k: nat)
    requires Linear(u, c) && 0 < k < |u| && u[k].Used?
    ensures 0 <= Reached(u, k) <= Home(u, k) < |u|
    ensures c[k] <==> Reached(u, k) < Home(u, k)
  {
    assert Link(u, c, k);
    NoGap(u, c, k);
    if u[k - 1].Used? {
      NoGap(u, c, k - 1);
    }
  }

  /** Handing out the entry reached. */
  lemma WalkStep<V>(s: seq<Slot<V>>, before: seq<Option<Entry<V>>>, c: seq<bool>, v: seq<bool>,
      slots: seq<Option<Entry<V>>>,
                    e: nat, k: nat, i: nat, h: nat, out: seq<Delivery<V>>)
    requires TableOk(s, before, c, v) && AtEntry(s, e, k, i, h, out) && e < |s| && before[e].None?
    requires Pending(slots, before, e, k) && i < |slots| && slots[i].Some? && i < |s| && h < |s|
    ensures Walking(s, before, slots, e, k + 1, ModAdd(i, 1, |s|), Pos(e, h, |s|), out + [Delivery(Pos(e, h, |s|),
        slots[i].value)])
  {
  }

  /** No entries have their home between those of slots `k - 1` and `k`. */
  lemma NoHomesBetween<V>(u: seq<Slot<V>>, c: seq<bool>, k: nat, x: nat)
    requires Linear(u, c) && 0 < k < |u| && u[k].Used?
    requires Reached(u, k) < x < Home(u, k)
    ensures Homed(u, 0, |u|, x) == []
  {
    forall j | 0 <= j < |u| ensures !HasHome(u[j], j, x) {
      if u[j].Used? {
        if j >= k {
          HomesOrdered(u, c, k, j);
        } else if u[k - 1].Used? {
          HomesOrdered(u, c, j, k - 1);
        }
      }
    }
    HomedNone(u, 0, |u|, x);
  }

  lemma WalkDone<V>(s: seq<Slot<V>>, before: seq<Option<Entry<V>>>, c: seq<bool>, v: seq<bool>,
      slots: seq<Option<Entry<V>>>,
                    e: nat, i: nat, ia: nat, out: seq<Delivery<V>>)
    requires TableOk(s, before, c, v) && Walking(s, before, slots, e, |s|, i, ia, out) && before[e].None?
    ensures forall h :: 0 <= h < |s| ==> DeliveredTo(out, h) == Group(s, h)
    ensures forall j :: 0 <= j < |out| ==> out[j].home < |s|
  {
    CutUncrossed(s, before, c, v, e);
    WalkComplete(s, e);
    WalkHomes(Unroll(s, e), e, |s|);
  }

  /** What is left in the storage in the end. */
  lemma WalkDrained<V>(s: seq<Slot<V>>, before: seq<Option<Entry<V>>>, c: seq<bool>, v: seq<bool>,
      slots: seq<Option<Entry<V>>>, e: nat, i: nat, ia: nat, out: seq<Delivery<V>>, first: bool, f: nat, l: nat, m: nat)
    requires TableOk(s, before, c, v) && Walking(s, before, slots, e, |s|, i, ia, out)
    requires before[e].None? && forall p :: 0 <= p < e ==> before[p].Some?
    requires Trail(slots, before, e, |s|, first, f, l, m)
    ensures Drained(s, e, out, slots)
  {
    hide Trail, Walk, Pending, InTwoBuckets, Uncrossed;
    TrailEnd(s, slots, before, e, first, f, l, m);
  }

  /** The group right before the boundary behind `ia`, between the counts of the bits. */
  lemma LastGroup<V>(s: seq<Slot<V>>, c: seq<bool>, v: seq<bool>, ia: nat, e: nat, t: nat) returns (gs: nat, ge: nat)
    requires Chained(s, c) && |v| == |s| && ia < |s| && e < |s| && s[e].Free? && s[ia].Used?
    requires forall p :: 0 <= p < |s| && p != ia ==> (v[p] <==> Group(s, p) != [])
    requires Steps(e, ia, |s|) < t <= |s| && Run(Unroll(s, e), Steps(e, ia, |s|), t)
    ensures Located(Unroll(s, e), Steps(e, ia, |s|), gs, ge, t) && gs < ge <= |s|
    ensures Linear(Unroll(s, e), Unroll(c, e))
    ensures Boundary(Unroll(s, e), Steps(e, ia, |s|) + 1, ge, t)
    ensures Count(Unroll(v, e), Steps(e, ia, |s|) + 1, t) == Count(Unroll(c, e), ge, t)
    ensures Unroll(c, e)[gs] && forall k :: gs < k < ge ==> !Unroll(c, e)[k]
  {
    ToLinear(s, c, e);
    assert Pos(e, 0, |s|) == e;
    ge := CountedBoundary(s, c, v, ia, e, t);
    gs := GroupStart(Unroll(s, e), Unroll(c, e), ge - 1);
  }

  /** Counting `c` bits back to the boundary: the count reaches zero only there. */
  lemma BoundaryReached<V>(u: seq<Slot<V>>, c: seq<bool>, r: nat, boundary: nat, k: nat, t: nat)
    requires Linear(u, c) && Boundary(u, r, boundary, t)
    requires boundary <= k <= t && Count(c, boundary, k) == 0
    ensures k == boundary
  {
    if boundary < k {
      BoundaryStarts(u, c, r, boundary, t);
      CountFirst(c, boundary, k);
    }
  }
}
