/** The placement by linear probing with stored displacements (`displacement_t`). */
module Displacement {
  import opened Bits
  import opened Sizing
  import opened Entries
  import opened Layouts
  import opened ProbeLayout
  import opened SparseStorage
  import opened DisplacementTables

  /** The first `d` positions from `ia` on are taken, and none is the entry of `ia` with quotient `q`. */
  ghost predicate Missed<V>(s: seq<Slot<V>>, ia: nat, d: nat, q: nat)
    requires ia < |s|
    ensures Missed(s, ia, d, q) ==> d <= |s|
  {
    && Path(s, ia, d)
    && forall i :: 0 <= i < d && HasHome(Unroll(s, ia)[i], i, 0) ==> Unroll(s, ia)[i].entry.quotient != q
  }

  lemma MissedNone<V>(s: seq<Slot<V>>, ia: nat, q: nat)
    requires ia < |s|
    ensures Missed(s, ia, 0, q)
  {
  }

  /** One more position passed, with a free one still ahead. */
  lemma MissedNext<V>(s: seq<Slot<V>>, ia: nat, d: nat, q: nat, e: nat)
    requires ia < |s| && e < |s| && s[e].Free? && Missed(s, ia, d, q) && d <= Steps(ia, e, |s|)
    requires s[Pos(ia, d, |s|)].Used?
    requires !(HasHome(Unroll(s, ia)[d], d, 0) && Unroll(s, ia)[d].entry.quotient == q)
    ensures d < Steps(ia, e, |s|) && Missed(s, ia, d + 1, q)
    ensures ModAdd(Pos(ia, d, |s|), 1, |s|) == Pos(ia, d + 1, |s|) != ia
  {
  }

  class DisplacementPlacement<V(0)> {
    const capacityLog2: nat
    const n: nat
    const table: DisplacementTable
    const storage: BucketsBv<V>
    /** The layout: what each position stores, and how far away from its home. */
    ghost var layout: seq<Slot<V>>

    /** The parts have memory of their own, and the sizes fit. */
    ghost predicate PartsOk()
      reads this, storage, storage.buckets, table, table.Repr
      ensures PartsOk() ==> storage.Valid() && table.Valid() && storage.n == n >= 2
      ensures PartsOk() ==> this !in table.Repr && storage !in table.Repr && storage.buckets !in table.Repr
    {
      && storage.Valid() && table.Valid() && storage.n == n >= 2
      && this !in table.Repr && storage !in table.Repr && storage.buckets !in table.Repr
    }

    ghost predicate Valid()
      reads this, storage, storage.buckets, table, table.Repr
      ensures Valid() ==> PartsOk() && |layout| == |storage.slots| == |table.values| == n
    {
      && PartsOk()
      && n == Pow2(capacityLog2)
      && |layout| == n
      && ProbeOk(layout, storage.slots, table.values)
    }

    /** What the table means. */
    ghost function Contents(): (g: seq<seq<Entry<V>>>)
      reads this
      ensures |g| == |layout|
      ensures forall p :: 0 <= p < |g| ==> g[p] == Group(layout, p)
    {
      Groups(layout)
    }

    /** The storage holds exactly the entries of the layout, and no home has a quotient twice. */
    lemma Facts()
      requires Valid()
      ensures n == Pow2(capacityLog2) == |storage.slots| && AllDistinct(Contents())
      ensures forall p :: 0 <= p < n ==> storage.slots[p] == EntryOf(layout[p])
    {
      hide Pow2, Group, Distinct, AllProbed;
    }

    /** An empty table. */
    constructor (capacityLog2: nat, config: TableConfig)
      requires capacityLog2 >= 1 && config.OkFor(Pow2(capacityLog2))
      ensures Valid() && this.capacityLog2 == capacityLog2 && n == Pow2(capacityLog2)
      ensures fresh(storage) && fresh(storage.buckets) && fresh(table) && fresh(table.Repr)
      ensures storage.slots == seq(n, _ => None)
      ensures Contents() == seq(n, _ => []) && table.config == config
    {
      var size := Pow2(capacityLog2);
      this.capacityLog2 := capacityLog2;
      this.n := size;
      this.storage := new BucketsBv<V>(size);
      this.table := new DisplacementTable(size, config);
      this.layout := seq(size, _ => Free);
      new;
      forall p | 0 <= p < n ensures Group(layout, p) == [] {
        HomedNone(Unroll(layout, p), 0, n, 0);
      }
      assert layout[0].Free?;
    }

    /** Whether position `cursor` holds the entry of home `ia` with quotient `q`. */
    method Matches(cursor: nat, ia: nat, q: nat, ghost d: nat) returns (hit: bool, ptr: Ptr)
      requires Valid() && ia < n && d < n && cursor == Pos(ia, d, n) && storage.slots[cursor].Some?
      modifies table.Repr
      ensures Valid() && table.Repr == old(table.Repr) && layout == old(layout)
      ensures hit <==> HasHome(Unroll(layout, ia)[d], d, 0) && Unroll(layout, ia)[d].entry.quotient == q
      ensures ptr == PtrOf(storage.bvs, cursor)
      ensures layout[cursor].Used?
    {
      hide ProbeOk, PtrOf, HasHome, Unroll, Pow2;
      HomeTest(layout, storage.slots, table.values, ia, d);
      var disp := table.Get(cursor);
      ptr := storage.At(cursor);
      hit := false;
      if disp == ModSub(cursor, ia, n) {
        var entry := storage.Read(ptr, cursor);
        hit := entry.quotient == q;
      }
    }

    /** `lookup_insert`: finds the entry of home `ia` with quotient `q`, or places it at the first free
        position behind its home.  Its value is not initialized yet.  No entry ever moves. */
    method LookupInsert(ia: nat, q: nat) returns (r: EntryRef)
      requires Valid() && ia < n && |Occupied(storage.slots)| + 2 <= n
      modifies storage.buckets, storage`slots, storage`bvs, table.Repr, this`layout
      ensures Valid() && fresh(table.Repr - old(table.Repr))
      ensures r.Found? && r.id < n && r.ptr == PtrOf(storage.bvs, r.id)
      ensures r.keyAlreadyExist <==> IndexOf(old(Contents())[ia], q) >= 0
      ensures r.keyAlreadyExist ==>
        && Sits(layout, r.id, ia, old(Contents())[ia][IndexOf(old(Contents())[ia], q)])
        && layout == old(layout) && storage.slots == old(storage.slots)
      ensures !r.keyAlreadyExist ==>
        && layout[r.id].Used? && layout[r.id].entry.quotient == q && Sits(layout, r.id, ia, layout[r.id].entry)
        && old(layout)[r.id].Free? && layout == old(layout)[r.id := layout[r.id]]
        && Contents() == old(Contents())[ia := old(Contents())[ia] + [layout[r.id].entry]]
        && |Occupied(storage.slots)| == |Occupied(old(storage.slots))| + 1
    {
      hide ProbeOk, PtrOf, HasHome, Unroll, Pow2, Missed, Group, Groups, IndexOf, Occupied, Sits;
      ghost var e := FreeSlot(layout, storage.slots, table.values);
      ghost var d: nat := 0;
      MissedNone(layout, ia, q);
      var cursor := ia;
      while true
        invariant Valid() && table.Repr == old(table.Repr) && layout == old(layout)
            && storage.slots == old(storage.slots)
        invariant d <= Steps(ia, e, n) && cursor == Pos(ia, d, n) && Missed(layout, ia, d, q)
        decreases n - d
      {
        var empty := storage.PosIsEmpty(cursor);
        if empty {
          r := InsertAt(cursor, ia, q, d);
          return;
        }
        var hit, ptr := Matches(cursor, ia, q, d);
        if hit {
          GroupDistinct(layout, storage.slots, table.values, ia);
          ProbeHits(layout, ia, d, q);
          r := Found(cursor, true, ptr);
          return;
        }
        MissedNext(layout, ia, d, q, e);
        cursor := ModAdd(cursor, 1, n);
        d := d + 1;
      }
    }

    /** The end of `lookup_insert` at the free position `cursor`. */
    method InsertAt(cursor: nat, ia: nat, q: nat, ghost d: nat) returns (r: EntryRef)
      requires Valid() && ia < n && d < n && cursor == Pos(ia, d, n) && storage.slots[cursor].None?
      requires Missed(layout, ia, d, q) && |Occupied(storage.slots)| + 2 <= n
      modifies storage.buckets, storage`slots, storage`bvs, table.Repr, this`layout
      ensures Valid() && fresh(table.Repr - old(table.Repr))
      ensures IndexOf(Group(old(layout), ia), q) == -1
      ensures r == Found(cursor, false, PtrOf(storage.bvs, cursor))
      ensures |layout| == n && layout[cursor].Used? && layout[cursor].entry.quotient == q
      ensures Sits(layout, cursor, ia, layout[cursor].entry)
      ensures old(layout)[cursor].Free? && layout == old(layout)[cursor := layout[cursor]]
      ensures Groups(layout) == Groups(old(layout))[ia := Group(old(layout), ia) + [layout[cursor].entry]]
      ensures |Occupied(storage.slots)| == |Occupied(old(storage.slots))| + 1
    {
      hide ProbeOk, PtrOf, HasHome, Unroll, Pow2, Group, Groups, IndexOf, Occupied, AllProbed, Path;
      ghost var s, slots, values := layout, storage.slots, table.values;
      MissedAll(s, slots, values, ia, d, q);
      var ptr := storage.AllocatePos(cursor);
      DistanceBack(ia, d, n);
      table.Set(cursor, ModSub(cursor, ia, n));
      storage.SetQuotient(ptr, q, cursor);
      ghost var entry := storage.slots[cursor].value;
      layout := Placed(s, ia, d, entry);
      assert storage.slots == slots[cursor := Some(entry)];
      PlacedOk(s, slots, values, ia, d, entry);
      r := Found(cursor, false, ptr);
    }

    /** `search` */
    method Search(ia: nat, q: nat) returns (r: EntryRef)
      requires Valid() && ia < n
      modifies table.Repr
      ensures Valid() && table.Repr == old(table.Repr) && layout == old(layout)
      ensures r.Found? <==> IndexOf(Contents()[ia], q) >= 0
      ensures r.Found? ==>
        && r.keyAlreadyExist && r.id < n && r.ptr == PtrOf(storage.bvs, r.id)
        && Sits(layout, r.id, ia, Contents()[ia][IndexOf(Contents()[ia], q)])
    {
      hide ProbeOk, PtrOf, HasHome, Unroll, Pow2, Missed, Group, Groups, IndexOf, Occupied, Sits;
      ghost var e := FreeSlot(layout, storage.slots, table.values);
      ghost var d: nat := 0;
      MissedNone(layout, ia, q);
      var cursor := ia;
      while true
        invariant Valid() && table.Repr == old(table.Repr) && layout == old(layout)
        invariant d <= Steps(ia, e, n) && cursor == Pos(ia, d, n) && Missed(layout, ia, d, q)
        decreases n - d
      {
        var empty := storage.PosIsEmpty(cursor);
        if empty {
          MissedAll(layout, storage.slots, table.values, ia, d, q);
          r := NotFound;
          return;
        }
        var hit, ptr := Matches(cursor, ia, q, d);
        if hit {
          GroupDistinct(layout, storage.slots, table.values, ia);
          ProbeHits(layout, ia, d, q);
          r := Found(cursor, true, ptr);
          return;
        }
        MissedNext(layout, ia, d, q, e);
        cursor := ModAdd(cursor, 1, n);
        d := d + 1;
      }
    }

    /** `lookup_id`: the id is the position. */
    method LookupId(id: nat, ghost ia: nat, ghost entry: Entry<V>) returns (r: EntryRef)
      requires Valid() && Sits(layout, id, ia, entry)
      ensures r == Found(id, true, PtrOf(storage.bvs, id))
    {
      hide PtrOf;
      var ptr := storage.At(id);
      r := Found(id, true, ptr);
    }

    /** `set_val` through the pointer of an entry: the value changes in the group of its home. */
    method SetValue(ptr: Ptr, val: V, ghost p: nat, ghost h: nat, ghost entry: Entry<V>)
      requires Valid() && Sits(layout, p, h, entry) && ptr == PtrOf(storage.bvs, p)
      modifies storage.buckets, storage`slots, this`layout
      ensures Valid()
      ensures h < n && 0 <= IndexOf(old(Contents())[h], entry.quotient)
      ensures Contents() == old(Contents())[h :=
        old(Contents())[h][IndexOf(old(Contents())[h], entry.quotient) := Entry(entry.quotient, val)]]
      ensures layout == old(layout)[p := Used(old(layout)[p].disp, Entry(entry.quotient, val))]
      ensures Occupied(storage.slots) == Occupied(old(storage.slots))
    {
      hide PtrOf, ProbeOk, Pow2, Group, IndexOf, Occupied;
      ghost var s, slots, values := layout, storage.slots, table.values;
      ProbeStored(s, slots, values);
      SitsStored(s, slots, p, h, entry);
      storage.SetValue(ptr, val, p);
      layout := s[p := Used(s[p].disp, Entry(entry.quotient, val))];
      ValueWritten(s, slots, values, p, h, entry, val);
    }

    /** `drain_all` over `for_all_allocated`: walks around the circle from the first empty position,
        frees the buckets left behind, and hands out every entry with its home. */
    method DrainAll() returns (out: seq<Delivery<V>>)
      requires Valid()
      modifies storage.buckets, storage`slots, storage`bvs, table.Repr
      ensures forall h :: 0 <= h < n ==> DeliveredTo(out, h) == old(Contents())[h]
      ensures forall i :: 0 <= i < |out| ==> out[i].home < n
      ensures exists e :: Drained(layout, e, out, storage.slots)
    {
      hide ProbeOk, Pow2, Draining, Pending, Pos, DeliveredTo, Group, Groups, Trail, Leads, Trimmed, Drained;
      ghost var before, values := storage.slots, table.values;
      ghost var e0 := FreeSlot(layout, before, values);
      var originalStart := storage.FirstEmpty();
      ghost var e := originalStart;
      var i := ModAdd(originalStart, 1, n);
      var first, drainStart := true, originalStart;
      ghost var k: nat, m: nat, f: nat, l: nat := 1, 0, 0, 0;
      out := [];
      DrainStart(layout, before, values, e);
      TrailStart(before, e);
      while true
        invariant PartsOk() && table.Repr == old(table.Repr) && table.values == values && layout == old(layout)
        invariant m <= k <= n && drainStart == Pos(e, m, n)
        invariant Draining(layout, before, storage.slots, e, k, i, out)
        invariant Trail(storage.slots, before, e, k, first, f, l, m)
        decreases n - k
      {
        var done;
        ghost var k0 := k;
        i, done, k := SkipFree(originalStart, before, values, k, i, out);
        TrailFree(storage.slots, before, e, k0, k, first, f, l, m);
        if done {
          DrainDone(layout, before, values, storage.slots, e, i, out);
          DrainDrained(layout, before, values, storage.slots, e, i, out, first, f, l, m);
          return;
        }
        ghost var pending, from := storage.slots, m;
        var initialAddress, entry;
        initialAddress, entry, drainStart, m := HandOut(if first then i else drainStart, i, before, values, e,
            if first then k else m, k, out);
        TrailVisit(pending, before, e, k, first, f, l, from, storage.slots);
        f, l := if first then k else f, k;
        first := false;
        out := out + [Delivery(initialAddress, entry)];
        i := ModAdd(i, 1, n);
        k := k + 1;
      }
    }

    /** One entry of the walk: its displacement tells its home. */
    method HandOut(drainStart: nat, i: nat, ghost before: seq<Option<Entry<V>>>, ghost values: seq<nat>,
                   ghost e: nat, ghost m: nat, ghost k: nat, ghost out: seq<Delivery<V>>)
      returns (home: nat, entry: Entry<V>, start: nat, ghost m': nat)
      requires PartsOk() && table.values == values && ProbeOk(layout, before, values) && |layout| == n
      requires Draining(layout, before, storage.slots, e, k, i, out) && storage.slots[i].Some?
      requires m <= k < n && drainStart == Pos(e, m, n)
      modifies storage.buckets, storage`slots, storage`bvs, table.Repr
      ensures PartsOk() && table.Repr == old(table.Repr) && table.values == values && layout == old(layout)
      ensures before[i].Some?
      ensures m' == (if Leads(old(storage.slots), i) then k else m) && start == Pos(e, m', n)
      ensures Trimmed(old(storage.slots), drainStart, i, storage.slots)
      ensures Draining(layout, before, storage.slots, e, k + 1, ModAdd(i, 1, n), out + [Delivery(home, entry)])
    {
      hide ProbeOk, Pow2, Draining, Pending, Pos, Leads, Trimmed;
      ghost var pending := storage.slots;
      DrainHome(layout, before, values, pending, e, k, i, out);
      var disp := table.Get(i);
      home := ModSub(i, disp, n);
      start, entry, m' := storage.Visit(drainStart, i, before, e, m, k);
      DrainStep(layout, before, values, pending, storage.slots, e, k, i, out);
    }

    /** The inner loop of the walk: past free positions, to the next entry or back to the start. */
    method SkipFree(e: nat, ghost before: seq<Option<Entry<V>>>, ghost values: seq<nat>, ghost k: nat, start: nat,
                    ghost out: seq<Delivery<V>>)
      returns (i: nat, done: bool, ghost k': nat)
      requires storage.Valid() && storage.n == n && e < n
      requires ProbeOk(layout, before, values) && |layout| == n && before[e].None?
      requires Draining(layout, before, storage.slots, e, k, start, out)
      ensures k <= k' <= n && i < n
      ensures Draining(layout, before, storage.slots, e, k', i, out)
      ensures forall j :: k <= j < k' ==> before[Pos(e, j, n)].None?
      ensures done ==> k' == n
      ensures !done ==> k' < n && i < |storage.slots| && storage.slots[i].Some?
    {
      hide ProbeOk, Draining;
      i, k' := start, k;
      var empty := storage.PosIsEmpty(i);
      while empty
        invariant k <= k' <= n && i < n && Draining(layout, before, storage.slots, e, k', i, out)
        invariant forall j :: k <= j < k' ==> before[Pos(e, j, n)].None?
        invariant empty <==> storage.slots[i].None?
        decreases n - k'
      {
        DrainFree(layout, before, values, storage.slots, e, k', i, out);
        if i == e {
          done := true;
          return;
        }
        i := ModAdd(i, 1, n);
        k' := k' + 1;
        empty := storage.PosIsEmpty(i);
      }
      done := false;
      DrainUsed(layout, before, values, storage.slots, e, k', i, out);
    }
  }

  lemma FreeSlot<V>(s: seq<Slot<V>>, slots: seq<Option<Entry<V>>>, values: seq<nat>) returns (e: nat)
    requires ProbeOk(s, slots, values)
    ensures e < |s| && s[e].Free? && slots[e].None?
  {
    e :| 0 <= e < |s| && s[e].Free?;
  }

  lemma ProbeStored<V>(s: seq<Slot<V>>, slots: seq<Option<Entry<V>>>, values: seq<nat>)
    requires ProbeOk(s, slots, values)
    ensures forall x :: 0 <= x < |s| ==> slots[x] == EntryOf(s[x])
  {
  }

  lemma GroupDistinct<V>(s: seq<Slot<V>>, slots: seq<Option<Entry<V>>>, values: seq<nat>, ia: nat)
    requires ProbeOk(s, slots, values) && ia < |s|
    ensures Distinct(Group(s, ia))
  {
  }

  /** Probing from `ia` ended at a free position. */
  lemma MissedAll<V>(s: seq<Slot<V>>, slots: seq<Option<Entry<V>>>, values: seq<nat>, ia: nat, d: nat, q: nat)
    requires ProbeOk(s, slots, values) && ia < |s| && d < |s| && slots[Pos(ia, d, |s|)].None? && Missed(s, ia, d, q)
    ensures IndexOf(Group(s, ia), q) == -1
    ensures s[Pos(ia, d, |s|)].Free? && Path(s, ia, d)
  {
    hide IndexOf;
    ProbeMisses(s, ia, d, q);
  }

  lemma DistanceBack(ia: nat, d: nat, n: nat)
    requires ia < n && d < n
    ensures ModSub(Pos(ia, d, n), ia, n) == d
  {
  }

  // --- The draining walk --------------------------------------------------------------------

  /** The state of the draining walk before step `k`, at position `i`, having handed out `out`. */
  ghost predicate Draining<V>(s: seq<Slot<V>>, before: seq<Option<Entry<V>>>, slots: seq<Option<Entry<V>>>,
                              e: nat, k: nat, i: nat, out: seq<Delivery<V>>)
    ensures Draining(s, before, slots, e, k, i, out) ==> e < |before| == |slots| == |s| && 0 < k <= |s| && i < |s|
    ensures Draining(s, before, slots, e, k, i, out) ==> i == Pos(e, k, |s|) && Pending(slots, before, e, k)
  {
    && e < |s| == |before| && 0 < k <= |s|
    && Uncrossed(Unroll(s, e))
    && i == Pos(e, k, |s|)
    && Pending(slots, before, e, k)
    && out == Walk(Unroll(s, e), e, k)
  }

  lemma DrainStart<V>(s: seq<Slot<V>>, slots: seq<Option<Entry<V>>>, values: seq<nat>, e: nat)
    requires ProbeOk(s, slots, values) && e < |s| && |s| >= 2 && slots[e].None?
    ensures Draining(s, slots, slots, e, 1, ModAdd(e, 1, |s|), [])
    ensures Pos(e, 0, |s|) == e
  {
    FreeUncrossed(s, e);
    assert Unroll(s, e)[0].Free?;
  }

  /** Passing a free position. */
  lemma DrainFree<V>(s: seq<Slot<V>>, before: seq<Option<Entry<V>>>, values: seq<nat>, slots: seq<Option<Entry<V>>>,
                     e: nat, k: nat, i: nat, out: seq<Delivery<V>>)
    requires ProbeOk(s, before, values) && Draining(s, before, slots, e, k, i, out)
    requires before[e].None? && slots[i].None?
    ensures i == e <==> k == |s|
    ensures k < |s| ==> before[Pos(e, k, |s|)].None?
    ensures k < |s| ==> Draining(s, before, slots, e, k + 1, ModAdd(i, 1, |s|), out)
  {
  }

  /** What is left in the storage in the end. */
  lemma DrainDrained<V>(s: seq<Slot<V>>, before: seq<Option<Entry<V>>>, values: seq<nat>,
      slots: seq<Option<Entry<V>>>, e: nat, i: nat, out: seq<Delivery<V>>, first: bool, f: nat, l: nat, m: nat)
    requires ProbeOk(s, before, values) && Draining(s, before, slots, e, |s|, i, out)
    requires before[e].None? && forall p :: 0 <= p < e ==> before[p].Some?
    requires Trail(slots, before, e, |s|, first, f, l, m)
    ensures Drained(s, e, out, slots)
  {
    hide Trail, Walk, Pending, InTwoBuckets, Uncrossed;
    TrailEnd(s, slots, before, e, first, f, l, m);
  }

  lemma DrainUsed<V>(s: seq<Slot<V>>, before: seq<Option<Entry<V>>>, values: seq<nat>, slots: seq<Option<Entry<V>>>,
                     e: nat, k: nat, i: nat, out: seq<Delivery<V>>)
    requires ProbeOk(s, before, values) && Draining(s, before, slots, e, k, i, out)
    requires before[e].None? && slots[i].Some?
    ensures k < |s|
  {
  }

  /** Reaching an entry: it is still stored, and so is its displacement. */
  lemma DrainHome<V>(s: seq<Slot<V>>, before: seq<Option<Entry<V>>>, values: seq<nat>, slots: seq<Option<Entry<V>>>,
                     e: nat, k: nat, i: nat, out: seq<Delivery<V>>)
    requires ProbeOk(s, before, values) && Draining(s, before, slots, e, k, i, out) && k < |s| && slots[i].Some?
    ensures i == Pos(e, k, |s|) && slots[i] == before[i] && values[i] < |s|
  {
    assert Probed(s, i);
  }

  /** Handing it out: its displacement leads back to its home. */
  lemma DrainStep<V>(s: seq<Slot<V>>, before: seq<Option<Entry<V>>>, values: seq<nat>, slots: seq<Option<Entry<V>>>,
                     after: seq<Option<Entry<V>>>, e: nat, k: nat, i: nat, out: seq<Delivery<V>>)
    requires ProbeOk(s, before, values) && Draining(s, before, slots, e, k, i, out) && k < |s|
    requires before[i].Some? && values[i] < |s| && Pending(after, before, e, k)
    ensures Draining(s, before, after, e, k + 1, ModAdd(i, 1, |s|), out + [Delivery(ModSub(i, values[i], |s|),
        before[i].value)])
  {
  }

  lemma DrainDone<V>(s: seq<Slot<V>>, before: seq<Option<Entry<V>>>, values: seq<nat>, slots: seq<Option<Entry<V>>>,
                     e: nat, i: nat, out: seq<Delivery<V>>)
    requires ProbeOk(s, before, values) && Draining(s, before, slots, e, |s|, i, out)
    ensures forall h :: 0 <= h < |s| ==> DeliveredTo(out, h) == Group(s, h)
    ensures forall j :: 0 <= j < |out| ==> out[j].home < |s|
  {
    WalkComplete(s, e);
    WalkHomes(Unroll(s, e), e, |s|);
  }
}
