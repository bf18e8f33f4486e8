/** The sparse hash set over any placement (`hashset_t` as `sparse_cv_hashset_t`, `sparse_elias_hashset_t`
    or `sparse_layered_hashset_t`), with the events it reports when it is rehashed. */
module SparseHashSet {
  import opened Bits
  import opened Entries
  import opened Layouts
  import opened Sizing
  import opened HashFunctions
  import opened Keys
  import opened SparseStorage
  import opened Placements

  /** What the observer of a rehash is told: the new capacity, and the new id of every key moved. */
  datatype Event = OnResize(tableSize: nat) | OnReinsert(key: nat, id: nat)

  /** A set of keys, as a map without satellite data. */
  ghost function Units(keys: set<nat>): (m: map<nat, ()>)
    ensures m.Keys == keys
  {
    map key | key in keys :: ()
  }

  // --- Moving all keys to another set -------------------------------------------------------

  /** The keys of the first `i` entries delivered. */
  ghost function Taken(out: seq<Delivery<()>>, f: HashFn, w: nat, k: nat, i: nat): set<nat>
    requires WidthOk(w) && i <= |out|
  {
    Replay(out, f, w, k, i).Keys
  }

  /** `keys` is the set `before` after it took the first `i` keys delivered. */
  ghost predicate Took(keys: set<nat>, before: set<nat>, out: seq<Delivery<()>>, f: HashFn, w: nat, k: nat, i: nat)
    requires WidthOk(w) && i <= |out|
  {
    keys == before + Taken(out, f, w, k, i)
  }

  lemma TookNone(out: seq<Delivery<()>>, f: HashFn, w: nat, k: nat, before: set<nat>)
    requires WidthOk(w)
    ensures Took(before, before, out, f, w, k, 0)
  {
  }

  lemma TookAll(keys: set<nat>, out: seq<Delivery<()>>, g: seq<seq<Entry<()>>>, f: HashFn, w: nat, k: nat,
      source: set<nat>, before: set<nat>)
    requires Holds(g, f, w, k, Units(source)) && Delivered(out, g) && Took(keys, before, out, f, w, k, |out|)
    ensures keys == before + source
  {
    hide Holds, Delivered, Replay;
    ReplayAll(out, g, f, w, k, Units(source));
  }

  /** The next key delivered is one of the set, and is new. */
  lemma TookNext(keys: set<nat>, out: seq<Delivery<()>>, g: seq<seq<Entry<()>>>, f: HashFn, w: nat, k: nat,
      source: set<nat>, before: set<nat>, i: nat)
    requires Holds(g, f, w, k, Units(source)) && Delivered(out, g) && i < |out| && before !! source
    requires Took(keys, before, out, f, w, k, i)
    ensures var key := KeyOf(f, w, k, out[i].home, out[i].entry.quotient);
      && key == KeyAt(out, f, w, k, i) && key in source && key !in keys
      && Took(keys + {key}, before, out, f, w, k, i + 1)
    ensures |keys| < |before| + |source|
  {
    hide Holds, Delivered, KeyOf, Parts, Units;
    DeliveredKey(out, g, f, w, k, Units(source), i);
    ReplayFresh(out, g, f, w, k, Units(source), i);
    ReplayPart(out, g, f, w, k, Units(source), i);
    ReplayAll(out, g, f, w, k, Units(source));
    assert |Taken(out, f, w, k, i)| == i && |Units(source)| == |source|;
  }

  /** The report after `i` moves. */
  ghost predicate Logged(moves: seq<Event>, out: seq<Delivery<()>>, f: HashFn, w: nat, k: nat, i: nat)
    requires WidthOk(w)
    ensures Logged(moves, out, f, w, k, i) ==> |moves| == i <= |out|
  {
    && |moves| == i <= |out|
    && forall j :: 0 <= j < i ==> moves[j].OnReinsert? && moves[j].key == KeyAt(out, f, w, k, j)
  }

  lemma LoggedNone(out: seq<Delivery<()>>, f: HashFn, w: nat, k: nat)
    requires WidthOk(w)
    ensures Logged([], out, f, w, k, 0)
  {
  }

  lemma LoggedNext(moves: seq<Event>, out: seq<Delivery<()>>, f: HashFn, w: nat, k: nat, i: nat, id: nat)
    requires WidthOk(w) && Logged(moves, out, f, w, k, i) && i < |out|
    ensures Logged(moves + [OnReinsert(KeyAt(out, f, w, k, i), id)], out, f, w, k, i + 1)
  {
    hide KeyAt;
  }

  /** Sizing, placement and contents of a table go together. */
  ghost predicate PartsOk(hash: HashFn, sizing: SizeManager, keyWidth: nat, placement: Placement<()>, keys: set<nat>)
    reads sizing, placement, placement.Repr
    ensures PartsOk(hash, sizing, keyWidth, placement, keys) ==>
      sizing.Valid() && 1 <= keyWidth <= 64 && |keys| == sizing.size
  {
    && sizing.Valid() && placement.Valid()
    && placement.capacityLog2 == sizing.capacityLog2
    && 1 <= keyWidth <= 64
    && Holds(placement.Contents(), hash, RealWidth(sizing.capacityLog2, keyWidth), sizing.capacityLog2, Units(keys))
    && |keys| == sizing.size == |Occupied(placement.storage.slots)|
    && (forall key :: key in keys ==> key < Pow2(keyWidth))
  }

  /** What the parts say, for use with their definitions hidden. */
  lemma PartsFacts(hash: HashFn, sizing: SizeManager, keyWidth: nat, placement: Placement<()>, keys: set<nat>)
    requires PartsOk(hash, sizing, keyWidth, placement, keys)
    ensures placement.Valid() && placement.n == |placement.Contents()| == Pow2(sizing.capacityLog2)
    ensures placement.capacityLog2 == sizing.capacityLog2 && placement.kind.Ok()
    ensures |keys| == |Occupied(placement.storage.slots)|
    ensures forall key :: key in keys ==> key < Pow2(keyWidth)
    ensures Holds(placement.Contents(), hash, RealWidth(sizing.capacityLog2, keyWidth), sizing.capacityLog2,
      Units(keys))
  {
    hide Pow2, Holds, SizeManager.Valid, Occupied, Groups, Units, Placement.Chosen, Fits;
  }

  lemma MakeParts(hash: HashFn, sizing: SizeManager, keyWidth: nat, placement: Placement<()>, keys: set<nat>)
    requires sizing.Valid() && placement.Valid() && placement.capacityLog2 == sizing.capacityLog2
    requires 1 <= keyWidth <= 64 && |keys| == sizing.size == |Occupied(placement.storage.slots)|
    requires forall key :: key in keys ==> key < Pow2(keyWidth)
    requires Holds(placement.Contents(), hash, RealWidth(sizing.capacityLog2, keyWidth), sizing.capacityLog2,
      Units(keys))
    ensures PartsOk(hash, sizing, keyWidth, placement, keys)
  {
    hide Pow2, Holds, SizeManager.Valid, Occupied, Groups, Placement.Valid, Units;
  }

  lemma EmptyParts(hash: HashFn, sizing: SizeManager, keyWidth: nat, placement: Placement<()>)
    requires sizing.Valid() && sizing.size == 0 && placement.Valid() && placement.capacityLog2 == sizing.capacityLog2
    requires 1 <= keyWidth <= 64
    requires placement.Contents() == seq(Pow2(sizing.capacityLog2), _ => [])
    requires placement.storage.slots == seq(Pow2(sizing.capacityLog2), _ => None)
    ensures PartsOk(hash, sizing, keyWidth, placement, {})
  {
    hide Pow2, Groups, Placement.Valid;
    HoldsNothing<()>(placement.Contents(), hash, RealWidth(sizing.capacityLog2, keyWidth), sizing.capacityLog2);
    assert Units({}) == map[];
    assert Occupied(placement.storage.slots) == {};
  }

  /** The insertion into sizing and placement. */
  method InsertIntoParts(hash: HashFn, sizing: SizeManager, keyWidth: nat, placement: Placement<()>,
      ghost keys: set<nat>, key: nat) returns (r: EntryRef)
    requires sizing !in placement.Repr && PartsOk(hash, sizing, keyWidth, placement, keys) && key < Pow2(keyWidth)
    requires !NeedsToGrow(Pow2(sizing.capacityLog2), |keys| + 1, sizing.loadFactor)
    modifies sizing, placement.Repr
    ensures sizing !in placement.Repr && placement in placement.Repr && fresh(placement.Repr - old(placement.Repr))
    ensures PartsOk(hash, sizing, keyWidth, placement, keys + {key})
    ensures sizing.loadFactor == old(sizing.loadFactor) && sizing.capacityLog2 == old(sizing.capacityLog2)
    ensures r.Found? && (r.keyAlreadyExist <==> key in keys)
    ensures var k, w := sizing.capacityLog2, RealWidth(sizing.capacityLog2, keyWidth);
      && WidthOk(w)
      && KeyHasId(placement.kind, placement.layout, hash, w, k, key, r.id)
      && forall other, id :: KeyHasId(placement.kind, old(placement.layout), hash, w, k, other, id) ==>
           KeyHasId(placement.kind, placement.layout, hash, w, k, other, id)
  {
    hide PartsOk, Pow2, Holds, IndexOf, Occupied, PtrOf, Parts, KeyOf, Sits, NeedsToGrow, Placement.Valid,
      SizeManager.Valid, Group, Groups, Units, IdOf, IdsKept;
    PartsFacts(hash, sizing, keyWidth, placement, keys);
    ghost var g, s := placement.Contents(), placement.layout;
    var k, w := sizing.capacityLog2, RealWidth(sizing.capacityLog2, keyWidth);
    Pow2Monotone(keyWidth, w);
    RoomLeft(k, |keys| + 1, sizing.loadFactor);
    QuotientFits(hash, w, k, key);
    UnitsLookup(g, hash, w, k, keys, key);
    var d := Parts(hash, w, k, key);
    ghost var p;
    r, p := placement.LookupInsert(d.initialAddress, d.storedQuotient);
    KeyIdsKept(placement.kind, s, placement.layout, hash, w, k);
    KeyAdded(g, placement.Contents(), hash, w, k, keys, key, r.keyAlreadyExist,
      if r.keyAlreadyExist then Entry(0, ()) else placement.layout[p].entry);
    if !r.keyAlreadyExist {
      sizing.SetSize(sizing.size + 1);
    }
    MakeParts(hash, sizing, keyWidth, placement, keys + {key});
  }

  class HashSet {
    const hash: HashFn
    const kind: PlacementKind
    var sizing: SizeManager
    var keyWidth: nat
    var placement: Placement<()>
    /** The mathematical set this table stands for. */
    ghost var keys: set<nat>
    ghost var Repr: set<object>

    function HashWidth(): nat
      reads this, sizing
    {
      RealWidth(sizing.capacityLog2, keyWidth)
    }

    /** The parts of the table are its own. */
    ghost predicate OwnParts()
      reads this, placement
      ensures OwnParts() ==> this in Repr && sizing in Repr && placement in Repr && placement.Repr <= Repr
      ensures OwnParts() ==> this !in placement.Repr && sizing !in placement.Repr && placement in placement.Repr
    {
      && Repr == {this, sizing} + placement.Repr && placement in placement.Repr && placement.kind == kind
      && this !in placement.Repr && sizing !in placement.Repr
    }

    ghost predicate Valid()
      reads this, Repr
      ensures Valid() ==> this in Repr && sizing in Repr && placement in Repr && placement.Repr <= Repr
      ensures Valid() ==> sizing.Valid() && 1 <= keyWidth <= 64 && |keys| == sizing.size
    {
      placement in Repr && OwnParts() && PartsOk(hash, sizing, keyWidth, placement, keys)
    }

    /** `needs_to_realloc` */
    predicate NeedsToRealloc(newSize: nat, newKeyWidth: nat)
      reads this, sizing
    {
      NeedsToGrow(Pow2(sizing.capacityLog2), newSize, sizing.loadFactor) || newKeyWidth != keyWidth
    }

    /** The largest table a 64-bit machine can index is large enough for `newSize` elements. */
    ghost predicate CanHold(newSize: nat)
      reads this, sizing
    {
      !NeedsToGrow(Pow2(63), newSize, sizing.loadFactor)
    }

    /** `id` is the id of the stored key `key`. */
    ghost predicate HasId(key: nat, id: nat)
      reads this, sizing, placement
    {
      && WidthOk(HashWidth())
      && KeyHasId(placement.kind, placement.layout, hash, HashWidth(), sizing.capacityLog2, key, id)
    }

    constructor (size: nat, keyWidth: nat, z: real, hash: HashFn, kind: PlacementKind, ghost k: nat)
      requires 0.0 < z <= 1.0 && 1 <= keyWidth <= 64
      requires k <= 63 && AdjustSize(size) == Pow2(k) && kind.Ok()
      ensures Valid() && fresh(Repr)
      ensures keys == {} && this.keyWidth == keyWidth && this.hash == hash && this.kind == kind
      ensures sizing.capacityLog2 == k && sizing.loadFactor == z
      ensures Pow2(sizing.capacityLog2) == if size >= 2 then size else 2
    {
      hide Pow2, NeedsToGrow, PartsOk, Placement.Valid, SizeManager.Valid, AdjustSize, Groups;
      this.hash, this.kind, this.keyWidth := hash, kind, keyWidth;
      var manager := new SizeManager(size, z, k);
      var made := new Placement<()>(manager.capacityLog2, kind);
      EmptyParts(hash, manager, keyWidth, made);
      this.sizing, this.placement := manager, made;
      this.keys := {};
      this.Repr := {this, manager} + made.Repr;
    }

    /** What the parts say, for use with their definitions hidden. */
    lemma Intact()
      requires Valid()
      ensures placement.Valid() && placement.n == |placement.Contents()| && OwnParts()
      ensures placement.capacityLog2 == sizing.capacityLog2 && placement.n == Pow2(sizing.capacityLog2)
      ensures |keys| == |Occupied(placement.storage.slots)|
      ensures Holds(placement.Contents(), hash, HashWidth(), sizing.capacityLog2, Units(keys))
      ensures placement.Repr <= Repr && placement in placement.Repr && placement.kind == kind && kind.Ok()
      ensures this !in placement.Repr && sizing !in placement.Repr
      ensures IdsReady(sizing.capacityLog2, placement.layout)
    {
      hide Pow2, PartsOk, Holds, NeedsToGrow, SizeManager.Valid, Occupied, Groups, Placement.Valid, IdsReady;
      PartsFacts(hash, sizing, keyWidth, placement, keys);
      placement.Facts();
    }

    lemma KeysFit(newKeyWidth: nat)
      requires Valid() && keyWidth <= newKeyWidth
      ensures forall key :: key in keys ==> key < Pow2(newKeyWidth)
    {
      hide PartsOk, SizeManager.Valid, OwnParts, Pow2;
      PartsFacts(hash, sizing, keyWidth, placement, keys);
      Pow2Monotone(keyWidth, newKeyWidth);
    }

    /** `max_load_factor`; the table itself only changes at the next insertion. */
    method MaxLoadFactor(z: real)
      requires Valid() && 0.0 < z <= 1.0
      modifies sizing
      ensures Valid() && sizing.loadFactor == z && sizing.capacityLog2 == old(sizing.capacityLog2)
      ensures forall other, id :: old(HasId(other, id)) ==> HasId(other, id)
    {
      hide Pow2, Holds, Parts, KeyOf;
      sizing.MaxLoadFactor(z);
    }

    /** `lookup`: whether `key` is in the set, and its id. */
    method Lookup(key: nat) returns (r: EntryRef)
      requires Valid() && key < Pow2(keyWidth)
      modifies Repr
      ensures Valid() && Repr == old(Repr) && keys == old(keys)
      ensures keyWidth == old(keyWidth) && sizing == old(sizing) && placement == old(placement)
      ensures sizing.loadFactor == old(sizing.loadFactor) && sizing.capacityLog2 == old(sizing.capacityLog2)
      ensures forall other, id :: old(HasId(other, id)) ==> HasId(other, id)
      ensures r.Found? <==> key in keys
      ensures r.Found? ==> r.keyAlreadyExist && HasId(key, r.id)
    {
      hide PartsOk, Pow2, Holds, IndexOf, Occupied, PtrOf, Parts, KeyOf, Sits, NeedsToGrow, Placement.Valid,
        SizeManager.Valid, Group, Groups, IdOf;
      PartsFacts(hash, sizing, keyWidth, placement, keys);
      ghost var g := placement.Contents();
      var k, w := sizing.capacityLog2, HashWidth();
      Pow2Monotone(keyWidth, w);
      UnitsLookup(g, hash, w, k, keys, key);
      var d := Parts(hash, w, k, key);
      ghost var p;
      r, p := placement.Search(d.initialAddress, d.storedQuotient);
      MakeParts(hash, sizing, keyWidth, placement, keys);
    }

    /** Every move reported so far can be looked up by its id. */
    ghost predicate Resolves(moves: seq<Event>)
      reads this, sizing, placement
    {
      forall i :: 0 <= i < |moves| ==> moves[i].OnReinsert? && HasId(moves[i].key, moves[i].id)
    }

    lemma ResolvesNext(moves: seq<Event>, key: nat, id: nat)
      requires Resolves(moves) && HasId(key, id)
      ensures Resolves(moves + [OnReinsert(key, id)])
    {
      hide HasId;
    }

    /** A complete report names every key once, and no id twice. */
    lemma LoggedDistinct(moves: seq<Event>, out: seq<Delivery<()>>, g: seq<seq<Entry<()>>>, f: HashFn, w: nat, k: nat,
        source: set<nat>)
      requires Valid() && source <= keys && Resolves(moves)
      requires Holds(g, f, w, k, Units(source)) && Delivered(out, g) && Logged(moves, out, f, w, k, |out|)
      ensures DistinctMoves(moves, source)
    {
      hide Valid, Holds, Delivered, KeyAt, KeyHasId, Parts, OwnParts, IdsReady;
      Intact();
      ReplayAll(out, g, f, w, k, Units(source));
      assert |Units(source)| == |source|;
      forall i | 0 <= i < |moves| ensures moves[i].key in source && moves[i].key < Pow2(HashWidth()) {
        DeliveredKey(out, g, f, w, k, Units(source), i);
      }
      forall i, j | 0 <= i < j < |moves| ensures moves[i].key != moves[j].key && moves[i].id != moves[j].id {
        DeliveredOnce(out, g, f, w, k, Units(source), i, j);
        if moves[i].id == moves[j].id {
          KeyIdsApart(placement.kind, placement.layout, hash, HashWidth(), sizing.capacityLog2,
            moves[i].key, moves[i].id, moves[j].key, moves[j].id);
        }
      }
    }

    /** The report of a rehash that moved the keys `moved`: the new capacity first, and then every key
        exactly once, with ids that are pairwise different and lead back to their keys. */
    ghost predicate Reported(events: seq<Event>, moved: set<nat>)
      reads this, sizing, placement
    {
      && |events| == 1 + |moved| && events[0] == OnResize(Pow2(sizing.capacityLog2))
      && Resolves(events[1..])
      && DistinctMoves(events[1..], moved)
    }

    /** Keys and ids belong together one to one. */
    lemma IdsUnique(a: nat, i: nat, b: nat, j: nat)
      requires Valid() && a in keys && b in keys && HasId(a, i) && HasId(b, j)
      ensures a == b <==> i == j
    {
      hide Pow2, KeyHasId, Holds, OwnParts, Valid, Parts, IdsReady;
      Intact();
      KeysFit(keyWidth);
      Pow2Monotone(keyWidth, HashWidth());
      KeyIdsApart(placement.kind, placement.layout, hash, HashWidth(), sizing.capacityLog2, a, i, b, j);
    }

    /** Every key has an id. */
    lemma SomeIdOf(key: nat) returns (id: nat)
      requires Valid() && key in keys
      ensures HasId(key, id)
    {
      hide Pow2, Holds, OwnParts, Parts, Valid, IndexOf, KeyOf, IdOf, IdsReady;
      Intact();
      KeysFit(keyWidth);
      var g, w, k := placement.Contents(), HashWidth(), sizing.capacityLog2;
      Pow2Monotone(keyWidth, w);
      UnitsLookup(g, hash, w, k, keys, key);
      var d := Parts(hash, w, k, key);
      id := SomeId(placement.kind, k, placement.layout, d.initialAddress, d.storedQuotient);
    }

    /** `ptr` points to the entry of `key`, in slot `p`: the slot stores the quotient of the key, and its
        home is that of the key. */
    ghost predicate PointsTo(ptr: Ptr, p: nat, key: nat)
      reads this, sizing, placement, placement.storage
    {
      && WidthOk(HashWidth()) && ptr == PtrOf(placement.storage.bvs, p)
      && var d := Parts(hash, HashWidth(), sizing.capacityLog2, key);
      && p < |placement.storage.slots| && placement.storage.slots[p] == Some(Entry(d.storedQuotient, ()))
      && Sits(placement.layout, p, d.initialAddress, Entry(d.storedQuotient, ()))
    }

    /** `lookup_id`: the entry of the key with that id, wherever insertions have moved it. */
    method LookupId(id: nat, ghost key: nat) returns (r: EntryRef, ghost p: nat)
      requires Valid() && key in keys && HasId(key, id)
      ensures r.Found? && r.id == id && r.keyAlreadyExist && PointsTo(r.ptr, p, key)
    {
      hide PartsOk, Pow2, Holds, IndexOf, Occupied, PtrOf, Parts, KeyOf, NeedsToGrow, SizeManager.Valid, Group, Groups,
        IdOf, Placement.Valid, Sits, IdsReady;
      Intact();
      placement.Facts();
      ghost var d := Parts(hash, HashWidth(), sizing.capacityLog2, key);
      r, p := placement.LookupId(id, d.initialAddress, d.storedQuotient);
      ghost var group := placement.Contents()[d.initialAddress];
      ghost var entry := group[IndexOf(group, d.storedQuotient)];
      assert entry.value == ();
      SitsStored(placement.layout, placement.storage.slots, p, d.initialAddress, entry);
    }

    /** The insertion itself, into a table with room for one more element. */
    method InsertRoomy(key: nat) returns (r: EntryRef)
      requires Valid() && key < Pow2(keyWidth)
      requires !NeedsToGrow(Pow2(sizing.capacityLog2), |keys| + 1, sizing.loadFactor)
      modifies Repr
      ensures Valid() && fresh(Repr - old(Repr)) && keyWidth == old(keyWidth)
      ensures sizing.loadFactor == old(sizing.loadFactor) && sizing.capacityLog2 == old(sizing.capacityLog2)
      ensures r.Found? && (r.keyAlreadyExist <==> key in old(keys))
      ensures keys == old(keys) + {key} && HasId(key, r.id)
      ensures forall other, id :: old(HasId(other, id)) ==> HasId(other, id)
    {
      hide PartsOk, Pow2, NeedsToGrow, SizeManager.Valid, KeyHasId;
      r := InsertIntoParts(hash, sizing, keyWidth, placement, keys, key);
      keys, Repr := keys + {key}, {this, sizing} + placement.Repr;
    }

    /** `lookup_insert_key_width`: finds or adds `key`, growing the key width and the table as needed.
        The observer is told about a rehash and about nothing else. */
    method LookupInsert(key: nat, newKeyWidth: nat) returns (r: EntryRef, events: seq<Event>)
      requires Valid() && newKeyWidth <= 64
      requires key < Pow2(Max(newKeyWidth, keyWidth)) && CanHold(|keys| + 1)
      modifies Repr
      ensures Valid() && fresh(Repr - old(Repr))
      ensures keys == old(keys) + {key} && keyWidth == Max(newKeyWidth, old(keyWidth))
      ensures sizing.loadFactor == old(sizing.loadFactor)
      ensures r.Found? && (r.keyAlreadyExist <==> key in old(keys)) && HasId(key, r.id)
      ensures LeastRoom(old(sizing.capacityLog2), sizing.capacityLog2, |old(keys)| + 1, sizing.loadFactor)
      ensures old(NeedsToRealloc(|keys| + 1, Max(newKeyWidth, keyWidth))) ==> Reported(events, old(keys))
      ensures !old(NeedsToRealloc(|keys| + 1, Max(newKeyWidth, keyWidth))) ==>
        && events == [] && sizing.capacityLog2 == old(sizing.capacityLog2)
        && forall other, id :: old(HasId(other, id)) ==> HasId(other, id)
      decreases if NeedsToRealloc(|keys| + 1, Max(newKeyWidth, keyWidth)) then 1 else 0, 3
    {
      hide Pow2, NeedsToGrow, LeastRoom, Valid, HasId, Reported;
      r, events := GrowAndInsert(key, Max(newKeyWidth, keyWidth));
    }

    /** `grow_key_width` */
    method GrowKeyWidth(newKeyWidth: nat) returns (events: seq<Event>)
      requires Valid() && newKeyWidth <= 64 && CanHold(|keys|)
      modifies Repr
      ensures Valid() && fresh(Repr - old(Repr))
      ensures keys == old(keys) && keyWidth == Max(newKeyWidth, old(keyWidth))
      ensures sizing.loadFactor == old(sizing.loadFactor)
      ensures LeastRoom(old(sizing.capacityLog2), sizing.capacityLog2, |keys|, sizing.loadFactor)
      ensures old(NeedsToRealloc(|keys|, Max(newKeyWidth, keyWidth))) ==> Reported(events, old(keys))
      ensures !old(NeedsToRealloc(|keys|, Max(newKeyWidth, keyWidth))) ==>
        && events == [] && sizing.capacityLog2 == old(sizing.capacityLog2)
        && forall other, id :: old(HasId(other, id)) ==> HasId(other, id)
    {
      hide Pow2, NeedsToGrow, LeastRoom, Valid, HasId, Reported;
      events := GrowIfNeeded(sizing.size, Max(newKeyWidth, keyWidth));
    }

    /** `grow_and_insert` */
    method GrowAndInsert(key: nat, newKeyWidth: nat) returns (r: EntryRef, events: seq<Event>)
      requires Valid() && keyWidth <= newKeyWidth <= 64 && key < Pow2(newKeyWidth) && CanHold(|keys| + 1)
      modifies Repr
      ensures Valid() && fresh(Repr - old(Repr))
      ensures keys == old(keys) + {key} && keyWidth == newKeyWidth && sizing.loadFactor == old(sizing.loadFactor)
      ensures r.Found? && (r.keyAlreadyExist <==> key in old(keys)) && HasId(key, r.id)
      ensures LeastRoom(old(sizing.capacityLog2), sizing.capacityLog2, |old(keys)| + 1, sizing.loadFactor)
      ensures old(NeedsToRealloc(|keys| + 1, newKeyWidth)) ==> Reported(events, old(keys))
      ensures !old(NeedsToRealloc(|keys| + 1, newKeyWidth)) ==>
        && events == [] && sizing.capacityLog2 == old(sizing.capacityLog2)
        && forall other, id :: old(HasId(other, id)) ==> HasId(other, id)
      decreases if NeedsToRealloc(|keys| + 1, newKeyWidth) then 1 else 0, 2
    {
      hide Pow2, NeedsToGrow, LeastRoom, Valid, HasId;
      events := GrowIfNeeded(sizing.size + 1, newKeyWidth);
      r := InsertRoomy(key);
    }

    /** `grow_if_needed`: rehashes everything into a larger or wider table, if the current one does not
        fit, and reports all new ids.  The new table takes all keys without growing itself. */
    method GrowIfNeeded(newSize: nat, newKeyWidth: nat) returns (events: seq<Event>)
      requires Valid() && keyWidth <= newKeyWidth <= 64
      requires |keys| <= newSize && CanHold(newSize)
      modifies Repr
      ensures Valid() && fresh(Repr - old(Repr))
      ensures keys == old(keys) && keyWidth == newKeyWidth && sizing.loadFactor == old(sizing.loadFactor)
      ensures !NeedsToRealloc(newSize, newKeyWidth)
      ensures old(sizing.capacityLog2) <= sizing.capacityLog2
      ensures forall i :: old(sizing.capacityLog2) <= i < sizing.capacityLog2 ==> NeedsToGrow(Pow2(i), newSize,
          sizing.loadFactor)
      ensures old(NeedsToRealloc(newSize, newKeyWidth)) ==> Reported(events, old(keys))
      ensures !old(NeedsToRealloc(newSize, newKeyWidth)) ==>
        && events == [] && Repr == old(Repr) && sizing.capacityLog2 == old(sizing.capacityLog2)
        && forall other, id :: old(HasId(other, id)) ==> HasId(other, id)
      ensures LeastRoom(old(sizing.capacityLog2), sizing.capacityLog2, newSize, sizing.loadFactor)
      decreases if NeedsToRealloc(newSize, newKeyWidth) then 1 else 0, 1
    {
      hide Pow2, NeedsToGrow, LeastRoom, Valid, HasId, SizeManager.Valid, Resolves, DistinctMoves;
      events := [];
      if NeedsToRealloc(newSize, newKeyWidth) {
        var newTable, moves := Rehashed(newSize, newKeyWidth);
        Adopt(newTable, moves);
        events := [OnResize(Pow2(sizing.capacityLog2))] + moves;
        assert events[1..] == moves;
      }
      GrowthSteps(old(sizing.capacityLog2), sizing.capacityLog2, newSize, sizing.loadFactor);
    }

    /** The first half of a rehash: a table of the next sufficient capacity that took all keys. */
    method Rehashed(newSize: nat, newKeyWidth: nat) returns (newTable: HashSet, moves: seq<Event>)
      requires Valid() && keyWidth <= newKeyWidth <= 64
      requires |keys| <= newSize && CanHold(newSize)
      modifies Repr
      ensures newTable.Valid() && fresh(newTable.Repr) && newTable.hash == hash && newTable.kind == kind
      ensures newTable.keys == old(keys) && newTable.sizing.loadFactor == old(sizing.loadFactor)
      ensures newTable.keyWidth == newKeyWidth
      ensures old(sizing.capacityLog2) <= newTable.sizing.capacityLog2
      ensures !NeedsToGrow(Pow2(newTable.sizing.capacityLog2), newSize, newTable.sizing.loadFactor)
      ensures forall i :: old(sizing.capacityLog2) <= i < newTable.sizing.capacityLog2 ==>
        NeedsToGrow(Pow2(i), newSize, newTable.sizing.loadFactor)
      ensures newTable.Resolves(moves) && DistinctMoves(moves, old(keys))
      decreases 1, 0
    {
      hide Pow2, NeedsToGrow, AdjustSize, Valid, SizeManager.Valid, HasId, HashWidth, Resolves, DistinctMoves;
      KeysFit(newKeyWidth);
      Intact();
      var newCapacity;
      ghost var k;
      newCapacity, k := sizing.GrownCapacity(newSize);
      CapacityOk(k);
      newTable := new HashSet(newCapacity, newKeyWidth, sizing.loadFactor, hash, kind, k);
      SmallerFits(Pow2(k), |keys|, newSize, sizing.loadFactor);
      SmallerFits(Pow2(63), |keys|, newSize, sizing.loadFactor);
      moves := MoveInto(newTable);
    }

    /** Takes over the state of `newTable`, as the move assignment at the end of a rehash does. */
    method Adopt(newTable: HashSet, ghost moves: seq<Event>)
      requires newTable.Valid() && newTable.hash == hash && newTable.kind == kind && this !in newTable.Repr
      modifies this
      ensures Valid() && Repr == newTable.Repr - {newTable} + {this}
      ensures keys == newTable.keys && sizing == newTable.sizing && keyWidth == newTable.keyWidth
      ensures newTable.Resolves(moves) ==> Resolves(moves)
    {
      hide Pow2, NeedsToGrow, PartsOk, SizeManager.Valid, KeyHasId, RealWidth;
      sizing, placement := newTable.sizing, newTable.placement;
      keyWidth, keys := newTable.keyWidth, newTable.keys;
      Repr := newTable.Repr - {newTable} + {this};
    }

    /** A table that has room for `total` keys has room for one more than it holds. */
    lemma RoomForOne(total: nat)
      requires |keys| < total && CanHold(total)
      ensures CanHold(|keys| + 1)
      ensures NeedsToGrow(Pow2(sizing.capacityLog2), |keys| + 1, sizing.loadFactor) ==>
        NeedsToGrow(Pow2(sizing.capacityLog2), total, sizing.loadFactor)
    {
      hide Pow2, NeedsToGrow;
      var newSize := |keys| + 1;
      SmallerFits(Pow2(63), newSize, total, sizing.loadFactor);
      SmallerFits(Pow2(sizing.capacityLog2), newSize, total, sizing.loadFactor);
    }

    /** `move_into`: drains this set into `other`, which must not share a key with it.  The ids in the
        report are those at the time of each move; they still hold at the end if `other` need not grow.
        This table is not to be used any more. */
    method MoveInto(other: HashSet) returns (moves: seq<Event>)
      requires Valid() && other.Valid() && other.Repr !! Repr && other.keys !! keys
      requires forall key :: key in keys ==> key < Pow2(other.keyWidth)
      requires other.CanHold(|other.keys| + |keys|)
      modifies Repr, other.Repr
      ensures other.Valid() && fresh(other.Repr - old(other.Repr))
      ensures other.keys == old(other.keys) + old(keys) && other.keyWidth == old(other.keyWidth)
      ensures other.sizing.loadFactor == old(other.sizing.loadFactor)
      ensures this.keyWidth == old(this.keyWidth) && this.sizing == old(this.sizing)
      ensures GrownFor(old(other.sizing.capacityLog2), other.sizing.capacityLog2, old(|other.keys| + |keys|),
        other.sizing.loadFactor)
      ensures !old(NeedsToGrow(Pow2(other.sizing.capacityLog2), |other.keys| + |keys|, other.sizing.loadFactor)) ==>
        && other.sizing.capacityLog2 == old(other.sizing.capacityLog2)
        && other.Resolves(moves) && DistinctMoves(moves, old(keys))
      decreases
        if NeedsToGrow(Pow2(other.sizing.capacityLog2), |other.keys| + |keys|, other.sizing.loadFactor) then 2 else 0, 4
    {
      hide Pow2, NeedsToGrow, LeastRoom, TooFull, GrownFor, Holds, Valid, Placement.Valid, Occupied, Took, Delivered,
        KeyOf, Parts, DeliveredTo, Groups, HasId, Reported, Logged, DistinctMoves, Units, PtrOf, OwnParts, KeyAt;
      Intact();
      ghost var g, source, before, total := placement.Contents(), keys, other.keys, |other.keys| + |keys|;
      ghost var k0, z, objects := other.sizing.capacityLog2, other.sizing.loadFactor, other.Repr;
      ghost var roomy := !NeedsToGrow(Pow2(k0), total, z);
      var w, k := HashWidth(), sizing.capacityLog2;
      var out := placement.DrainAll();
      DeliveredIs(out, g);
      TookNone(out, hash, w, k, before);
      LoggedNone(out, hash, w, k);
      moves := [];
      GrownNone(k0, total, z);
      var i := 0;
      while i < |out|
        invariant 0 <= i <= |out| && Logged(moves, out, hash, w, k, i)
        invariant other.Valid() && fresh(other.Repr - objects)
        invariant Took(other.keys, before, out, hash, w, k, i)
        invariant other.keyWidth == old(other.keyWidth)
        invariant other.sizing.loadFactor == z
        invariant roomy ==> other.sizing.capacityLog2 == k0 && other.Resolves(moves)
        invariant GrownFor(k0, other.sizing.capacityLog2, total, z)
        invariant keyWidth == old(keyWidth) && sizing == old(sizing)
        decreases |out| - i
      {
        TookNext(other.keys, out, g, hash, w, k, source, before, i);
        other.RoomForOne(total);
        var key := KeyOf(hash, w, k, out[i].home, out[i].entry.quotient);
        ghost var k1, asked := other.sizing.capacityLog2, |other.keys| + 1;
        var r, _ := other.LookupInsert(key, other.keyWidth);
        GrownNext(k0, k1, other.sizing.capacityLog2, asked, total, z);
        LoggedNext(moves, out, hash, w, k, i, r.id);
        if roomy {
          other.ResolvesNext(moves, key, r.id);
        }
        moves := moves + [OnReinsert(key, r.id)];
        i := i + 1;
      }
      TookAll(other.keys, out, g, hash, w, k, source, before);
      if roomy {
        other.LoggedDistinct(moves, out, g, hash, w, k, source);
      }
    }
  }

  /** A key is in the set exactly when its quotient is in its home. */
  lemma UnitsLookup(g: seq<seq<Entry<()>>>, f: HashFn, w: nat, k: nat, keys: set<nat>, key: nat)
    requires Holds(g, f, w, k, Units(keys)) && key < Pow2(w)
    ensures var d := Parts(f, w, k, key);
      && d.initialAddress < |g|
      && (key in keys <==> IndexOf(g[d.initialAddress], d.storedQuotient) >= 0)
  {
    hide Holds, Parts, Pow2, IndexOf;
    HoldsLookup(g, f, w, k, Units(keys), key);
  }

  /** Appending the quotient of a new key to its home adds the key to the set. */
  lemma KeyAdded(g: seq<seq<Entry<()>>>, g': seq<seq<Entry<()>>>, f: HashFn, w: nat, k: nat, keys: set<nat>, key: nat,
      known: bool, x: Entry<()>)
    requires Holds(g, f, w, k, Units(keys)) && key < Pow2(w) && (known <==> key in keys)
    requires known ==> g' == g
    requires var d := Parts(f, w, k, key);
      d.initialAddress < |g| && (!known ==>
      x.quotient == d.storedQuotient && g' == g[d.initialAddress := g[d.initialAddress] + [x]])
    ensures Holds(g', f, w, k, Units(keys + {key}))
    ensures |keys + {key}| == |keys| + if known then 0 else 1
  {
    hide Holds, Parts, Pow2;
    if known {
      assert keys + {key} == keys;
    } else {
      HoldsInsert(g, f, w, k, Units(keys), key, ());
      assert x.value == () && Units(keys + {key}) == Units(keys)[key := ()];
    }
  }

  /** The moves are about the keys `moved`, each exactly once, and no id is used twice. */
  ghost predicate DistinctMoves(moves: seq<Event>, moved: set<nat>)
    ensures DistinctMoves(moves, moved) ==> |moves| == |moved|
  {
    && |moves| == |moved|
    && (forall i :: 0 <= i < |moves| ==> moves[i].OnReinsert? && moves[i].key in moved)
    && (forall i, j :: 0 <= i < j < |moves| ==> moves[i].key != moves[j].key && moves[i].id != moves[j].id)
  }
}
