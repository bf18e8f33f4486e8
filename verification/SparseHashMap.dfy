/** The sparse hash map over any placement (`hashmap_t` as `sparse_cv_hashmap_t`, `sparse_elias_hashmap_t` or
    `sparse_layered_hashmap_t`). */
module SparseHashMap {
  import opened Bits
  import opened Entries
  import opened Layouts
  import opened Sizing
  import opened HashFunctions
  import opened Keys
  import opened SparseStorage
  import opened Placements

  /** Sizing, placement and contents of a table go together. */
  ghost predicate PartsOk<V(0)>(hash: HashFn, sizing: SizeManager, keyWidth: nat, placement: Placement<V>,
      dict: map<nat, V>)
    reads sizing, placement, placement.Repr
    ensures PartsOk(hash, sizing, keyWidth, placement, dict) ==>
      sizing.Valid() && 1 <= keyWidth <= 64 && |dict| == sizing.size
  {
    && sizing.Valid() && placement.Valid()
    && placement.capacityLog2 == sizing.capacityLog2
    && 1 <= keyWidth <= 64
    && Holds(placement.Contents(), hash, RealWidth(sizing.capacityLog2, keyWidth), sizing.capacityLog2, dict)
    && |dict| == sizing.size == |Occupied(placement.storage.slots)|
    && (forall key :: key in dict ==> key < Pow2(keyWidth))
  }

  /** What the parts say, for use with their definitions hidden. */
  lemma PartsFacts<V(0)>(hash: HashFn, sizing: SizeManager, keyWidth: nat, placement: Placement<V>, dict: map<nat, V>)
    requires PartsOk(hash, sizing, keyWidth, placement, dict)
    ensures placement.Valid() && placement.n == |placement.Contents()| == Pow2(sizing.capacityLog2)
    ensures placement.capacityLog2 == sizing.capacityLog2 && placement.kind.Ok()
    ensures |dict| == |Occupied(placement.storage.slots)|
    ensures forall key :: key in dict ==> key < Pow2(keyWidth)
    ensures Holds(placement.Contents(), hash, RealWidth(sizing.capacityLog2, keyWidth), sizing.capacityLog2, dict)
  {
    hide Pow2, Holds, SizeManager.Valid, Occupied, Groups, Placement.Chosen, Fits;
  }

  lemma MakeParts<V(0)>(hash: HashFn, sizing: SizeManager, keyWidth: nat, placement: Placement<V>, dict: map<nat, V>)
    requires sizing.Valid() && placement.Valid() && placement.capacityLog2 == sizing.capacityLog2
    requires 1 <= keyWidth <= 64 && |dict| == sizing.size == |Occupied(placement.storage.slots)|
    requires forall key :: key in dict ==> key < Pow2(keyWidth)
    requires Holds(placement.Contents(), hash, RealWidth(sizing.capacityLog2, keyWidth), sizing.capacityLog2, dict)
    ensures PartsOk(hash, sizing, keyWidth, placement, dict)
  {
    hide Pow2, Holds, SizeManager.Valid, Occupied, Groups, Placement.Valid;
  }

  lemma EmptyParts<V(0)>(hash: HashFn, sizing: SizeManager, keyWidth: nat, placement: Placement<V>)
    requires sizing.Valid() && sizing.size == 0 && placement.Valid() && placement.capacityLog2 == sizing.capacityLog2
    requires 1 <= keyWidth <= 64
    requires placement.Contents() == seq(Pow2(sizing.capacityLog2), _ => [])
    requires placement.storage.slots == seq(Pow2(sizing.capacityLog2), _ => None)
    ensures PartsOk(hash, sizing, keyWidth, placement, map[])
  {
    hide Pow2, Groups, Placement.Valid;
    HoldsNothing<V>(placement.Contents(), hash, RealWidth(sizing.capacityLog2, keyWidth), sizing.capacityLog2);
    assert Occupied(placement.storage.slots) == {};
  }

  class HashMap<V(0)> {
    const hash: HashFn
    const kind: PlacementKind
    /** The value a default-constructed element gets. */
    const initial: V
    var sizing: SizeManager
    var keyWidth: nat
    var valueWidth: nat
    var placement: Placement<V>
    /** The finite map this table stands for. */
    ghost var dict: map<nat, V>
    ghost var Repr: set<object>

    /** The number of bits that are hashed. */
    function HashWidth(): nat
      reads this, sizing
    {
      RealWidth(sizing.capacityLog2, keyWidth)
    }

    /** The parts of the table are its own. */
    ghost predicate OwnParts()
      reads this, placement
      ensures OwnParts() ==> this in Repr && sizing in Repr && placement in Repr && placement.Repr <= Repr
      ensures OwnParts() ==> this !in placement.Repr && sizing !in placement.Repr && placement in placement.Repr
    {
      && Repr == {this, sizing} + placement.Repr && placement in placement.Repr && placement.kind == kind
      && this !in placement.Repr && sizing !in placement.Repr
    }

    ghost predicate Valid()
      reads this, Repr
      ensures Valid() ==> this in Repr && sizing in Repr && placement in Repr && placement.Repr <= Repr
      ensures Valid() ==> sizing.Valid() && 1 <= keyWidth <= 64 && 1 <= valueWidth <= 64 && |dict| == sizing.size
    {
      && placement in Repr && OwnParts() && PartsOk(hash, sizing, keyWidth, placement, dict)
      && 1 <= valueWidth <= 64
    }

    /** `needs_to_realloc` */
    predicate NeedsToRealloc(newSize: nat, newKeyWidth: nat, newValueWidth: nat)
      reads this, sizing
    {
      || NeedsToGrow(Pow2(sizing.capacityLog2), newSize, sizing.loadFactor)
      || newKeyWidth != keyWidth
      || newValueWidth != valueWidth
    }

    /** The largest table a 64-bit machine can index is large enough for `newSize` elements. */
    ghost predicate CanHold(newSize: nat)
      reads this, sizing
    {
      !NeedsToGrow(Pow2(63), newSize, sizing.loadFactor)
    }

    /** `id` is the id of the stored key `key`. */
    ghost predicate HasId(key: nat, id: nat)
      reads this, sizing, placement
    {
      && WidthOk(HashWidth())
      && KeyHasId(placement.kind, placement.layout, hash, HashWidth(), sizing.capacityLog2, key, id)
    }

    constructor (size: nat, keyWidth: nat, valueWidth: nat, z: real, hash: HashFn, kind: PlacementKind, initial: V,
        ghost k: nat)
      requires 0.0 < z <= 1.0 && 1 <= keyWidth <= 64 && 1 <= valueWidth <= 64
      requires k <= 63 && AdjustSize(size) == Pow2(k) && kind.Ok()
      ensures Valid() && fresh(Repr)
      ensures dict == map[] && this.keyWidth == keyWidth && this.valueWidth == valueWidth
      ensures this.hash == hash && this.kind == kind && this.initial == initial
      ensures sizing.capacityLog2 == k && sizing.loadFactor == z
      ensures Pow2(sizing.capacityLog2) == if size >= 2 then size else 2
    {
      hide Pow2, NeedsToGrow, PartsOk, Placement.Valid, SizeManager.Valid, AdjustSize, Groups;
      this.hash, this.kind, this.initial := hash, kind, initial;
      this.keyWidth, this.valueWidth := keyWidth, valueWidth;
      var manager := new SizeManager(size, z, k);
      var made := new Placement<V>(manager.capacityLog2, kind);
      EmptyParts(hash, manager, keyWidth, made);
      this.sizing, this.placement := manager, made;
      this.dict := map[];
      this.Repr := {this, manager} + made.Repr;
    }

    /** What the parts say, for use with their definitions hidden. */
    lemma Intact()
      requires Valid()
      ensures placement.Valid() && placement.n == |placement.Contents()| && OwnParts()
      ensures placement.capacityLog2 == sizing.capacityLog2 && placement.n == Pow2(sizing.capacityLog2)
      ensures |dict| == |Occupied(placement.storage.slots)|
      ensures Holds(placement.Contents(), hash, HashWidth(), sizing.capacityLog2, dict)
      ensures placement.Repr <= Repr && placement in placement.Repr && placement.kind == kind && kind.Ok()
      ensures this !in placement.Repr && sizing !in placement.Repr
      ensures IdsReady(sizing.capacityLog2, placement.layout)
    {
      hide Pow2, PartsOk, Holds, NeedsToGrow, SizeManager.Valid, Occupied, Groups, Placement.Valid, IdsReady;
      PartsFacts(hash, sizing, keyWidth, placement, dict);
      placement.Facts();
    }

    lemma KeysFit(newKeyWidth: nat)
      requires Valid() && keyWidth <= newKeyWidth
      ensures forall key :: key in dict ==> key < Pow2(newKeyWidth)
    {
      hide PartsOk, SizeManager.Valid, OwnParts, Pow2;
      PartsFacts(hash, sizing, keyWidth, placement, dict);
      Pow2Monotone(keyWidth, newKeyWidth);
    }

    /** `max_load_factor`; the table itself only changes at the next insertion. */
    method MaxLoadFactor(z: real)
      requires Valid() && 0.0 < z <= 1.0
      modifies sizing
      ensures Valid() && sizing.loadFactor == z
      ensures sizing.capacityLog2 == old(sizing.capacityLog2)
      ensures forall other, id :: old(HasId(other, id)) ==> HasId(other, id)
    {
      hide Pow2, Holds, Parts, KeyOf, Placement.Valid;
      sizing.MaxLoadFactor(z);
    }

    /** `search`: the value of `key`, if it is in the map. */
    method Search(key: nat) returns (r: Option<V>)
      requires Valid() && key < Pow2(keyWidth)
      modifies Repr
      ensures Valid() && Repr == old(Repr) && dict == old(dict)
      ensures keyWidth == old(keyWidth) && valueWidth == old(valueWidth)
      ensures sizing.loadFactor == old(sizing.loadFactor) && sizing.capacityLog2 == old(sizing.capacityLog2)
      ensures forall other, id :: old(HasId(other, id)) ==> HasId(other, id)
      ensures r == if key in dict then Some(dict[key]) else None
    {
      hide PartsOk, Pow2, Holds, IndexOf, Occupied, PtrOf, Parts, KeyOf, Sits, NeedsToGrow, Placement.Valid,
        SizeManager.Valid, Group, Groups, IdOf;
      PartsFacts(hash, sizing, keyWidth, placement, dict);
      ghost var g := placement.Contents();
      var k, w := sizing.capacityLog2, HashWidth();
      Pow2Monotone(keyWidth, w);
      HoldsLookup(g, hash, w, k, dict, key);
      var d := Parts(hash, w, k, key);
      var found;
      ghost var p;
      found, p := placement.Search(d.initialAddress, d.storedQuotient);
      MakeParts(hash, sizing, keyWidth, placement, dict);
      r := None;
      if found.Found? {
        placement.Facts();
        SitsStored(placement.layout, placement.storage.slots, p, d.initialAddress,
          g[d.initialAddress][IndexOf(g[d.initialAddress], d.storedQuotient)]);
        var entry := placement.storage.Read(found.ptr, p);
        r := Some(entry.value);
      }
    }

    /** Keys and ids belong together one to one. */
    lemma IdsUnique(a: nat, i: nat, b: nat, j: nat)
      requires Valid() && a in dict && b in dict && HasId(a, i) && HasId(b, j)
      ensures a == b <==> i == j
    {
      hide Pow2, KeyHasId, Holds, OwnParts, Valid, Parts, IdsReady;
      Intact();
      KeysFit(keyWidth);
      Pow2Monotone(keyWidth, HashWidth());
      KeyIdsApart(placement.kind, placement.layout, hash, HashWidth(), sizing.capacityLog2, a, i, b, j);
    }

    /** Every key has an id. */
    lemma SomeIdOf(key: nat) returns (id: nat)
      requires Valid() && key in dict
      ensures HasId(key, id)
    {
      hide Pow2, Holds, OwnParts, Parts, Valid, IndexOf, KeyOf, IdOf, IdsReady;
      Intact();
      KeysFit(keyWidth);
      var g, w, k := placement.Contents(), HashWidth(), sizing.capacityLog2;
      Pow2Monotone(keyWidth, w);
      HoldsLookup(g, hash, w, k, dict, key);
      var d := Parts(hash, w, k, key);
      id := SomeId(placement.kind, k, placement.layout, d.initialAddress, d.storedQuotient);
    }

    /** `ptr` points to the entry of `key`, in slot `p`. */
    ghost predicate PointsTo(ptr: Ptr, p: nat, key: nat)
      reads this, sizing, placement, placement.storage
    {
      && WidthOk(HashWidth()) && key in dict && ptr == PtrOf(placement.storage.bvs, p)
      && var d := Parts(hash, HashWidth(), sizing.capacityLog2, key);
         Sits(placement.layout, p, d.initialAddress, Entry(d.storedQuotient, dict[key]))
    }

    /** `lookup_id`: the entry of the key with that id, wherever insertions have moved it. */
    method LookupId(id: nat, ghost key: nat) returns (r: EntryRef, ghost p: nat)
      requires Valid() && key in dict && HasId(key, id)
      ensures r.Found? && r.id == id && r.keyAlreadyExist && PointsTo(r.ptr, p, key)
    {
      hide PartsOk, Pow2, Holds, IndexOf, Occupied, PtrOf, Parts, KeyOf, NeedsToGrow, SizeManager.Valid, Group, Groups,
        IdOf, Placement.Valid, Sits, IdsReady;
      Intact();
      KeysFit(keyWidth);
      Pow2Monotone(keyWidth, HashWidth());
      HoldsLookup(placement.Contents(), hash, HashWidth(), sizing.capacityLog2, dict, key);
      ghost var d := Parts(hash, HashWidth(), sizing.capacityLog2, key);
      r, p := placement.LookupId(id, d.initialAddress, d.storedQuotient);
    }

    /** The insertion itself, into a table with room for one more element. */
    method InsertRoomy(key: nat) returns (r: EntryRef, ghost p: nat)
      requires Valid() && key < Pow2(keyWidth)
      requires !NeedsToGrow(Pow2(sizing.capacityLog2), |dict| + 1, sizing.loadFactor)
      modifies Repr
      ensures Valid() && fresh(Repr - old(Repr))
      ensures keyWidth == old(keyWidth) && valueWidth == old(valueWidth)
      ensures sizing.loadFactor == old(sizing.loadFactor) && sizing.capacityLog2 == old(sizing.capacityLog2)
      ensures r.Found? && (r.keyAlreadyExist <==> key in old(dict))
      ensures key in dict && dict == old(dict)[key := dict[key]]
      ensures key in old(dict) ==> dict == old(dict)
      ensures PointsTo(r.ptr, p, key) && HasId(key, r.id)
      ensures forall other, id :: old(HasId(other, id)) ==> HasId(other, id)
    {
      hide PartsOk, Pow2, Holds, IndexOf, Occupied, PtrOf, Parts, KeyOf, Sits, NeedsToGrow, Placement.Valid,
        SizeManager.Valid, Group, Groups, IdOf, IdsKept;
      PartsFacts(hash, sizing, keyWidth, placement, dict);
      ghost var g, s := placement.Contents(), placement.layout;
      var k, w := sizing.capacityLog2, HashWidth();
      Pow2Monotone(keyWidth, w);
      RoomLeft(k, |dict| + 1, sizing.loadFactor);
      HoldsLookup(g, hash, w, k, dict, key);
      var d := Parts(hash, w, k, key);
      QuotientFits(hash, w, k, key);
      r, p := placement.LookupInsert(d.initialAddress, d.storedQuotient);
      KeyIdsKept(placement.kind, s, placement.layout, hash, w, k);
      Repr := {this, sizing} + placement.Repr;
      if !r.keyAlreadyExist {
        ghost var val := placement.layout[p].entry.value;
        sizing.SetSize(sizing.size + 1);
        HoldsInsert(g, hash, w, k, dict, key, val);
        dict := dict[key := val];
      }
      MakeParts(hash, sizing, keyWidth, placement, dict);
    }

    /** Writes the value behind the pointer of `key`. */
    method SetValue(ptr: Ptr, ghost p: nat, ghost key: nat, val: V)
      requires Valid() && PointsTo(ptr, p, key)
      modifies Repr
      ensures Valid() && Repr == old(Repr)
      ensures keyWidth == old(keyWidth) && valueWidth == old(valueWidth)
      ensures sizing.loadFactor == old(sizing.loadFactor) && sizing.capacityLog2 == old(sizing.capacityLog2)
      ensures dict == old(dict)[key := val] && PointsTo(ptr, p, key)
      ensures forall other, id :: old(HasId(other, id)) ==> HasId(other, id)
    {
      hide PartsOk, Pow2, Holds, IndexOf, Occupied, PtrOf, Parts, KeyOf, Sits, NeedsToGrow, Placement.Valid,
        SizeManager.Valid, Group, Groups, IdOf, IdsKept;
      PartsFacts(hash, sizing, keyWidth, placement, dict);
      ghost var k, w := sizing.capacityLog2, HashWidth();
      ghost var g, s := placement.Contents(), placement.layout;
      ghost var d := Parts(hash, w, k, key);
      Pow2Monotone(keyWidth, w);
      HoldsLookup(g, hash, w, k, dict, key);
      placement.SetValue(ptr, val, p, d.initialAddress, Entry(d.storedQuotient, dict[key]));
      KeyIdsKept(placement.kind, s, placement.layout, hash, w, k);
      HoldsUpdate(g, hash, w, k, dict, key, val);
      dict := dict[key := val];
      MakeParts(hash, sizing, keyWidth, placement, dict);
    }

    /** `insert_kv_width`: sets the value of `key`, growing the widths and the table as needed. */
    method Insert(key: nat, value: V, newKeyWidth: nat, newValueWidth: nat)
      returns (r: EntryRef, ghost p: nat)
      requires Valid() && newKeyWidth <= 64 && newValueWidth <= 64
      requires key < Pow2(Max(newKeyWidth, keyWidth)) && CanHold(|dict| + 1)
      modifies Repr
      ensures Valid() && fresh(Repr - old(Repr))
      ensures dict == old(dict)[key := value]
      ensures keyWidth == Max(newKeyWidth, old(keyWidth)) && valueWidth == Max(newValueWidth, old(valueWidth))
      ensures sizing.loadFactor == old(sizing.loadFactor)
      ensures r.Found? && (r.keyAlreadyExist <==> key in old(dict)) && HasId(key, r.id)
      ensures PointsTo(r.ptr, p, key)
      ensures LeastRoom(old(sizing.capacityLog2), sizing.capacityLog2, |old(dict)| + 1, sizing.loadFactor)
      ensures !old(NeedsToRealloc(|dict| + 1, Max(newKeyWidth, keyWidth), Max(newValueWidth, valueWidth))) ==>
        && sizing.capacityLog2 == old(sizing.capacityLog2)
        && forall other, id :: old(HasId(other, id)) ==> HasId(other, id)
      decreases
        if NeedsToRealloc(|dict| + 1, Max(newKeyWidth, keyWidth), Max(newValueWidth, valueWidth)) then 1 else 0, 3
    {
      hide Pow2, NeedsToGrow, LeastRoom, Valid, PointsTo, HasId;
      r, p := GrowAndInsert(key, Max(newKeyWidth, keyWidth), Max(newValueWidth, valueWidth));
      SetValue(r.ptr, p, key, value);
    }

    /** `access_entry_kv_width`: the entry of `key`, with a default value if it is new. */
    method AccessEntry(key: nat, newKeyWidth: nat, newValueWidth: nat)
      returns (r: EntryRef, ghost p: nat)
      requires Valid() && newKeyWidth <= 64 && newValueWidth <= 64
      requires key < Pow2(Max(newKeyWidth, keyWidth)) && CanHold(|dict| + 1)
      modifies Repr
      ensures Valid() && fresh(Repr - old(Repr))
      ensures dict == if key in old(dict) then old(dict) else old(dict)[key := initial]
      ensures keyWidth == Max(newKeyWidth, old(keyWidth)) && valueWidth == Max(newValueWidth, old(valueWidth))
      ensures sizing.loadFactor == old(sizing.loadFactor)
      ensures r.Found? && (r.keyAlreadyExist <==> key in old(dict)) && HasId(key, r.id)
      ensures PointsTo(r.ptr, p, key)
      ensures LeastRoom(old(sizing.capacityLog2), sizing.capacityLog2, |old(dict)| + 1, sizing.loadFactor)
      ensures !old(NeedsToRealloc(|dict| + 1, Max(newKeyWidth, keyWidth), Max(newValueWidth, valueWidth))) ==>
        && sizing.capacityLog2 == old(sizing.capacityLog2)
        && forall other, id :: old(HasId(other, id)) ==> HasId(other, id)
    {
      hide Pow2, NeedsToGrow, LeastRoom, Valid, PointsTo, HasId;
      r, p := GrowAndInsert(key, Max(newKeyWidth, keyWidth), Max(newValueWidth, valueWidth));
      if !r.keyAlreadyExist {
        SetValue(r.ptr, p, key, initial);
      }
    }

    /** `grow_kv_width` */
    method GrowWidths(newKeyWidth: nat, newValueWidth: nat)
      requires Valid() && newKeyWidth <= 64 && newValueWidth <= 64 && CanHold(|dict|)
      modifies Repr
      ensures Valid() && fresh(Repr - old(Repr))
      ensures dict == old(dict) && sizing.loadFactor == old(sizing.loadFactor)
      ensures keyWidth == Max(newKeyWidth, old(keyWidth)) && valueWidth == Max(newValueWidth, old(valueWidth))
      ensures LeastRoom(old(sizing.capacityLog2), sizing.capacityLog2, |dict|, sizing.loadFactor)
      ensures !old(NeedsToRealloc(|dict|, Max(newKeyWidth, keyWidth), Max(newValueWidth, valueWidth))) ==>
        && sizing.capacityLog2 == old(sizing.capacityLog2)
        && forall other, id :: old(HasId(other, id)) ==> HasId(other, id)
    {
      hide Pow2, NeedsToGrow, LeastRoom, Valid, HasId;
      GrowIfNeeded(sizing.size, Max(newKeyWidth, keyWidth), Max(newValueWidth, valueWidth));
    }

    /** `grow_and_insert`: makes room, and finds or adds the entry of `key`.  The value of a new entry
        is not initialized yet. */
    method GrowAndInsert(key: nat, newKeyWidth: nat, newValueWidth: nat) returns (r: EntryRef, ghost p: nat)
      requires Valid() && keyWidth <= newKeyWidth <= 64 && valueWidth <= newValueWidth <= 64
      requires key < Pow2(newKeyWidth) && CanHold(|dict| + 1)
      modifies Repr
      ensures Valid() && fresh(Repr - old(Repr))
      ensures keyWidth == newKeyWidth && valueWidth == newValueWidth && sizing.loadFactor == old(sizing.loadFactor)
      ensures r.Found? && (r.keyAlreadyExist <==> key in old(dict))
      ensures key in dict && dict == old(dict)[key := dict[key]]
      ensures key in old(dict) ==> dict == old(dict)
      ensures PointsTo(r.ptr, p, key) && HasId(key, r.id)
      ensures LeastRoom(old(sizing.capacityLog2), sizing.capacityLog2, |old(dict)| + 1, sizing.loadFactor)
      ensures !old(NeedsToRealloc(|dict| + 1, newKeyWidth, newValueWidth)) ==>
        && sizing.capacityLog2 == old(sizing.capacityLog2)
        && forall other, id :: old(HasId(other, id)) ==> HasId(other, id)
      decreases if NeedsToRealloc(|dict| + 1, newKeyWidth, newValueWidth) then 1 else 0, 2
    {
      hide Pow2, NeedsToGrow, LeastRoom, Valid, PointsTo, HasId;
      GrowIfNeeded(sizing.size + 1, newKeyWidth, newValueWidth);
      r, p := InsertRoomy(key);
    }

    /** `grow_if_needed`: rehashes everything into a larger or wider table, if the current one does not
        fit.  The new table takes all entries without growing itself, so this does not recur. */
    method GrowIfNeeded(newSize: nat, newKeyWidth: nat, newValueWidth: nat)
      requires Valid() && keyWidth <= newKeyWidth <= 64 && valueWidth <= newValueWidth <= 64
      requires |dict| <= newSize && CanHold(newSize)
      modifies Repr
      ensures Valid() && fresh(Repr - old(Repr))
      ensures dict == old(dict) && sizing.loadFactor == old(sizing.loadFactor)
      ensures !NeedsToRealloc(newSize, newKeyWidth, newValueWidth)
      ensures old(sizing.capacityLog2) <= sizing.capacityLog2
      ensures forall i :: old(sizing.capacityLog2) <= i < sizing.capacityLog2 ==> NeedsToGrow(Pow2(i), newSize,
          sizing.loadFactor)
      ensures !old(NeedsToRealloc(newSize, newKeyWidth, newValueWidth)) ==>
        && Repr == old(Repr) && sizing.capacityLog2 == old(sizing.capacityLog2)
        && forall other, id :: old(HasId(other, id)) ==> HasId(other, id)
      ensures LeastRoom(old(sizing.capacityLog2), sizing.capacityLog2, newSize, sizing.loadFactor)
      decreases if NeedsToRealloc(newSize, newKeyWidth, newValueWidth) then 1 else 0, 1
    {
      hide Pow2, NeedsToGrow, LeastRoom, Valid, SizeManager.Valid, HasId;
      if NeedsToRealloc(newSize, newKeyWidth, newValueWidth) {
        var newTable := Rehashed(newSize, newKeyWidth, newValueWidth);
        Adopt(newTable);
      }
      GrowthSteps(old(sizing.capacityLog2), sizing.capacityLog2, newSize, sizing.loadFactor);
    }

    /** The first half of a rehash: a table of the next sufficient capacity that took all entries. */
    method Rehashed(newSize: nat, newKeyWidth: nat, newValueWidth: nat) returns (newTable: HashMap<V>)
      requires Valid() && keyWidth <= newKeyWidth <= 64 && 1 <= newValueWidth <= 64
      requires |dict| <= newSize && CanHold(newSize)
      modifies Repr
      ensures newTable.Valid() && fresh(newTable.Repr) && newTable.hash == hash && newTable.kind == kind
      ensures newTable.dict == old(dict) && newTable.sizing.loadFactor == old(sizing.loadFactor)
      ensures newTable.keyWidth == newKeyWidth && newTable.valueWidth == newValueWidth
      ensures old(sizing.capacityLog2) <= newTable.sizing.capacityLog2
      ensures !NeedsToGrow(Pow2(newTable.sizing.capacityLog2), newSize, newTable.sizing.loadFactor)
      ensures forall i :: old(sizing.capacityLog2) <= i < newTable.sizing.capacityLog2 ==>
        NeedsToGrow(Pow2(i), newSize, newTable.sizing.loadFactor)
      decreases 1, 0
    {
      hide Pow2, NeedsToGrow, AdjustSize, Valid, SizeManager.Valid, HasId, HashWidth;
      KeysFit(newKeyWidth);
      Intact();
      var newCapacity;
      ghost var k;
      newCapacity, k := sizing.GrownCapacity(newSize);
      CapacityOk(k);
      newTable := new HashMap<V>(newCapacity, newKeyWidth, newValueWidth, sizing.loadFactor, hash, kind, initial, k);
      SmallerFits(Pow2(k), |dict|, newSize, sizing.loadFactor);
      SmallerFits(Pow2(63), |dict|, newSize, sizing.loadFactor);
      PeakOfNew(dict);
      MoveInto(newTable);
    }

    /** Takes over the state of `newTable`, as the move assignment at the end of a rehash does. */
    method Adopt(newTable: HashMap<V>)
      requires newTable.Valid() && newTable.hash == hash && newTable.kind == kind && this !in newTable.Repr
      modifies this
      ensures Valid() && Repr == newTable.Repr - {newTable} + {this}
      ensures dict == newTable.dict && sizing == newTable.sizing
      ensures keyWidth == newTable.keyWidth && valueWidth == newTable.valueWidth
    {
      hide Pow2, NeedsToGrow, PartsOk, SizeManager.Valid, RealWidth;
      sizing, placement := newTable.sizing, newTable.placement;
      keyWidth, valueWidth, dict := newTable.keyWidth, newTable.valueWidth, newTable.dict;
      Repr := newTable.Repr - {newTable} + {this};
    }

    /** A table that has room for `total` elements has room for one more than it holds. */
    lemma RoomForOne(total: nat)
      requires |dict| < total && CanHold(total)
      ensures CanHold(|dict| + 1)
      ensures NeedsToGrow(Pow2(sizing.capacityLog2), |dict| + 1, sizing.loadFactor) ==>
        NeedsToGrow(Pow2(sizing.capacityLog2), total, sizing.loadFactor)
    {
      hide Pow2, NeedsToGrow;
      var newSize := |dict| + 1;
      SmallerFits(Pow2(63), newSize, total, sizing.loadFactor);
      SmallerFits(Pow2(sizing.capacityLog2), newSize, total, sizing.loadFactor);
    }

    /** `move_into`: drains this table into `other`, which grows in capacity as needed; its key width
        must already be large enough.  This table is not to be used any more. */
    method MoveInto(other: HashMap<V>)
      requires Valid() && other.Valid() && other.Repr !! Repr
      requires forall key :: key in dict ==> key < Pow2(other.keyWidth)
      requires other.CanHold(Peak(other.dict, dict))
      modifies Repr, other.Repr
      ensures other.Valid() && fresh(other.Repr - old(other.Repr))
      ensures other.dict == old(other.dict) + old(dict)
      ensures other.keyWidth == old(other.keyWidth) && other.valueWidth == old(other.valueWidth)
      ensures other.sizing.loadFactor == old(other.sizing.loadFactor)
      ensures this.keyWidth == old(this.keyWidth) && this.valueWidth == old(this.valueWidth)
          && this.sizing == old(this.sizing)
      ensures GrownFor(old(other.sizing.capacityLog2), other.sizing.capacityLog2, old(Peak(other.dict, dict)),
        other.sizing.loadFactor)
      ensures !old(NeedsToGrow(Pow2(other.sizing.capacityLog2), Peak(other.dict, dict), other.sizing.loadFactor)) ==>
        other.sizing.capacityLog2 == old(other.sizing.capacityLog2)
      decreases
        if NeedsToGrow(Pow2(other.sizing.capacityLog2), Peak(other.dict, dict), other.sizing.loadFactor) then 2
        else 0, 4
    {
      hide Pow2, NeedsToGrow, LeastRoom, TooFull, GrownFor, Holds, Valid, Placement.Valid, Occupied,
        Took, Delivered, KeyOf, Parts, HasId, DeliveredTo, Groups, Peak, OwnParts, IdsReady;
      Intact();
      ghost var g, source, before, total := placement.Contents(), dict, other.dict, Peak(other.dict, dict);
      ghost var k0, z, objects := other.sizing.capacityLog2, other.sizing.loadFactor, other.Repr;
      ghost var roomy := !NeedsToGrow(Pow2(k0), total, z);
      var w, k := HashWidth(), sizing.capacityLog2;
      var out := placement.DrainAll();
      DeliveredIs(out, g);
      TookNone(out, hash, w, k, before);
      GrownNone(k0, total, z);
      var i := 0;
      while i < |out|
        invariant 0 <= i <= |out|
        invariant other.Valid() && fresh(other.Repr - objects)
        invariant Took(other.dict, before, out, hash, w, k, i)
        invariant other.keyWidth == old(other.keyWidth) && other.valueWidth == old(other.valueWidth)
        invariant other.sizing.loadFactor == z && (roomy ==> other.sizing.capacityLog2 == k0)
        invariant GrownFor(k0, other.sizing.capacityLog2, total, z)
        invariant keyWidth == old(keyWidth) && valueWidth == old(valueWidth) && sizing == old(sizing)
        decreases |out| - i
      {
        TookNext(other.dict, out, g, hash, w, k, source, before, i);
        other.RoomForOne(total);
        var key := KeyOf(hash, w, k, out[i].home, out[i].entry.quotient);
        ghost var k1, asked := other.sizing.capacityLog2, |other.dict| + 1;
        var r, _ := other.Insert(key, out[i].entry.value, other.keyWidth, other.valueWidth);
        GrownNext(k0, k1, other.sizing.capacityLog2, asked, total, z);
        i := i + 1;
      }
      TookAll(other.dict, out, g, hash, w, k, source, before);
    }
  }

  /** The largest size asked for while the entries of `dict` are inserted into a table that holds `before`,
      in whatever order they come: every insertion asks for one more, even for a key that is there. */
  ghost function Peak<V>(before: map<nat, V>, dict: map<nat, V>): nat
  {
    |before.Keys + dict.Keys| + if before.Keys !! dict.Keys then 0 else 1
  }

  /** `dict` is the map `before` after it took the first `i` entries delivered. */
  ghost predicate Took<V>(dict: map<nat, V>, before: map<nat, V>, out: seq<Delivery<V>>, f: HashFn, w: nat, k: nat,
      i: nat)
    requires WidthOk(w) && i <= |out|
  {
    dict == before + Replay(out, f, w, k, i)
  }

  lemma TookNone<V>(out: seq<Delivery<V>>, f: HashFn, w: nat, k: nat, before: map<nat, V>)
    requires WidthOk(w)
    ensures Took(before, before, out, f, w, k, 0)
  {
  }

  /** The next entry delivered, and the room it needs. */
  lemma TookNext<V>(dict: map<nat, V>, out: seq<Delivery<V>>, g: seq<seq<Entry<V>>>, f: HashFn, w: nat, k: nat,
      source: map<nat, V>, before: map<nat, V>, i: nat)
    requires Holds(g, f, w, k, source) && Delivered(out, g) && i < |out| && Took(dict, before, out, f, w, k, i)
    ensures var key := KeyOf(f, w, k, out[i].home, out[i].entry.quotient);
      key in source && Took(dict[key := out[i].entry.value], before, out, f, w, k, i + 1)
    ensures |dict| < Peak(before, source)
  {
    hide KeyOf, Holds, Delivered, Parts;
    DeliveredKey(out, g, f, w, k, source, i);
    ReplayPart(out, g, f, w, k, source, i);
    ReplayAll(out, g, f, w, k, source);
    MergedSize(before, Replay(out, f, w, k, i), source);
    MergedUpdate(before, Replay(out, f, w, k, i), KeyOf(f, w, k, out[i].home, out[i].entry.quotient),
        out[i].entry.value);
  }

  lemma MergedSize<V>(before: map<nat, V>, part: map<nat, V>, dict: map<nat, V>)
    requires part.Keys <= dict.Keys && |part| < |dict|
    ensures |before + part| + 1 <= Peak(before, dict)
  {
    var sum := before + part;
    assert sum.Keys == before.Keys + part.Keys;
    if before.Keys !! dict.Keys {
      assert |before.Keys + part.Keys| == |before.Keys| + |part.Keys|;
      assert |before.Keys + dict.Keys| == |before.Keys| + |dict.Keys|;
    } else {
      Cardinality(sum.Keys, before.Keys + dict.Keys);
    }
  }

  lemma PeakOfNew<V>(dict: map<nat, V>)
    ensures Peak(map[], dict) == |dict|
  {
    assert {} + dict.Keys == dict.Keys;
  }

  lemma MergedUpdate<V>(a: map<nat, V>, b: map<nat, V>, key: nat, val: V)
    ensures a + b[key := val] == (a + b)[key := val]
  {
  }

  lemma TookAll<V>(dict: map<nat, V>, out: seq<Delivery<V>>, g: seq<seq<Entry<V>>>, f: HashFn, w: nat, k: nat,
      source: map<nat, V>, before: map<nat, V>)
    requires Holds(g, f, w, k, source) && Delivered(out, g) && Took(dict, before, out, f, w, k, |out|)
    ensures dict == before + source
  {
    hide KeyOf, Holds, Delivered, Replay;
    ReplayAll(out, g, f, w, k, source);
  }
}
