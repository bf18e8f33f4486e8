/** Runs of the hash map: whatever its placement and the order of the calls, and however often the
    table is rehashed on the way, it answers like a mathematical map. */
module MapRuns {
  import opened Bits
  import opened Sizing
  import opened HashFunctions
  import opened Entries
  import opened Placements
  import opened SparseHashMap

  /** A call; `Assign` accesses an entry and writes through the reference it got, as `map[key] = value` does. */
  datatype MapOp<+V> =
    | Insert(key: nat, value: V, keyWidth: nat, valueWidth: nat)
    | Access(key: nat, keyWidth: nat, valueWidth: nat)
    | Assign(key: nat, value: V, keyWidth: nat, valueWidth: nat)
    | Search(key: nat)
    | GrowWidths(keyWidth: nat, valueWidth: nat)
    | MaxLoadFactor(z: real)

  /** What a caller knows about the map. */
  datatype MapModel<+V> = MapModel(dict: map<nat, V>, keyWidth: nat, valueWidth: nat, loadFactor: real)

  /** The answer to a call: for an insertion or access whether the key was there, for a search the
      value found. */
  datatype Reply<+V> = Done | Existed(before: bool) | Value(found: Option<V>)

  /** The conditions the code checks or relies on: keys and widths fit, the load factor is in its range,
      and a 64-bit machine can index a table that is large enough. */
  ghost predicate Legal<V>(m: MapModel<V>, op: MapOp<V>)
  {
    match op
    case Insert(key, _, keyWidth, valueWidth) => LegalEntry(m, key, keyWidth, valueWidth)
    case Access(key, keyWidth, valueWidth) => LegalEntry(m, key, keyWidth, valueWidth)
    case Assign(key, _, keyWidth, valueWidth) => LegalEntry(m, key, keyWidth, valueWidth)
    case Search(key) => key < Pow2(m.keyWidth)
    case GrowWidths(keyWidth, valueWidth) =>
      keyWidth <= 64 && valueWidth <= 64 && !TooFull(Pow2(63), |m.dict|, m.loadFactor)
    case MaxLoadFactor(z) => 0.0 < z <= 1.0
  }

  ghost predicate LegalEntry<V>(m: MapModel<V>, key: nat, keyWidth: nat, valueWidth: nat)
  {
    && keyWidth <= 64 && valueWidth <= 64 && key < Pow2(Max(keyWidth, m.keyWidth))
    && !TooFull(Pow2(63), |m.dict| + 1, m.loadFactor)
  }

  ghost function Widened<V>(m: MapModel<V>, keyWidth: nat, valueWidth: nat): MapModel<V>
  {
    m.(keyWidth := Max(keyWidth, m.keyWidth), valueWidth := Max(valueWidth, m.valueWidth))
  }

  ghost function Step<V>(m: MapModel<V>, op: MapOp<V>, initial: V): MapModel<V>
  {
    match op
    case Insert(key, value, keyWidth, valueWidth) => Widened(m, keyWidth, valueWidth).(dict := m.dict[key := value])
    case Access(key, keyWidth, valueWidth) =>
      Widened(m, keyWidth, valueWidth).(dict := if key in m.dict then m.dict else m.dict[key := initial])
    case Assign(key, value, keyWidth, valueWidth) => Widened(m, keyWidth, valueWidth).(dict := m.dict[key := value])
    case Search(_) => m
    case GrowWidths(keyWidth, valueWidth) => Widened(m, keyWidth, valueWidth)
    case MaxLoadFactor(z) => m.(loadFactor := z)
  }

  ghost function After<V>(m: MapModel<V>, ops: seq<MapOp<V>>, initial: V, i: nat): MapModel<V>
    requires i <= |ops|
  {
    if i == 0 then m else Step(After(m, ops, initial, i - 1), ops[i - 1], initial)
  }

  lemma AfterStep<V>(m: MapModel<V>, ops: seq<MapOp<V>>, initial: V)
    ensures After(m, ops, initial, 0) == m
    ensures forall i: nat :: i < |ops| ==> After(m, ops, initial, i + 1) == Step(After(m, ops, initial, i), ops[i],
        initial)
  {
    hide Step;
  }

  ghost predicate LegalRun<V>(m: MapModel<V>, ops: seq<MapOp<V>>, initial: V)
  {
    forall i :: 0 <= i < |ops| ==> Legal(After(m, ops, initial, i), ops[i])
  }

  /** A table with `Pow2(k)` positions is not rehashed by the call. */
  ghost predicate Calm<V>(m: MapModel<V>, k: nat, op: MapOp<V>)
  {
    match op
    case Insert(_, _, keyWidth, valueWidth) => CalmFor(m, k, |m.dict| + 1, keyWidth, valueWidth)
    case Access(_, keyWidth, valueWidth) => CalmFor(m, k, |m.dict| + 1, keyWidth, valueWidth)
    case Assign(_, _, keyWidth, valueWidth) => CalmFor(m, k, |m.dict| + 1, keyWidth, valueWidth)
    case Search(_) => true
    case GrowWidths(keyWidth, valueWidth) => CalmFor(m, k, |m.dict|, keyWidth, valueWidth)
    case MaxLoadFactor(_) => true
  }

  ghost predicate CalmFor<V>(m: MapModel<V>, k: nat, newSize: nat, keyWidth: nat, valueWidth: nat)
  {
    keyWidth <= m.keyWidth && valueWidth <= m.valueWidth && !TooFull(Pow2(k), newSize, m.loadFactor)
  }

  ghost predicate CalmRun<V>(m: MapModel<V>, k: nat, ops: seq<MapOp<V>>, initial: V)
  {
    forall i :: 0 <= i < |ops| ==> Calm(After(m, ops, initial, i), k, ops[i])
  }

  /** The call asks for keys and values of the given widths. */
  ghost predicate AsksWidths<V>(op: MapOp<V>, keyWidth: nat, valueWidth: nat)
  {
    (op.Insert? || op.Access? || op.Assign? || op.GrowWidths?) && op.keyWidth == keyWidth && op.valueWidth == valueWidth
  }

  /** The widths are the largest ones asked for, or those the map began with. */
  lemma {:induction false} WidthsAfter<V>(m: MapModel<V>, ops: seq<MapOp<V>>, initial: V, i: nat)
    requires i <= |ops|
    ensures var after := After(m, ops, initial, i);
      && after.keyWidth >= m.keyWidth && after.valueWidth >= m.valueWidth
      && (forall j, key, value :: 0 <= j < i && AsksWidths(ops[j], key, value) ==>
            after.keyWidth >= key && after.valueWidth >= value)
      && (after.keyWidth == m.keyWidth || exists j, v :: 0 <= j < i && AsksWidths(ops[j], after.keyWidth, v))
      && (after.valueWidth == m.valueWidth || exists j, k :: 0 <= j < i && AsksWidths(ops[j], k, after.valueWidth))
  {
    if i > 0 {
      WidthsAfter(m, ops, initial, i - 1);
      WidthsStep(After(m, ops, initial, i - 1), ops[i - 1], initial);
    }
  }

  lemma WidthsStep<V>(m: MapModel<V>, op: MapOp<V>, initial: V)
    ensures var after := Step(m, op, initial);
      && after.keyWidth >= m.keyWidth && after.valueWidth >= m.valueWidth
      && (forall key, value :: AsksWidths(op, key, value) ==> after.keyWidth >= key && after.valueWidth >= value)
      && (after.keyWidth == m.keyWidth || exists v :: AsksWidths(op, after.keyWidth, v))
      && (after.valueWidth == m.valueWidth || exists k :: AsksWidths(op, k, after.valueWidth))
  {
    if op.Insert? || op.Access? || op.Assign? || op.GrowWidths? {
      assert AsksWidths(op, op.keyWidth, op.valueWidth);
    }
  }

  ghost predicate Writes<V>(op: MapOp<V>, key: nat)
  {
    (op.Insert? || op.Assign?) && op.key == key
  }

  /** Call number `j` is the last one before call `i` that wrote a value for `key`. */
  ghost predicate LastWrite<V>(ops: seq<MapOp<V>>, j: nat, i: nat, key: nat)
    requires i <= |ops|
  {
    j < i && Writes(ops[j], key) && NoWrite(ops, j + 1, i, key)
  }

  ghost predicate NoWrite<V>(ops: seq<MapOp<V>>, from: nat, to: nat, key: nat)
    requires to <= |ops|
  {
    forall j :: from <= j < to ==> !Writes(ops[j], key)
  }

  ghost predicate Accessed<V>(ops: seq<MapOp<V>>, i: nat, key: nat)
    requires i <= |ops|
  {
    exists j :: 0 <= j < i && ops[j].Access? && ops[j].key == key
  }

  /** What the first `i` calls left for `key`: the last value written; or the default value, if
      the key was only accessed; or nothing. */
  ghost predicate LeftBehind<V>(ops: seq<MapOp<V>>, initial: V, i: nat, key: nat, r: Option<V>)
    requires i <= |ops|
  {
    match r
    case None => NoWrite(ops, 0, i, key) && !Accessed(ops, i, key)
    case Some(value) =>
      || (exists j: nat :: LastWrite(ops, j, i, key) && value == ops[j].value)
      || (NoWrite(ops, 0, i, key) && Accessed(ops, i, key) && value == initial)
  }

  /** That is one answer and not several. */
  lemma LeftBehindOnce<V>(ops: seq<MapOp<V>>, initial: V, i: nat, key: nat, r: Option<V>, r': Option<V>)
    requires i <= |ops| && LeftBehind(ops, initial, i, key, r) && LeftBehind(ops, initial, i, key, r')
    ensures r == r'
  {
  }

  ghost function LookUp<V>(dict: map<nat, V>, key: nat): Option<V>
  {
    if key in dict then Some(dict[key]) else None
  }

  /** The map has exactly what the calls left behind. */
  lemma {:induction false} DictLeft<V>(m: MapModel<V>, ops: seq<MapOp<V>>, initial: V, i: nat, key: nat)
    requires i <= |ops| && m.dict == map[]
    ensures LeftBehind(ops, initial, i, key, LookUp(After(m, ops, initial, i).dict, key))
  {
    if i > 0 {
      DictLeft(m, ops, initial, i - 1, key);
      LeftNext(After(m, ops, initial, i - 1), ops, initial, i - 1, key);
    }
  }

  lemma LeftNext<V>(m: MapModel<V>, ops: seq<MapOp<V>>, initial: V, i: nat, key: nat)
    requires i < |ops| && LeftBehind(ops, initial, i, key, LookUp(m.dict, key))
    ensures LeftBehind(ops, initial, i + 1, key, LookUp(Step(m, ops[i], initial).dict, key))
  {
  }

  /** The call finds or makes an entry. */
  predicate Reaches<V>(op: MapOp<V>)
  {
    op.Insert? || op.Access? || op.Assign?
  }

  /** The state of the table, as a caller knows it. */
  ghost function Abs<V(0)>(table: HashMap<V>): MapModel<V>
    reads table, table.sizing
  {
    MapModel(table.dict, table.keyWidth, table.valueWidth, table.sizing.loadFactor)
  }

  /** One call. */
  method Call<V(0)>(table: HashMap<V>, op: MapOp<V>) returns (reply: Reply<V>)
    requires table.Valid() && Legal(Abs(table), op)
    modifies table.Repr
    ensures table.Valid() && fresh(table.Repr - old(table.Repr))
    ensures Abs(table) == Step(old(Abs(table)), op, table.initial)
    ensures Reaches(op) ==>
      LeastRoom(old(table.sizing.capacityLog2), table.sizing.capacityLog2, |old(table.dict)| + 1,
        table.sizing.loadFactor)
    ensures op.GrowWidths? ==>
      LeastRoom(old(table.sizing.capacityLog2), table.sizing.capacityLog2, |table.dict|, table.sizing.loadFactor)
    ensures Calm(old(Abs(table)), old(table.sizing.capacityLog2), op) ==>
      && table.sizing.capacityLog2 == old(table.sizing.capacityLog2)
      && forall key, id :: old(table.HasId(key, id)) ==> table.HasId(key, id)
    ensures Reaches(op) ==> reply == Existed(op.key in old(table.dict))
    ensures op.Search? ==> reply == Value(LookUp(old(table.dict), op.key))
  {
    hide Pow2, NeedsToGrow, TooFull, LeastRoom, HashMap.Valid, HashMap.HasId, HashMap.PointsTo;
    RoomKnown(table.sizing.capacityLog2, |table.dict|, table.sizing.loadFactor);
    reply := Done;
    match op {
      case Insert(key, value, keyWidth, valueWidth) =>
        var r, _ := table.Insert(key, value, keyWidth, valueWidth);
        reply := Existed(r.keyAlreadyExist);
      case Access(key, keyWidth, valueWidth) =>
        var r, _ := table.AccessEntry(key, keyWidth, valueWidth);
        reply := Existed(r.keyAlreadyExist);
      case Assign(key, value, keyWidth, valueWidth) =>
        var r, p := table.AccessEntry(key, keyWidth, valueWidth);
        table.SetValue(r.ptr, p, key, value);
        reply := Existed(r.keyAlreadyExist);
      case Search(key) =>
        var r := table.Search(key);
        reply := Value(r);
      case GrowWidths(keyWidth, valueWidth) =>
        table.GrowWidths(keyWidth, valueWidth);
      case MaxLoadFactor(z) =>
        table.MaxLoadFactor(z);
    }
  }

  /** Any run from an empty table: a search finds the value last written, and an insertion or access
      knows whether the key was there. */
  method Run<V(0)>(size: nat, keyWidth: nat, valueWidth: nat, z: real, hash: HashFn, kind: PlacementKind, initial: V,
      ghost k: nat, ops: seq<MapOp<V>>)
    returns (replies: seq<Reply<V>>, table: HashMap<V>)
    requires 0.0 < z <= 1.0 && 1 <= keyWidth <= 64 && 1 <= valueWidth <= 64
    requires k <= 63 && AdjustSize(size) == Pow2(k) && kind.Ok()
    requires LegalRun(MapModel(map[], keyWidth, valueWidth, z), ops, initial)
    ensures |replies| == |ops|
    ensures forall i :: 0 <= i < |ops| && ops[i].Search? ==>
      replies[i].Value? && LeftBehind(ops, initial, i, ops[i].key, replies[i].found)
    ensures forall i :: 0 <= i < |ops| && Reaches(ops[i]) ==>
      replies[i] == Existed(!LeftBehind(ops, initial, i, ops[i].key, None))
    ensures table.Valid() && fresh(table.Repr)
    ensures Abs(table) == After(MapModel(map[], keyWidth, valueWidth, z), ops, initial, |ops|)
  {
    hide Pow2, NeedsToGrow, TooFull, HashMap.Valid, Legal, Step, LeftBehind, AdjustSize, After;
    table := new HashMap<V>(size, keyWidth, valueWidth, z, hash, kind, initial, k);
    ghost var start: MapModel<V> := MapModel(map[], keyWidth, valueWidth, z);
    AfterStep(start, ops, initial);
    replies := [];
    for i := 0 to |ops|
      invariant table.Valid() && fresh(table.Repr) && table.initial == initial
      invariant Abs(table) == After(start, ops, initial, i) && |replies| == i
      invariant forall j :: 0 <= j < i && ops[j].Search? ==>
        replies[j].Value? && LeftBehind(ops, initial, j, ops[j].key, replies[j].found)
      invariant forall j :: 0 <= j < i && Reaches(ops[j]) ==>
        replies[j] == Existed(!LeftBehind(ops, initial, j, ops[j].key, None))
    {
      if ops[i].Search? || Reaches(ops[i]) {
        DictLeft(start, ops, initial, i, ops[i].key);
        Absent(ops, initial, i, ops[i].key, LookUp(table.dict, ops[i].key));
      }
      var reply := Call(table, ops[i]);
      replies := replies + [reply];
    }
  }

  lemma Absent<V>(ops: seq<MapOp<V>>, initial: V, i: nat, key: nat, r: Option<V>)
    requires i <= |ops| && LeftBehind(ops, initial, i, key, r)
    ensures LeftBehind(ops, initial, i, key, None) <==> r.None?
  {
  }

  /** An id stays good over any number of calls that do not rehash the table, although these may move
      the entry: it leads to the entry of its key, with the value the key has by then. */
  method LookupIdLater<V(0)>(table: HashMap<V>, id: nat, ghost key: nat, ops: seq<MapOp<V>>)
    returns (r: EntryRef, ghost p: nat)
    requires table.Valid() && key in table.dict && table.HasId(key, id)
    requires LegalRun(Abs(table), ops, table.initial)
    requires CalmRun(Abs(table), table.sizing.capacityLog2, ops, table.initial)
    modifies table.Repr
    ensures table.Valid() && Abs(table) == After(old(Abs(table)), ops, table.initial, |ops|)
    ensures r.Found? && r.id == id && r.keyAlreadyExist && table.PointsTo(r.ptr, p, key)
  {
    hide Pow2, NeedsToGrow, TooFull, HashMap.Valid, HashMap.HasId, HashMap.PointsTo, Legal, Calm, Step, After;
    ghost var start, k, objects := Abs(table), table.sizing.capacityLog2, table.Repr;
    AfterStep(start, ops, table.initial);
    for i := 0 to |ops|
      invariant table.Valid() && fresh(table.Repr - objects)
      invariant Abs(table) == After(start, ops, table.initial, i)
      invariant table.sizing.capacityLog2 == k
      invariant key in table.dict && table.HasId(key, id)
    {
      var reply := Call(table, ops[i]);
      StepKeeps(After(start, ops, table.initial, i), ops[i], table.initial, key);
    }
    r, p := table.LookupId(id, key);
  }

  lemma StepKeeps<V>(m: MapModel<V>, op: MapOp<V>, initial: V, key: nat)
    ensures key in m.dict ==> key in Step(m, op, initial).dict
  {
  }
}
