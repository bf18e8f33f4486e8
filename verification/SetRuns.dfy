/** Runs of the hash set: whatever its placement and the order of the calls, and however often the
    table is rehashed on the way, it answers like a mathematical set. */
module SetRuns {
  import opened Bits
  import opened Sizing
  import opened HashFunctions
  import opened Entries
  import opened Placements
  import opened SparseHashSet

  datatype SetOp =
    | LookupInsert(key: nat, keyWidth: nat)
    | Lookup(key: nat)
    | GrowKeyWidth(keyWidth: nat)
    | MaxLoadFactor(z: real)

  /** What a caller knows about the set. */
  datatype SetModel = SetModel(keys: set<nat>, keyWidth: nat, loadFactor: real)

  /** The conditions the code checks or relies on: keys and widths fit, the load factor is in its range,
      and a 64-bit machine can index a table that is large enough. */
  ghost predicate Legal(m: SetModel, op: SetOp)
  {
    match op
    case LookupInsert(key, keyWidth) =>
      && keyWidth <= 64 && key < Pow2(Max(keyWidth, m.keyWidth))
      && !TooFull(Pow2(63), |m.keys| + 1, m.loadFactor)
    case Lookup(key) => key < Pow2(m.keyWidth)
    case GrowKeyWidth(keyWidth) => keyWidth <= 64 && !TooFull(Pow2(63), |m.keys|, m.loadFactor)
    case MaxLoadFactor(z) => 0.0 < z <= 1.0
  }

  ghost function Step(m: SetModel, op: SetOp): SetModel
  {
    match op
    case LookupInsert(key, keyWidth) => m.(keys := m.keys + {key}, keyWidth := Max(keyWidth, m.keyWidth))
    case Lookup(_) => m
    case GrowKeyWidth(keyWidth) => m.(keyWidth := Max(keyWidth, m.keyWidth))
    case MaxLoadFactor(z) => m.(loadFactor := z)
  }

  ghost function After(m: SetModel, ops: seq<SetOp>, i: nat): SetModel
    requires i <= |ops|
  {
    if i == 0 then m else Step(After(m, ops, i - 1), ops[i - 1])
  }

  ghost predicate LegalRun(m: SetModel, ops: seq<SetOp>)
  {
    forall i :: 0 <= i < |ops| ==> Legal(After(m, ops, i), ops[i])
  }

  /** A table with `Pow2(k)` positions is not rehashed by the call. */
  ghost predicate Calm(m: SetModel, k: nat, op: SetOp)
  {
    match op
    case LookupInsert(_, keyWidth) => keyWidth <= m.keyWidth && !TooFull(Pow2(k), |m.keys| + 1, m.loadFactor)
    case Lookup(_) => true
    case GrowKeyWidth(keyWidth) => keyWidth <= m.keyWidth && !TooFull(Pow2(k), |m.keys|, m.loadFactor)
    case MaxLoadFactor(_) => true
  }

  ghost predicate CalmRun(m: SetModel, k: nat, ops: seq<SetOp>)
  {
    forall i :: 0 <= i < |ops| ==> Calm(After(m, ops, i), k, ops[i])
  }

  /** The call asks for keys of the given width. */
  ghost predicate AsksWidth(op: SetOp, width: nat)
  {
    (op.LookupInsert? || op.GrowKeyWidth?) && op.keyWidth == width
  }

  /** The key width is the largest one asked for, or the one the set began with. */
  lemma {:induction false} WidthAfter(m: SetModel, ops: seq<SetOp>, i: nat)
    requires i <= |ops|
    ensures var width := After(m, ops, i).keyWidth;
      && width >= m.keyWidth
      && (forall j, asked :: 0 <= j < i && AsksWidth(ops[j], asked) ==> width >= asked)
      && (width == m.keyWidth || exists j :: 0 <= j < i && AsksWidth(ops[j], width))
  {
    if i > 0 {
      WidthAfter(m, ops, i - 1);
    }
  }

  /** One of the first `i` calls inserted `key`. */
  ghost predicate InsertedBefore(ops: seq<SetOp>, i: nat, key: nat)
    requires i <= |ops|
  {
    exists j :: 0 <= j < i && ops[j].LookupInsert? && ops[j].key == key
  }

  /** The set contains exactly the keys that were inserted. */
  lemma {:induction false} KeysInserted(m: SetModel, ops: seq<SetOp>, i: nat, key: nat)
    requires i <= |ops| && m.keys == {}
    ensures key in After(m, ops, i).keys <==> InsertedBefore(ops, i, key)
  {
    if i > 0 {
      KeysInserted(m, ops, i - 1, key);
      if InsertedBefore(ops, i, key) && !(ops[i - 1].LookupInsert? && ops[i - 1].key == key) {
        assert InsertedBefore(ops, i - 1, key);
      }
    }
  }

  /** The state of the table, as a caller knows it. */
  ghost function Abs(table: HashSet): SetModel
    reads table, table.sizing
  {
    SetModel(table.keys, table.keyWidth, table.sizing.loadFactor)
  }

  // --- The record a client keeps -------------------------------------------------------------

  /** What a client hears from a call: whether the key was in the set before, its id, and what the
      observer was told. */
  datatype SetReply = SetReply(found: bool, id: nat, events: seq<Event>)

  /** The ids on record after the first `n` events. */
  function Noted(ids: map<nat, nat>, events: seq<Event>, n: nat): map<nat, nat>
    requires n <= |events|
  {
    if n == 0 then ids
    else match events[n - 1]
      case OnResize(_) => Noted(ids, events, n - 1)
      case OnReinsert(key, id) => Noted(ids, events, n - 1)[key := id]
  }

  /** The ids on record when a call returns, before the one it returns is written down. */
  function Heard(ids: map<nat, nat>, reply: SetReply): map<nat, nat>
  {
    Noted(ids, reply.events, |reply.events|)
  }

  /** A client writes down every id it is told, and the id of every key it inserts. */
  function Record(ids: map<nat, nat>, op: SetOp, reply: SetReply): map<nat, nat>
  {
    if op.LookupInsert? then Heard(ids, reply)[op.key := reply.id] else Heard(ids, reply)
  }

  /** The record after the first `i` calls. */
  function Records(ops: seq<SetOp>, replies: seq<SetReply>, i: nat): map<nat, nat>
    requires i <= |ops| && i <= |replies|
  {
    if i == 0 then map[] else Record(Records(ops, replies, i - 1), ops[i - 1], replies[i - 1])
  }

  /** The record only depends on the past. */
  lemma {:induction false} RecordsPast(ops: seq<SetOp>, replies: seq<SetReply>, reply: SetReply, i: nat)
    requires i <= |ops| && i <= |replies|
    ensures Records(ops, replies + [reply], i) == Records(ops, replies, i)
  {
    hide Record;
    if i > 0 {
      RecordsPast(ops, replies, reply, i - 1);
    }
  }

  /** Call number `i` tells the truth about its key, and if it finds the key, it returns the id that is
      on record. */
  ghost predicate Answered(ops: seq<SetOp>, replies: seq<SetReply>, i: nat)
    requires i < |ops| && i < |replies|
  {
    var heard := Heard(Records(ops, replies, i), replies[i]);
    ops[i].LookupInsert? || ops[i].Lookup? ==>
      && (replies[i].found <==> InsertedBefore(ops, i, ops[i].key))
      && (replies[i].found ==> ops[i].key in heard && heard[ops[i].key] == replies[i].id)
  }

  /** After `i` calls the record has an id for exactly the keys inserted, and no id twice. */
  ghost predicate UpToDate(ops: seq<SetOp>, replies: seq<SetReply>, i: nat)
    requires i <= |ops| && i <= |replies|
  {
    && (forall key: nat :: key in Records(ops, replies, i) <==> InsertedBefore(ops, i, key))
    && Injective(Records(ops, replies, i))
  }

  ghost predicate Injective(ids: map<nat, nat>)
  {
    forall a, b :: a in ids && b in ids && ids[a] == ids[b] ==> a == b
  }

  /** All answers so far are right, and the record always was up to date. */
  ghost predicate Sound(ops: seq<SetOp>, replies: seq<SetReply>)
  {
    && |replies| <= |ops|
    && (forall i :: 0 <= i < |replies| ==> Answered(ops, replies, i))
    && (forall i :: 0 <= i <= |replies| ==> UpToDate(ops, replies, i))
  }

  lemma SoundNext(ops: seq<SetOp>, replies: seq<SetReply>, reply: SetReply)
    requires Sound(ops, replies) && |replies| < |ops|
    requires Answered(ops, replies + [reply], |replies|) && UpToDate(ops, replies + [reply], |replies| + 1)
    ensures Sound(ops, replies + [reply])
  {
    hide Answered, UpToDate;
    PastKept(ops, replies, reply);
  }

  lemma PastKept(ops: seq<SetOp>, replies: seq<SetReply>, reply: SetReply)
    requires |replies| < |ops|
    ensures forall i :: 0 <= i < |replies| && Answered(ops, replies, i) ==> Answered(ops, replies + [reply], i)
    ensures forall i :: 0 <= i <= |replies| && UpToDate(ops, replies, i) ==> UpToDate(ops, replies + [reply], i)
  {
    hide Records, InsertedBefore, Heard, Injective;
    forall i: nat | i <= |replies| ensures Records(ops, replies + [reply], i) == Records(ops, replies, i) {
      RecordsPast(ops, replies, reply, i);
    }
  }

  /** `ids` has the current id of every key in `keys`. */
  ghost predicate Tracks(table: HashSet, keys: set<nat>, ids: map<nat, nat>)
    reads table, table.sizing, table.placement
    ensures Tracks(table, keys, ids) ==> ids.Keys == keys
  {
    ids.Keys == keys && forall key :: key in ids ==> table.HasId(key, ids[key])
  }

  /** Different keys have different ids on record. */
  lemma TracksInjective(table: HashSet, ids: map<nat, nat>)
    requires table.Valid() && Tracks(table, table.keys, ids)
    ensures Injective(ids)
  {
    hide HashSet.Valid, HashSet.HasId;
    forall a, b | a in ids && b in ids && ids[a] == ids[b] ensures a == b {
      table.IdsUnique(a, ids[a], b, ids[b]);
    }
  }

  /** The first `n` moves put the current id of each of their keys on record. */
  lemma {:induction false} MovesNoted(table: HashSet, ids: map<nat, nat>, moves: seq<Event>, n: nat, key: nat)
    requires n <= |moves| && table.Resolves(moves)
    ensures var heard := Noted(ids, moves, n);
      && (key in heard <==> key in ids || key in MovedKeys(moves, n))
      && (key in MovedKeys(moves, n) ==> table.HasId(key, heard[key]))
  {
    hide HashSet.HasId;
    if n > 0 {
      MovesNoted(table, ids, moves, n - 1, key);
    }
  }

  ghost function MovedKeys(moves: seq<Event>, n: nat): set<nat>
    requires n <= |moves|
  {
    set i | 0 <= i < n && moves[i].OnReinsert? :: moves[i].key
  }

  /** A complete report names every key. */
  lemma MovesComplete(moves: seq<Event>, moved: set<nat>)
    requires DistinctMoves(moves, moved)
    ensures MovedKeys(moves, |moves|) == moved
  {
    MovesCount(moves, moved, |moves|);
    SubsetOfSize(MovedKeys(moves, |moves|), moved);
  }

  lemma {:induction false} MovesCount(moves: seq<Event>, moved: set<nat>, n: nat)
    requires DistinctMoves(moves, moved) && n <= |moves|
    ensures |MovedKeys(moves, n)| == n && MovedKeys(moves, n) <= moved
  {
    if n > 0 {
      MovesCount(moves, moved, n - 1);
      MovedOnce(moves, moved, n - 1);
      hide MovedKeys;
    }
  }

  lemma MovedOnce(moves: seq<Event>, moved: set<nat>, n: nat)
    requires DistinctMoves(moves, moved) && n < |moves|
    ensures moves[n].OnReinsert? && moves[n].key in moved && moves[n].key !in MovedKeys(moves, n)
    ensures MovedKeys(moves, n + 1) == MovedKeys(moves, n) + {moves[n].key}
  {
  }

  lemma SubsetOfSize(a: set<nat>, b: set<nat>)
    requires a <= b && |a| == |b|
    ensures a == b
  {
    assert |b - a| == |b| - |a|;
  }

  lemma {:induction false} NotedTail(ids: map<nat, nat>, events: seq<Event>, n: nat)
    requires 1 <= n <= |events| && events[0].OnResize?
    ensures Noted(ids, events, n) == Noted(ids, events[1..], n - 1)
  {
    if n > 1 {
      NotedTail(ids, events, n - 1);
    }
  }

  /** After the report of a rehash the record is up to date again, whatever it said before. */
  lemma ReportNoted(table: HashSet, ids: map<nat, nat>, events: seq<Event>)
    requires table.Reported(events, ids.Keys)
    ensures Tracks(table, ids.Keys, Noted(ids, events, |events|))
  {
    hide HashSet.HasId, MovedKeys, Noted;
    var moves := events[1..];
    NotedTail(ids, events, |events|);
    MovesComplete(moves, ids.Keys);
    var heard := Noted(ids, moves, |moves|);
    forall key: nat ensures key in heard <==> key in ids.Keys
      ensures key in heard ==> table.HasId(key, heard[key]) {
      MovesNoted(table, ids, moves, |moves|, key);
    }
  }

  lemma NothingHeard(ids: map<nat, nat>, reply: SetReply)
    requires reply.events == []
    ensures Heard(ids, reply) == ids
  {
  }

  // --- Runs ---------------------------------------------------------------------------------

  /** One call.  Whoever keeps a record holds the current id of every key afterwards. */
  method Call(table: HashSet, op: SetOp) returns (reply: SetReply)
    requires table.Valid() && Legal(Abs(table), op)
    modifies table.Repr
    ensures table.Valid() && fresh(table.Repr - old(table.Repr))
    ensures Abs(table) == Step(old(Abs(table)), op)
    ensures op.LookupInsert? ==>
      LeastRoom(old(table.sizing.capacityLog2), table.sizing.capacityLog2, |old(table.keys)| + 1,
        table.sizing.loadFactor)
    ensures op.GrowKeyWidth? ==>
      LeastRoom(old(table.sizing.capacityLog2), table.sizing.capacityLog2, |table.keys|, table.sizing.loadFactor)
    ensures Calm(old(Abs(table)), old(table.sizing.capacityLog2), op) ==>
      && reply.events == [] && table.sizing.capacityLog2 == old(table.sizing.capacityLog2)
      && forall key, id :: old(table.HasId(key, id)) ==> table.HasId(key, id)
    ensures !Calm(old(Abs(table)), old(table.sizing.capacityLog2), op) ==>
      table.Reported(reply.events, old(table.keys))
    ensures op.LookupInsert? || op.Lookup? ==> (reply.found <==> op.key in old(table.keys))
    ensures op.LookupInsert? || (op.Lookup? && reply.found) ==> table.HasId(op.key, reply.id)
    ensures forall ids :: old(Tracks(table, table.keys, ids)) ==> Tracks(table, old(table.keys), Heard(ids, reply))
  {
    hide Pow2, NeedsToGrow, TooFull, LeastRoom, HashSet.Valid, HashSet.HasId, HashSet.Reported, Noted;
    ghost var calm := Calm(Abs(table), table.sizing.capacityLog2, op);
    RoomKnown(table.sizing.capacityLog2, |table.keys|, table.sizing.loadFactor);
    reply := SetReply(false, 0, []);
    match op {
      case LookupInsert(key, keyWidth) =>
        var r, events := table.LookupInsert(key, keyWidth);
        reply := SetReply(r.keyAlreadyExist, r.id, events);
      case Lookup(key) =>
        var r := table.Lookup(key);
        if r.Found? {
          reply := SetReply(true, r.id, []);
        }
      case GrowKeyWidth(keyWidth) =>
        var events := table.GrowKeyWidth(keyWidth);
        reply := SetReply(false, 0, events);
      case MaxLoadFactor(z) =>
        table.MaxLoadFactor(z);
    }
    forall ids | old(Tracks(table, table.keys, ids))
      ensures Tracks(table, old(table.keys), Heard(ids, reply)) {
      if calm {
        NothingHeard(ids, reply);
      } else {
        ReportNoted(table, ids, reply.events);
      }
    }
  }

  /** Any run from an empty table: `key_already_exist` and `found` tell the truth, `size` is the number
      of different keys, and a client that records every id it is told always holds, for each key
      inserted, the id that leads to it, across all rehashes. */
  method Run(size: nat, keyWidth: nat, z: real, hash: HashFn, kind: PlacementKind, ghost k: nat, ops: seq<SetOp>)
    returns (replies: seq<SetReply>, finalSize: nat, table: HashSet)
    requires 0.0 < z <= 1.0 && 1 <= keyWidth <= 64
    requires k <= 63 && AdjustSize(size) == Pow2(k) && kind.Ok()
    requires LegalRun(SetModel({}, keyWidth, z), ops)
    ensures |replies| == |ops| && Sound(ops, replies)
    ensures exists inserted: set<nat> ::
      && (forall key: nat :: key in inserted <==> InsertedBefore(ops, |ops|, key))
      && finalSize == |inserted|
    ensures table.Valid() && fresh(table.Repr) && Abs(table) == After(SetModel({}, keyWidth, z), ops, |ops|)
    ensures Tracks(table, table.keys, Records(ops, replies, |ops|))
  {
    hide Pow2, NeedsToGrow, TooFull, HashSet.Valid, HashSet.Reported, HashSet.HasId, Legal, Calm, InsertedBefore,
      AdjustSize, Tracks, Sound, Heard, Records, After, Step;
    table := new HashSet(size, keyWidth, z, hash, kind, k);
    ghost var start := SetModel({}, keyWidth, z);
    replies := [];
    RunStart(table, start, ops);
    for i := 0 to |ops|
      invariant table.Valid() && fresh(table.Repr)
      invariant Abs(table) == After(start, ops, i) && |replies| == i
      invariant Tracks(table, table.keys, Records(ops, replies, i)) && Sound(ops, replies)
    {
      ghost var keys := table.keys;
      var reply := Call(table, ops[i]);
      RunNext(table, start, ops, replies, reply, keys);
      replies := replies + [reply];
    }
    forall key: nat ensures key in table.keys <==> InsertedBefore(ops, |ops|, key) {
      KeysInserted(start, ops, |ops|, key);
    }
    finalSize := table.sizing.size;
  }

  lemma RunStart(table: HashSet, start: SetModel, ops: seq<SetOp>)
    requires table.keys == start.keys == {}
    ensures After(start, ops, 0) == start
    ensures Tracks(table, table.keys, Records(ops, [], 0)) && Sound(ops, [])
  {
    hide HashSet.HasId;
  }

  /** What a call does to a record that was up to date. */
  lemma RecordNext(table: HashSet, ids: map<nat, nat>, op: SetOp, reply: SetReply, keys: set<nat>)
    requires table.Valid() && Tracks(table, keys, Heard(ids, reply))
    requires table.keys == if op.LookupInsert? then keys + {op.key} else keys
    requires op.LookupInsert? || op.Lookup? ==> (reply.found <==> op.key in keys)
    requires op.LookupInsert? || (op.Lookup? && reply.found) ==> table.HasId(op.key, reply.id)
    ensures Tracks(table, table.keys, Record(ids, op, reply))
    ensures (op.LookupInsert? || op.Lookup?) && reply.found ==>
      op.key in Heard(ids, reply) && Heard(ids, reply)[op.key] == reply.id
  {
    hide HashSet.HasId, HashSet.Valid, Heard;
    if (op.LookupInsert? || op.Lookup?) && reply.found {
      table.IdsUnique(op.key, reply.id, op.key, Heard(ids, reply)[op.key]);
    }
  }

  /** One more call of a run. */
  lemma RunNext(table: HashSet, start: SetModel, ops: seq<SetOp>, replies: seq<SetReply>, reply: SetReply,
      keys: set<nat>)
    requires table.Valid() && |replies| < |ops| && start.keys == {} && Sound(ops, replies)
    requires keys == After(start, ops, |replies|).keys
    requires Abs(table) == Step(After(start, ops, |replies|), ops[|replies|])
    requires Tracks(table, keys, Heard(Records(ops, replies, |replies|), reply))
    requires ops[|replies|].LookupInsert? || ops[|replies|].Lookup? ==> (reply.found <==> ops[|replies|].key in keys)
    requires ops[|replies|].LookupInsert? || (ops[|replies|].Lookup? && reply.found) ==>
      table.HasId(ops[|replies|].key, reply.id)
    ensures Abs(table) == After(start, ops, |replies| + 1)
    ensures Tracks(table, table.keys, Records(ops, replies + [reply], |replies| + 1))
    ensures Sound(ops, replies + [reply])
  {
    hide HashSet.HasId, HashSet.Valid, Heard, InsertedBefore, Injective, Sound, Tracks, Record;
    var i, op, ids := |replies|, ops[|replies|], Records(ops, replies, |replies|);
    RecordsPast(ops, replies, reply, i);
    RecordNext(table, ids, op, reply, keys);
    TracksInjective(table, Record(ids, op, reply));
    forall key: nat ensures key in keys <==> InsertedBefore(ops, i, key)
      ensures key in table.keys <==> InsertedBefore(ops, i + 1, key) {
      KeysInserted(start, ops, i, key);
      KeysInserted(start, ops, i + 1, key);
    }
    SoundNext(ops, replies, reply);
  }

  /** An id stays good over any number of calls that do not rehash the table, although these may move
      the entry: it leads to the slot that stores the quotient of its key. */
  method LookupIdLater(table: HashSet, id: nat, ghost key: nat, ops: seq<SetOp>) returns (r: EntryRef, ghost p: nat)
    requires table.Valid() && key in table.keys && table.HasId(key, id)
    requires LegalRun(Abs(table), ops) && CalmRun(Abs(table), table.sizing.capacityLog2, ops)
    modifies table.Repr
    ensures table.Valid() && Abs(table) == After(old(Abs(table)), ops, |ops|)
    ensures r.Found? && r.id == id && r.keyAlreadyExist && table.PointsTo(r.ptr, p, key)
  {
    hide Pow2, NeedsToGrow, TooFull, HashSet.Valid, HashSet.HasId, HashSet.PointsTo, Legal, Calm, Step;
    ghost var start, k, objects := Abs(table), table.sizing.capacityLog2, table.Repr;
    for i := 0 to |ops|
      invariant table.Valid() && fresh(table.Repr - objects)
      invariant Abs(table) == After(start, ops, i) && table.sizing.capacityLog2 == k
      invariant key in table.keys && table.HasId(key, id)
    {
      var reply := Call(table, ops[i]);
      StepKeeps(After(start, ops, i), ops[i], key);
    }
    r, p := table.LookupId(id, key);
  }

  lemma StepKeeps(m: SetModel, op: SetOp, key: nat)
    ensures key in m.keys ==> key in Step(m, op).keys
  {
  }
}
