/** The placement of a table, its template parameter `placement_t`: the `v`/`c` bits or displacements
    behind one contract, and the ids of entries. */
module Placements {
  import opened Bits
  import opened HashFunctions
  import opened Keys
  import opened Entries
  import opened Layouts
  import opened SparseStorage
  import opened CvPlacement
  import opened DisplacementTables
  import opened Displacement

  datatype PlacementKind = CvBits | Displaced(table: TableConfig)
  {
    /** The configuration is good for tables of every size. */
    ghost predicate Ok()
    {
      Displaced? ==> forall k: nat :: 1 <= k <= 63 ==> table.OkFor(Pow2(k))
    }
  }

  // --- Ids ----------------------------------------------------------------------------------

  /** `id` is the id of the entry of home `h` with quotient `q`: made of the home and the index in the
      group, or the position. */
  ghost predicate IdOf<V>(kind: PlacementKind, k: nat, s: seq<Slot<V>>, h: nat, q: nat, id: nat)
    requires h < |s|
  {
    match kind
    case CvBits => IndexOf(Group(s, h), q) >= 0 && id == GlobalId(k, h, IndexOf(Group(s, h), q))
    case Displaced(_) => id < |s| && s[id].Used? && Sits(s, id, h, s[id].entry) && s[id].entry.quotient == q
  }

  /** The quotients of a table fit into the bits of a word that the home leaves. */
  ghost predicate IdsReady<V>(k: nat, s: seq<Slot<V>>)
  {
    k <= 63 && |s| == Pow2(k) && AllDistinct(Groups(s)) && Fits(Groups(s), Pow2(64 - k))
  }

  /** Entries and ids belong together one to one. */
  lemma IdsApart<V>(kind: PlacementKind, k: nat, s: seq<Slot<V>>, h: nat, q: nat, i: nat, h': nat, q': nat, j: nat)
    requires IdsReady(k, s) && h < |s| && h' < |s|
    requires IdOf(kind, k, s, h, q, i) && IdOf(kind, k, s, h', q', j)
    ensures i == j <==> h == h' && q == q'
  {
    hide Pow2, GlobalId, IndexOf, Group, And, Shr, Fits;
    match kind {
      case CvBits =>
        LocalFits(k, s, h, q);
        LocalFits(k, s, h', q');
        GlobalIdParts(k, h, IndexOf(Group(s, h), q));
        GlobalIdParts(k, h', IndexOf(Group(s, h'), q'));
      case Displaced(_) =>
        if h == h' && q == q' {
          assert AllDistinct(Groups(s)) && Groups(s)[h] == Group(s, h);
          SitsOnce(s, h, i, j);
        }
    }
  }

  /** The index of an entry in its group never loses a bit in the id. */
  lemma LocalFits<V>(k: nat, s: seq<Slot<V>>, h: nat, q: nat)
    requires IdsReady(k, s) && h < |s| && IndexOf(Group(s, h), q) >= 0
    ensures IndexOf(Group(s, h), q) < Pow2(64 - k)
  {
    hide Pow2, Fits, Group, AllDistinct;
    GroupSize(Groups(s), h, Pow2(64 - k));
  }

  /** Two slots of one home do not have the same quotient. */
  lemma SitsOnce<V>(s: seq<Slot<V>>, h: nat, i: nat, j: nat)
    requires h < |s| && Distinct(Group(s, h)) && i < |s| && j < |s| && s[i].Used? && s[j].Used?
    requires Sits(s, i, h, s[i].entry) && Sits(s, j, h, s[j].entry) && s[i].entry.quotient == s[j].entry.quotient
    ensures i == j
  {
    var u, x, y := Unroll(s, h), s[i].disp, s[j].disp;
    assert u[x] == s[i] && u[y] == s[j];
    HomedAt(u, x, 0);
    HomedAt(u, y, 0);
    if x < y {
      HomedLonger(u, x, y, 0);
    } else if y < x {
      HomedLonger(u, y, x, 0);
    }
  }

  /** Every entry has an id. */
  lemma SomeId<V>(kind: PlacementKind, k: nat, s: seq<Slot<V>>, h: nat, q: nat) returns (id: nat)
    requires h < |s| && IndexOf(Group(s, h), q) >= 0
    ensures IdOf(kind, k, s, h, q, id)
  {
    hide GlobalId, IndexOf;
    match kind {
      case CvBits => id := GlobalId(k, h, IndexOf(Group(s, h), q));
      case Displaced(_) =>
        var i := HomedSlot(Unroll(s, h), 0, |s|, 0, IndexOf(Group(s, h), q));
        id := Pos(h, i, |s|);
    }
  }

  /** All ids stay as they are. */
  ghost predicate IdsKept<V>(kind: PlacementKind, k: nat, s: seq<Slot<V>>, s': seq<Slot<V>>)
  {
    && |s'| == |s|
    && forall h, q, id :: 0 <= h < |s| && IdOf(kind, k, s, h, q, id) ==> IdOf(kind, k, s', h, q, id)
  }

  lemma IdsKeptCvAppend<V>(k: nat, s: seq<Slot<V>>, s': seq<Slot<V>>, ia: nat, x: Entry<V>)
    requires ia < |s| == |s'| && Groups(s') == Groups(s)[ia := Groups(s)[ia] + [x]]
    requires IndexOf(Groups(s)[ia], x.quotient) == -1
    ensures IdsKept(CvBits, k, s, s') && IdOf(CvBits, k, s', ia, x.quotient, GlobalId(k, ia, |Groups(s)[ia]|))
  {
    hide GlobalId, IndexOf, Group;
    forall h, q, id | 0 <= h < |s| && IdOf(CvBits, k, s, h, q, id) ensures IdOf(CvBits, k, s', h, q, id) {
      assert Group(s', h) == Groups(s')[h];
      IndexOfAppended(Group(s, ia), x, q);
    }
    assert Group(s', ia) == Groups(s')[ia];
    IndexOfAppended(Group(s, ia), x, x.quotient);
  }

  lemma IdsKeptPlaced<V>(config: TableConfig, k: nat, s: seq<Slot<V>>, s': seq<Slot<V>>, p: nat)
    requires p < |s| == |s'| && s[p].Free? && s' == s[p := s'[p]]
    ensures IdsKept(Displaced(config), k, s, s')
  {
  }

  lemma IdsKeptSame<V>(kind: PlacementKind, k: nat, s: seq<Slot<V>>)
    ensures IdsKept(kind, k, s, s)
  {
  }

  lemma IdOfCv<V>(k: nat, s: seq<Slot<V>>, h: nat, q: nat)
    requires h < |s| && IndexOf(Groups(s)[h], q) >= 0
    ensures IdOf(CvBits, k, s, h, q, GlobalId(k, h, IndexOf(Groups(s)[h], q)))
  {
  }

  lemma IdOfSits<V>(config: TableConfig, k: nat, s: seq<Slot<V>>, h: nat, p: nat, entry: Entry<V>)
    requires h < |s| && Sits(s, p, h, entry)
    ensures IdOf(Displaced(config), k, s, h, entry.quotient, p)
  {
  }

  /** An entry that sits somewhere is found in its group. */
  lemma EntryFound<V>(s: seq<Slot<V>>, h: nat, p: nat)
    requires h < |s| && AllDistinct(Groups(s)) && p < |s| && s[p].Used? && Sits(s, p, h, s[p].entry)
    ensures var j := IndexOf(Groups(s)[h], s[p].entry.quotient); j >= 0 && Groups(s)[h][j] == s[p].entry
  {
    hide IndexOf;
    HomedAt(Unroll(s, h), s[p].disp, 0);
    assert Distinct(Groups(s)[h]);
    IndexOfDistinct(Group(s, h), |Homed(Unroll(s, h), 0, s[p].disp, 0)|);
  }

  lemma SitsQuotient<V>(s: seq<Slot<V>>, p: nat, h: nat, entry: Entry<V>, limit: nat)
    requires Sits(s, p, h, entry) && AllDistinct(Groups(s)) && Fits(Groups(s), limit)
    ensures h < |s| && Distinct(Group(s, h)) && entry.quotient < limit
    ensures p < |s| && s[p].Used?
  {
    EntryFound(s, h, p);
    assert Distinct(Groups(s)[h]);
  }

  lemma SitsWritten<V>(s: seq<Slot<V>>, p: nat, h: nat, entry: Entry<V>, val: V)
    requires Sits(s, p, h, entry)
    ensures p < |s| && s[p].Used?
    ensures Sits(s[p := Used(s[p].disp, Entry(entry.quotient, val))], p, h, Entry(entry.quotient, val))
  {
  }

  lemma FitsAppended<V>(g: seq<seq<Entry<V>>>, h: nat, x: Entry<V>, limit: nat)
    requires h < |g| && Fits(g, limit) && x.quotient < limit
    ensures Fits(g[h := g[h] + [x]], limit)
  {
  }

  lemma FitsReplaced<V>(g: seq<seq<Entry<V>>>, h: nat, j: nat, x: Entry<V>, limit: nat)
    requires h < |g| && j < |g[h]| && Fits(g, limit) && x.quotient < limit
    ensures Fits(g[h := g[h][j := x]], limit)
  {
  }

  lemma IdsKeptWrite<V>(kind: PlacementKind, k: nat, s: seq<Slot<V>>, s': seq<Slot<V>>, p: nat, h: nat, entry: Entry<V>,
      val: V)
    requires Sits(s, p, h, entry) && h < |s| && Distinct(Group(s, h))
    requires s' == s[p := Used(s[p].disp, Entry(entry.quotient, val))]
    ensures IdsKept(kind, k, s, s')
  {
    hide GlobalId, IndexOf, Group;
    match kind {
      case CvBits =>
        GroupsUpdate(s, p, h, entry, val);
        var j := IndexOf(Group(s, h), entry.quotient);
        assert Group(s, h)[j].quotient == entry.quotient;
        forall x, q, id | 0 <= x < |s| && IdOf(kind, k, s, x, q, id) ensures IdOf(kind, k, s', x, q, id) {
          assert Group(s', x) == Groups(s')[x];
          IndexOfReplaced(Group(s, h), j, val, q);
        }
      case Displaced(_) =>
    }
  }

  /** `id` is the id of the entry of `key`. */
  ghost predicate KeyHasId<V>(kind: PlacementKind, s: seq<Slot<V>>, f: HashFn, w: nat, k: nat, key: nat, id: nat)
    requires WidthOk(w)
  {
    var d := Parts(f, w, k, key);
    d.initialAddress < |s| && IdOf(kind, k, s, d.initialAddress, d.storedQuotient, id)
  }

  /** Keys and ids belong together one to one. */
  lemma KeyIdsApart<V>(kind: PlacementKind, s: seq<Slot<V>>, f: HashFn, w: nat, k: nat, a: nat, i: nat, b: nat, j: nat)
    requires WidthOk(w) && k <= w && a < Pow2(w) && b < Pow2(w) && IdsReady(k, s)
    requires KeyHasId(kind, s, f, w, k, a, i) && KeyHasId(kind, s, f, w, k, b, j)
    ensures a == b <==> i == j
  {
    hide Pow2, Parts, KeyOf, IdOf, IdsReady;
    KeyRoundTrip(f, w, k, a);
    KeyRoundTrip(f, w, k, b);
    var c, d := Parts(f, w, k, a), Parts(f, w, k, b);
    IdsApart(kind, k, s, c.initialAddress, c.storedQuotient, i, d.initialAddress, d.storedQuotient, j);
  }

  lemma KeyIdsKept<V>(kind: PlacementKind, s: seq<Slot<V>>, s': seq<Slot<V>>, f: HashFn, w: nat, k: nat)
    requires WidthOk(w) && IdsKept(kind, k, s, s')
    ensures forall key, id :: KeyHasId(kind, s, f, w, k, key, id) ==> KeyHasId(kind, s', f, w, k, key, id)
  {
    hide Parts, IdOf;
  }

  // --- The placement ------------------------------------------------------------------------

  class Placement<V(0)> {
    const kind: PlacementKind
    const capacityLog2: nat
    const n: nat
    const storage: BucketsBv<V>
    const cv: CvBvs?<V>
    const disp: DisplacementPlacement?<V>
    /** The layout: what each position stores, and how far away from its home. */
    ghost var layout: seq<Slot<V>>
    ghost var Repr: set<object>

    /** The chosen placement, with the storage and the layout of this one. */
    ghost predicate Chosen()
      reads this, Repr
    {
      && this in Repr && storage in Repr && storage.buckets in Repr
      && match kind
         case CvBits =>
           && cv != null && cv in Repr && cv.cv in Repr && cv.storage == storage
           && Repr == {this, cv, storage, storage.buckets, cv.cv}
           && cv.Valid() && cv.capacityLog2 == capacityLog2 && cv.layout == layout && cv.n == n
         case Displaced(config) =>
           && disp != null && disp in Repr && disp.table in Repr && disp.storage == storage
           && Repr == {this, disp, storage, storage.buckets} + disp.table.Repr
           && this !in disp.table.Repr && disp !in disp.table.Repr
           && disp.Valid() && disp.capacityLog2 == capacityLog2 && disp.layout == layout && disp.n == n
    }

    ghost predicate Valid()
      reads this, Repr
      ensures Valid() ==> this in Repr && storage in Repr && storage.buckets in Repr && |layout| == n >= 2
      ensures Valid() ==> storage.Valid() && storage.n == n && capacityLog2 <= 63
    {
      && Chosen() && kind.Ok()
      && n == Pow2(capacityLog2) && capacityLog2 <= 63
      && Fits(Groups(layout), Pow2(64 - capacityLog2))
    }

    /** What the table means. */
    ghost function Contents(): (g: seq<seq<Entry<V>>>)
      reads this
      ensures |g| == |layout|
      ensures forall p :: 0 <= p < |g| ==> g[p] == Group(layout, p)
    {
      Groups(layout)
    }

    /** `id` is the id of the entry of home `h` with quotient `q`. */
    ghost predicate HasId(h: nat, q: nat, id: nat)
      reads this
    {
      h < |layout| && IdOf(kind, capacityLog2, layout, h, q, id)
    }

    /** An empty table. */
    constructor (capacityLog2: nat, kind: PlacementKind)
      requires 1 <= capacityLog2 <= 63 && kind.Ok()
      ensures Valid() && fresh(Repr) && this.capacityLog2 == capacityLog2 && this.kind == kind
      ensures n == Pow2(capacityLog2)
      ensures storage.slots == seq(n, _ => None) && Contents() == seq(n, _ => [])
    {
      hide Pow2, Groups, Group, CvBvs.Valid, DisplacementPlacement.Valid;
      this.kind, this.capacityLog2 := kind, capacityLog2;
      match kind {
        case CvBits =>
          var made := new CvBvs<V>(capacityLog2);
          cv, disp, storage, n := made, null, made.storage, made.n;
          layout := made.layout;
          Repr := {this, made, made.storage, made.storage.buckets, made.cv};
        case Displaced(config) =>
          var made := new DisplacementPlacement<V>(capacityLog2, config);
          cv, disp, storage, n := null, made, made.storage, made.n;
          layout := made.layout;
          Repr := {this, made, made.storage, made.storage.buckets} + made.table.Repr;
      }
    }

    /** The storage holds exactly the entries of the layout, and no home has a quotient twice. */
    lemma Facts()
      requires Valid()
      ensures |storage.slots| == n == Pow2(capacityLog2)
      ensures forall p :: 0 <= p < n ==> storage.slots[p] == EntryOf(layout[p])
      ensures IdsReady(capacityLog2, layout)
    {
      hide Pow2, Group, Groups, AllDistinct, Fits, CvBvs.Valid, DisplacementPlacement.Valid;
      match kind {
        case CvBits => cv.Facts();
        case Displaced(_) => disp.Facts();
      }
    }

    /** `search` */
    method Search(ia: nat, q: nat) returns (r: EntryRef, ghost p: nat)
      requires Valid() && ia < n
      modifies Repr
      ensures Valid() && Repr == old(Repr) && layout == old(layout) && storage.slots == old(storage.slots)
      ensures r.Found? <==> IndexOf(Contents()[ia], q) >= 0
      ensures r.Found? ==>
        && r.keyAlreadyExist && HasId(ia, q, r.id) && r.ptr == PtrOf(storage.bvs, p)
        && Sits(layout, p, ia, Contents()[ia][IndexOf(Contents()[ia], q)])
    {
      hide Pow2, Fits, Group, Groups, IndexOf, PtrOf, CvBvs.Valid, DisplacementPlacement.Valid, GlobalId;
      match kind {
        case CvBits =>
          r, p := cv.Search(ia, q);
        case Displaced(_) =>
          r := disp.Search(ia, q);
          p := if r.Found? then r.id else 0;
      }
    }

    /** `lookup_insert`: finds the entry of home `ia` with quotient `q`, or adds it behind the others. */
    method LookupInsert(ia: nat, q: nat) returns (r: EntryRef, ghost p: nat)
      requires Valid() && ia < n && q < Pow2(64 - capacityLog2) && |Occupied(storage.slots)| + 2 <= n
      modifies Repr
      ensures Valid() && fresh(Repr - old(Repr))
      ensures r.Found? && r.ptr == PtrOf(storage.bvs, p) && HasId(ia, q, r.id)
      ensures IdsKept(kind, capacityLog2, old(layout), layout)
      ensures r.keyAlreadyExist <==> IndexOf(old(Contents())[ia], q) >= 0
      ensures r.keyAlreadyExist ==>
        && Sits(layout, p, ia, old(Contents())[ia][IndexOf(old(Contents())[ia], q)])
        && layout == old(layout) && storage.slots == old(storage.slots)
      ensures !r.keyAlreadyExist ==>
        && p < n && layout[p].Used? && layout[p].entry.quotient == q && Sits(layout, p, ia, layout[p].entry)
        && Contents() == old(Contents())[ia := old(Contents())[ia] + [layout[p].entry]]
        && |Occupied(storage.slots)| == |Occupied(old(storage.slots))| + 1
    {
      hide Pow2, Fits, Group, Groups, IndexOf, PtrOf, CvBvs.Valid, DisplacementPlacement.Valid, GlobalId, Occupied,
        IdOf, Sits;
      ghost var s := layout;
      match kind {
        case CvBits =>
          r, p := cv.LookupInsert(ia, q);
          layout := cv.layout;
          if r.keyAlreadyExist {
            IdsKeptSame(kind, capacityLog2, s);
            IdOfCv(capacityLog2, s, ia, q);
          } else {
            IdsKeptCvAppend(capacityLog2, s, layout, ia, layout[p].entry);
            FitsAppended(Groups(s), ia, layout[p].entry, Pow2(64 - capacityLog2));
          }
        case Displaced(_) =>
          r := disp.LookupInsert(ia, q);
          p := r.id;
          layout := disp.layout;
          Repr := {this, disp, storage, storage.buckets} + disp.table.Repr;
          if r.keyAlreadyExist {
            IdsKeptSame(kind, capacityLog2, s);
            IdOfSits(kind.table, capacityLog2, s, ia, p, Groups(s)[ia][IndexOf(Groups(s)[ia], q)]);
          } else {
            IdsKeptPlaced(kind.table, capacityLog2, s, layout, p);
            IdOfSits(kind.table, capacityLog2, layout, ia, p, layout[p].entry);
            FitsAppended(Groups(s), ia, layout[p].entry, Pow2(64 - capacityLog2));
          }
      }
    }

    /** `lookup_id`: the entry with that id, wherever insertions have moved it. */
    method LookupId(id: nat, ghost ia: nat, ghost q: nat) returns (r: EntryRef, ghost p: nat)
      requires Valid() && HasId(ia, q, id)
      ensures r.Found? && r.id == id && r.keyAlreadyExist
      ensures r.ptr == PtrOf(storage.bvs, p)
      ensures IndexOf(Contents()[ia], q) >= 0 && Sits(layout, p, ia, Contents()[ia][IndexOf(Contents()[ia], q)])
    {
      hide Pow2, Fits, Group, Groups, IndexOf, PtrOf, CvBvs.Valid, DisplacementPlacement.Valid, GlobalId, Occupied,
        Sits, AllDistinct;
      Facts();
      match kind {
        case CvBits =>
          r, p := cv.LookupId(id, ia, IndexOf(Contents()[ia], q));
        case Displaced(_) =>
          EntryFound(layout, ia, id);
          r := disp.LookupId(id, ia, layout[id].entry);
          p := id;
      }
    }

    /** Writes the value behind the pointer of an entry. */
    method SetValue(ptr: Ptr, val: V, ghost p: nat, ghost h: nat, ghost entry: Entry<V>)
      requires Valid() && Sits(layout, p, h, entry) && ptr == PtrOf(storage.bvs, p)
      modifies Repr
      ensures Valid() && Repr == old(Repr)
      ensures h < n && 0 <= IndexOf(old(Contents())[h], entry.quotient)
      ensures Contents() == old(Contents())[h :=
        old(Contents())[h][IndexOf(old(Contents())[h], entry.quotient) := Entry(entry.quotient, val)]]
      ensures Sits(layout, p, h, Entry(entry.quotient, val)) && storage.bvs == old(storage.bvs)
      ensures IdsKept(kind, capacityLog2, old(layout), layout)
      ensures Occupied(storage.slots) == Occupied(old(storage.slots))
    {
      hide Pow2, Fits, Group, Groups, IndexOf, PtrOf, CvBvs.Valid, DisplacementPlacement.Valid, GlobalId, Occupied,
        Sits, AllDistinct, IdOf, IdsKept;
      ghost var s := layout;
      Facts();
      SitsWritten(s, p, h, entry, val);
      SitsQuotient(s, p, h, entry, Pow2(64 - capacityLog2));
      IdsKeptWrite(kind, capacityLog2, s, s[p := Used(s[p].disp, Entry(entry.quotient, val))], p, h, entry, val);
      match kind {
        case CvBits =>
          cv.SetValue(ptr, val, p, h, entry);
          layout := cv.layout;
        case Displaced(_) =>
          disp.SetValue(ptr, val, p, h, entry);
          layout := disp.layout;
      }
      FitsReplaced(Groups(s), h, IndexOf(Groups(s)[h], entry.quotient), Entry(entry.quotient, val),
        Pow2(64 - capacityLog2));
    }

    /** `drain_all` */
    method DrainAll() returns (out: seq<Delivery<V>>)
      requires Valid()
      modifies Repr
      ensures forall h :: 0 <= h < n ==> DeliveredTo(out, h) == old(Contents())[h]
      ensures forall i :: 0 <= i < |out| ==> out[i].home < n
      ensures exists e :: Drained(old(layout), e, out, storage.slots)
    {
      hide Pow2, Fits, Group, Groups, DeliveredTo, Drained, CvBvs.Valid, DisplacementPlacement.Valid;
      match kind {
        case CvBits => out := cv.DrainAll();
        case Displaced(_) => out := disp.DrainAll();
      }
    }
  }
}
