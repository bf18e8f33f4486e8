/** The invariant of linear probing with explicit displacements (`displacement_t`), and what placing
    an entry at the first free position behind its home does to it. */
module ProbeLayout {
  import opened Entries
  import opened Layouts

  /** No position among the first `d` ones from `h` on is free. */
  ghost predicate Path<V>(s: seq<Slot<V>>, h: nat, d: nat)
    requires h < |s|
  {
    d <= |s| && forall i :: 0 <= i < d ==> s[Pos(h, i, |s|)].Used?
  }

  /** The entry in slot `p`, if there is one, is reached by probing from its home. */
  ghost predicate Probed<V>(s: seq<Slot<V>>, p: nat)
    requires p < |s|
  {
    s[p].Used? ==> s[p].disp < |s| && Path(s, HomePos(s, p), s[p].disp)
  }

  ghost predicate AllProbed<V>(s: seq<Slot<V>>)
  {
    forall p :: 0 <= p < |s| ==> Probed(s, p)
  }

  /** The invariant: storage and displacements make up a layout without gaps and duplicates, and some
      position is free. */
  ghost predicate ProbeOk<V>(s: seq<Slot<V>>, slots: seq<Option<Entry<V>>>, values: seq<nat>)
    ensures ProbeOk(s, slots, values) ==> |slots| == |values| == |s|
  {
    && |slots| == |values| == |s|
    && (forall p :: 0 <= p < |s| ==> slots[p] == EntryOf(s[p]) && (s[p].Used? ==> values[p] == s[p].disp))
    && AllProbed(s)
    && (exists e :: 0 <= e < |s| && s[e].Free?)
    && (forall h :: 0 <= h < |s| ==> Distinct(Group(s, h)))
  }

  /** The entries of a home, as probing from it meets them. */
  lemma OnPath<V>(s: seq<Slot<V>>, ia: nat, i: nat)
    requires ia < |s| && i < |s| && AllProbed(s) && HasHome(Unroll(s, ia)[i], i, 0)
    ensures Path(s, ia, i) && HomePos(s, Pos(ia, i, |s|)) == ia
  {
    assert Probed(s, Pos(ia, i, |s|));
  }

  /** Probing meets a free position: there is no entry with quotient `q`. */
  lemma ProbeMisses<V>(s: seq<Slot<V>>, ia: nat, d: nat, q: nat)
    requires ia < |s| && d < |s| && AllProbed(s) && s[Pos(ia, d, |s|)].Free?
    requires forall i :: 0 <= i < d && HasHome(Unroll(s, ia)[i], i, 0) ==> Unroll(s, ia)[i].entry.quotient != q
    ensures IndexOf(Group(s, ia), q) == -1
  {
    hide IndexOf;
    var u, g := Unroll(s, ia), Group(s, ia);
    var j := IndexOf(g, q);
    if j >= 0 {
      var i := HomedSlot(u, 0, |s|, 0, j);
      OnPath(s, ia, i);
    }
  }

  /** Probing meets an entry of the home with quotient `q`: it is the one. */
  lemma ProbeHits<V>(s: seq<Slot<V>>, ia: nat, d: nat, q: nat)
    requires ia < |s| && d < |s| && Distinct(Group(s, ia))
    requires HasHome(Unroll(s, ia)[d], d, 0) && Unroll(s, ia)[d].entry.quotient == q
    ensures 0 <= IndexOf(Group(s, ia), q)
    ensures Sits(s, Pos(ia, d, |s|), ia, Group(s, ia)[IndexOf(Group(s, ia), q)])
  {
    hide IndexOf;
    var u := Unroll(s, ia);
    HomedAt(u, d, 0);
    IndexOfDistinct(Group(s, ia), |Homed(u, 0, d, 0)|);
  }

  /** The displacement table and the address difference agree on whether an entry belongs to `ia`. */
  lemma HomeTest<V>(s: seq<Slot<V>>, slots: seq<Option<Entry<V>>>, values: seq<nat>, ia: nat, d: nat)
    requires ProbeOk(s, slots, values) && ia < |s| && d < |s|
    requires slots[Pos(ia, d, |s|)].Some?
    ensures HasHome(Unroll(s, ia)[d], d, 0) <==> values[Pos(ia, d, |s|)] == d
    ensures s[Pos(ia, d, |s|)].Used? && slots[Pos(ia, d, |s|)] == Some(Unroll(s, ia)[d].entry)
  {
  }

  /** The layout after an entry of home `ia` was placed `d` positions behind it. */
  ghost function Placed<V>(s: seq<Slot<V>>, ia: nat, d: nat, entry: Entry<V>): (s': seq<Slot<V>>)
    requires ia < |s| && d < |s|
    ensures |s'| == |s|
  {
    s[Pos(ia, d, |s|) := Used(d, entry)]
  }

  lemma PlacedProbed<V>(s: seq<Slot<V>>, ia: nat, d: nat, entry: Entry<V>)
    requires ia < |s| && d < |s| && AllProbed(s) && Path(s, ia, d) && s[Pos(ia, d, |s|)].Free?
    ensures AllProbed(Placed(s, ia, d, entry))
  {
    var s' := Placed(s, ia, d, entry);
    forall p | 0 <= p < |s'| ensures Probed(s', p) {
      if p != Pos(ia, d, |s|) {
        assert Probed(s, p);
      }
    }
  }

  /** Placing an entry appends it to the group of its home. */
  lemma PlacedGroup<V>(s: seq<Slot<V>>, ia: nat, d: nat, entry: Entry<V>, h: nat)
    requires ia < |s| && d < |s| && h < |s| && AllProbed(s) && Path(s, ia, d) && s[Pos(ia, d, |s|)].Free?
    ensures Group(Placed(s, ia, d, entry), h) == Group(s, h) + if h == ia then [entry] else []
  {
    hide AllProbed, Path, Homed;
    var n, s' := |s|, Placed(s, ia, d, entry);
    var u, w, i := Unroll(s, h), Unroll(s', h), Steps(h, Pos(ia, d, n), n);
    assert forall j :: 0 <= j < n ==> w[j] == if j == i then Used(d, entry) else u[j];
    HomedAround(u, i, 0);
    HomedAround(w, i, 0);
    HomedSame(u, 0, i, 0, w, 0, 0);
    HomedSame(u, i + 1, n, 0, w, 0, 0);
    assert HasHome(w[i], i, 0) <==> h == ia;
    if h == ia {
      NothingBehind(s, ia, d);
    }
  }

  /** No entry of a home is stored behind a free position. */
  lemma NothingBehind<V>(s: seq<Slot<V>>, ia: nat, d: nat)
    requires ia < |s| && d < |s| && AllProbed(s) && s[Pos(ia, d, |s|)].Free?
    ensures Homed(Unroll(s, ia), d + 1, |s|, 0) == []
  {
    var u := Unroll(s, ia);
    forall j | d + 1 <= j < |s| ensures !HasHome(u[j], j, 0) {
      if HasHome(u[j], j, 0) {
        OnPath(s, ia, j);
      }
    }
    HomedNone(u, d + 1, |s|, 0);
  }

  lemma PlacedGroups<V>(s: seq<Slot<V>>, ia: nat, d: nat, entry: Entry<V>)
    requires ia < |s| && d < |s| && AllProbed(s) && Path(s, ia, d) && s[Pos(ia, d, |s|)].Free?
    ensures Groups(Placed(s, ia, d, entry)) == Groups(s)[ia := Group(s, ia) + [entry]]
  {
    hide Group, Placed, AllProbed, Path;
    forall h | 0 <= h < |s|
      ensures Group(Placed(s, ia, d, entry), h) == if h == ia then Group(s, ia) + [entry] else Group(s, h)
    {
      PlacedGroup(s, ia, d, entry, h);
      assert Group(s, h) + [] == Group(s, h);
    }
  }

  /** The step of `lookup_insert` at a free position keeps the invariant and adds one entry. */
  lemma PlacedOk<V>(s: seq<Slot<V>>, slots: seq<Option<Entry<V>>>, values: seq<nat>, ia: nat, d: nat, entry: Entry<V>)
    requires ProbeOk(s, slots, values) && ia < |s| && d < |s| && Path(s, ia, d) && s[Pos(ia, d, |s|)].Free?
    requires |Occupied(slots)| + 2 <= |s| && IndexOf(Group(s, ia), entry.quotient) == -1
    ensures var p := Pos(ia, d, |s|);
      && ProbeOk(Placed(s, ia, d, entry), slots[p := Some(entry)], values[p := d])
      && |Occupied(slots[p := Some(entry)])| == |Occupied(slots)| + 1
    ensures Groups(Placed(s, ia, d, entry)) == Groups(s)[ia := Group(s, ia) + [entry]]
  {
    hide Group, IndexOf, Distinct, AllProbed, Path, Occupied;
    var p, s' := Pos(ia, d, |s|), Placed(s, ia, d, entry);
    PlacedProbed(s, ia, d, entry);
    PlacedGroups(s, ia, d, entry);
    DistinctAppended(Group(s, ia), entry);
    forall h | 0 <= h < |s| ensures Distinct(Group(s', h)) {
      assert Groups(s')[h] == Group(s', h);
    }
    assert slots[p].None?;
    OccupiedMore(slots, p, entry);
    var e :| 0 <= e < |s| && e != p && slots[e].None?;
    assert s'[e].Free?;
  }

  lemma OccupiedMore<V>(slots: seq<Option<Entry<V>>>, p: nat, entry: Entry<V>)
    requires |Occupied(slots)| + 2 <= |slots| && p < |slots| && slots[p].None?
    ensures |Occupied(slots[p := Some(entry)])| == |Occupied(slots)| + 1
    ensures exists e :: 0 <= e < |slots| && e != p && slots[e].None?
  {
    var e := SomeFree(slots, {p});
    assert Occupied(slots[p := Some(entry)]) == Occupied(slots) + {p};
  }

  lemma DistinctAppended<V>(g: seq<Entry<V>>, entry: Entry<V>)
    requires Distinct(g)
    ensures IndexOf(g, entry.quotient) == -1 ==> Distinct(g + [entry])
  {
  }

  /** No displacement leads back across a free position. */
  lemma FreeUncrossed<V>(s: seq<Slot<V>>, e: nat)
    requires AllProbed(s) && e < |s| && s[e].Free?
    ensures Uncrossed(Unroll(s, e))
  {
    var u, n := Unroll(s, e), |s|;
    forall i | 0 <= i < n && u[i].Used? ensures u[i].disp <= i {
      var p := Pos(e, i, n);
      assert Probed(s, p);
      if u[i].disp > i {
        StepBack(s, e, i);
      }
    }
  }

  lemma StepBack<V>(s: seq<Slot<V>>, e: nat, i: nat)
    requires e < |s| && i < |s| && s[Pos(e, i, |s|)].Used? && i < s[Pos(e, i, |s|)].disp < |s|
    ensures var p := Pos(e, i, |s|);
      Pos(HomePos(s, p), s[p].disp - i, |s|) == e
  {
  }

  /** Writing a new value into one entry. */
  lemma ValueWritten<V>(s: seq<Slot<V>>, slots: seq<Option<Entry<V>>>, values: seq<nat>, p: nat, h: nat,
      entry: Entry<V>, val: V)
    requires ProbeOk(s, slots, values) && Sits(s, p, h, entry)
    ensures h < |s| && 0 <= IndexOf(Group(s, h), entry.quotient)
    ensures var s' := s[p := Used(s[p].disp, Entry(entry.quotient, val))];
      && ProbeOk(s', slots[p := Some(Entry(entry.quotient, val))], values)
      && Groups(s') == Groups(s)[h := Group(s, h)[IndexOf(Group(s, h), entry.quotient) := Entry(entry.quotient, val)]]
    ensures Occupied(slots[p := Some(Entry(entry.quotient, val))]) == Occupied(slots)
  {
    hide Group, IndexOf, Groups;
    var s' := s[p := Used(s[p].disp, Entry(entry.quotient, val))];
    GroupsUpdate(s, p, h, entry, val);
    forall x | 0 <= x < |s| ensures Probed(s', x) {
      assert Probed(s, x);
    }
    forall x | 0 <= x < |s| ensures Distinct(Group(s', x)) {
      assert Groups(s')[x] == Group(s', x) && Groups(s)[x] == Group(s, x);
    }
    var e :| 0 <= e < |s| && s[e].Free?;
    assert s'[e].Free?;
  }
}
