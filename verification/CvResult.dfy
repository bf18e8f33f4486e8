/** From the shifted bits and slots of one insertion back to the invariant of the whole table. */
module CvResult {
  import opened Entries
  import opened Layouts
  import opened CvLayout
  import opened CvInsert

  /** Where the content of position `p` was before `[from, to)` moved one to the right. */
  function Source(from: nat, p: nat, to: nat, n: nat): (q: nat)
    requires p < n
    ensures q < n
  {
    if Between(from, Prev(p, n), to) then Prev(p, n) else p
  }

  /** Opening up position `from`: the circular range `[from, to)` has moved one to the right. */
  ghost predicate OpenedAt<V>(before: seq<Option<Entry<V>>>, from: nat, to: nat, after: seq<Option<Entry<V>>>)
  {
    && from < |before| == |after|
    && after[from].Some?
    && forall p :: 0 <= p < |before| && p != from ==> after[p] == before[Source(from, p, to, |before|)]
  }

  ghost predicate OpenedBits(before: seq<bool>, from: nat, to: nat, after: seq<bool>)
  {
    && from < |before| == |after|
    && !after[from]
    && forall p :: 0 <= p < |before| && p != from ==> after[p] == before[Source(from, p, to, |before|)]
  }

  /** The layout after inserting `entry` with home `r` at `g`, all counted from the cut `e`. */
  ghost function InsertedLayout<V>(s: seq<Slot<V>>, e: nat, r: nat, g: nat, t: nat, entry: Entry<V>): (w: seq<Slot<V>>)
    requires e < |s| && r <= g <= t < |s|
    ensures |w| == |s|
  {
    Roll(Inserted(Unroll(s, e), g, t, Used(g - r, entry)), e)
  }

  /** On the cut circle, moving `[g, t)` is moving the circular range it stands for. */
  lemma SourceOnCut(e: nat, g: nat, t: nat, i: nat, n: nat)
    requires e < n && 0 < g <= t < n && i < n && i != g
    ensures Source(Pos(e, g, n), Pos(e, i, n), Pos(e, t, n), n) == Pos(e, if g < i <= t then i - 1 else i, n)
  {
  }

  /** The `c` bits after the insertion, on the cut circle. */
  lemma BitsOnCut(c: seq<bool>, e: nat, g: nat, t: nat, shifted: seq<bool>, starts: bool)
    requires e < |c| && 0 < g <= t < |c|
    requires OpenedBits(c, Pos(e, g, |c|), Pos(e, t, |c|), shifted)
    ensures ShiftedBits(Unroll(c, e), g, t, starts, Unroll(shifted[Pos(e, g, |c|) := starts], e))
  {
    var n := |c|;
    var d := shifted[Pos(e, g, n) := starts];
    forall i | 0 <= i < n ensures Unroll(d, e)[i] == ShiftedBit(Unroll(c, e), g, t, starts, i) {
      if i != g {
        SourceOnCut(e, g, t, i, n);
      }
    }
  }

  /** The storage after the insertion holds the new layout. */
  lemma SlotsOnCut<V>(s: seq<Slot<V>>, slots: seq<Option<Entry<V>>>, e: nat, r: nat, g: nat, t: nat,
                      shifted: seq<Option<Entry<V>>>, entry: Entry<V>)
    requires |slots| == |s| && forall p :: 0 <= p < |s| ==> slots[p] == EntryOf(s[p])
    requires e < |s| && 0 < r <= g <= t < |s|
    requires OpenedAt(slots, Pos(e, g, |s|), Pos(e, t, |s|), shifted)
    requires shifted[Pos(e, g, |s|)] == Some(entry)
    ensures forall p :: 0 <= p < |s| ==> shifted[p] == EntryOf(InsertedLayout(s, e, r, g, t, entry)[p])
  {
    var n := |s|;
    forall p | 0 <= p < n ensures shifted[p] == EntryOf(InsertedLayout(s, e, r, g, t, entry)[p]) {
      var i := Steps(e, p, n);
      if i != g {
        SourceOnCut(e, g, t, i, n);
        assert Unroll(s, e)[if g < i <= t then i - 1 else i] == s[Source(Pos(e, g, n), p, Pos(e, t, n), n)];
      }
    }
  }

  /** The insertion keeps the neighbour conditions on the circle. */
  lemma InsertedChained<V>(s: seq<Slot<V>>, c: seq<bool>, e: nat, r: nat, g: nat, t: nat, entry: Entry<V>,
      shifted: seq<bool>, starts: bool)
    requires Chained(s, c) && e < |s| && s[e].Free? && InsertionPoint(Unroll(s, e), r, g, t)
    requires OpenedBits(c, Pos(e, g, |s|), Pos(e, t, |s|), shifted)
    requires starts <==> Group(s, Pos(e, r, |s|)) == []
    ensures Chained(InsertedLayout(s, e, r, g, t, entry), shifted[Pos(e, g, |s|) := starts])
    ensures InsertedLayout(s, e, r, g, t, entry)[e].Free?
  {
    var w := Inserted(Unroll(s, e), g, t, Used(g - r, entry));
    ToLinear(s, c, e);
    GroupOnCut(s, c, e, r);
    BitsOnCut(c, e, g, t, shifted, starts);
    var d := shifted[Pos(e, g, |s|) := starts];
    InsertKeepsLinear(Unroll(s, e), Unroll(c, e), r, g, t, entry, Unroll(d, e));
    UnrollRoll(w, e);
    FromLinear(Roll(w, e), d, e);
  }

  /** What the insertion does to the group of home `p`. */
  lemma InsertedGroup<V>(s: seq<Slot<V>>, c: seq<bool>, e: nat, r: nat, g: nat, t: nat, entry: Entry<V>, d: seq<bool>,
      i: nat)
    requires Chained(s, c) && e < |s| && s[e].Free? && InsertionPoint(Unroll(s, e), r, g, t)
    requires r <= g <= t < |s| && i < |s|
    requires Chained(InsertedLayout(s, e, r, g, t, entry), d) && InsertedLayout(s, e, r, g, t, entry)[e].Free?
    ensures Group(InsertedLayout(s, e, r, g, t, entry), Pos(e, i, |s|)) ==
      Group(s, Pos(e, i, |s|)) + if i == r then [entry] else []
  {
    hide Homed, Chained, Linear, InsertionPoint, Inserted, Group;
    var w := Inserted(Unroll(s, e), g, t, Used(g - r, entry));
    ToLinear(s, c, e);
    UnrollRoll(w, e);
    GroupOnCut(s, c, e, i);
    GroupOnCut(Roll(w, e), d, e, i);
    InsertAppends(Unroll(s, e), Unroll(c, e), r, g, t, entry, i);
  }

  /** The insertion appends to one group and changes no other. */
  lemma InsertedGroups<V>(s: seq<Slot<V>>, c: seq<bool>, e: nat, r: nat, g: nat, t: nat, entry: Entry<V>, d: seq<bool>)
    requires Chained(s, c) && e < |s| && s[e].Free? && InsertionPoint(Unroll(s, e), r, g, t)
    requires Chained(InsertedLayout(s, e, r, g, t, entry), d) && InsertedLayout(s, e, r, g, t, entry)[e].Free?
    ensures Groups(InsertedLayout(s, e, r, g, t, entry)) ==
      Groups(s)[Pos(e, r, |s|) := Group(s, Pos(e, r, |s|)) + [entry]]
  {
    hide Homed, Chained, Linear, Inserted, Group, InsertedLayout, Groups;
    var n := |s|;
    var s' := InsertedLayout(s, e, r, g, t, entry);
    forall p | 0 <= p < n
      ensures Groups(s')[p] == Groups(s)[Pos(e, r, n) := Group(s, Pos(e, r, n)) + [entry]][p]
    {
      InsertedGroup(s, c, e, r, g, t, entry, d, Steps(e, p, n));
      assert Steps(e, Pos(e, r, n), n) == r;
      assert Group(s, p) + [] == Group(s, p);
    }
  }

  /** The `v` bits after the insertion. */
  lemma InsertedVirgin<V>(s: seq<Slot<V>>, v: seq<bool>, ia: nat, entry: Entry<V>, s': seq<Slot<V>>)
    requires ia < |s| == |s'| == |v|
    requires forall p :: 0 <= p < |s| && p != ia ==> (v[p] <==> Group(s, p) != [])
    requires v[ia]
    requires Groups(s') == Groups(s)[ia := Group(s, ia) + [entry]]
    ensures Virgin(s', v)
  {
  }

  /** A quotient that is not in its group yet keeps the groups free of duplicates. */
  lemma InsertedDistinct<V>(s: seq<Slot<V>>, ia: nat, entry: Entry<V>, s': seq<Slot<V>>)
    requires ia < |s| == |s'|
    requires forall p :: 0 <= p < |s| ==> Distinct(Group(s, p))
    requires IndexOf(Group(s, ia), entry.quotient) == -1
    requires Groups(s') == Groups(s)[ia := Group(s, ia) + [entry]]
    ensures forall p :: 0 <= p < |s| ==> Distinct(Group(s', p))
  {
  }

  /** The invariant of a table with layout `s`, storage `slots` and bits `c` and `v`. */
  ghost predicate TableOk<V>(s: seq<Slot<V>>, slots: seq<Option<Entry<V>>>, c: seq<bool>, v: seq<bool>)
    ensures TableOk(s, slots, c, v) ==> |s| == |slots| == |c| == |v|
  {
    && |slots| == |s|
    && (forall p :: 0 <= p < |s| ==> slots[p] == EntryOf(s[p]))
    && Chained(s, c) && Virgin(s, v)
    && (exists e :: 0 <= e < |s| && s[e].Free?)
    && (forall p :: 0 <= p < |s| ==> Distinct(Group(s, p)))
  }

  /** One insertion, whatever its case, keeps the invariant and appends to one group. */
  lemma InsertionKeeps<V>(s: seq<Slot<V>>, slots: seq<Option<Entry<V>>>, c: seq<bool>, v: seq<bool>,
                          e: nat, ia: nat, g: nat, t: nat, entry: Entry<V>,
                          slots': seq<Option<Entry<V>>>, shifted: seq<bool>)
    requires TableOk(s, slots, c, v) && e < |s| && ia < |s| && s[e].Free?
    requires InsertionPoint(Unroll(s, e), Steps(e, ia, |s|), g, t)
    requires OpenedAt(slots, Pos(e, g, |s|), Pos(e, t, |s|), slots') && slots'[Pos(e, g, |s|)] == Some(entry)
    requires OpenedBits(c, Pos(e, g, |s|), Pos(e, t, |s|), shifted)
    requires IndexOf(Group(s, ia), entry.quotient) == -1
    ensures var s' := InsertedLayout(s, e, Steps(e, ia, |s|), g, t, entry);
      && TableOk(s', slots', shifted[Pos(e, g, |s|) := Group(s, ia) == []], v[ia := true])
      && Groups(s') == Groups(s)[ia := Group(s, ia) + [entry]]
      && s'[Pos(e, g, |s|)] == Used(g - Steps(e, ia, |s|), entry)
    ensures Occupied(slots') == Occupied(slots) + {Pos(e, t, |s|)} && Pos(e, t, |s|) !in Occupied(slots)
  {
    var r := Steps(e, ia, |s|);
    var s' := InsertedLayout(s, e, r, g, t, entry);
    var d := shifted[Pos(e, g, |s|) := Group(s, ia) == []];
    InsertedChained(s, c, e, r, g, t, entry, shifted, Group(s, ia) == []);
    InsertedGroups(s, c, e, r, g, t, entry, d);
    InsertedVirgin(s, v[ia := true], ia, entry, s');
    InsertedDistinct(s, ia, entry, s');
    SlotsOnCut(s, slots, e, r, g, t, slots', entry);
    InsertedOccupied(s, slots, e, r, g, t, slots');
    assert Steps(e, Pos(e, g, |s|), |s|) == g;
  }

  /** Of all positions only the free one at the end of the cluster gets occupied. */
  lemma InsertedOccupied<V>(s: seq<Slot<V>>, slots: seq<Option<Entry<V>>>, e: nat, r: nat, g: nat, t: nat,
      slots': seq<Option<Entry<V>>>)
    requires |slots| == |s| && forall p :: 0 <= p < |s| ==> slots[p] == EntryOf(s[p])
    requires e < |s| && InsertionPoint(Unroll(s, e), r, g, t)
    requires OpenedAt(slots, Pos(e, g, |s|), Pos(e, t, |s|), slots')
    ensures Occupied(slots') == Occupied(slots) + {Pos(e, t, |s|)} && Pos(e, t, |s|) !in Occupied(slots)
  {
    var n, u := |s|, Unroll(s, e);
    forall p | 0 <= p < n
      ensures slots'[p].Some? <==> slots[p].Some? || p == Pos(e, t, n)
    {
      var i := Steps(e, p, n);
      assert u[i] == s[p];
      if i != g {
        SourceOnCut(e, g, t, i, n);
        if g < i <= t {
          assert u[i - 1].Used? && u[i - 1] == s[Pos(e, i - 1, n)];
        }
      } else {
        assert Pos(e, g, n) == p;
      }
      assert Steps(e, Pos(e, t, n), n) == t;
    }
    assert u[t] == s[Pos(e, t, n)];
  }
}
