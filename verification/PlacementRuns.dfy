/** The two placements cannot be told apart: the same run of insertions and searches gets the same
    answers, and the same entries are drained in the end, although layouts and ids differ. */
module PlacementRuns {
  import opened Bits
  import opened Entries
  import opened Layouts
  import opened SparseStorage
  import opened DisplacementTables
  import Cv = CvPlacement
  import Disp = Displacement

  datatype Request =
    | Insert(home: nat, quotient: nat)
    | Search(home: nat, quotient: nat)

  /** What both placements stand for: the quotients of every home, in the order of insertion. */
  datatype Shelves = Shelves(homes: seq<seq<nat>>, size: nat)

  ghost function Quotients<V>(g: seq<Entry<V>>): (q: seq<nat>)
    ensures |q| == |g|
  {
    seq(|g|, j requires 0 <= j < |g| => g[j].quotient)
  }

  ghost function AllQuotients<V>(g: seq<seq<Entry<V>>>): (q: seq<seq<nat>>)
    ensures |q| == |g|
  {
    seq(|g|, h requires 0 <= h < |g| => Quotients(g[h]))
  }

  lemma QuotientFound<V>(g: seq<Entry<V>>, q: nat)
    ensures IndexOf(g, q) >= 0 <==> q in Quotients(g)
  {
    var j := IndexOf(g, q);
    if j >= 0 {
      assert Quotients(g)[j] == q;
    } else {
      forall i | 0 <= i < |g| ensures Quotients(g)[i] != q {
      }
    }
  }

  lemma QuotientsAppended<V>(g: seq<seq<Entry<V>>>, h: nat, x: Entry<V>)
    requires h < |g|
    ensures AllQuotients(g[h := g[h] + [x]]) == AllQuotients(g)[h := AllQuotients(g)[h] + [x.quotient]]
  {
    assert Quotients(g[h] + [x]) == Quotients(g[h]) + [x.quotient];
  }

  /** The home exists, and an insertion leaves a position free; the sizing of the tables sees to that. */
  ghost predicate Fits(m: Shelves, request: Request)
  {
    request.home < |m.homes| && (request.Insert? ==> m.size + 2 <= |m.homes|)
  }

  ghost predicate Present(m: Shelves, request: Request)
  {
    request.home < |m.homes| && request.quotient in m.homes[request.home]
  }

  ghost function Step(m: Shelves, request: Request): Shelves
    requires request.home < |m.homes|
  {
    if request.Insert? && !Present(m, request) then
      Shelves(m.homes[request.home := m.homes[request.home] + [request.quotient]], m.size + 1)
    else m
  }

  ghost function After(m: Shelves, requests: seq<Request>, i: nat): (m': Shelves)
    requires i <= |requests| && forall j :: 0 <= j < i ==> requests[j].home < |m.homes|
    ensures |m'.homes| == |m.homes|
  {
    if i == 0 then m else Step(After(m, requests, i - 1), requests[i - 1])
  }

  ghost predicate FitsRun(m: Shelves, requests: seq<Request>)
    ensures FitsRun(m, requests) ==> forall j :: 0 <= j < |requests| ==> requests[j].home < |m.homes|
  {
    && (forall j :: 0 <= j < |requests| ==> requests[j].home < |m.homes|)
    && (forall i :: 0 <= i < |requests| ==> Fits(After(m, requests, i), requests[i]))
  }

  /** The replies say for every request whether its entry was present before. */
  ghost predicate Truthful(m: Shelves, requests: seq<Request>, replies: seq<bool>)
    requires forall j :: 0 <= j < |requests| ==> requests[j].home < |m.homes|
  {
    && |replies| <= |requests|
    && forall i :: 0 <= i < |replies| ==> TruthAt(m, requests, i, replies[i])
  }

  ghost predicate TruthAt(m: Shelves, requests: seq<Request>, i: nat, reply: bool)
    requires i < |requests| && forall j :: 0 <= j < |requests| ==> requests[j].home < |m.homes|
  {
    reply <==> Present(After(m, requests, i), requests[i])
  }

  lemma TruthfulNext(m: Shelves, requests: seq<Request>, replies: seq<bool>, reply: bool)
    requires forall j :: 0 <= j < |requests| ==> requests[j].home < |m.homes|
    requires Truthful(m, requests, replies) && |replies| < |requests|
    requires reply <==> Present(After(m, requests, |replies|), requests[|replies|])
    ensures Truthful(m, requests, replies + [reply])
    ensures After(m, requests, |replies| + 1) == Step(After(m, requests, |replies|), requests[|replies|])
  {
    assert TruthAt(m, requests, |replies|, reply);
    AfterNext(m, requests, |replies|);
    hide *;
    TruthfulMore(m, requests, replies, reply);
  }

  lemma TruthfulMore(m: Shelves, requests: seq<Request>, replies: seq<bool>, reply: bool)
    requires forall j :: 0 <= j < |requests| ==> requests[j].home < |m.homes|
    requires Truthful(m, requests, replies) && |replies| < |requests| && TruthAt(m, requests, |replies|, reply)
    ensures Truthful(m, requests, replies + [reply])
  {
    hide TruthAt;
  }

  lemma AfterNext(m: Shelves, requests: seq<Request>, i: nat)
    requires forall j :: 0 <= j < |requests| ==> requests[j].home < |m.homes|
    requires i < |requests|
    ensures After(m, requests, i + 1) == Step(After(m, requests, i), requests[i])
  {
    hide Step;
  }

  // --- The placement with two bits per position ---------------------------------------------

  ghost function CvShelves<V(0)>(cv: Cv.CvBvs<V>): (m: Shelves)
    reads cv, cv.storage
    ensures |m.homes| == |cv.layout|
  {
    Shelves(AllQuotients(cv.Contents()), |Occupied(cv.storage.slots)|)
  }

  method CvCall<V(0)>(cv: Cv.CvBvs<V>, request: Request) returns (reply: bool)
    requires cv.Valid() && Fits(CvShelves(cv), request)
    modifies cv.storage.buckets, cv.storage`slots, cv.storage`bvs, cv.cv, cv`c, cv`v, cv`layout
    ensures cv.Valid() && CvShelves(cv) == Step(old(CvShelves(cv)), request)
    ensures reply <==> Present(old(CvShelves(cv)), request)
  {
    hide Cv.CvBvs.Valid, AllQuotients, Groups, Group, IndexOf, Quotients, Occupied, PtrOf, Sits, Cv.GlobalId;
    ghost var g, h := cv.Contents(), request.home;
    QuotientsOf(g, h);
    QuotientFound(g[h], request.quotient);
    match request {
      case Insert(home, quotient) =>
        var r;
        ghost var p;
        r, p := cv.LookupInsert(home, quotient);
        if !r.keyAlreadyExist {
          QuotientsAppended(g, h, cv.layout[p].entry);
        }
        reply := r.keyAlreadyExist;
      case Search(home, quotient) =>
        var r;
        ghost var p;
        r, p := cv.Search(home, quotient);
        reply := r.Found?;
    }
  }

  lemma QuotientsOf<V>(g: seq<seq<Entry<V>>>, h: nat)
    requires h < |g|
    ensures AllQuotients(g)[h] == Quotients(g[h])
  {
  }

  method CvRun<V(0)>(cv: Cv.CvBvs<V>, requests: seq<Request>) returns (replies: seq<bool>)
    requires cv.Valid() && FitsRun(CvShelves(cv), requests)
    modifies cv.storage.buckets, cv.storage`slots, cv.storage`bvs, cv.cv, cv`c, cv`v, cv`layout
    ensures cv.Valid() && CvShelves(cv) == After(old(CvShelves(cv)), requests, |requests|)
    ensures |replies| == |requests| && Truthful(old(CvShelves(cv)), requests, replies)
  {
    hide Cv.CvBvs.Valid, CvShelves, Fits, Present, Step, Truthful;
    ghost var m := CvShelves(cv);
    replies := [];
    RunStarts(m, requests);
    while |replies| < |requests|
      invariant |replies| <= |requests| && Truthful(m, requests, replies)
      invariant cv.Valid() && CvShelves(cv) == After(m, requests, |replies|)
      decreases |requests| - |replies|
    {
      var reply := CvCall(cv, requests[|replies|]);
      TruthfulNext(m, requests, replies, reply);
      replies := replies + [reply];
    }
  }

  lemma RunStarts(m: Shelves, requests: seq<Request>)
    requires forall j :: 0 <= j < |requests| ==> requests[j].home < |m.homes|
    ensures After(m, requests, 0) == m && Truthful(m, requests, [])
  {
  }

  // --- The placement with displacements -----------------------------------------------------

  ghost function DispShelves<V(0)>(d: Disp.DisplacementPlacement<V>): (m: Shelves)
    reads d, d.storage
    ensures |m.homes| == |d.layout|
  {
    Shelves(AllQuotients(d.Contents()), |Occupied(d.storage.slots)|)
  }

  method DispCall<V(0)>(d: Disp.DisplacementPlacement<V>, request: Request) returns (reply: bool)
    requires d.Valid() && Fits(DispShelves(d), request)
    modifies d.storage.buckets, d.storage`slots, d.storage`bvs, d.table.Repr, d`layout
    ensures d.Valid() && DispShelves(d) == Step(old(DispShelves(d)), request)
    ensures fresh(d.table.Repr - old(d.table.Repr))
    ensures reply <==> Present(old(DispShelves(d)), request)
  {
    hide Disp.DisplacementPlacement.Valid, AllQuotients, Groups, Group, IndexOf, Quotients, Occupied, PtrOf, Sits;
    ghost var g, h := d.Contents(), request.home;
    QuotientsOf(g, h);
    QuotientFound(g[h], request.quotient);
    match request {
      case Insert(home, quotient) =>
        var r := d.LookupInsert(home, quotient);
        if !r.keyAlreadyExist {
          QuotientsAppended(g, h, d.layout[r.id].entry);
        }
        reply := r.keyAlreadyExist;
      case Search(home, quotient) =>
        var r := d.Search(home, quotient);
        reply := r.Found?;
    }
  }

  method DispRun<V(0)>(d: Disp.DisplacementPlacement<V>, requests: seq<Request>) returns (replies: seq<bool>)
    requires d.Valid() && FitsRun(DispShelves(d), requests)
    modifies d.storage.buckets, d.storage`slots, d.storage`bvs, d.table.Repr, d`layout
    ensures d.Valid() && DispShelves(d) == After(old(DispShelves(d)), requests, |requests|)
    ensures fresh(d.table.Repr - old(d.table.Repr))
    ensures |replies| == |requests| && Truthful(old(DispShelves(d)), requests, replies)
  {
    hide Disp.DisplacementPlacement.Valid, DispShelves, Fits, Present, Step, Truthful;
    ghost var m, objects := DispShelves(d), d.table.Repr;
    replies := [];
    RunStarts(m, requests);
    while |replies| < |requests|
      invariant |replies| <= |requests| && Truthful(m, requests, replies)
      invariant d.Valid() && DispShelves(d) == After(m, requests, |replies|) && fresh(d.table.Repr - objects)
      decreases |requests| - |replies|
    {
      var reply := DispCall(d, requests[|replies|]);
      TruthfulNext(m, requests, replies, reply);
      replies := replies + [reply];
    }
  }

  // --- Both ---------------------------------------------------------------------------------

  ghost function NoShelves(n: nat): Shelves
  {
    Shelves(seq(n, _ => []), 0)
  }

  lemma EmptyShelves<V>(g: seq<seq<Entry<V>>>, slots: seq<Option<Entry<V>>>, n: nat)
    requires g == seq(n, _ => []) && slots == seq(n, _ => None)
    ensures Shelves(AllQuotients(g), |Occupied(slots)|) == NoShelves(n)
  {
    assert Occupied(slots) == {};
  }

  lemma SameReplies(m: Shelves, requests: seq<Request>, a: seq<bool>, b: seq<bool>)
    requires forall j :: 0 <= j < |requests| ==> requests[j].home < |m.homes|
    requires |a| == |b| == |requests| && Truthful(m, requests, a) && Truthful(m, requests, b)
    ensures a == b
  {
  }

  lemma DrainedQuotients<V>(g: seq<seq<Entry<V>>>, out: seq<Delivery<V>>)
    requires forall h :: 0 <= h < |g| ==> DeliveredTo(out, h) == g[h]
    ensures forall h :: 0 <= h < |g| ==> Quotients(DeliveredTo(out, h)) == AllQuotients(g)[h]
  {
    hide DeliveredTo, Quotients, AllQuotients;
    forall h | 0 <= h < |g| ensures Quotients(DeliveredTo(out, h)) == AllQuotients(g)[h] {
      QuotientsOf(g, h);
    }
  }

  /** `out` delivers to every home the quotients that were inserted there, in order. */
  ghost predicate Delivers<V>(out: seq<Delivery<V>>, homes: seq<seq<nat>>)
  {
    && (forall h :: 0 <= h < |homes| ==> Quotients(DeliveredTo(out, h)) == homes[h])
    && (forall i :: 0 <= i < |out| ==> out[i].home < |homes|)
  }

  /** A run on a new table with two bits per position, and everything drained from it. */
  method CvWhole<V(0)>(k: nat, requests: seq<Request>) returns (replies: seq<bool>, out: seq<Delivery<V>>)
    requires k >= 1 && FitsRun(NoShelves(Pow2(k)), requests)
    ensures |replies| == |requests| && Truthful(NoShelves(Pow2(k)), requests, replies)
    ensures Delivers(out, After(NoShelves(Pow2(k)), requests, |requests|).homes)
  {
    hide Pow2, FitsRun, AllQuotients, Groups, Group, Quotients, Occupied, DeliveredTo, Truthful, NoShelves, After,
      Cv.CvBvs.Valid;
    var cv := new Cv.CvBvs<V>(k);
    EmptyShelves(cv.Contents(), cv.storage.slots, Pow2(k));
    replies := CvRun(cv, requests);
    ghost var g := cv.Contents();
    out := cv.DrainAll();
    DrainedQuotients(g, out);
  }

  /** A run on a new table with displacements, and everything drained from it. */
  method DispWhole<V(0)>(k: nat, config: TableConfig, requests: seq<Request>)
    returns (replies: seq<bool>, out: seq<Delivery<V>>)
    requires k >= 1 && FitsRun(NoShelves(Pow2(k)), requests) && config.OkFor(Pow2(k))
    ensures |replies| == |requests| && Truthful(NoShelves(Pow2(k)), requests, replies)
    ensures Delivers(out, After(NoShelves(Pow2(k)), requests, |requests|).homes)
  {
    hide Pow2, FitsRun, AllQuotients, Groups, Group, Quotients, Occupied, DeliveredTo, Truthful, NoShelves, After,
      Disp.DisplacementPlacement.Valid;
    var d := new Disp.DisplacementPlacement<V>(k, config);
    EmptyShelves(d.Contents(), d.storage.slots, Pow2(k));
    replies := DispRun(d, requests);
    ghost var g := d.Contents();
    out := d.DrainAll();
    DrainedQuotients(g, out);
  }

  /** Any run on both placements, and the entries drained from both: the answers are the same and true,
      and every home gets back the quotients inserted there, in order, from either. */
  method Compare<V(0)>(k: nat, config: TableConfig, requests: seq<Request>)
    returns (a: seq<bool>, b: seq<bool>, outA: seq<Delivery<V>>, outB: seq<Delivery<V>>)
    requires k >= 1 && FitsRun(NoShelves(Pow2(k)), requests) && config.OkFor(Pow2(k))
    ensures a == b && |a| == |requests| && Truthful(NoShelves(Pow2(k)), requests, a)
    ensures |After(NoShelves(Pow2(k)), requests, |requests|).homes| == Pow2(k)
    ensures Delivers(outA, After(NoShelves(Pow2(k)), requests, |requests|).homes)
    ensures Delivers(outB, After(NoShelves(Pow2(k)), requests, |requests|).homes)
  {
    hide Pow2, FitsRun, Truthful, After, Delivers;
    a, outA := CvWhole(k, requests);
    b, outB := DispWhole(k, config, requests);
    SameReplies(NoShelves(Pow2(k)), requests, a, b);
  }
}
