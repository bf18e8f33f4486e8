/** The sparse storage of the table: an array of buckets, each a 64-bit bitmap of the occupied
    positions and a dense array holding one entry per set bit, found by its rank. */
module SparseStorage {
  import opened Entries
  import opened Bits
  import opened Sizing
  import Layouts

  /** A bucket owns its single allocation, so it is a value; an empty bitmap allocates nothing. */
  datatype Bucket<+V> = Bucket(bv: nat, elems: seq<Entry<V>>)

  /** `bucket_t::at`: the pointer to element `offset`, or null for an empty bucket. */
  function PtrAt(bv: nat, bucket: nat, offset: nat): Ptr
  {
    if Popcount(bv) == 0 then Null else Ptr(bucket, offset)
  }

  /** The pointer for table position `p` over the bitmaps `bvs`: its bucket, and the rank of its bit. */
  function PtrOf(bvs: seq<nat>, p: nat): Ptr
  {
    if p / 64 < |bvs| then PtrAt(bvs[p / 64], p / 64, Rank(bvs[p / 64], p % 64)) else Null
  }

  /** `iter_t`: a backward iterator, the bucket it is in and two pointers into that bucket. */
  datatype Iter = Iter(bucket: int, first: Ptr, current: Ptr)

  /** The iterator that stands at table position `p`. */
  function IterAt(bvs: seq<nat>, p: nat): Iter
  {
    Iter(p / 64, if p / 64 < |bvs| then PtrAt(bvs[p / 64], p / 64, 0) else Null, PtrOf(bvs, p))
  }

  /** Bucket number `b` holds exactly the entries of `slots[64 * b ..]`. */
  ghost predicate Represents<V>(bucket: Bucket<V>, b: nat, slots: seq<Option<Entry<V>>>)
  {
    && bucket.bv < Pow2(64)
    && |bucket.elems| == Popcount(bucket.bv)
    && forall i {:trigger Bit(bucket.bv, i)} :: 0 <= i < 64 ==>
         && (Bit(bucket.bv, i) <==> 64 * b + i < |slots| && slots[64 * b + i].Some?)
         && (Bit(bucket.bv, i) ==>
               && Rank(bucket.bv, i) < |bucket.elems|
               && slots[64 * b + i] == Some(bucket.elems[Rank(bucket.bv, i)]))
  }

  /** A bucket sees only its own 64 slots. */
  lemma RepresentsOther<V>(bucket: Bucket<V>, b: nat, slots: seq<Option<Entry<V>>>, after: seq<Option<Entry<V>>>)
    requires Represents(bucket, b, slots) && |after| == |slots|
    requires forall q :: 0 <= q < |slots| && q / 64 == b ==> after[q] == slots[q]
    ensures Represents(bucket, b, after)
  {
  }

  /** Clear bits do not raise the rank. */
  lemma {:induction false} RankGap(w: nat, i: nat, j: nat)
    requires i <= j
    requires forall k :: i <= k < j ==> !Bit(w, k)
    ensures Rank(w, j) == Rank(w, i)
    decreases j
  {
    if i < j {
      RankGap(w, i, j - 1);
    }
  }

  /** Two set bits of a word have different ranks, in their own order. */
  lemma RankOrder(w: nat, i: nat, j: nat)
    requires Bit(w, i) && Bit(w, j)
    ensures i < j <==> Rank(w, i) < Rank(w, j)
    ensures i == j <==> Rank(w, i) == Rank(w, j)
  {
    if i < j {
      RankMonotone(w, i, j);
    } else if j < i {
      RankMonotone(w, j, i);
    }
  }

  lemma SetBitPositive(w: nat, i: nat)
    requires i < 64 && Bit(w, i)
    ensures Rank(w, i) < Popcount(w)
  {
    RankMonotone(w, i, 64);
  }

  /** Two occupied positions have different pointers. */
  lemma PtrInjective<V(0)>(storage: BucketsBv<V>, p: nat, q: nat)
    requires storage.Valid() && p < storage.n && q < storage.n
    requires storage.slots[p].Some? && storage.slots[q].Some?
    ensures PtrOf(storage.bvs, p) == PtrOf(storage.bvs, q) <==> p == q
  {
    hide Bit, Rank, Or, Pow2;
    var b, c := p / 64, q / 64;
    assert p == 64 * b + p % 64 && q == 64 * c + q % 64;
    assert Bit(storage.buckets[b].bv, p % 64) && Bit(storage.buckets[c].bv, q % 64);
    SetBitPositive(storage.buckets[b].bv, p % 64);
    SetBitPositive(storage.buckets[c].bv, q % 64);
    if b == c {
      RankOrder(storage.buckets[b].bv, p % 64, q % 64);
    }
  }

  /** An iterator yields the pointer of the position it stands at. */
  lemma IterCurrent(bvs: seq<nat>, p: nat)
    ensures IterAt(bvs, p).current == PtrOf(bvs, p)
  {
  }

  /** Iterators at occupied positions are told apart by their pointers. */
  lemma IterDistinct<V(0)>(storage: BucketsBv<V>, p: nat, q: nat)
    requires storage.Valid() && p < storage.n && q < storage.n
    requires storage.slots[p].Some? && storage.slots[q].Some?
    ensures IterAt(storage.bvs, p).current == IterAt(storage.bvs, q).current <==> p == q
  {
    PtrInjective(storage, p, q);
  }

  /** Writing the entry of one slot through its rank leaves every other slot as it was. */
  lemma RepresentsWrite<V>(bucket: Bucket<V>, b: nat, slots: seq<Option<Entry<V>>>, i: nat, e: Entry<V>)
    requires Represents(bucket, b, slots)
    requires i < 64 && 64 * b + i < |slots| && slots[64 * b + i].Some?
    ensures Bit(bucket.bv, i) && Rank(bucket.bv, i) < |bucket.elems|
    ensures Represents(bucket.(elems := bucket.elems[Rank(bucket.bv, i) := e]), b, slots[64 * b + i := Some(e)])
  {
    var bv := bucket.bv;
    assert Bit(bv, i);
    forall j | 0 <= j < 64 && Bit(bv, j)
      ensures Rank(bv, j) == Rank(bv, i) ==> j == i
    {
      RankOrder(bv, i, j);
    }
  }

  /** How setting the clear bit `i` moves the ranks around it. */
  lemma RanksAround(bv: nat, i: nat, j: nat)
    requires !Bit(bv, i)
    ensures Bit(Or(bv, Pow2(i)), j) <==> i == j || Bit(bv, j)
    ensures Rank(Or(bv, Pow2(i)), j) == Rank(bv, j) + if i < j then 1 else 0
    ensures Bit(bv, j) && j < i ==> Rank(bv, j) < Rank(bv, i)
    ensures i < j ==> Rank(bv, i) <= Rank(bv, j)
  {
    OrMask(bv, i, j);
    RankOfOr(bv, i, j);
    if j < i {
      RankMonotone(bv, j, i);
    } else {
      RankMonotone(bv, i, j);
    }
  }

  lemma WordInsert(bv: nat, i: nat)
    requires i < 64 && bv < Pow2(64) && !Bit(bv, i)
    ensures Or(bv, Pow2(i)) < Pow2(64)
    ensures Popcount(Or(bv, Pow2(i))) == Popcount(bv) + 1
  {
    RankOfOr(bv, i, 64);
    Pow2Monotone(i, 64);
    OrBound(bv, Pow2(i), 64);
  }

  /** Inserting an element at the rank of a clear bit, and setting the bit, adds exactly that slot. */
  lemma RepresentsInsert<V>(bucket: Bucket<V>, b: nat, slots: seq<Option<Entry<V>>>, i: nat, e: Entry<V>,
      after: Bucket<V>)
    requires Represents(bucket, b, slots)
    requires i < 64 && 64 * b + i < |slots| && slots[64 * b + i].None?
    requires Rank(bucket.bv, i) <= |bucket.elems|
    requires after.bv == Or(bucket.bv, Pow2(i))
    requires after.elems == bucket.elems[..Rank(bucket.bv, i)] + [e] + bucket.elems[Rank(bucket.bv, i)..]
    ensures Represents(after, b, slots[64 * b + i := Some(e)])
  {
    hide Bit, Rank, Or, Pow2;
    var bv := bucket.bv;
    var after' := slots[64 * b + i := Some(e)];
    assert !Bit(bv, i);
    WordInsert(bv, i);
    forall j | 0 <= j < 64
      ensures Bit(after.bv, j) <==> 64 * b + j < |after'| && after'[64 * b + j].Some?
      ensures Bit(after.bv, j) ==>
                && Rank(after.bv, j) < |after.elems|
                && after'[64 * b + j] == Some(after.elems[Rank(after.bv, j)])
    {
      RanksAround(bv, i, j);
      assert j != i && Bit(bv, j) ==> slots[64 * b + j] == Some(bucket.elems[Rank(bv, j)]);
    }
  }

  /** `bucket_t::insert_at`: a new allocation with room for one more element, filled by moving the
      elements before and after the new one.  The new element itself stays uninitialized. */
  method InsertAt<V(0)>(b: Bucket<V>, newPos: nat, newBits: nat) returns (nb: Bucket<V>, ret: nat)
    requires Popcount(Or(b.bv, newBits)) == |b.elems| + 1
    requires newPos <= |b.elems|
    ensures nb.bv == Or(b.bv, newBits) && ret == newPos
    ensures |nb.elems| == |b.elems| + 1
    ensures nb.elems == b.elems[..newPos] + [nb.elems[newPos]] + b.elems[newPos..]
  {
    var size := |b.elems| + 1;
    var data := new Entry<V>[size];
    var newIter, oldIter := 0, 0;
    while newIter != newPos
      invariant 0 <= newIter == oldIter <= newPos
      invariant data[..newIter] == b.elems[..newIter]
    {
      data[newIter] := b.elems[oldIter];
      newIter, oldIter := newIter + 1, oldIter + 1;
    }
    ret := newIter;
    newIter := newIter + 1;
    while newIter != size
      invariant newPos < newIter == oldIter + 1 <= size
      invariant data[..newPos] == b.elems[..newPos]
      invariant forall j :: newPos < j < newIter ==> data[j] == b.elems[j - 1]
    {
      data[newIter] := b.elems[oldIter];
      newIter, oldIter := newIter + 1, oldIter + 1;
    }
    nb := Bucket(Or(b.bv, newBits), data[..]);
  }

  /** The bucketed storage of a table with `n` positions (`buckets_bv_t` with its context). */
  class BucketsBv<V(0)> {
    const n: nat
    const buckets: array<Bucket<V>>
    /** The plain array of optional slots this storage stands for. */
    ghost var slots: seq<Option<Entry<V>>>
    /** The bitmaps of all buckets. */
    ghost var bvs: seq<nat>

    ghost predicate Valid()
      reads this, buckets
      ensures Valid() ==> |slots| == n
    {
      && |slots| == n
      && buckets.Length == |bvs| == (n + 63) / 64
      && forall b :: 0 <= b < buckets.Length ==> bvs[b] == buckets[b].bv && Represents(buckets[b], b, slots)
    }

    constructor (n: nat)
      ensures Valid() && fresh(buckets) && this.n == n
      ensures slots == seq(n, _ => None)
    {
      this.n := n;
      this.buckets := new Bucket<V>[(n + 63) / 64](_ => Bucket(0, []));
      this.slots := seq(n, _ => None);
      this.bvs := seq((n + 63) / 64, _ => 0);
      new;
      RankOfZero(64);
      forall i ensures !Bit(0, i) { BitOfZero(i); }
    }

    /** `pos_is_empty`: the bit of `pos` in the bitmap of its bucket is clear. */
    method PosIsEmpty(pos: nat) returns (empty: bool)
      requires Valid() && pos < n
      ensures empty <==> slots[pos].None?
    {
      AndMask(buckets[pos / 64].bv, pos % 64);
      assert pos == 64 * (pos / 64) + pos % 64;
      empty := And(buckets[pos / 64].bv, Pow2(pos % 64)) == 0;
    }

    /** `offset_in_bucket`: the rank of the bit of `pos`, legal also for an empty position. */
    function OffsetInBucket(pos: nat): (r: nat)
      requires Valid() && pos < n
      reads this, buckets
      ensures r == Rank(buckets[pos / 64].bv, pos % 64)
    {
      PopcountBelow(buckets[pos / 64].bv, pos % 64);
      Popcount(And(buckets[pos / 64].bv, Pow2(pos % 64) - 1))
    }

    /** `at`: the pointer to the entry stored at `pos`. */
    method At(pos: nat) returns (p: Ptr)
      requires Valid() && pos < n && slots[pos].Some?
      ensures p == PtrOf(bvs, pos)
    {
      p := PtrAt(buckets[pos / 64].bv, pos / 64, OffsetInBucket(pos));
    }

    /** Reads the entry behind the pointer of slot `p`. */
    method Read(ptr: Ptr, ghost p: nat) returns (e: Entry<V>)
      requires Valid() && p < n && slots[p].Some? && ptr == PtrOf(bvs, p)
      ensures Some(e) == slots[p]
    {
      assert p == 64 * (p / 64) + p % 64;
      assert Bit(buckets[p / 64].bv, p % 64);
      SetBitPositive(buckets[p / 64].bv, p % 64);
      e := buckets[ptr.bucket].elems[ptr.offset];
    }

    /** Overwrites the entry behind the pointer of slot `p`; no other slot and no pointer changes. */
    method Write(ptr: Ptr, e: Entry<V>, ghost p: nat)
      requires Valid() && p < n && slots[p].Some? && ptr == PtrOf(bvs, p)
      modifies buckets, this`slots
      ensures Valid()
      ensures slots == old(slots)[p := Some(e)]
    {
      hide Bit, Rank, Or, Pow2;
      ghost var b, i := p / 64, p % 64;
      assert p == 64 * b + i;
      RepresentsWrite(buckets[b], b, slots, i, e);
      SetBitPositive(buckets[b].bv, i);
      var bucket := buckets[ptr.bucket];
      buckets[ptr.bucket] := bucket.(elems := bucket.elems[ptr.offset := e]);
      slots := slots[p := Some(e)];
      forall c | 0 <= c < buckets.Length && c != b
        ensures Represents(buckets[c], c, slots)
      {
        RepresentsOther(buckets[c], c, old(slots), slots);
      }
    }

    /** `set_quotient`: overwrites the quotient behind the pointer of slot `p`. */
    method SetQuotient(ptr: Ptr, q: nat, ghost p: nat)
      requires Valid() && p < n && slots[p].Some? && ptr == PtrOf(bvs, p)
      modifies buckets, this`slots
      ensures Valid()
      ensures slots == old(slots)[p := Some(Entry(q, old(slots)[p].value.value))]
    {
      hide *;
      var entry := Read(ptr, p);
      Write(ptr, entry.(quotient := q), p);
    }

    /** `set_val`: overwrites the value behind the pointer of slot `p`. */
    method SetValue(ptr: Ptr, val: V, ghost p: nat)
      requires Valid() && p < n && slots[p].Some? && ptr == PtrOf(bvs, p)
      modifies buckets, this`slots
      ensures Valid()
      ensures slots == old(slots)[p := Some(Entry(old(slots)[p].value.quotient, val))]
    {
      hide *;
      var entry := Read(ptr, p);
      Write(ptr, entry.(value := val), p);
    }

    /** `allocate_pos`: makes room for an entry at the empty position `pos`.  The new entry is
        uninitialized; every other slot reads as before. */
    method AllocatePos(pos: nat) returns (ptr: Ptr)
      requires Valid() && pos < n && slots[pos].None?
      modifies buckets, this`slots, this`bvs
      ensures Valid()
      ensures slots[pos].Some? && slots == old(slots)[pos := slots[pos]]
      ensures ptr == PtrOf(bvs, pos)
    {
      hide Bit, Rank, Or, Pow2;
      var b, i := pos / 64, pos % 64;
      assert pos == 64 * b + i;
      assert !Bit(buckets[b].bv, i);
      var offset := OffsetInBucket(pos);
      RankMonotone(buckets[b].bv, i, 64);
      WordInsert(buckets[b].bv, i);
      var newBv := Or(buckets[b].bv, Pow2(i));
      OrIdempotent(buckets[b].bv, Pow2(i));
      var nb, ret := InsertAt(buckets[b], offset, newBv);
      RepresentsInsert(buckets[b], b, slots, i, nb.elems[offset], nb);
      RankOfOr(buckets[b].bv, i, i);
      buckets[b] := nb;
      bvs := bvs[b := nb.bv];
      slots := slots[pos := Some(nb.elems[offset])];
      forall c | 0 <= c < buckets.Length && c != b
        ensures Represents(buckets[c], c, slots)
      {
        RepresentsOther(buckets[c], c, old(slots), slots);
      }
      ptr := PtrAt(nb.bv, b, ret);
    }

    /** `make_iter`: an iterator at `pos`, which may be one past the end of the table. */
    method MakeIter(pos: nat) returns (it: Iter)
      requires Valid() && pos <= n
      ensures it == IterAt(bvs, pos)
    {
      var b := pos / 64;
      if b < buckets.Length {
        PopcountBelow(buckets[b].bv, pos % 64);
        var offset := Popcount(And(buckets[b].bv, Pow2(pos % 64) - 1));
        it := Iter(b, PtrAt(buckets[b].bv, b, 0), PtrAt(buckets[b].bv, b, offset));
      } else {
        it := Iter(b, Null, Null);
      }
    }

    /** `decrement`: from position `p` to the closest occupied position `q` before it, across empty
        buckets. */
    method Decrement(it: Iter, ghost p: nat, ghost q: nat) returns (r: Iter)
      requires Valid() && q < p <= n && slots[q].Some?
      requires forall x :: q < x < p ==> slots[x].None?
      requires it == IterAt(bvs, p)
      ensures r == IterAt(bvs, q)
    {
      hide Represents, Rank;
      ghost var c := q / 64;
      RankAtNext(p, q);
      if it.first != it.current {
        r := it.(current := it.current.(offset := it.current.offset - 1));
      } else {
        var bucket := it.bucket - 1;
        while buckets[bucket].bv == 0
          invariant c <= bucket < buckets.Length && bucket < it.bucket
          decreases bucket
        {
          RankOfZero(64);
          assert bucket != c;
          bucket := bucket - 1;
        }
        EmptyBucketsSkipped(p, q, bucket);
        r := Iter(bucket, PtrAt(buckets[bucket].bv, bucket, 0),
                  PtrAt(buckets[bucket].bv, bucket, Popcount(buckets[bucket].bv) - 1));
      }
    }

    /** The rank of the closest occupied position before `p`. */
    lemma RankAtNext(p: nat, q: nat)
      requires Valid() && q < p <= n && slots[q].Some?
      requires forall x :: q < x < p ==> slots[x].None?
      ensures Rank(buckets[q / 64].bv, q % 64) < Popcount(buckets[q / 64].bv)
      ensures p / 64 == q / 64 ==> Rank(buckets[p / 64].bv, p % 64) == Rank(buckets[q / 64].bv, q % 64) + 1
      ensures p / 64 != q / 64 ==> Popcount(buckets[q / 64].bv) == Rank(buckets[q / 64].bv, q % 64) + 1
      ensures p / 64 != q / 64 && p / 64 < buckets.Length ==> Rank(buckets[p / 64].bv, p % 64) == 0
    {
      var c, j := q / 64, q % 64;
      var bv := buckets[c].bv;
      assert q == 64 * c + j && Bit(bv, j);
      SetBitPositive(bv, j);
      var end := if p / 64 == c then p % 64 else 64;
      assert 64 * c + end <= p;
      forall k | j + 1 <= k < end ensures !Bit(bv, k)
      {
        assert 64 * c + k < n ==> slots[64 * c + k].None?;
      }
      RankGap(bv, j + 1, end);
      if p / 64 != c && p / 64 < buckets.Length {
        var b := p / 64;
        forall k | 0 <= k < p % 64 ensures !Bit(buckets[b].bv, k)
        {
          assert 64 * b + k < n ==> slots[64 * b + k].None?;
        }
        RankGap(buckets[b].bv, 0, p % 64);
      }
    }

    /** Every bucket strictly between the two positions is empty. */
    lemma EmptyBucketsSkipped(p: nat, q: nat, b: nat)
      requires Valid() && q < p <= n && slots[q].Some?
      requires forall x :: q < x < p ==> slots[x].None?
      requires q / 64 <= b < p / 64 && b < buckets.Length && buckets[b].bv != 0
      ensures b == q / 64
    {
      var i := SomeBit(buckets[b].bv, 64);
      assert slots[64 * b + i].Some?;
    }

    /** `drop_bucket`: frees the bucket, so that all its positions are empty. */
    method DropBucket(b: nat)
      requires Valid() && b < buckets.Length
      modifies buckets, this`slots, this`bvs
      ensures Valid()
      ensures forall p :: 0 <= p < n ==> slots[p] == if p / 64 == b then None else old(slots)[p]
    {
      hide Bit, Rank, Or, Pow2;
      ghost var before := slots;
      buckets[b] := Bucket(0, []);
      bvs := bvs[b := 0];
      slots := seq(n, p requires 0 <= p < |before| => if p / 64 == b then None else before[p]);
      RankOfZero(64);
      forall i ensures !Bit(0, i) { BitOfZero(i); }
      forall c | 0 <= c < buckets.Length && c != b
        ensures Represents(buckets[c], c, slots)
      {
        RepresentsOther(buckets[c], c, before, slots);
      }
    }

    /** The first empty position, from which a walk over the table starts. */
    method FirstEmpty() returns (e: nat)
      requires Valid() && exists p :: 0 <= p < n && slots[p].None?
      ensures e < n && slots[e].None? && forall p :: 0 <= p < e ==> slots[p].Some?
    {
      hide *;
      e := 0;
      var empty := PosIsEmpty(e);
      while !empty
        invariant e < n && (empty <==> slots[e].None?)
        invariant forall p :: 0 <= p < e ==> slots[p].Some?
        decreases n - e
      {
        e := e + 1;
        empty := PosIsEmpty(e);
      }
    }

    /** `trim_storage`: when the position `end` is the first one stored in its bucket, frees the
        buckets passed since `lastStart`, unless that position is not the first one of its bucket.  What
        is freed lies between the two positions. */
    method TrimStorage(lastStart: nat, end: nat) returns (start: nat)
      requires Valid() && lastStart < n && end < n
      modifies buckets, this`slots, this`bvs
      ensures Valid()
      ensures start == if Layouts.Leads(old(slots), end) then end else lastStart
      ensures Layouts.Trimmed(old(slots), lastStart, end, slots)
      ensures forall p :: 0 <= p < n ==>
        slots[p] == old(slots)[p] || (slots[p].None? && Layouts.Between(lastStart, p, end))
    {
      hide Represents, Rank;
      LeadsByRank(lastStart);
      LeadsByRank(end);
      start := lastStart;
      var atBoundary := OffsetInBucket(end) == 0;
      if atBoundary {
        var inside := OffsetInBucket(start) != 0;
        if inside {
          start := end;
        }
        ghost var before, from := slots, start;
        var i, last := start / 64, end / 64;
        while i != last
          invariant 0 <= i < buckets.Length && (i == last || Layouts.Between(from / 64, i, last)) && Valid()
          invariant forall p :: 0 <= p < n ==>
            slots[p] == if Layouts.Between(from / 64, p / 64, i) then None else before[p]
          decreases Layouts.Steps(i, last, buckets.Length)
        {
          DropBucket(i);
          i := ModAdd(i, 1, buckets.Length);
        }
        start := end;
      }
    }

    /** The callback of `drain_all`: trims the storage behind position `i` and reads its entry. */
    method Visit(drainStart: nat, i: nat, ghost before: seq<Option<Entry<V>>>, ghost e: nat, ghost m: nat, ghost k: nat)
      returns (start: nat, entry: Entry<V>, ghost m': nat)
      requires Valid() && |before| == n && e < n && m <= k < n && Layouts.Pending(slots, before, e, k)
      requires drainStart == Layouts.Pos(e, m, n) && i == Layouts.Pos(e, k, n) && before[i].Some?
      modifies buckets, this`slots, this`bvs
      ensures Valid() && Layouts.Pending(slots, before, e, k)
      ensures m' == (if Layouts.Leads(old(slots), i) then k else m) && start == Layouts.Pos(e, m', n)
      ensures Layouts.Trimmed(old(slots), drainStart, i, slots)
      ensures i < |slots| && Some(entry) == slots[i] == before[i]
    {
      hide *;
      ghost var pending := slots;
      start := TrimStorage(drainStart, i);
      Layouts.TrimKeepsPending(pending, before, e, m, k, slots);
      Layouts.StillThere(slots, before, e, k);
      m' := if Layouts.Leads(pending, i) then k else m;
      var ptr := At(i);
      entry := Read(ptr, i);
    }

    /** A position has rank 0 exactly if no position before it in its bucket is occupied. */
    lemma LeadsByRank(pos: nat)
      requires Valid() && pos < n
      ensures Rank(buckets[pos / 64].bv, pos % 64) == 0 <==> Layouts.Leads(slots, pos)
    {
      hide Rank, Bit;
      var b, i := pos / 64, pos % 64;
      var bv := buckets[b].bv;
      assert pos == 64 * b + i;
      if Rank(bv, i) == 0 {
        forall p | 0 <= p < pos && p / 64 == b ensures slots[p].None? {
          assert p == 64 * b + p % 64;
          RankZeroBelow(bv, i, p % 64);
        }
      }
      if Layouts.Leads(slots, pos) {
        forall k | 0 <= k < i ensures !Bit(bv, k) {
          assert (64 * b + k) / 64 == b;
        }
        RankGap(bv, 0, i);
        RankStart(bv);
      }
    }
  }

  lemma RankStart(w: nat)
    ensures Rank(w, 0) == 0
  {
  }
}
