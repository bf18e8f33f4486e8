/** The table of variable-length coded displacements (`elias_gamma_displacement_table_t`). */
module EliasTable {
  import opened EliasGamma

  /** `calc_buckets`: the number of buckets, the last one possibly smaller. */
  function BucketCount(n: nat, bucketSize: nat): nat
    requires bucketSize > 0
  {
    n / bucketSize + if n % bucketSize != 0 then 1 else 0
  }

  /** The values of bucket `b`. */
  ghost function Chunk(values: seq<nat>, bucketSize: nat, b: nat): seq<nat>
  {
    values[Clip(b * bucketSize, |values|)..Clip(b * bucketSize + bucketSize, |values|)]
  }

  function Clip(a: nat, limit: nat): nat
  {
    if a <= limit then a else limit
  }

  lemma PieceUpdate(values: seq<nat>, from: nat, to: nat, pos: nat, val: nat)
    requires from <= to <= |values| && pos < |values|
    ensures values[pos := val][from..to] ==
      if from <= pos < to then values[from..to][pos - from := val] else values[from..to]
  {
  }

  /** Where a position is found. */
  lemma ChunkAt(values: seq<nat>, bucketSize: nat, pos: nat)
    requires bucketSize > 0 && pos < |values|
    ensures pos / bucketSize < BucketCount(|values|, bucketSize)
    ensures pos % bucketSize < |Chunk(values, bucketSize, pos / bucketSize)|
    ensures Chunk(values, bucketSize, pos / bucketSize)[pos % bucketSize] == values[pos]
  {
    var b, k := pos / bucketSize, |values| / bucketSize;
    assert pos == b * bucketSize + pos % bucketSize;
    assert |values| == k * bucketSize + |values| % bucketSize;
    if b > k {
      MulLess(k, b, bucketSize);
    }
    if b == k {
      assert |values| % bucketSize != 0;
    }
  }

  lemma MulLess(a: nat, b: nat, m: nat)
    requires a < b
    ensures a * m + m <= b * m
  {
    assert (b - a - 1) * m >= 0;
    assert b * m == a * m + m + (b - a - 1) * m;
  }

  /** Changing one value changes one bucket. */
  lemma ChunkUpdate(values: seq<nat>, bucketSize: nat, pos: nat, val: nat, c: nat)
    requires bucketSize > 0 && pos < |values|
    requires pos % bucketSize < |Chunk(values, bucketSize, pos / bucketSize)|
    ensures Chunk(values[pos := val], bucketSize, c) ==
      if c == pos / bucketSize then Chunk(values, bucketSize, c)[pos % bucketSize := val] else Chunk(values,
          bucketSize, c)
  {
    var b := pos / bucketSize;
    assert pos == b * bucketSize + pos % bucketSize;
    PieceUpdate(values, Clip(c * bucketSize, |values|), Clip(c * bucketSize + bucketSize, |values|), pos, val);
    if c < b {
      MulLess(c, b, bucketSize);
    } else if b < c {
      MulLess(b, c, bucketSize);
    }
  }

  class EliasGammaTable {
    const bucketSize: nat
    const buckets: seq<Bucket>
    var elemCursor: nat
    var bitCursor: nat
    var bucketCursor: nat
    /** The plain array of numbers this table stands for. */
    ghost var values: seq<nat>
    /** The memory of the buckets. */
    ghost var cells: set<object>

    /** Bucket `b` holds its part of `values`. */
    ghost predicate BucketOk(b: nat)
      requires b < |buckets|
      reads this`values, buckets[b], buckets[b].data
    {
      buckets[b].Valid() && buckets[b].values == Chunk(values, bucketSize, b)
    }

    /** The state apart from the cursor. */
    ghost predicate Shape()
      reads this`values, this`cells, cells
      ensures Shape() ==> bucketSize > 0 && |buckets| == BucketCount(|values|, bucketSize)
    {
      && this !in cells
      && bucketSize > 0 && |buckets| == BucketCount(|values|, bucketSize)
      && (forall b :: 0 <= b < |buckets| ==> buckets[b] in cells && buckets[b].data in cells && BucketOk(b))
      && Apart(buckets)
    }

    ghost predicate CursorOk()
      reads this
    {
      |buckets| > 0 ==>
        bucketCursor < |buckets| && CursorAt(Chunk(values, bucketSize, bucketCursor), elemCursor, bitCursor)
    }

    ghost predicate Valid()
      reads this, cells
      ensures Valid() ==> this !in cells
    {
      Shape() && CursorOk()
    }

    constructor (n: nat, bucketSize: nat)
      requires bucketSize > 0
      ensures Valid() && fresh(cells)
      ensures values == seq(n, _ => 0)
    {
      var made;
      ghost var all;
      made, all := MakeBuckets(n, bucketSize);
      this.bucketSize, this.buckets := bucketSize, made;
      elemCursor, bitCursor, bucketCursor := 0, 0, 0;
      values := seq(n, _ => 0);
      cells := all;
      new;
      hide Chunk, BucketCount, Bucket.Valid;
      assert |buckets| > 0 ==> Chunk(values, bucketSize, 0)[..0] == [];
    }

    /** `get`: through the cursor, which is kept as long as the bucket stays the same. */
    method Get(pos: nat) returns (v: nat)
      requires Valid() && pos < |values|
      modifies this`elemCursor, this`bitCursor, this`bucketCursor
      ensures Valid() && v == values[pos]
    {
      hide Chunk, BucketCount, CursorAt, Shape;
      ChunkAt(values, bucketSize, pos);
      var bucket, offset := pos / bucketSize, pos % bucketSize;
      Turn(bucket);
      BucketIs(bucket);
      v, elemCursor, bitCursor := buckets[bucketCursor].Get(offset, elemCursor, bitCursor);
    }

    /** Moves the cursor to the front of `bucket`, unless it is in there already. */
    method Turn(bucket: nat)
      requires Valid() && bucket < |buckets|
      modifies this`elemCursor, this`bitCursor, this`bucketCursor
      ensures Valid() && bucketCursor == bucket
    {
      hide BucketCount, Chunk, Shape;
      if bucket != bucketCursor {
        bucketCursor := bucket;
        elemCursor := 0;
        bitCursor := 0;
        assert Chunk(values, bucketSize, bucket)[..0] == [];
      }
    }

    lemma BucketIs(b: nat)
      requires Shape() && b < |buckets|
      ensures buckets[b].Valid() && buckets[b].values == Chunk(values, bucketSize, b)
      ensures buckets[b] in cells && buckets[b].data in cells
    {
    }

    /** `set` */
    method Set(pos: nat, val: nat)
      requires Valid() && pos < |values|
      modifies this, cells
      ensures Valid() && fresh(cells - old(cells))
      ensures values == old(values)[pos := val]
    {
      hide Chunk, BucketCount, CursorAt, Shape, Bucket.Valid;
      ChunkAt(values, bucketSize, pos);
      var bucket, offset := pos / bucketSize, pos % bucketSize;
      Turn(bucket);
      ChunkUpdate(values, bucketSize, pos, val, bucket);
      elemCursor, bitCursor := SetIn(bucket, offset, pos, val, elemCursor, bitCursor);
    }

    /** The part of `set` in the bucket of the position. */
    method SetIn(bucket: nat, offset: nat, ghost pos: nat, val: nat, elem: nat, bit: nat) returns (elem': nat,
        bit': nat)
      requires Shape() && pos < |values| && bucket < |buckets| && bucket == pos / bucketSize
          && offset == pos % bucketSize
      requires offset < |Chunk(values, bucketSize, bucket)| && CursorAt(Chunk(values, bucketSize, bucket), elem, bit)
      modifies this, cells
      ensures Shape() && fresh(cells - old(cells))
      ensures values == old(values)[pos := val] && bucketCursor == old(bucketCursor)
      ensures CursorAt(Chunk(values, bucketSize, bucket), elem', bit')
    {
      hide Chunk, BucketCount, CursorAt, Bucket.Valid;
      BucketIs(bucket);
      elem', bit' := buckets[bucket].Set(offset, val, elem, bit);
      ghost var before := values;
      values := values[pos := val];
      cells := cells + {buckets[bucket].data};
      forall c | 0 <= c < |buckets| ensures BucketOk(c) {
        ChunkUpdate(before, bucketSize, pos, val, c);
      }
      ChunkUpdate(before, bucketSize, pos, val, bucket);
    }
  }

  /** Every bucket has memory of its own. */
  ghost predicate Apart(buckets: seq<Bucket>)
    reads buckets
  {
    forall b, c :: 0 <= b < c < |buckets| ==> buckets[b] != buckets[c] && buckets[b].data != buckets[c].data
  }

  /** The loop of the constructor. */
  method MakeBuckets(n: nat, bucketSize: nat) returns (made: seq<Bucket>, ghost all: set<object>)
    requires bucketSize > 0
    ensures |made| == BucketCount(n, bucketSize) && Apart(made) && fresh(all)
    ensures forall b :: 0 <= b < |made| ==> made[b] in all && made[b].data in all && made[b].Valid()
    ensures forall b :: 0 <= b < |made| ==> made[b].values == Chunk(seq(n, _ => 0), bucketSize, b)
  {
    hide Chunk, Bucket.Valid, BucketCount;
    made, all := [], {};
    var full, remainder := n / bucketSize, n % bucketSize;
    CountIs(n, bucketSize);
    for i := 0 to full
      invariant |made| == i && Apart(made) && fresh(all)
      invariant forall b :: 0 <= b < |made| ==> made[b] in all && made[b].data in all && made[b].Valid()
      invariant forall b :: 0 <= b < |made| ==> made[b].values == Chunk(seq(n, _ => 0), bucketSize, b)
    {
      ChunkZero(n, bucketSize, i);
      var bucket := new Bucket(bucketSize);
      made, all := made + [bucket], all + {bucket, bucket.data};
    }
    if remainder != 0 {
      ChunkZero(n, bucketSize, full);
      var bucket := new Bucket(remainder);
      made, all := made + [bucket], all + {bucket, bucket.data};
    }
  }

  lemma CountIs(n: nat, bucketSize: nat)
    requires bucketSize > 0
    ensures BucketCount(n, bucketSize) == n / bucketSize + if n % bucketSize != 0 then 1 else 0
  {
  }

  lemma ChunkZero(n: nat, bucketSize: nat, b: nat)
    requires bucketSize > 0 && b < BucketCount(n, bucketSize)
    ensures Chunk(seq(n, _ => 0), bucketSize, b) == seq(if b < n / bucketSize then bucketSize else n % bucketSize,
        _ => 0)
  {
    var k := n / bucketSize;
    assert n == k * bucketSize + n % bucketSize;
    if b < k {
      MulLess(b, k, bucketSize);
    }
  }
}
