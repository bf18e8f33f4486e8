/** The displacement table of variable-length codes (`elias_gamma_displacement_table_t`): buckets of
    Elias gamma codes in one bit string each, read through a cached cursor. */
module EliasGamma {
  import opened GammaCode

  /** The bits of `code` stand at `cursor`. */
  ghost predicate Reads(bits: seq<bool>, cursor: nat, code: seq<bool>)
  {
    cursor + |code| <= |bits| && bits[cursor..cursor + |code|] == code
  }

  /** The cursor `(elem, bit)` stands before value number `elem`. */
  ghost predicate CursorAt(values: seq<nat>, elem: nat, bit: nat)
  {
    elem <= |values| && bit == |Encode(values[..elem])|
  }

  /** `read_elias_gamma`: counts zeros up to the first one, and reads that many digits behind it. */
  method ReadGamma(data: array<bool>, cursor: nat, ghost n: nat) returns (r: nat, next: nat)
    requires n >= 1 && Reads(data[..], cursor, Gamma(n))
    ensures r == n && next == cursor + |Gamma(n)|
  {
    hide Gamma, Digits, Value;
    ghost var k := |Digits(n)|;
    CodeBits(data[..], cursor, n);
    var zeros := 0;
    next := cursor;
    while !data[next]
      invariant 0 <= zeros <= k && next == cursor + zeros
      decreases k - zeros
    {
      zeros, next := zeros + 1, next + 1;
    }
    assert zeros == k;
    next := next + 1;
    r := 1;
    var i := 0;
    ValueStart(Digits(n));
    while i < zeros
      invariant 0 <= i <= zeros && next == cursor + k + 1 + i
      invariant r == Value(Digits(n)[..i])
    {
      ValueStep(Digits(n), i);
      r := 2 * r + if data[next] then 1 else 0;
      i, next := i + 1, next + 1;
    }
    assert Digits(n)[..k] == Digits(n);
    ValueOfDigits(n);
  }

  lemma CodeBits(bits: seq<bool>, cursor: nat, n: nat)
    requires n >= 1 && Reads(bits, cursor, Gamma(n))
    ensures var k := |Digits(n)|;
      && cursor + 2 * k + 1 <= |bits| && bits[cursor + k]
      && (forall i :: cursor <= i < cursor + k ==> !bits[i])
      && (forall i :: 0 <= i < k ==> bits[cursor + k + 1 + i] == Digits(n)[i])
  {
  }

  lemma ValueStart(digits: seq<bool>)
    ensures Value(digits[..0]) == 1
  {
  }

  lemma ValueStep(digits: seq<bool>, i: nat)
    requires i < |digits|
    ensures Value(digits[..i + 1]) == 2 * Value(digits[..i]) + if digits[i] then 1 else 0
  {
    assert digits[..i + 1][..i] == digits[..i];
  }

  /** `write_elias_gamma`: writes the code of `n` bit by bit. */
  method WriteGamma(data: array<bool>, cursor: nat, n: nat) returns (next: nat)
    requires n >= 1 && cursor + |Gamma(n)| <= data.Length
    modifies data
    ensures next == cursor + |Gamma(n)|
    ensures data[..cursor] == old(data[..cursor]) && data[cursor..next] == Gamma(n) && data[next..] == old(data[next..])
  {
    hide Gamma;
    var code, i := Gamma(n), 0;
    while i < |code|
      invariant 0 <= i <= |code|
      invariant forall p :: 0 <= p < data.Length ==>
        data[p] == if cursor <= p < cursor + i then code[p - cursor] else old(data[p])
    {
      data[cursor + i] := code[i];
      i := i + 1;
    }
    next := cursor + i;
  }

  /** `encoded_bit_size` */
  function EncodedBitSize(v: nat): (size: nat)
    ensures size == |Gamma(v + 1)|
  {
    2 * |Digits(v + 1)| + 1
  }

  /** The bits after the block `[from, from + size)` was copied to `to`. */
  ghost function Moved(before: seq<bool>, from: nat, to: nat, size: nat): (s: seq<bool>)
    requires from + size <= |before| && to + size <= |before|
    ensures |s| == |before|
  {
    seq(|before|, p requires 0 <= p < |before| => if to <= p < to + size then before[from + (p - to)] else before[p])
  }

  /** `shift_bits`: moves a block of bits within the array.  The two places may overlap, so the block
      is copied from its front or from its back. */
  method ShiftBits(data: array<bool>, from: nat, to: nat, size: nat)
    requires from + size <= data.Length && to + size <= data.Length
    modifies data
    ensures data[..] == Moved(old(data[..]), from, to, size)
  {
    ghost var before := data[..];
    var src, dst, left := from, to, size;
    if to < from {
      while src != from + size
        invariant from <= src <= from + size && dst == to + (src - from) && left == from + size - src
        invariant forall p :: to <= p < dst ==> data[p] == before[from + (p - to)]
        invariant forall p :: 0 <= p < to || dst <= p < data.Length ==> data[p] == before[p]
      {
        data[dst] := data[src];
        src, dst, left := src + 1, dst + 1, left - 1;
      }
    }
    if to > from {
      src, dst := from + size, to + size;
      while src != from
        invariant from <= src <= from + size && dst == to + (src - from) && left == src - from
        invariant forall p :: dst <= p < to + size ==> data[p] == before[from + (p - to)]
        invariant forall p :: 0 <= p < dst || to + size <= p < data.Length ==> data[p] == before[p]
      {
        dst, src := dst - 1, src - 1;
        data[dst] := data[src];
        left := left - 1;
      }
    }
  }

  /** `bits2alloc`: the number of 64-bit words for a bit string. */
  function Words(bits: nat): (words: nat)
    ensures bits <= 64 * words < bits + 64
  {
    (bits + 63) / 64
  }

  /** `elias_gamma_bucket_t` */
  class Bucket {
    /** The allocated words, bit by bit. */
    var data: array<bool>
    var bits: nat
    /** The plain array of numbers this bucket stands for. */
    ghost var values: seq<nat>

    ghost predicate Valid()
      reads this, data
      ensures Valid() ==> bits == |Encode(values)| <= data.Length
    {
      && data.Length == 64 * Words(bits) && bits == |Encode(values)|
      && data[..bits] == Encode(values)
    }

    constructor (size: nat)
      ensures Valid() && fresh(data)
      ensures values == seq(size, _ => 0)
    {
      var all := EncodedBitSize(0) * size;
      bits := all;
      data := new bool[64 * Words(all)](_ => false);
      values := seq(size, _ => 0);
      new;
      var i, cursor := 0, 0;
      assert values[..0] == [];
      while i < size
        invariant 0 <= i <= size == bits && values == seq(size, _ => 0)
        invariant cursor == |Encode(values[..i])| == i && data.Length == 64 * Words(bits) && fresh(data)
        invariant data[..cursor] == Encode(values[..i])
      {
        cursor := WriteGamma(data, cursor, 1);
        EncodeAround(values, i);
        i := i + 1;
      }
      assert values[..size] == values;
    }

    /** `read`: the value at the cursor; the cursor moves behind it. */
    method Read(elem: nat, bit: nat) returns (v: nat, elem': nat, bit': nat)
      requires Valid() && elem < |values| && CursorAt(values, elem, bit)
      ensures v == values[elem] && elem' == elem + 1 && CursorAt(values, elem', bit')
      ensures bit' == bit + |Gamma(v + 1)|
    {
      hide Gamma, Encode;
      EncodeAround(values, elem);
      PartStands(data[..], bits, Encode(values[..elem]), Gamma(values[elem] + 1), Encode(values[elem + 1..]));
      v, bit' := ReadGamma(data, bit, values[elem] + 1);
      v, elem' := v - 1, elem + 1;
    }

    /** `seek`: moves the cursor before value number `pos`, from the start if it is already past it. */
    method Seek(pos: nat, elem: nat, bit: nat) returns (elem': nat, bit': nat)
      requires Valid() && pos <= |values| && CursorAt(values, elem, bit)
      ensures elem' == pos && CursorAt(values, elem', bit')
    {
      elem', bit' := elem, bit;
      if pos < elem {
        elem', bit' := 0, 0;
        assert values[..0] == [];
      }
      hide *;
      while elem' < pos
        invariant elem' <= pos && CursorAt(values, elem', bit')
      {
        var v;
        v, elem', bit' := Read(elem', bit');
      }
    }

    /** `get` */
    method Get(pos: nat, elem: nat, bit: nat) returns (v: nat, elem': nat, bit': nat)
      requires Valid() && pos < |values| && CursorAt(values, elem, bit)
      ensures v == values[pos] && CursorAt(values, elem', bit')
    {
      hide *;
      elem', bit' := Seek(pos, elem, bit);
      v, elem', bit' := Read(elem', bit');
    }

    /** `realloc_bits`: a new allocation if the number of words changes; the common bits are kept. */
    method ReallocBits(newBits: nat)
      requires data.Length == 64 * Words(bits)
      modifies this`data, this`bits
      ensures bits == newBits && data.Length == 64 * Words(newBits)
      ensures if Words(newBits) == old(Words(bits)) then data == old(data) else fresh(data)
      ensures forall p :: 0 <= p < data.Length && p < old(data.Length) ==> data[p] == old(data[p])
    {
      if Words(newBits) != Words(bits) {
        var size := 64 * Words(newBits);
        var n := new bool[size](_ => false);
        var i := 0;
        while i < data.Length && i < size
          invariant 0 <= i <= data.Length && i <= size && data == old(data)
          invariant forall p :: 0 <= p < i ==> n[p] == data[p]
        {
          n[i] := data[i];
          i := i + 1;
        }
        data := n;
      }
      bits := newBits;
    }

    /** `set`: the value at the cursor is replaced by a code that may be shorter or longer; the codes
        behind it move within the bit string, which shrinks or grows. */
    method Set(pos: nat, val: nat, elem: nat, bit: nat) returns (elem': nat, bit': nat)
      requires Valid() && pos < |values| && CursorAt(values, elem, bit)
      modifies this, data
      ensures Valid() && values == old(values)[pos := val]
      ensures data == old(data) || fresh(data)
      ensures CursorAt(values, elem', bit')
    {
      hide *;
      var backupElem, backupBit := Seek(pos, elem, bit);
      var existing;
      existing, elem', bit' := Get(pos, backupElem, backupBit);
      if existing != val {
        Replace(pos, existing, val, backupBit);
      } else {
        assert values[pos := val] == values;
      }
      CursorKept(old(values), pos, val, backupBit);
      var postValCheck;
      postValCheck, elem', bit' := Get(pos, backupElem, backupBit);
      assert postValCheck == val;
    }

    /** The part of `set` that replaces the code at the cursor. */
    method Replace(pos: nat, existing: nat, val: nat, bit: nat)
      requires Valid() && pos < |values| && existing == values[pos] && CursorAt(values, pos, bit)
      modifies this, data
      ensures Valid() && values == old(values)[pos := val]
      ensures data == old(data) || fresh(data)
    {
      hide Gamma, Encode, EncodedBitSize, Around, Moved, Words, Digits, Reads;
      ghost var a, c, values' := Encode(values[..pos]), Encode(values[pos + 1..]), values[pos := val];
      EncodeAround(values, pos);
      AroundStart(data[..], bits, a, Gamma(existing + 1), c);
      Resize(bit, EncodedBitSize(existing), EncodedBitSize(val), a, c);
      ghost var around := data[..];
      var next := WriteGamma(data, bit, val + 1);
      AroundFilled(around, a, Gamma(val + 1), c, data[..]);
      EncodeAround(values', pos);
      assert values'[..pos] == values[..pos] && values'[pos + 1..] == values[pos + 1..];
      values := values';
    }

    /** Makes the gap for the new code: shift left, then shrink; or grow first, then shift right. */
    method Resize(bit: nat, existingSize: nat, newSize: nat, ghost a: seq<bool>, ghost c: seq<bool>)
      requires data.Length == 64 * Words(bits) && Around(data[..], a, existingSize, c)
      requires bit == |a| && bits == |a| + existingSize + |c|
      modifies this`data, this`bits, data
      ensures data.Length == 64 * Words(bits) && Around(data[..], a, newSize, c)
      ensures bits == |a| + newSize + |c|
      ensures data == old(data) || fresh(data)
    {
      hide *;
      ghost var before := data[..];
      var newBits: nat, existingBits := bits + newSize - existingSize, bits;
      if newBits < existingBits {
        AroundMoved(before, a, existingSize, newSize, c);
        ShiftBits(data, bit + existingSize, bit + newSize, existingBits - (bit + existingSize));
        ghost var moved := data[..];
        ReallocBits(newBits);
        AroundKept(moved, a, newSize, c, data[..]);
      } else {
        ReallocBits(newBits);
        AroundKept(before, a, existingSize, c, data[..]);
        AroundMoved(data[..], a, existingSize, newSize, c);
        ShiftBits(data, bit + existingSize, bit + newSize, existingBits - (bit + existingSize));
      }
    }
  }

  /** The cursor before a value does not depend on that value. */
  lemma CursorKept(values: seq<nat>, pos: nat, val: nat, bit: nat)
    requires pos < |values| && CursorAt(values, pos, bit)
    ensures CursorAt(values[pos := val], pos, bit)
  {
    assert values[pos := val][..pos] == values[..pos];
  }

  /** The middle one of three consecutive parts stands behind the first one. */
  lemma PartStands(bits: seq<bool>, m: nat, a: seq<bool>, code: seq<bool>, c: seq<bool>)
    requires m <= |bits| && bits[..m] == a + code + c
    ensures Reads(bits, |a|, code)
  {
    assert bits[|a|..|a| + |code|] == bits[..m][|a|..|a| + |code|];
  }

  /** The bit string starts with `a`, a gap, and `c`. */
  ghost predicate Around(bits: seq<bool>, a: seq<bool>, gap: nat, c: seq<bool>)
    ensures Around(bits, a, gap, c) ==> |a| + gap + |c| <= |bits|
  {
    && |a| + gap + |c| <= |bits|
    && (forall p :: 0 <= p < |a| ==> bits[p] == a[p])
    && (forall p :: 0 <= p < |c| ==> bits[|a| + gap + p] == c[p])
  }

  lemma AroundStart(bits: seq<bool>, m: nat, a: seq<bool>, code: seq<bool>, c: seq<bool>)
    requires m <= |bits| && bits[..m] == a + code + c
    ensures Around(bits, a, |code|, c) && m == |a| + |code| + |c|
  {
  }

  /** Moving the last part changes the gap. */
  lemma AroundMoved(bits: seq<bool>, a: seq<bool>, gap: nat, newGap: nat, c: seq<bool>)
    requires Around(bits, a, gap, c) && |a| + newGap + |c| <= |bits|
    ensures Around(Moved(bits, |a| + gap, |a| + newGap, |c|), a, newGap, c)
  {
  }

  lemma AroundKept(bits: seq<bool>, a: seq<bool>, gap: nat, c: seq<bool>, kept: seq<bool>)
    requires Around(bits, a, gap, c) && |a| + gap + |c| <= |kept|
    requires forall p :: 0 <= p < |kept| && p < |bits| ==> kept[p] == bits[p]
    ensures Around(kept, a, gap, c)
  {
  }

  /** Filling the gap. */
  lemma AroundFilled(bits: seq<bool>, a: seq<bool>, code: seq<bool>, c: seq<bool>, filled: seq<bool>)
    requires Around(bits, a, |code|, c) && |filled| == |bits|
    requires filled[..|a|] == bits[..|a|] && filled[|a|..|a| + |code|] == code
        && filled[|a| + |code|..] == bits[|a| + |code|..]
    ensures filled[..|a| + |code| + |c|] == a + code + c
  {
  }
}
