/** The Elias gamma code: the binary digits of a positive number, after as many zeros as there are
    digits behind the leading one; and sequences of such codes. */
module GammaCode {

  /** The binary digits of `n` behind the leading one. */
  function Digits(n: nat): seq<bool>
    requires n >= 1
  {
    if n == 1 then [] else Digits(n / 2) + [n % 2 == 1]
  }

  /** The number with the given digits behind a leading one. */
  function Value(digits: seq<bool>): (n: nat)
    ensures n >= 1
  {
    if digits == [] then 1
    else 2 * Value(digits[..|digits| - 1]) + if digits[|digits| - 1] then 1 else 0
  }

  lemma {:induction false} ValueOfDigits(n: nat)
    requires n >= 1
    ensures Value(Digits(n)) == n
  {
    if n > 1 {
      ValueOfDigits(n / 2);
      assert Digits(n)[..|Digits(n)| - 1] == Digits(n / 2);
    }
  }

  function Zeros(k: nat): (z: seq<bool>)
    ensures |z| == k && forall i :: 0 <= i < k ==> !z[i]
  {
    seq(k, _ => false)
  }

  /** The code of `n`. */
  function Gamma(n: nat): (code: seq<bool>)
    requires n >= 1
    ensures |code| == 2 * |Digits(n)| + 1
  {
    Zeros(|Digits(n)|) + [true] + Digits(n)
  }

  /** The parts of a code. */
  lemma GammaParts(n: nat)
    requires n >= 1
    ensures var k := |Digits(n)|;
      && (forall i :: 0 <= i < k ==> !Gamma(n)[i])
      && Gamma(n)[k] && Gamma(n)[k + 1..] == Digits(n)
  {
  }

  /** No code is the beginning of another one. */
  lemma PrefixFree(a: nat, b: nat, x: seq<bool>, y: seq<bool>)
    requires a >= 1 && b >= 1 && Gamma(a) + x == Gamma(b) + y
    ensures a == b && x == y
  {
    hide Gamma, Digits, Value;
    GammaParts(a);
    GammaParts(b);
    var s, k, m := Gamma(a) + x, |Digits(a)|, |Digits(b)|;
    assert s[k] && s[m] && forall i :: 0 <= i < k || 0 <= i < m ==> !s[i];
    assert k == m;
    assert s[..2 * k + 1][k + 1..] == Digits(a);
    ValueOfDigits(a);
    ValueOfDigits(b);
    assert s[2 * k + 1..] == x;
    assert s[2 * k + 1..] == y;
  }

  /** The codes of all values one after the other; zero is coded as one. */
  function Encode(values: seq<nat>): seq<bool>
  {
    if values == [] then []
    else Encode(values[..|values| - 1]) + Gamma(values[|values| - 1] + 1)
  }

  lemma EncodeLast(a: seq<nat>, v: nat)
    ensures Encode(a + [v]) == Encode(a) + Gamma(v + 1)
  {
    assert (a + [v])[..|a|] == a;
  }

  lemma Associative(a: seq<bool>, b: seq<bool>, c: seq<bool>)
    ensures a + (b + c) == (a + b) + c
  {
  }

  lemma {:induction false} EncodeSplit(a: seq<nat>, b: seq<nat>)
    ensures Encode(a + b) == Encode(a) + Encode(b)
  {
    if b == [] {
      assert a + b == a;
      assert Encode(b) == [];
    } else {
      hide *;
      var front, last := b[..|b| - 1], b[|b| - 1];
      assert b == front + [last];
      assert a + b == (a + front) + [last];
      EncodeSplit(a, front);
      EncodeLast(front, last);
      EncodeLast(a + front, last);
      Associative(Encode(a), Encode(front), Gamma(last + 1));
    }
  }

  lemma EncodeThree(a: seq<nat>, v: nat, b: seq<nat>)
    ensures Encode(a + [v] + b) == Encode(a) + Gamma(v + 1) + Encode(b)
    ensures Encode(a + [v]) == Encode(a) + Gamma(v + 1)
  {
    hide *;
    EncodeLast(a, v);
    EncodeSplit(a + [v], b);
  }

  lemma AroundIndex(values: seq<nat>, p: nat)
    requires p < |values|
    ensures values == values[..p] + [values[p]] + values[p + 1..]
    ensures values[..p + 1] == values[..p] + [values[p]]
  {
  }

  /** The codes before, of and behind the value at index `p`. */
  lemma EncodeAround(values: seq<nat>, p: nat)
    requires p < |values|
    ensures Encode(values) == Encode(values[..p]) + Gamma(values[p] + 1) + Encode(values[p + 1..])
    ensures Encode(values[..p + 1]) == Encode(values[..p]) + Gamma(values[p] + 1)
  {
    hide *;
    AroundIndex(values, p);
    EncodeThree(values[..p], values[p], values[p + 1..]);
  }

  lemma EncodeOne(v: nat)
    ensures Encode([v]) == Gamma(v + 1)
  {
    assert Encode([v]) == Encode([]) + Gamma(v + 1);
  }

  lemma FirstIndex(values: seq<nat>)
    requires values != []
    ensures values == [values[0]] + values[1..]
  {
  }

  lemma EncodeFirst(a: seq<nat>)
    requires a != []
    ensures Encode(a) == Gamma(a[0] + 1) + Encode(a[1..])
  {
    hide *;
    FirstIndex(a);
    EncodeOne(a[0]);
    EncodeSplit([a[0]], a[1..]);
  }

  /** The values can be told from their codes. */
  lemma {:induction false} EncodeInjective(a: seq<nat>, b: seq<nat>)
    requires Encode(a) == Encode(b)
    ensures a == b
    decreases |a|
  {
    hide Gamma, Encode;
    if a != [] && b != [] {
      EncodeFirst(a);
      EncodeFirst(b);
      PrefixFree(a[0] + 1, b[0] + 1, Encode(a[1..]), Encode(b[1..]));
      EncodeInjective(a[1..], b[1..]);
      FirstIndex(a);
      FirstIndex(b);
    } else {
      EncodeEmpty(a);
      EncodeEmpty(b);
    }
  }

  lemma EncodeEmpty(a: seq<nat>)
    ensures Encode(a) == [] <==> a == []
  {
  }
}
