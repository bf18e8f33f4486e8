/** Keys and where they are stored: the hash value of a key is split into its home and its quotient,
    and the key is recovered from the two alone. */
module Keys {
  import opened Bits
  import opened Entries
  import opened Layouts
  import opened Sizing
  import opened HashFunctions

  /** `real_width`: wide enough for the key and for at least one bit of quotient. */
  function RealWidth(k: nat, keyWidth: nat): (w: nat)
    ensures w >= k + 1 && w >= keyWidth && (w == k + 1 || w == keyWidth)
  {
    if k + 1 > keyWidth then k + 1 else keyWidth
  }

  /** `decompose_key` */
  function Parts(f: HashFn, w: nat, k: nat, key: nat): DecomposedKey
    requires WidthOk(w)
  {
    DecomposeHashed(k, Hash(f, w, key))
  }

  /** `compose_key` */
  function KeyOf(f: HashFn, w: nat, k: nat, ia: nat, q: nat): nat
    requires WidthOk(w)
  {
    HashInv(f, w, ComposeHashed(k, ia, q))
  }

  /** The key is recovered from its home and quotient. */
  lemma KeyRoundTrip(f: HashFn, w: nat, k: nat, key: nat)
    requires WidthOk(w) && k <= w && key < Pow2(w)
    ensures var d := Parts(f, w, k, key);
      && d.initialAddress < Pow2(k) && d.storedQuotient < Pow2(w - k)
      && KeyOf(f, w, k, d.initialAddress, d.storedQuotient) == key
  {
    hide Pow2, Hash, HashInv, DecomposeHashed, ComposeHashed;
    HashBijective(f, w, key);
    DecomposeCompose(k, w, Hash(f, w, key));
  }

  /** The quotient of a key fits into the bits of a word that the home leaves. */
  lemma QuotientFits(f: HashFn, w: nat, k: nat, key: nat)
    requires WidthOk(w) && k <= w && key < Pow2(w)
    ensures Parts(f, w, k, key).storedQuotient < Pow2(64 - k)
  {
    hide Pow2, Parts, KeyOf;
    KeyRoundTrip(f, w, k, key);
    Pow2Monotone(w - k, 64 - k);
  }

  /** A table gives back exactly the keys that fit into its width. */
  lemma KeySurvives(f: HashFn, w: nat, k: nat, key: nat)
    requires WidthOk(w) && k <= w
    ensures var d := Parts(f, w, k, key);
      KeyOf(f, w, k, d.initialAddress, d.storedQuotient) == key <==> key < Pow2(w)
  {
    hide Pow2, Hash, HashInv, DecomposeHashed, ComposeHashed;
    HashBounded(f, w, key);
    DecomposeCompose(k, w, Hash(f, w, key));
    HashBijective(f, w, if key < Pow2(w) then key else Hash(f, w, key));
  }

  /** In a table with two positions and a key width of two bits, key 4 takes the place of key 0. */
  lemma WideKeyLost()
    ensures RealWidth(1, 2) == 2 && 4 >= Pow2(2)
    ensures Parts(XorShift, 2, 1, 4) == Parts(XorShift, 2, 1, 0)
    ensures KeyOf(XorShift, 2, 1, Parts(XorShift, 2, 1, 4).initialAddress, Parts(XorShift, 2, 1, 4).storedQuotient) == 0
  {
    hide Hash, HashInv, DecomposeHashed, ComposeHashed;
    assert Pow2(2) == 4;
    WideCollides();
    KeyRoundTrip(XorShift, 2, 1, 0);
  }

  /** Every pair of a home and a quotient belongs to a key. */
  lemma PartsRoundTrip(f: HashFn, w: nat, k: nat, ia: nat, q: nat)
    requires WidthOk(w) && k <= w && ia < Pow2(k) && q < Pow2(w - k)
    ensures KeyOf(f, w, k, ia, q) < Pow2(w)
    ensures Parts(f, w, k, KeyOf(f, w, k, ia, q)) == DecomposedKey(ia, q)
  {
    hide Pow2, Hash, HashInv, DecomposeHashed, ComposeHashed;
    ComposeDecompose(k, w, ia, q);
    HashBijective(f, w, ComposeHashed(k, ia, q));
  }

  /** What the groups of a table store for a home and a quotient. */
  ghost function Stored<V>(g: seq<seq<Entry<V>>>, d: DecomposedKey): Option<V>
    requires d.initialAddress < |g|
  {
    var j := IndexOf(g[d.initialAddress], d.storedQuotient);
    if j >= 0 then Some(g[d.initialAddress][j].value) else None
  }

  /** Looking up `key` in the groups gives what `dict` has. */
  ghost predicate Agrees<V>(g: seq<seq<Entry<V>>>, f: HashFn, w: nat, k: nat, dict: map<nat, V>, key: nat)
    requires WidthOk(w) && k <= w && |g| == Pow2(k)
  {
    var d := Parts(f, w, k, key);
    d.initialAddress < |g| && Stored(g, d) == if key in dict then Some(dict[key]) else None
  }

  /** The groups of a table, for `w`-bit keys, stand for the finite map `dict`. */
  ghost predicate Holds<V>(g: seq<seq<Entry<V>>>, f: HashFn, w: nat, k: nat, dict: map<nat, V>)
    ensures Holds(g, f, w, k, dict) ==> WidthOk(w) && k <= w && |g| == Pow2(k)
    ensures Holds(g, f, w, k, dict) ==> forall key :: key in dict ==> key < Pow2(w)
  {
    && WidthOk(w) && k <= w && |g| == Pow2(k)
    && Fits(g, Pow2(w - k)) && AllDistinct(g)
    && (forall key :: key in dict ==> key < Pow2(w))
    && (forall key: nat :: key < Pow2(w) ==> Agrees(g, f, w, k, dict, key))
  }

  lemma HoldsLookup<V>(g: seq<seq<Entry<V>>>, f: HashFn, w: nat, k: nat, dict: map<nat, V>, key: nat)
    requires Holds(g, f, w, k, dict) && key < Pow2(w)
    ensures var d := Parts(f, w, k, key);
      && d.initialAddress < |g| && d.storedQuotient < Pow2(w - k)
      && (key in dict <==> IndexOf(g[d.initialAddress], d.storedQuotient) >= 0)
      && (key in dict ==> dict[key] == g[d.initialAddress][IndexOf(g[d.initialAddress], d.storedQuotient)].value)
      && KeyOf(f, w, k, d.initialAddress, d.storedQuotient) == key
  {
    hide Pow2, Parts, KeyOf, IndexOf, Fits, AllDistinct;
    KeyRoundTrip(f, w, k, key);
    assert Agrees(g, f, w, k, dict, key);
  }

  lemma HoldsNothing<V>(g: seq<seq<Entry<V>>>, f: HashFn, w: nat, k: nat)
    requires WidthOk(w) && k <= w && g == seq(Pow2(k), _ => [])
    ensures Holds(g, f, w, k, map[])
  {
    hide Pow2, Parts;
    forall key: nat | key < Pow2(w) ensures Agrees(g, f, w, k, map[], key) {
      KeyRoundTrip(f, w, k, key);
    }
  }

  /** Appending an entry for a new key adds it to the map. */
  lemma HoldsInsert<V>(g: seq<seq<Entry<V>>>, f: HashFn, w: nat, k: nat, dict: map<nat, V>, key: nat, val: V)
    requires Holds(g, f, w, k, dict) && key < Pow2(w) && key !in dict
    ensures var d := Parts(f, w, k, key);
      && d.initialAddress < |g|
      && Holds(g[d.initialAddress := g[d.initialAddress] + [Entry(d.storedQuotient, val)]], f, w, k, dict[key := val])
  {
    hide Pow2, Parts, KeyOf, IndexOf;
    HoldsLookup(g, f, w, k, dict, key);
    var d := Parts(f, w, k, key);
    var x := Entry(d.storedQuotient, val);
    var g', dict' := g[d.initialAddress := g[d.initialAddress] + [x]], dict[key := val];
    forall other: nat | other < Pow2(w) ensures Agrees(g', f, w, k, dict', other) {
      HoldsLookup(g, f, w, k, dict, other);
      IndexOfAppended(g[d.initialAddress], x, Parts(f, w, k, other).storedQuotient);
    }
    forall h | 0 <= h < |g'| ensures Distinct(g'[h]) {
      if h == d.initialAddress {
        assert Distinct(g[h]);
      }
    }
  }

  /** Replacing the value of an entry replaces it in the map. */
  lemma HoldsUpdate<V>(g: seq<seq<Entry<V>>>, f: HashFn, w: nat, k: nat, dict: map<nat, V>, key: nat, val: V)
    requires Holds(g, f, w, k, dict) && key < Pow2(w) && key in dict
    ensures var d := Parts(f, w, k, key);
      && d.initialAddress < |g| && IndexOf(g[d.initialAddress], d.storedQuotient) >= 0
      && Holds(g[d.initialAddress := g[d.initialAddress][IndexOf(g[d.initialAddress],
          d.storedQuotient) := Entry(d.storedQuotient, val)]],
               f, w, k, dict[key := val])
  {
    hide Pow2, Parts, KeyOf, IndexOf;
    HoldsLookup(g, f, w, k, dict, key);
    var d := Parts(f, w, k, key);
    var h := d.initialAddress;
    var j := IndexOf(g[h], d.storedQuotient);
    var g', dict' := g[h := g[h][j := Entry(d.storedQuotient, val)]], dict[key := val];
    forall other: nat | other < Pow2(w) ensures Agrees(g', f, w, k, dict', other) {
      HoldsLookup(g, f, w, k, dict, other);
      IndexOfReplaced(g[h], j, val, Parts(f, w, k, other).storedQuotient);
    }
    forall x | 0 <= x < |g'| ensures Distinct(g'[x]) {
      assert Distinct(g[x]);
    }
  }

  // --- Moving all entries to another table --------------------------------------------------

  /** The key of a delivered entry. */
  ghost function KeyAt<V>(out: seq<Delivery<V>>, f: HashFn, w: nat, k: nat, i: nat): nat
    requires WidthOk(w) && i < |out|
  {
    KeyOf(f, w, k, out[i].home, out[i].entry.quotient)
  }

  /** The map built from the first `i` entries delivered. */
  ghost function Replay<V>(out: seq<Delivery<V>>, f: HashFn, w: nat, k: nat, i: nat): map<nat, V>
    requires WidthOk(w) && i <= |out|
  {
    if i == 0 then map[] else Replay(out, f, w, k, i - 1)[KeyAt(out, f, w, k, i - 1) := out[i - 1].entry.value]
  }

  /** Entry number `i` of the walk is an entry of its home. */
  lemma {:induction false} DeliveredAt<V>(out: seq<Delivery<V>>, i: nat)
    requires i < |out|
    ensures var h := out[i].home; var j := |DeliveredTo(out[..i], h)|;
      j < |DeliveredTo(out, h)| && DeliveredTo(out, h)[j] == out[i].entry
    decreases |out|
  {
    var front, h := out[..|out| - 1], out[i].home;
    assert out == front + [out[|out| - 1]];
    DeliveredNext(front, out[|out| - 1], h);
    if i == |out| - 1 {
    } else {
      assert front[..i] == out[..i];
      DeliveredAt(front, i);
    }
  }

  lemma {:induction false} DeliveredGrows<V>(out: seq<Delivery<V>>, i: nat, j: nat, h: nat)
    requires i <= j <= |out|
    ensures |DeliveredTo(out[..i], h)| <= |DeliveredTo(out[..j], h)|
    ensures i < j && out[i].home == h ==> |DeliveredTo(out[..i], h)| < |DeliveredTo(out[..j], h)|
    decreases j
  {
    if i < j {
      assert out[..j] == out[..j - 1] + [out[j - 1]];
      DeliveredNext(out[..j - 1], out[j - 1], h);
      DeliveredGrows(out, i, j - 1, h);
    }
  }

  /** Every entry of a home is delivered. */
  lemma {:induction false} DeliveredFrom<V>(out: seq<Delivery<V>>, h: nat, j: nat) returns (i: nat)
    requires j < |DeliveredTo(out, h)|
    ensures i < |out| && out[i] == Delivery(h, DeliveredTo(out, h)[j])
    decreases |out|
  {
    var front := out[..|out| - 1];
    assert out == front + [out[|out| - 1]];
    DeliveredNext(front, out[|out| - 1], h);
    if j < |DeliveredTo(front, h)| {
      i := DeliveredFrom(front, h, j);
    } else {
      i := |out| - 1;
    }
  }

  /** A complete delivery of the contents `g`. */
  ghost predicate Delivered<V>(out: seq<Delivery<V>>, g: seq<seq<Entry<V>>>)
  {
    && (forall i :: 0 <= i < |out| ==> out[i].home < |g|)
    && (forall h :: 0 <= h < |g| ==> DeliveredTo(out, h) == g[h])
  }

  /** A drained table was delivered completely. */
  lemma DeliveredIs<V>(out: seq<Delivery<V>>, g: seq<seq<Entry<V>>>)
    requires forall i :: 0 <= i < |out| ==> out[i].home < |g|
    requires forall h :: 0 <= h < |g| ==> DeliveredTo(out, h) == g[h]
    ensures Delivered(out, g)
  {
  }

  /** What is delivered at step `i`: a key of the map, with its value. */
  lemma DeliveredKey<V>(out: seq<Delivery<V>>, g: seq<seq<Entry<V>>>, f: HashFn, w: nat, k: nat, dict: map<nat, V>,
      i: nat)
    requires Holds(g, f, w, k, dict) && Delivered(out, g) && i < |out|
    ensures var key := KeyAt(out, f, w, k, i);
      key < Pow2(w) && key in dict && dict[key] == out[i].entry.value
      && Parts(f, w, k, key) == DecomposedKey(out[i].home, out[i].entry.quotient)
  {
    hide Pow2, Parts, KeyOf, IndexOf, DeliveredTo;
    var h := out[i].home;
    DeliveredAt(out, i);
    var j := |DeliveredTo(out[..i], h)|;
    assert g[h][j] == out[i].entry;
    PartsRoundTrip(f, w, k, h, g[h][j].quotient);
    assert Distinct(g[h]);
    IndexOfDistinct(g[h], j);
    HoldsLookup(g, f, w, k, dict, KeyAt(out, f, w, k, i));
  }

  /** No key is delivered twice. */
  lemma DeliveredOnce<V>(out: seq<Delivery<V>>, g: seq<seq<Entry<V>>>, f: HashFn, w: nat, k: nat, dict: map<nat, V>,
      i: nat, j: nat)
    requires Holds(g, f, w, k, dict) && Delivered(out, g) && i < j < |out|
    ensures KeyAt(out, f, w, k, i) != KeyAt(out, f, w, k, j)
  {
    hide Pow2, Parts, KeyOf, IndexOf, DeliveredTo;
    if KeyAt(out, f, w, k, i) == KeyAt(out, f, w, k, j) {
      DeliveredKey(out, g, f, w, k, dict, i);
      DeliveredKey(out, g, f, w, k, dict, j);
      var h := out[i].home;
      assert Distinct(g[h]);
      DeliveredAt(out, i);
      DeliveredAt(out, j);
      DeliveredGrows(out, i, j, h);
    }
  }

  /** The keys replayed so far. */
  lemma {:induction false} ReplayKeys<V>(out: seq<Delivery<V>>, f: HashFn, w: nat, k: nat, i: nat, key: nat)
    requires WidthOk(w) && i <= |out|
    ensures key in Replay(out, f, w, k, i) <==> exists j :: 0 <= j < i && key == KeyAt(out, f, w, k, j)
  {
    hide KeyAt;
    if i > 0 {
      ReplayKeys(out, f, w, k, i - 1, key);
    }
  }

  /** The next entry to be replayed has a key of its own. */
  lemma ReplayFresh<V>(out: seq<Delivery<V>>, g: seq<seq<Entry<V>>>, f: HashFn, w: nat, k: nat, dict: map<nat, V>,
      i: nat)
    requires Holds(g, f, w, k, dict) && Delivered(out, g) && i < |out|
    ensures KeyAt(out, f, w, k, i) !in Replay(out, f, w, k, i)
  {
    hide Delivered, KeyAt, Replay;
    ReplayKeys(out, f, w, k, i, KeyAt(out, f, w, k, i));
    forall j | 0 <= j < i ensures KeyAt(out, f, w, k, j) != KeyAt(out, f, w, k, i) {
      DeliveredOnce(out, g, f, w, k, dict, j, i);
    }
  }

  /** The entries replayed so far are part of the map. */
  lemma {:induction false} ReplayPart<V>(out: seq<Delivery<V>>, g: seq<seq<Entry<V>>>, f: HashFn, w: nat, k: nat,
      dict: map<nat, V>, i: nat)
    requires Holds(g, f, w, k, dict) && Delivered(out, g) && i <= |out|
    ensures |Replay(out, f, w, k, i)| == i
    ensures forall key :: key in Replay(out, f, w, k, i) ==>
      key in dict && dict[key] == Replay(out, f, w, k, i)[key]
  {
    hide Delivered, KeyAt, Agrees, Fits, AllDistinct;
    if i > 0 {
      ReplayPart(out, g, f, w, k, dict, i - 1);
      ReplayFresh(out, g, f, w, k, dict, i - 1);
      DeliveredKey(out, g, f, w, k, dict, i - 1);
    }
  }

  /** Replaying everything delivered gives the whole map. */
  lemma ReplayAll<V>(out: seq<Delivery<V>>, g: seq<seq<Entry<V>>>, f: HashFn, w: nat, k: nat, dict: map<nat, V>)
    requires Holds(g, f, w, k, dict) && Delivered(out, g)
    ensures Replay(out, f, w, k, |out|) == dict && |out| == |dict|
  {
    hide Pow2, Parts, KeyOf, IndexOf, DeliveredTo, Replay;
    ReplayPart(out, g, f, w, k, dict, |out|);
    forall key | key in dict ensures key in Replay(out, f, w, k, |out|) {
      HoldsLookup(g, f, w, k, dict, key);
      var d := Parts(f, w, k, key);
      var i := DeliveredFrom(out, d.initialAddress, IndexOf(g[d.initialAddress], d.storedQuotient));
      assert KeyAt(out, f, w, k, i) == key;
      ReplayKeys(out, f, w, k, |out|, key);
    }
  }
}
