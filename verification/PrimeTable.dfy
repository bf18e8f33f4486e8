/** The multipliers of the bijective hash function (`PRIME_TABLE`): for each width `w`, three primes
    and their inverses modulo `Pow2(w)`. */
module PrimeTable {
  import opened Bits

  /** One row: the modulus, the three multipliers and their inverses. */
  datatype Row = Row(m: nat, p: nat, p': nat, p'': nat, q: nat, q': nat, q'': nat)
  {
    function Prime(i: nat): nat
      requires i < 3
    {
      if i == 0 then p else if i == 1 then p' else p''
    }

    function Inverse(i: nat): nat
      requires i < 3
    {
      if i == 0 then q else if i == 1 then q' else q''
    }
  }

  /** A row whose multipliers are invertible modulo `m`, with the inverses given. */
  predicate RowOk(r: Row)
  {
    && r.m > 1
    && r.p < r.m && r.p' < r.m && r.p'' < r.m
    && r.p * r.q % r.m == 1 && r.p' * r.q' % r.m == 1 && r.p'' * r.q'' % r.m == 1
  }

  /** The row of width `w`: odd multipliers without small factors, falling from the first to the third and
      lying right below the modulus.  The narrowest rows have no room for that, and the row of width 64
      repeats the multipliers of width 63. */
  predicate RowShape(w: nat, r: Row)
  {
    && r.q < r.m && r.q' < r.m && r.q'' < r.m
    && (w == 1 ==> r.p == r.p' == r.p'' == 1)
    && (w == 2 ==> r.p == r.p'' == 3 && r.p' == 1)
    && (w >= 3 ==> r.p > r.p' > r.p'' > 1)
    && (3 <= w <= 63 ==> r.p'' + 16 * w >= r.m)
    && (w == 64 ==> 2 * (r.p'' + 16 * w) >= r.m)
    && Coarse(r.p) && Coarse(r.p') && Coarse(r.p'')
  }

  /** `p` is odd and has no smaller factor among the primes below 32. */
  predicate Coarse(p: nat)
  {
    && p % 2 == 1 && (p % 3 != 0 || p == 3) && (p % 5 != 0 || p == 5) && (p % 7 != 0 || p == 7)
    && (p % 11 != 0 || p == 11) && (p % 13 != 0 || p == 13) && (p % 17 != 0 || p == 17) && (p % 19 != 0 || p == 19)
    && (p % 23 != 0 || p == 23) && (p % 29 != 0 || p == 29) && (p % 31 != 0 || p == 31)
  }

  function Rows1(w: nat): Row
    requires 1 <= w <= 8
  {
    match w
    case 1 => Row(0x2, 1, 1, 1,
      1, 1, 1)
    case 2 => Row(0x4, 3, 1, 3,
      3, 1, 3)
    case 3 => Row(0x8, 7, 5, 3,
      7, 5, 3)
    case 4 => Row(0x10, 13, 11, 7,
      5, 3, 7)
    case 5 => Row(0x20, 31, 29, 23,
      31, 21, 7)
    case 6 => Row(0x40, 61, 59, 53,
      21, 51, 29)
    case 7 => Row(0x80, 127, 113, 109,
      127, 17, 101)
    case _ => Row(0x100, 251, 241, 239,
      51, 17, 15)
  }

  function Rows9(w: nat): Row
    requires 9 <= w <= 16
  {
    match w
    case 9 => Row(0x200, 509, 503, 499,
      341, 455, 315)
    case 10 => Row(0x400, 1021, 1019, 1013,
      341, 819, 93)
    case 11 => Row(0x800, 2039, 2029, 2027,
      455, 1509, 195)
    case 12 => Row(0x1000, 4093, 4091, 4079,
      1365, 819, 3855)
    case 13 => Row(0x2000, 8191, 8179, 8171,
      8191, 4411, 4291)
    case 14 => Row(0x4000, 16381, 16369, 16363,
      5461, 4369, 12483)
    case 15 => Row(0x8000, 32749, 32719, 32717,
      13797, 10031, 1285)
    case _ => Row(0x10000, 65521, 65519, 65497,
      4369, 3855, 36969)
  }

  function Rows17(w: nat): Row
    requires 17 <= w <= 24
  {
    match w
    case 17 => Row(0x20000, 131071, 131063, 131059,
      131071, 29127, 110907)
    case 18 => Row(0x40000, 262139, 262133, 262127,
      209715, 95325, 200463)
    case 19 => Row(0x80000, 524287, 524269, 524261,
      524287, 275941, 271853)
    case 20 => Row(0x100000, 1048573, 1048571, 1048559,
      349525, 209715, 986895)
    case 21 => Row(0x200000, 2097143, 2097133, 2097131,
      1864135, 1324517, 798915)
    case 22 => Row(0x400000, 4194301, 4194287, 4194277,
      1398101, 986895, 3417581)
    case 23 => Row(0x800000, 8388593, 8388587, 8388581,
      1118481, 798915, 3417581)
    case _ => Row(0x1000000, 16777213, 16777199, 16777183,
      5592405, 986895, 15760415)
  }

  function Rows25(w: nat): Row
    requires 25 <= w <= 32
  {
    match w
    case 25 => Row(0x2000000, 33554393, 33554383, 33554371,
      17207401, 31500079, 15952107)
    case 26 => Row(0x4000000, 67108859, 67108837, 67108819,
      53687091, 62137837, 50704475)
    case 27 => Row(0x8000000, 134217689, 134217649, 134217617,
      17207401, 113830225, 82223473)
    case 28 => Row(0x10000000, 268435399, 268435367, 268435361,
      131863031, 96516119, 186492001)
    case 29 => Row(0x20000000, 536870909, 536870879, 536870869,
      357913941, 32537631, 274678141)
    case 30 => Row(0x40000000, 1073741789, 1073741783, 1073741741,
      889671797, 1047552999, 349289509)
    case 31 => Row(0x80000000, 2147483647, 2147483629, 2147483587,
      2147483647, 1469330917, 1056139499)
    case _ => Row(0x100000000, 4294967291, 4294967279, 4294967231,
      858993459, 252645135, 1057222719)
  }

  function Rows33(w: nat): Row
    requires 33 <= w <= 40
  {
    match w
    case 33 => Row(0x200000000, 8589934583, 8589934567, 8589934543,
      7635497415, 1030792151, 3856705327)
    case 34 => Row(0x400000000, 17179869143, 17179869107, 17179869071,
      9637487591, 11825104763, 12618841967)
    case 35 => Row(0x800000000, 34359738337, 34359738319, 34359738307,
      1108378657, 21036574511, 22530975979)
    case 36 => Row(0x1000000000, 68719476731, 68719476719, 68719476713,
      13743895347, 64677154575, 8963410009)
    case 37 => Row(0x2000000000, 137438953447, 137438953441, 137438953427,
      43980465111, 35468117025, 70246576219)
    case 38 => Row(0x4000000000, 274877906899, 274877906857, 274877906837,
      207685529691, 41073710233, 208085144509)
    case 39 => Row(0x8000000000, 549755813881, 549755813869, 549755813821,
      78536544841, 347214198245, 369238979477)
    case _ => Row(0x10000000000, 1099511627689, 1099511627609, 1099511627581,
      315951617177, 928330176745, 343949791253)
  }

  function Rows41(w: nat): Row
    requires 41 <= w <= 48
  {
    match w
    case 41 => Row(0x20000000000, 2199023255531, 2199023255521, 2199023255497,
      209430786243, 1134979744801, 1119502748281)
    case 42 => Row(0x40000000000, 4398046511093, 4398046511087, 4398046511071,
      1199467230301, 3363212037903, 3331853417503)
    case 43 => Row(0x80000000000, 8796093022151, 8796093022141, 8796093022091,
      8178823336439, 918994793365, 2405769031715)
    case 44 => Row(0x100000000000, 17592186044399, 17592186044299, 17592186044297,
      16557351571215, 2405769031715, 2365335938745)
    case 45 => Row(0x200000000000, 35184372088777, 35184372088763, 35184372088751,
      27507781814905, 17847145262451, 11293749065551)
    case 46 => Row(0x400000000000, 70368744177643, 70368744177607, 70368744177601,
      13403570319555, 34567102403063, 4467856773185)
    case 47 => Row(0x800000000000, 140737488355213, 140737488355201, 140737488355181,
      88113905752901, 4432676798593, 22020151239269)
    case _ => Row(0x1000000000000, 281474976710597, 281474976710591, 281474976710567,
      100186008659725, 4330384257087, 123342967322647)
  }

  function Rows49(w: nat): Row
    requires 49 <= w <= 56
  {
    match w
    case 49 => Row(0x2000000000000, 562949953421231, 562949953421201, 562949953421189,
      222399981598543, 25358106009969, 366146311168333)
    case 50 => Row(0x4000000000000, 1125899906842597, 1125899906842589, 1125899906842573,
      667199944795629, 289517118902389, 286994093901061)
    case 51 => Row(0x8000000000000, 2251799813685119, 2251799813685109, 2251799813685083,
      558586000294015, 161999986596061, 232003617167571)
    case 52 => Row(0x10000000000000, 4503599627370449, 4503599627370353, 4503599627370323,
      3449565672028465, 3558788516733329, 3514369651416283)
    case 53 => Row(0x20000000000000, 9007199254740881, 9007199254740847, 9007199254740761,
      2840107873116529, 496948924399503, 4991002184445225)
    case 54 => Row(0x40000000000000, 18014398509481951, 18014398509481931, 18014398509481853,
      16922616781634591, 13595772459986403, 6600695637062101)
    case 55 => Row(0x80000000000000, 36028797018963913, 36028797018963901, 36028797018963869,
      20962209174669945, 20434243085382549, 11645671763705525)
    case _ => Row(0x100000000000000, 72057594037927931, 72057594037927909, 72057594037927889,
      14411518807585587, 18681598454277613, 21463964181510449)
  }

  function Rows57(w: nat): Row
    requires 57 <= w <= 64
  {
    match w
    case 57 => Row(0x200000000000000, 144115188075855859, 144115188075855823, 144115188075855811,
      88686269585142075, 44116894308935471, 18900352534538475)
    case 58 => Row(0x400000000000000, 288230376151711687, 288230376151711681, 288230376151711607,
      126416831645487607, 18300341342965825, 136751638320155207)
    case 59 => Row(0x800000000000000, 576460752303423263, 576460752303423061, 576460752303422971,
      5124095576030431, 2700050362076925, 198471980483577139)
    case 60 => Row(0x1000000000000000, 1152921504606846883, 1152921504606846803, 1152921504606846697,
      12397005425880075, 566464323072728283, 4132335141960025)
    case 61 => Row(0x2000000000000000, 2305843009213693951, 2305843009213693669, 2305843009213693613,
      2305843009213693951, 1768084568902373101, 360500529464087845)
    case 62 => Row(0x4000000000000000, 4611686018427387733, 4611686018427387421, 4611686018427387271,
      4557748170258646525, 152768066863019061, 1515372340968241207)
    case 63 => Row(0x8000000000000000, 9223372036854775291, 9223372036854775279, 9223372036854775181,
      3657236494304118067, 2545580940228350223, 3339243145719352645)
    case _ => Row(0x10000000000000000, 9223372036854775291, 9223372036854775279, 9223372036854775181,
      3657236494304118067, 11768952977083126031, 3339243145719352645)
  }

  /** The row of width `w`. */
  function PrimeRow(w: nat): Row
    requires 1 <= w <= 64
  {
    if w <= 8 then Rows1(w)
    else if w <= 16 then Rows9(w)
    else if w <= 24 then Rows17(w)
    else if w <= 32 then Rows25(w)
    else if w <= 40 then Rows33(w)
    else if w <= 48 then Rows41(w)
    else if w <= 56 then Rows49(w)
    else Rows57(w)
  }

  lemma Rows1Ok(w: nat)
    requires 1 <= w <= 8
    ensures RowOk(Rows1(w))
  {
    if w <= 4 {
    } else {
    }
  }

  lemma Rows9Ok(w: nat)
    requires 9 <= w <= 16
    ensures RowOk(Rows9(w))
  {
    if w <= 12 {
    } else {
    }
  }

  lemma Rows17Ok(w: nat)
    requires 17 <= w <= 24
    ensures RowOk(Rows17(w))
  {
    match w {
      case 17 => assert RowOk(Rows17(17));
      case 18 => assert RowOk(Rows17(18));
      case 19 => assert RowOk(Rows17(19));
      case 20 => assert RowOk(Rows17(20));
      case 21 => assert RowOk(Rows17(21));
      case 22 => assert RowOk(Rows17(22));
      case 23 => assert RowOk(Rows17(23));
      case _ => assert RowOk(Rows17(24));
    }
  }

  lemma Rows25Ok(w: nat)
    requires 25 <= w <= 32
    ensures RowOk(Rows25(w))
  {
    match w {
      case 25 => assert RowOk(Rows25(25));
      case 26 => assert RowOk(Rows25(26));
      case 27 => assert RowOk(Rows25(27));
      case 28 => assert RowOk(Rows25(28));
      case 29 => assert RowOk(Rows25(29));
      case 30 => assert RowOk(Rows25(30));
      case 31 => assert RowOk(Rows25(31));
      case _ => assert RowOk(Rows25(32));
    }
  }

  lemma Rows33Ok(w: nat)
    requires 33 <= w <= 40
    ensures RowOk(Rows33(w))
  {
    match w {
      case 33 =>
      case 34 =>
      case 35 =>
      case 36 =>
      case 37 =>
      case 38 =>
      case 39 =>
      case _ =>
    }
  }

  lemma Rows41Ok(w: nat)
    requires 41 <= w <= 48
    ensures RowOk(Rows41(w))
  {
    match w {
      case 41 =>
      case 42 =>
      case 43 =>
      case 44 =>
      case 45 =>
      case 46 =>
      case 47 =>
      case _ =>
    }
  }

  lemma Rows49Ok(w: nat)
    requires 49 <= w <= 56
    ensures RowOk(Rows49(w))
  {
    match w {
      case 49 =>
      case 50 =>
      case 51 =>
      case 52 =>
      case 53 =>
      case 54 =>
      case 55 =>
      case _ =>
    }
  }

  lemma Rows57Ok(w: nat)
    requires 57 <= w <= 64
    ensures RowOk(Rows57(w))
  {
    match w {
      case 57 =>
      case 58 =>
      case 59 =>
      case 60 =>
      case 61 =>
      case 62 =>
      case 63 =>
      case _ =>
    }
  }

  /** Every multiplier of the table has the given inverse. */
  lemma PrimeRowOk(w: nat)
    requires 1 <= w <= 64
    ensures RowOk(PrimeRow(w))
  {
    if w <= 8 {
      Rows1Ok(w);
    } else if w <= 16 {
      Rows9Ok(w);
    } else if w <= 24 {
      Rows17Ok(w);
    } else if w <= 32 {
      Rows25Ok(w);
    } else if w <= 40 {
      Rows33Ok(w);
    } else if w <= 48 {
      Rows41Ok(w);
    } else if w <= 56 {
      Rows49Ok(w);
    } else {
      Rows57Ok(w);
    }
  }

  lemma Rows1Shape(w: nat)
    requires 1 <= w <= 8
    ensures RowShape(w, Rows1(w))
  {
    match w {
      case 1 =>
      case 2 =>
      case 3 =>
      case 4 =>
      case 5 =>
      case 6 =>
      case 7 =>
      case _ =>
    }
  }

  lemma Rows9Shape(w: nat)
    requires 9 <= w <= 16
    ensures RowShape(w, Rows9(w))
  {
    match w {
      case 9 =>
      case 10 =>
      case 11 =>
      case 12 =>
      case 13 =>
      case 14 =>
      case 15 =>
      case _ =>
    }
  }

  lemma Rows17Shape(w: nat)
    requires 17 <= w <= 24
    ensures RowShape(w, Rows17(w))
  {
    match w {
      case 17 =>
      case 18 =>
      case 19 =>
      case 20 =>
      case 21 =>
      case 22 =>
      case 23 =>
      case _ =>
    }
  }

  lemma Rows25Shape(w: nat)
    requires 25 <= w <= 32
    ensures RowShape(w, Rows25(w))
  {
    match w {
      case 25 =>
      case 26 =>
      case 27 =>
      case 28 =>
      case 29 =>
      case 30 =>
      case 31 =>
      case _ =>
    }
  }

  lemma Rows33Shape(w: nat)
    requires 33 <= w <= 40
    ensures RowShape(w, Rows33(w))
  {
    match w {
      case 33 =>
      case 34 =>
      case 35 =>
      case 36 =>
      case 37 =>
      case 38 =>
      case 39 =>
      case _ =>
    }
  }

  lemma Rows41Shape(w: nat)
    requires 41 <= w <= 48
    ensures RowShape(w, Rows41(w))
  {
    match w {
      case 41 =>
      case 42 =>
      case 43 =>
      case 44 =>
      case 45 =>
      case 46 =>
      case 47 =>
      case _ =>
    }
  }

  lemma Rows49Shape(w: nat)
    requires 49 <= w <= 56
    ensures RowShape(w, Rows49(w))
  {
    match w {
      case 49 =>
      case 50 =>
      case 51 =>
      case 52 =>
      case 53 =>
      case 54 =>
      case 55 =>
      case _ =>
    }
  }

  lemma Rows57Shape(w: nat)
    requires 57 <= w <= 64
    ensures RowShape(w, Rows57(w))
  {
    match w {
      case 57 =>
      case 58 =>
      case 59 =>
      case 60 =>
      case 61 =>
      case 62 =>
      case 63 =>
      case _ =>
    }
  }

  /** The multipliers of every row are as the table promises. */
  lemma PrimeRowShape(w: nat)
    requires 1 <= w <= 64
    ensures RowShape(w, PrimeRow(w))
  {
    if w <= 8 {
      Rows1Shape(w);
    } else if w <= 16 {
      Rows9Shape(w);
    } else if w <= 24 {
      Rows17Shape(w);
    } else if w <= 32 {
      Rows25Shape(w);
    } else if w <= 40 {
      Rows33Shape(w);
    } else if w <= 48 {
      Rows41Shape(w);
    } else if w <= 56 {
      Rows49Shape(w);
    } else {
      Rows57Shape(w);
    }
  }

  lemma {:induction false} PrimeRowModulus(w: nat)
    requires 1 <= w <= 64
    ensures PrimeRow(w).m == Pow2(w)
  {
    if w > 1 {
      PrimeRowModulus(w - 1);
    }
  }
}
