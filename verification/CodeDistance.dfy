/** How far apart Reed-Solomon codewords are: words of at most 255 bytes that vanish at
    the n roots differ in more than n bytes. */
module CodeDistance {
  import opened Galois
  import opened ReedSolomon

  /** The locator of position j: the coefficient there belongs to x^(|c| - 1 - j). */
  function Locator(c: Poly, j: nat): bv8
    requires j < |c|
  {
    Alpha(|c| - 1 - j)
  }

  /** The sum of c[j] X_j^m over the first k positions. */
  function PowerSum(c: Poly, k: nat, m: nat): bv8
    requires k <= |c|
  {
    if k == 0 then 0 else Add(PowerSum(c, k - 1, m), Mul(c[k - 1], Exp(Locator(c, k - 1), m)))
  }

  /** The sum of c[j] h(X_j) over the first k positions. */
  function Pairing(c: Poly, k: nat, h: Poly): bv8
    requires k <= |c|
  {
    if k == 0 then 0 else Add(Pairing(c, k - 1, h), Mul(c[k - 1], Eval(h, Locator(c, k - 1))))
  }

  function Weight(c: Poly): nat {
    if c == [] then 0 else Weight(c[..|c| - 1]) + (if c[|c| - 1] != 0 then 1 else 0)
  }

  ghost predicate Vanishes(c: Poly, n: nat) {
    forall i: nat | i < n :: Eval(c, Alpha(i)) == 0
  }

  lemma MulNonZero(a: bv8, b: bv8)
    requires a != 0 && b != 0
    ensures Mul(a, b) != 0
  {
    hide Mul, Alpha;
    AlphaSurjective(a);
    AlphaSurjective(b);
    var i: nat, j: nat :| Alpha(i) == a && Alpha(j) == b;
    AlphaAdd(i, j);
    AlphaNonZero(i + j);
  }

  lemma {:induction false} ExpAlpha(a: nat, b: nat)
    ensures Exp(Alpha(a), b) == Alpha(a * b)
  {
    hide Mul, Alpha;
    if b == 0 {
      AlphaZero();
    } else {
      ExpAlpha(a, b - 1);
      AlphaAdd(a * (b - 1), a);
      assert a * (b - 1) + a == a * b;
    }
  }

  /** Evaluation at Alpha(m) is the power sum of the locators. */
  lemma {:induction false} EvalIsPowerSum(c: Poly, k: nat, m: nat)
    requires k <= |c|
    ensures Mul(Eval(c[..k], Alpha(m)), Exp(Alpha(m), |c| - k)) == PowerSum(c, k, m)
  {
    hide Mul, Add, Alpha;
    var y := Alpha(m);
    if k == 0 {
      MulZero(Exp(y, |c|));
    } else {
      EvalIsPowerSum(c, k - 1, m);
      var rest := Exp(y, |c| - k);
      assert c[..k][..k - 1] == c[..k - 1];
      var e := Eval(c[..k - 1], y);
      MulAdds(Mul(e, y), c[k - 1], rest);
      MulAssoc(e, y, rest);
      MulComm(y, rest);
      ExpAlpha(m, |c| - k);
      ExpAlpha(|c| - k, m);
      assert m * (|c| - k) == (|c| - k) * m;
    }
  }

  lemma PowerSumZero(c: Poly, n: nat, m: nat)
    requires Vanishes(c, n) && m < n
    ensures PowerSum(c, |c|, m) == 0
  {
    hide Mul, Alpha;
    EvalIsPowerSum(c, |c|, m);
    assert c[..|c|] == c;
    MulOne(Eval(c, Alpha(m)));
  }

  /** One more coefficient of h adds a multiple of a power sum. */
  lemma {:induction false} PairingSplit(c: Poly, k: nat, h: Poly)
    requires k <= |c| && h != []
    ensures Pairing(c, k, h) == Add(Mul(h[0], PowerSum(c, k, |h| - 1)), Pairing(c, k, h[1..]))
    decreases k
  {
    hide Mul, Add, Alpha, Eval;
    if k == 0 {
      MulZero(h[0]);
      AddLaws(0, 0, 0);
    } else {
      PairingSplit(c, k - 1, h);
      var x, v := Locator(c, k - 1), c[k - 1];
      var m := |h| - 1;
      assert h == [h[0]] + h[1..];
      EvalConcat([h[0]], h[1..], x);
      EvalOne(h[0], x);
      MulAdds(v, Mul(h[0], Exp(x, m)), Eval(h[1..], x));
      MulAssoc(v, h[0], Exp(x, m));
      MulComm(v, h[0]);
      MulAssoc(h[0], v, Exp(x, m));
      var ps := PowerSum(c, k - 1, m);
      MulAdds(h[0], ps, Mul(v, Exp(x, m)));
      Swap4(Mul(h[0], ps), Pairing(c, k - 1, h[1..]), Mul(h[0], Mul(v, Exp(x, m))), Mul(v, Eval(h[1..], x)));
    }
  }

  /** A word that vanishes at n roots pairs to zero with every h of fewer than n + 1 terms. */
  lemma {:induction false} PairingZero(c: Poly, n: nat, h: Poly)
    requires Vanishes(c, n) && |h| <= n
    ensures Pairing(c, |c|, h) == 0
    decreases |h|
  {
    hide Mul, Add, Vanishes;
    if h == [] {
      PairingNone(c, |c|);
    } else {
      PairingSplit(c, |c|, h);
      PowerSumZero(c, n, |h| - 1);
      PairingZero(c, n, h[1..]);
      MulZero(h[0]);
      AddLaws(0, 0, 0);
    }
  }

  lemma {:induction false} PairingNone(c: Poly, k: nat)
    requires k <= |c|
    ensures Pairing(c, k, []) == 0
  {
    hide Mul, Add;
    if k > 0 {
      PairingNone(c, k - 1);
      MulZero(c[k - 1]);
      AddLaws(0, 0, 0);
    }
  }

  // ----- the polynomial that is zero at all non-zero positions but one -----

  function Spare(c: Poly, k: nat, s: nat): Poly
    requires k <= |c|
  {
    if k == 0 then [1]
    else if k - 1 != s && c[k - 1] != 0 then TimesRoot(Spare(c, k - 1, s), Locator(c, k - 1))
    else Spare(c, k - 1, s)
  }

  lemma {:induction false} SpareLength(c: Poly, k: nat, s: nat)
    requires k <= |c| && s < |c| && c[s] != 0
    ensures |Spare(c, k, s)| + (if s < k then 1 else 0) == 1 + Weight(c[..k])
  {
    hide Alpha;
    if k > 0 {
      SpareLength(c, k - 1, s);
      assert c[..k][..k - 1] == c[..k - 1];
    }
  }

  lemma {:induction false} SpareZero(c: Poly, k: nat, s: nat, j: nat)
    requires k <= |c| && j < k && j != s && c[j] != 0
    ensures Eval(Spare(c, k, s), Locator(c, j)) == 0
  {
    hide Mul, Add, Alpha, Eval;
    var x := Locator(c, j);
    if k - 1 != s && c[k - 1] != 0 {
      EvalTimesRoot(Spare(c, k - 1, s), Locator(c, k - 1), x);
      if j == k - 1 {
        AddLaws(x, x, 0);
        MulZero(Eval(Spare(c, k - 1, s), x));
      } else {
        SpareZero(c, k - 1, s, j);
        MulZero(Add(x, Locator(c, k - 1)));
      }
    } else {
      SpareZero(c, k - 1, s, j);
    }
  }

  lemma {:induction false} SpareNonZero(c: Poly, k: nat, s: nat)
    requires k <= |c| <= 255 && s < |c|
    ensures Eval(Spare(c, k, s), Locator(c, s)) != 0
  {
    hide Mul, Add, Alpha, Eval;
    var x := Locator(c, s);
    if k == 0 {
      EvalOne(1, x);
    } else {
      SpareNonZero(c, k - 1, s);
      if k - 1 != s && c[k - 1] != 0 {
        EvalTimesRoot(Spare(c, k - 1, s), Locator(c, k - 1), x);
        LocatorsDiffer(c, s, k - 1);
        MulNonZero(Eval(Spare(c, k - 1, s), x), Add(x, Locator(c, k - 1)));
      }
    }
  }

  lemma LocatorsDiffer(c: Poly, i: nat, j: nat)
    requires i < |c| <= 255 && j < |c| && i != j
    ensures Add(Locator(c, i), Locator(c, j)) != 0
  {
    hide Alpha;
    if i < j { AlphaInjective(|c| - 1 - j, |c| - 1 - i); } else { AlphaInjective(|c| - 1 - i, |c| - 1 - j); }
    DifferentAdd(Locator(c, i), Locator(c, j));
  }

  lemma DifferentAdd(a: bv8, b: bv8)
    requires a != b
    ensures Add(a, b) != 0
  {
  }

  /** Only position s contributes to the pairing with its spare polynomial. */
  lemma {:induction false} PairingSpare(c: Poly, k: nat, s: nat)
    requires k <= |c| && s < |c|
    ensures Pairing(c, k, Spare(c, |c|, s)) ==
            if s < k then Mul(c[s], Eval(Spare(c, |c|, s), Locator(c, s))) else 0
  {
    hide Mul, Add, Alpha, Eval, Spare;
    if k > 0 {
      PairingSpare(c, k - 1, s);
      var h := Spare(c, |c|, s);
      var j := k - 1;
      var e := Eval(h, Locator(c, j));
      if j == s {
        AddLaws(Mul(c[s], e), 0, 0);
      } else {
        MulZero(e);
        MulZero(c[j]);
        if c[j] != 0 { SpareZero(c, |c|, s, j); }
        AddLaws(Pairing(c, k - 1, h), 0, 0);
      }
    }
  }

  /** A non-zero word of at most 255 bytes that vanishes at n roots has more than n
      non-zero bytes. */
  lemma WeightBound(c: Poly, n: nat, s: nat)
    requires |c| <= 255 && Vanishes(c, n) && s < |c| && c[s] != 0
    ensures Weight(c) > n
  {
    hide Mul, Alpha, Eval, Vanishes, Spare, Pairing;
    SpareLength(c, |c|, s);
    assert c[..|c|] == c;
    SpareNonZero(c, |c|, s);
    PairingSpare(c, |c|, s);
    MulNonZero(c[s], Eval(Spare(c, |c|, s), Locator(c, s)));
    if Weight(c) <= n {
      PairingZero(c, n, Spare(c, |c|, s));
    }
  }

  /** Positions in which two words differ. */
  function Distance(a: Poly, b: Poly): nat
    requires |a| == |b|
  {
    if a == [] then 0
    else Distance(a[..|a| - 1], b[..|b| - 1]) + (if a[|a| - 1] != b[|b| - 1] then 1 else 0)
  }

  lemma {:induction false} DistanceIsWeight(a: Poly, b: Poly)
    requires |a| == |b|
    ensures Distance(a, b) == Weight(Sum(a, b))
  {
    if a != [] {
      var n := |a| - 1;
      assert Sum(a, b)[..n] == Sum(a[..n], b[..n]);
      DistanceIsWeight(a[..n], b[..n]);
      SameAdd(a[n], b[n]);
    }
  }

  lemma SameAdd(a: bv8, b: bv8)
    ensures Add(a, b) == 0 <==> a == b
  {
  }

  /** Two different data blocks of the same length give codewords that differ in more than
      n bytes: no n errors turn one into the other. */
  lemma CodewordDistance(d1: Poly, d2: Poly, n: nat)
    requires n >= 1 && |d1| == |d2| && d1 != d2 && |d1| + n <= 255
    ensures Distance(d1 + CheckBytes(d1, n), d2 + CheckBytes(d2, n)) > n
  {
    hide Mul, Alpha, CheckBytes, Eval, Add, Weight, Distance;
    var c1, c2 := d1 + CheckBytes(d1, n), d2 + CheckBytes(d2, n);
    var c := Sum(c1, c2);
    forall i: nat | i < n ensures Eval(c, Alpha(i)) == 0 {
      EvalSum(c1, c2, Alpha(i));
      CodewordVanishes(d1, n, i);
      CodewordVanishes(d2, n, i);
      AddLaws(0, 0, 0);
    }
    var s :| 0 <= s < |d1| && d1[s] != d2[s];
    SameAdd(d1[s], d2[s]);
    assert c[s] == Add(d1[s], d2[s]);
    WeightBound(c, n, s);
    DistanceIsWeight(c1, c2);
  }

  /** The check bytes are the only ones that complete the data to a word that vanishes
      at the n roots. */
  lemma CheckBytesUnique(data: Poly, n: nat, ecc: Poly)
    requires n >= 1 && |ecc| == n && |data| + n <= 255 && Vanishes(data + ecc, n)
    ensures ecc == CheckBytes(data, n)
  {
    hide Mul, Alpha, CheckBytes, Eval, Add;
    var right := CheckBytes(data, n);
    var c1, c2 := data + ecc, data + right;
    var c := Sum(c1, c2);
    forall i: nat | i < n ensures Eval(c, Alpha(i)) == 0 {
      EvalSum(c1, c2, Alpha(i));
      CodewordVanishes(data, n, i);
      AddLaws(0, 0, 0);
    }
    forall j: nat | j < |data| ensures c[j] == 0 { SameAdd(data[j], data[j]); }
    TailWeight(c, |data|);
    forall j: nat | j < n ensures ecc[j] == right[j] {
      SameAdd(ecc[j], right[j]);
      if c[|data| + j] != 0 { WeightBound(c, n, |data| + j); }
    }
  }

  lemma {:induction false} TailWeight(c: Poly, m: nat)
    requires m <= |c| && forall j | 0 <= j < m :: c[j] == 0
    ensures Weight(c) <= |c| - m
  {
    if |c| > m { TailWeight(c[..|c| - 1], m); }
    else if c != [] { TailWeight(c[..|c| - 1], m - 1); }
  }
}
