/** Reed-Solomon check bytes: generator polynomial and shift-register division. */
module ReedSolomon {
  import opened Galois

  /** Coefficients, highest degree first. */
  type Poly = seq<bv8>

  /** The value at x, by Horner's rule. */
  function Eval(p: Poly, x: bv8): bv8 {
    if p == [] then 0 else Add(Mul(Eval(p[..|p| - 1], x), x), p[|p| - 1])
  }

  function Exp(x: bv8, n: nat): bv8 {
    if n == 0 then 1 else Mul(Exp(x, n - 1), x)
  }

  function Sum(p: Poly, q: Poly): (s: Poly)
    requires |p| == |q|
    ensures |s| == |p| && forall i | 0 <= i < |p| :: s[i] == Add(p[i], q[i])
  {
    seq(|p|, i requires 0 <= i < |p| => Add(p[i], q[i]))
  }

  function Scale(p: Poly, c: bv8): (s: Poly)
    ensures |s| == |p| && forall i | 0 <= i < |p| :: s[i] == Mul(p[i], c)
  {
    seq(|p|, i requires 0 <= i < |p| => Mul(p[i], c))
  }

  function Zeros(n: nat): (p: Poly)
    ensures |p| == n && forall i | 0 <= i < n :: p[i] == 0
  {
    seq(n, _ => 0)
  }

  /** p(x) * (x + r). */
  function TimesRoot(p: Poly, r: bv8): (q: Poly)
    ensures |q| == |p| + 1
    ensures forall i | 0 <= i <= |p| ::
              q[i] == Add(if i < |p| then p[i] else 0, if i > 0 then Mul(p[i - 1], r) else 0)
  {
    Sum(p + [0], [0] + Scale(p, r))
  }

  /** The product of (x + Alpha(i)) for i below n. */
  function Generator(n: nat): (g: Poly)
    ensures |g| == n + 1
  {
    if n == 0 then [1] else TimesRoot(Generator(n - 1), Alpha(n - 1))
  }

  /** One clock of the shift register that divides by g. */
  function Clock(ecc: Poly, d: bv8, g: Poly): (next: Poly)
    requires |ecc| >= 1 && |g| == |ecc| + 1
    ensures |next| == |ecc|
  {
    Sum(ecc[1..] + [0], Scale(g[1..], Add(d, ecc[0])))
  }

  function CheckBytes(data: Poly, n: nat): (ecc: Poly)
    requires n >= 1
    ensures |ecc| == n
  {
    if data == [] then Zeros(n)
    else Clock(CheckBytes(data[..|data| - 1], n), data[|data| - 1], Generator(n))
  }

  // ----- evaluation is linear -----

  lemma {:induction false} EvalSum(p: Poly, q: Poly, x: bv8)
    requires |p| == |q|
    ensures Eval(Sum(p, q), x) == Add(Eval(p, x), Eval(q, x))
  {
    hide Add, Mul;
    if p == [] {
      AddLaws(0, 0, 0);
    } else {
      var n := |p| - 1;
      assert Sum(p, q)[..n] == Sum(p[..n], q[..n]);
      EvalSum(p[..n], q[..n], x);
      var a, b := Eval(p[..n], x), Eval(q[..n], x);
      MulAdds(a, b, x);
      Swap4(Mul(a, x), Mul(b, x), p[n], q[n]);
    }
  }

  lemma {:induction false} EvalScale(p: Poly, c: bv8, x: bv8)
    ensures Eval(Scale(p, c), x) == Mul(Eval(p, x), c)
  {
    hide Add, Mul;
    if p == [] {
      MulZero(c);
    } else {
      var n := |p| - 1;
      assert Scale(p, c)[..n] == Scale(p[..n], c);
      EvalScale(p[..n], c, x);
      var a := Eval(p[..n], x);
      MulAdds(Mul(a, x), p[n], c);
      MulAssoc(a, c, x);
      MulAssoc(a, x, c);
      MulComm(c, x);
    }
  }

  lemma {:induction false} EvalConcat(p: Poly, q: Poly, x: bv8)
    ensures Eval(p + q, x) == Add(Mul(Eval(p, x), Exp(x, |q|)), Eval(q, x))
    decreases |q|
  {
    hide Add, Mul;
    if q == [] {
      assert p + q == p;
      MulOne(Eval(p, x));
      AddLaws(Eval(p, x), 0, 0);
    } else {
      var n := |q| - 1;
      assert (p + q)[..|p + q| - 1] == p + q[..n];
      EvalConcat(p, q[..n], x);
      var a, b, e := Eval(p, x), Eval(q[..n], x), Exp(x, n);
      MulAdds(Mul(a, e), b, x);
      MulAssoc(a, e, x);
      AddLaws(Mul(a, Mul(e, x)), Mul(b, x), q[n]);
    }
  }

  lemma EvalOne(c: bv8, x: bv8)
    ensures Eval([c], x) == c
  {
    hide Add, Mul;
    assert [c][..0] == [];
    MulZero(x);
    AddLaws(c, 0, 0);
  }

  lemma EvalZero(x: bv8)
    ensures Eval([0], x) == 0
  {
    EvalOne(0, x);
  }

  lemma {:induction false} EvalZeros(n: nat, x: bv8)
    ensures Eval(Zeros(n), x) == 0
  {
    hide Add, Mul;
    if n > 0 {
      assert Zeros(n)[..n - 1] == Zeros(n - 1);
      EvalZeros(n - 1, x);
      MulZero(x);
      AddLaws(0, 0, 0);
    }
  }

  // ----- the generator -----

  lemma EvalTimesRoot(p: Poly, r: bv8, x: bv8)
    ensures Eval(TimesRoot(p, r), x) == Mul(Eval(p, x), Add(x, r))
  {
    hide Add, Mul, Eval;
    EvalSum(p + [0], [0] + Scale(p, r), x);
    EvalConcat(p, [0], x);
    EvalConcat([0], Scale(p, r), x);
    EvalScale(p, r, x);
    EvalZero(x);
    ExpOne(x);
    MulZero(Exp(x, |p|));
    AddLaws(Mul(Eval(p, x), x), 0, 0);
    AddLaws(Mul(Eval(p, x), r), 0, 0);
    MulAdds(Eval(p, x), x, r);
  }

  lemma ExpOne(x: bv8)
    ensures Exp(x, 1) == x
  {
    hide Mul;
    assert Exp(x, 0) == 1;
    MulOne(x);
    MulComm(1, x);
  }

  /** Every Alpha(i) below the degree is a root of the generator, which is monic. */
  lemma {:induction false} GeneratorRoots(n: nat, i: nat)
    requires i < n
    ensures Eval(Generator(n), Alpha(i)) == 0
  {
    hide Add, Mul, Eval, Alpha;
    var g, r := Generator(n - 1), Alpha(n - 1);
    EvalTimesRoot(g, r, Alpha(i));
    if i == n - 1 {
      AddLaws(r, r, 0);
      MulZero(Eval(g, r));
    } else {
      GeneratorRoots(n - 1, i);
      MulZero(Add(Alpha(i), r));
    }
  }

  lemma {:induction false} GeneratorMonic(n: nat)
    ensures Generator(n)[0] == 1
  {
    hide Alpha, Mul;
    if n > 0 {
      GeneratorMonic(n - 1);
      AddLaws(1, 0, 0);
    }
  }

  // ----- the division -----

  /** Feeding d multiplies the register's value by x and adds d x^n, at every root. */
  lemma ClockEval(ecc: Poly, d: bv8, g: Poly, x: bv8)
    requires |ecc| >= 1 && |g| == |ecc| + 1 && g[0] == 1 && Eval(g, x) == 0
    ensures Eval(Clock(ecc, d, g), x) == Add(Mul(Eval(ecc, x), x), Mul(d, Exp(x, |ecc|)))
  {
    hide Add, Mul, Eval;
    var n := |ecc|;
    var f := Add(d, ecc[0]);
    var t := ecc[1..];
    var xn := Exp(x, n);
    EvalSum(t + [0], Scale(g[1..], f), x);
    EvalScale(g[1..], f, x);
    EvalConcat(t, [0], x);
    EvalZero(x);
    ExpOne(x);
    AddLaws(Mul(Eval(t, x), x), 0, 0);
    assert g == [1] + g[1..];
    EvalConcat([1], g[1..], x);
    EvalOne(1, x);
    MulComm(1, xn);
    MulOne(xn);
    CancelSum(xn, Eval(g[1..], x));
    assert ecc == [ecc[0]] + t;
    EvalConcat([ecc[0]], t, x);
    EvalOne(ecc[0], x);
    MulAdds(Mul(ecc[0], Exp(x, n - 1)), Eval(t, x), x);
    MulAssoc(ecc[0], Exp(x, n - 1), x);
    MulComm(xn, f);
    MulAdds(d, ecc[0], xn);
    Rearrange(Mul(Eval(t, x), x), Mul(ecc[0], xn), Mul(d, xn));
  }

  lemma CancelSum(a: bv8, b: bv8)
    requires Add(a, b) == 0
    ensures b == a
  {
  }

  lemma Rearrange(t: bv8, e: bv8, d: bv8)
    ensures Add(t, Add(d, e)) == Add(Add(e, t), d)
  {
    hide Add;
    AddLaws(d, e, 0);
    AddLaws(t, e, d);
    AddLaws(e, t, 0);
  }

  /** At every root the register holds the data times x^n. */
  lemma {:induction false} CheckBytesEval(data: Poly, n: nat, i: nat)
    requires n >= 1 && i < n
    ensures Eval(CheckBytes(data, n), Alpha(i)) == Mul(Eval(data, Alpha(i)), Exp(Alpha(i), n))
  {
    hide Add, Mul, Alpha, Clock;
    var x := Alpha(i);
    var xn := Exp(x, n);
    if data == [] {
      EvalZeros(n, x);
      MulZero(xn);
    } else {
      var front, d := data[..|data| - 1], data[|data| - 1];
      CheckBytesEval(front, n, i);
      GeneratorRoots(n, i);
      GeneratorMonic(n);
      ClockEval(CheckBytes(front, n), d, Generator(n), x);
      var e := Eval(front, x);
      MulAssoc(e, xn, x);
      MulComm(xn, x);
      MulAssoc(e, x, xn);
      MulAdds(Mul(e, x), d, xn);
    }
  }

  /** Data followed by its check bytes vanishes at Alpha(0), ..., Alpha(n - 1). */
  lemma CodewordVanishes(data: Poly, n: nat, i: nat)
    requires n >= 1 && i < n
    ensures Eval(data + CheckBytes(data, n), Alpha(i)) == 0
  {
    hide Add, Mul, Alpha, Eval, CheckBytes;
    var x := Alpha(i);
    EvalConcat(data, CheckBytes(data, n), x);
    CheckBytesEval(data, n, i);
    AddLaws(Mul(Eval(data, x), Exp(x, n)), 0, 0);
  }
}
