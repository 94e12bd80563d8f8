/** The Reed-Solomon loops of the QR encoder, working in place on byte buffers. */
module QrEcc {
  import opened Galois
  import opened ReedSolomon

  /** Builds the generator polynomial; the buffer has 40 bytes. */
  method MakeGenerator(tables: Tables, degree: nat, generator: array<bv8>)
    requires tables.Valid() && tables.ready
    requires generator.Length == 40 && degree < 40
    modifies generator
    ensures generator[..degree + 1] == Generator(degree)
  {
    hide Mul, Alpha, Add;
    var i := 0;
    while i < 40
      invariant i <= 40
    {
      generator[i] := 0;
      i := i + 1;
    }
    generator[0] := 1;
    var current := 0;
    assert generator[..1] == Generator(0);
    i := 0;
    while i < degree
      invariant i <= degree && current == i
      invariant generator[..i + 1] == Generator(i)
    {
      var root := tables.exp[i];
      assert root == Alpha(i);
      TimesRootInPlace(tables, i, root, generator);
      current := current + 1;
      i := i + 1;
    }
  }

  /** Multiplies the first `current` + 1 coefficients by (x + root). */
  method TimesRootInPlace(tables: Tables, current: nat, root: bv8, generator: array<bv8>)
    requires tables.Valid() && tables.ready
    requires generator.Length == 40 && current < 39
    modifies generator
    ensures generator[..current + 2] == TimesRoot(old(generator[..current + 1]), root)
  {
    hide Mul, Alpha, Add, TimesRoot;
    ghost var g := generator[..current + 1];
    var temp := new bv8[40](_ => 0);
    var j := 0;
    while j <= current
      invariant j <= current + 1
      invariant forall k: nat | k < j :: temp[k] == TimesRoot(g, root)[k]
      invariant temp[j] == if j > 0 then Mul(g[j - 1], root) else 0
      invariant forall k: nat | j < k < 40 :: temp[k] == 0
      modifies temp
    {
      AddLaws(temp[j], generator[j], 0);
      temp[j] := Add(temp[j], generator[j]);
      AddLaws(Mul(g[j], root), 0, 0);
      temp[j + 1] := Add(temp[j + 1], tables.GfMultiply(generator[j], root));
      j := j + 1;
    }
    AddLaws(temp[j], 0, 0);
    assert temp[j] == TimesRoot(g, root)[j];
    j := 0;
    while j <= current + 1
      invariant j <= current + 2
      invariant forall k: nat | k < j :: generator[k] == temp[k]
      modifies generator
    {
      generator[j] := temp[j];
      j := j + 1;
    }
    assert generator[..current + 2] == TimesRoot(g, root);
  }

  /** Divides the data by the generator; ecc receives the remainder. */
  method MakeEcc(tables: Tables, data: seq<bv8>, eccLength: nat, ecc: array<bv8>)
    requires tables.Valid() && tables.ready
    requires 1 <= eccLength < 40 == ecc.Length
    modifies ecc
    ensures ecc[..eccLength] == CheckBytes(data, eccLength)
  {
    hide Mul, Alpha, Add, Clock;
    var generator := new bv8[40];
    MakeGenerator(tables, eccLength, generator);
    ghost var g := Generator(eccLength);
    var i := 0;
    while i < eccLength
      invariant i <= eccLength
      invariant forall k: nat | k < i :: ecc[k] == 0
      modifies ecc
    {
      ecc[i] := 0;
      i := i + 1;
    }
    assert data[..0] == [];
    assert ecc[..eccLength] == Zeros(eccLength);
    i := 0;
    while i < |data|
      invariant i <= |data|
      invariant ecc[..eccLength] == CheckBytes(data[..i], eccLength)
      invariant tables.Valid()
      modifies ecc
    {
      assert data[..i + 1][..i] == data[..i];
      ClockInPlace(tables, generator, data[i], eccLength, ecc);
      assert generator[..eccLength + 1] == g;
      i := i + 1;
    }
    assert data[..i] == data;
  }

  /** One data byte through the shift register. */
  method ClockInPlace(tables: Tables, generator: array<bv8>, d: bv8, n: nat, ecc: array<bv8>)
    requires tables.Valid() && tables.ready && generator.Length == 40
    requires 1 <= n < 40 == ecc.Length && ecc != generator
    modifies ecc
    ensures ecc[..n] == Clock(old(ecc[..n]), d, generator[..n + 1])
  {
    hide Mul, Alpha, Add, Clock;
    ghost var was := ecc[..n];
    ghost var g := generator[..n + 1];
    var factor := Add(d, ecc[0]);
    ShiftDown(n, ecc);
    ghost var shifted := was[1..] + [0];
    if factor != 0 {
      AddScaled(tables, generator, factor, n, ecc);
    }
    forall k: nat | k < n ensures ecc[k] == Add(shifted[k], Mul(g[k + 1], factor)) {
      MulZero(g[k + 1]);
      AddLaws(shifted[k], 0, 0);
    }
    ClockIs(was, d, g, ecc[..n]);
  }

  /** Drops the first register and clears the last. */
  method ShiftDown(n: nat, ecc: array<bv8>)
    requires 1 <= n < 40 == ecc.Length
    modifies ecc
    ensures ecc[..n] == old(ecc[..n])[1..] + [0]
  {
    ghost var was := ecc[..n];
    var j := 0;
    while j < n - 1
      invariant j <= n - 1
      invariant forall k: nat | k < j :: ecc[k] == was[k + 1]
      invariant forall k: nat | j <= k < n :: ecc[k] == was[k]
    {
      ecc[j] := ecc[j + 1];
      j := j + 1;
    }
    ecc[n - 1] := 0;
    assert ecc[..n] == was[1..] + [0];
  }

  /** Adds the generator times a factor, its leading coefficient left out. */
  method AddScaled(tables: Tables, generator: array<bv8>, factor: bv8, n: nat, ecc: array<bv8>)
    requires tables.Valid() && tables.ready && generator.Length == 40
    requires 1 <= n < 40 == ecc.Length && ecc != generator
    modifies ecc
    ensures forall k: nat | k < n :: ecc[k] == Add(old(ecc[k]), Mul(generator[k + 1], factor))
  {
    hide Mul, Alpha, Add;
    var j := 0;
    while j < n
      invariant j <= n && tables.Valid()
      invariant forall k: nat | k < j :: ecc[k] == Add(old(ecc[k]), Mul(generator[k + 1], factor))
      invariant forall k: nat | j <= k < n :: ecc[k] == old(ecc[k])
    {
      ecc[j] := Add(ecc[j], tables.GfMultiply(generator[j + 1], factor));
      j := j + 1;
    }
  }

  lemma ClockIs(ecc: Poly, d: bv8, g: Poly, next: Poly)
    requires |ecc| >= 1 && |g| == |ecc| + 1 && |next| == |ecc|
    requires forall k: nat | k < |ecc| ::
               next[k] == Add((ecc[1..] + [0])[k], Mul(g[k + 1], Add(d, ecc[0])))
    ensures next == Clock(ecc, d, g)
  {
    hide Add, Mul;
    var s := Scale(g[1..], Add(d, ecc[0]));
    forall k: nat | k < |ecc| ensures next[k] == Clock(ecc, d, g)[k] {
      assert g[1..][k] == g[k + 1];
      assert s[k] == Mul(g[k + 1], Add(d, ecc[0]));
    }
  }
}
