/** The field GF(256) with modulus 0x11D, and the logarithm tables that multiply in it. */
module Galois {
  import opened Bytes

  /** Addition: bitwise exclusive or. */
  function Add(a: bv8, b: bv8): bv8 {
    a ^ b
  }

  /** Multiplication by x. */
  function Xtime(a: bv8): bv8 {
    if a & 0x80 != 0 then (a << 1) ^ 0x1D else a << 1
  }

  function When(bit: bool, a: bv8): bv8 {
    if bit then a else 0
  }

  predicate Low(b: bv8) {
    b & 1 != 0
  }

  /** a times the low n bits of b, as polynomials modulo 0x11D: the sum of a * x^i over the
      bits i of b. */
  function MulBits(a: bv8, b: bv8, n: nat): bv8
    decreases n
  {
    if n == 0 then 0 else Add(When(Low(b), a), MulBits(Xtime(a), b >> 1, n - 1))
  }

  /** The product of two polynomials of degree below 8 modulo x^8 + x^4 + x^3 + x^2 + 1. */
  function Mul(a: bv8, b: bv8): bv8 {
    MulBits(a, b, 8)
  }

  // ----- addition -----

  lemma AddLaws(a: bv8, b: bv8, c: bv8)
    ensures Add(a, b) == Add(b, a) && Add(Add(a, b), c) == Add(a, Add(b, c))
    ensures Add(a, a) == 0 && Add(a, 0) == a && Add(0, a) == a
  {
  }

  lemma Swap4(a: bv8, b: bv8, c: bv8, d: bv8)
    ensures Add(Add(a, b), Add(c, d)) == Add(Add(a, c), Add(b, d))
  {
    hide Add;
    AddLaws(a, b, Add(c, d));
    AddLaws(b, c, d);
    AddLaws(c, b, d);
    AddLaws(a, c, Add(b, d));
  }

  // ----- multiplication by x is linear -----

  lemma XtimeFormula(a: bv8)
    ensures Xtime(a) == (a << 1) ^ (0x1D * (a >> 7))
  {
    if a & 0x80 != 0 { assert a >> 7 == 1; } else { assert a >> 7 == 0; }
  }

  lemma XtimeAdds(a: bv8, b: bv8)
    ensures Xtime(Add(a, b)) == Add(Xtime(a), Xtime(b))
  {
    hide Xtime;
    XtimeFormula(a);
    XtimeFormula(b);
    XtimeFormula(Add(a, b));
    assert (a ^ b) << 1 == (a << 1) ^ (b << 1);
    TopAdds(a, b);
  }

  lemma TopAdds(a: bv8, b: bv8)
    ensures 0x1D * ((a ^ b) >> 7) == (0x1D * (a >> 7)) ^ (0x1D * (b >> 7))
  {
    assert (a ^ b) >> 7 == (a >> 7) ^ (b >> 7);
    TopBit(a);
    TopBit(b);
  }

  lemma TopBit(a: bv8)
    ensures a >> 7 == 0 || a >> 7 == 1
  {
  }

  lemma LowAdds(b: bv8, c: bv8)
    ensures Low(Add(b, c)) == (Low(b) != Low(c))
    ensures Add(b, c) >> 1 == Add(b >> 1, c >> 1)
  {
    assert (b ^ c) & 1 == (b & 1) ^ (c & 1);
    LowBit(b);
    LowBit(c);
  }

  lemma LowBit(a: bv8)
    ensures a & 1 == 0 || a & 1 == 1
  {
  }

  lemma WhenAdds(x: bool, y: bool, a: bv8)
    ensures When(x != y, a) == Add(When(x, a), When(y, a))
  {
    AddLaws(a, 0, 0);
    AddLaws(0, 0, 0);
  }

  lemma WhenOfSum(x: bool, a: bv8, b: bv8)
    ensures When(x, Add(a, b)) == Add(When(x, a), When(x, b))
  {
    AddLaws(0, 0, 0);
  }

  // ----- multiplication is bilinear and commutes with x -----

  lemma {:induction false} MulBitsRight(a: bv8, b: bv8, c: bv8, n: nat)
    ensures MulBits(a, Add(b, c), n) == Add(MulBits(a, b, n), MulBits(a, c, n))
    decreases n
  {
    hide Add, When, Xtime, Low;
    if n == 0 {
      AddLaws(0, 0, 0);
    } else {
      LowAdds(b, c);
      WhenAdds(Low(b), Low(c), a);
      MulBitsRight(Xtime(a), b >> 1, c >> 1, n - 1);
      Swap4(When(Low(b), a), When(Low(c), a), MulBits(Xtime(a), b >> 1, n - 1), MulBits(Xtime(a), c >> 1, n - 1));
    }
  }

  lemma {:induction false} MulBitsLeft(a: bv8, b: bv8, c: bv8, n: nat)
    ensures MulBits(Add(a, b), c, n) == Add(MulBits(a, c, n), MulBits(b, c, n))
    decreases n
  {
    hide Add, When, Xtime, Low;
    if n == 0 {
      AddLaws(0, 0, 0);
    } else {
      XtimeAdds(a, b);
      WhenOfSum(Low(c), a, b);
      MulBitsLeft(Xtime(a), Xtime(b), c >> 1, n - 1);
      Swap4(When(Low(c), a), When(Low(c), b), MulBits(Xtime(a), c >> 1, n - 1), MulBits(Xtime(b), c >> 1, n - 1));
    }
  }

  lemma {:induction false} MulBitsXtime(a: bv8, b: bv8, n: nat)
    ensures MulBits(Xtime(a), b, n) == Xtime(MulBits(a, b, n))
    decreases n
  {
    hide Add, Xtime, Low;
    XtimeZero();
    if n > 0 {
      MulBitsXtime(Xtime(a), b >> 1, n - 1);
      XtimeAdds(When(Low(b), a), MulBits(Xtime(a), b >> 1, n - 1));
    }
  }

  lemma XtimeZero()
    ensures Xtime(0) == 0
  {
  }

  lemma {:induction false} MulBitsZero(a: bv8, n: nat)
    ensures MulBits(a, 0, n) == 0
    decreases n
  {
    hide Xtime;
    if n > 0 {
      MulBitsZero(Xtime(a), n - 1);
      assert (0 as bv8) >> 1 == 0;
    }
  }

  lemma {:induction false} ZeroMulBits(b: bv8, n: nat)
    ensures MulBits(0, b, n) == 0
    decreases n
  {
    hide Xtime;
    XtimeZero();
    if n > 0 { ZeroMulBits(b >> 1, n - 1); }
  }

  lemma MulOne(a: bv8)
    ensures Mul(a, 1) == a
  {
    hide Xtime, Add;
    MulBitsZero(Xtime(a), 7);
    assert (1 as bv8) >> 1 == 0;
    AddLaws(a, 0, 0);
  }

  // ----- linear maps are determined by the eight powers of x -----

  function Shifted(a: bv8, i: nat): bv8 {
    if i == 0 then a else Xtime(Shifted(a, i - 1))
  }

  ghost predicate Linear(f: bv8 -> bv8) {
    forall a, b :: f(Add(a, b)) == Add(f(a), f(b))
  }

  lemma LinearBit(f: bv8 -> bv8, a: bv8, k: nat)
    requires Linear(f) && k < 8 && f(Power(k)) == 0
    ensures f(a & Power(k)) == 0
  {
    var p := Power(k);
    OneBit(a, p);
    if a & p == 0 {
      assert f(Add(0, 0)) == Add(f(0), f(0));
      AddLaws(0, 0, 0);
      AddLaws(f(0), 0, 0);
    }
  }

  lemma LinearSum(f: bv8 -> bv8, a: bv8, b: bv8)
    requires Linear(f) && f(a) == 0 && f(b) == 0
    ensures f(Add(a, b)) == 0
  {
    LinearAt(f, a, b);
    AddLaws(0, 0, 0);
  }

  lemma LinearAt(f: bv8 -> bv8, a: bv8, b: bv8)
    requires Linear(f)
    ensures f(Add(a, b)) == Add(f(a), f(b))
  {
  }

  /** A linear map that vanishes on 1, x, ..., x^7 vanishes everywhere. */
  lemma LinearZero(f: bv8 -> bv8, a: bv8)
    requires Linear(f) && forall k: nat | k < 8 :: f(Power(k)) == 0
    ensures f(a) == 0
  {
    hide Linear, Add;
    LinearBits(f, a);
    var s2 := Add(a & 1, a & 2);
    var s3 := Add(s2, a & 4);
    var s4 := Add(s3, a & 8);
    var s5 := Add(s4, a & 16);
    var s6 := Add(s5, a & 32);
    var s7 := Add(s6, a & 64);
    LinearSum(f, a & 1, a & 2);
    LinearSum(f, s2, a & 4);
    LinearSum(f, s3, a & 8);
    LinearSum(f, s4, a & 16);
    LinearSum(f, s5, a & 32);
    LinearSum(f, s6, a & 64);
    LinearSum(f, s7, a & 128);
    BitsOf(a);
  }

  lemma LinearBits(f: bv8 -> bv8, a: bv8)
    requires Linear(f) && forall k: nat | k < 8 :: f(Power(k)) == 0
    ensures f(a & 1) == 0 && f(a & 2) == 0 && f(a & 4) == 0 && f(a & 8) == 0
    ensures f(a & 16) == 0 && f(a & 32) == 0 && f(a & 64) == 0 && f(a & 128) == 0
  {
    hide Linear;
    LinearBit(f, a, 0);
    LinearBit(f, a, 1);
    LinearBit(f, a, 2);
    LinearBit(f, a, 3);
    LinearBit(f, a, 4);
    LinearBit(f, a, 5);
    LinearBit(f, a, 6);
    LinearBit(f, a, 7);
  }

  /** A byte is the sum of its bits. */
  lemma BitsOf(a: bv8)
    ensures Add(Add(Add(Add(Add(Add(Add(a & 1, a & 2), a & 4), a & 8), a & 16), a & 32), a & 64), a & 128) == a
  {
  }

  lemma {:induction false} ShiftedAdds(a: bv8, b: bv8, i: nat)
    ensures Shifted(Add(a, b), i) == Add(Shifted(a, i), Shifted(b, i))
  {
    hide Xtime, Add;
    if i > 0 {
      ShiftedAdds(a, b, i - 1);
      XtimeAdds(Shifted(a, i - 1), Shifted(b, i - 1));
    }
  }

  lemma {:induction false} ShiftedMore(a: bv8, i: nat)
    ensures Shifted(Xtime(a), i) == Shifted(a, i + 1)
  {
    hide Xtime;
    if i > 0 { ShiftedMore(a, i - 1); }
  }

  /** Multiplying by x^k shifts k times. */
  lemma {:induction false} MulBitsPower(a: bv8, k: nat, n: nat)
    requires k < 8 && k < n
    ensures MulBits(a, Power(k), n) == Shifted(a, k)
    decreases n
  {
    hide Xtime, Add;
    if k == 0 {
      MulBitsZero(Xtime(a), n - 1);
      assert (1 as bv8) >> 1 == 0;
      AddLaws(a, 0, 0);
    } else {
      PowerHalf(k);
      MulBitsPower(Xtime(a), k - 1, n - 1);
      ShiftedMore(a, k - 1);
      AddLaws(MulBits(Xtime(a), Power(k - 1), n - 1), 0, 0);
    }
  }

  lemma PowerHalf(k: nat)
    requires 0 < k < 8
    ensures Power(k) >> 1 == Power(k - 1) && !Low(Power(k)) && Xtime(Power(k - 1)) == Power(k)
  {
  }

  // ----- the modulus -----

  /** x^8 = x^4 + x^3 + x^2 + 1. */
  function Relation(a: bv8): bv8 {
    Add(Shifted(a, 8), Add(Add(Shifted(a, 4), Shifted(a, 3)), Add(Shifted(a, 2), a)))
  }

  lemma RelationLinear()
    ensures Linear(Relation)
  {
    forall a, b ensures Relation(Add(a, b)) == Add(Relation(a), Relation(b)) {
      hide Add, Shifted;
      ShiftedAdds(a, b, 8);
      ShiftedAdds(a, b, 4);
      ShiftedAdds(a, b, 3);
      ShiftedAdds(a, b, 2);
      Swap4(Shifted(a, 4), Shifted(b, 4), Shifted(a, 3), Shifted(b, 3));
      Swap4(Shifted(a, 2), Shifted(b, 2), a, b);
      Swap4(Add(Shifted(a, 4), Shifted(a, 3)), Add(Shifted(b, 4), Shifted(b, 3)),
            Add(Shifted(a, 2), a), Add(Shifted(b, 2), b));
      Swap4(Shifted(a, 8), Shifted(b, 8),
            Add(Add(Shifted(a, 4), Shifted(a, 3)), Add(Shifted(a, 2), a)),
            Add(Add(Shifted(b, 4), Shifted(b, 3)), Add(Shifted(b, 2), b)));
    }
  }

  /** Powers of the generator x: Alpha(i) = x^i. */
  function Alpha(i: nat): bv8 {
    Shifted(1, i)
  }

  lemma AlphaSmall()
    ensures Alpha(0) == 1 && Alpha(1) == 2 && Alpha(2) == 4 && Alpha(3) == 8 && Alpha(4) == 16
    ensures Alpha(5) == 32 && Alpha(6) == 64 && Alpha(7) == 128 && Alpha(8) == 0x1D && Alpha(9) == 0x3A
    ensures Alpha(10) == 0x74 && Alpha(11) == 0xE8 && Alpha(12) == 0xCD && Alpha(13) == 0x87
    ensures Alpha(14) == 0x13 && Alpha(15) == 0x26
  {
    assert Shifted(1, 0) == 1;
    assert Shifted(1, 1) == 2;
    assert Shifted(1, 2) == 4;
    assert Shifted(1, 3) == 8;
    assert Shifted(1, 4) == 16;
    assert Shifted(1, 5) == 32;
    assert Shifted(1, 6) == 64;
    assert Shifted(1, 7) == 128;
    assert Shifted(1, 8) == 0x1D;
    assert Shifted(1, 9) == 0x3A;
    assert Shifted(1, 10) == 0x74;
    assert Shifted(1, 11) == 0xE8;
    assert Shifted(1, 12) == 0xCD;
    assert Shifted(1, 13) == 0x87;
    assert Shifted(1, 14) == 0x13;
    assert Shifted(1, 15) == 0x26;
  }

  lemma {:induction false} ShiftedTwice(a: bv8, i: nat, j: nat)
    ensures Shifted(Shifted(a, i), j) == Shifted(a, i + j)
    decreases j
  {
    hide Xtime;
    if j > 0 { ShiftedTwice(a, i, j - 1); }
  }

  lemma RelationHolds(a: bv8)
    ensures Relation(a) == 0
  {
    forall k: nat | k < 8 ensures Relation(Power(k)) == 0 { RelationAtPower(k); }
    RelationLinear();
    LinearZero(Relation, a);
  }

  lemma RelationAtPower(k: nat)
    requires k < 8
    ensures Relation(Power(k)) == 0
  {
    hide Shifted;
    AlphaSmall();
    assert Power(k) == Alpha(k);
    ShiftedTwice(1, k, 8);
    ShiftedTwice(1, k, 4);
    ShiftedTwice(1, k, 3);
    ShiftedTwice(1, k, 2);
  }

  // ----- the product commutes with x on the right as well -----

  function Defect(a: bv8, b: bv8): bv8 {
    Add(Mul(a, Xtime(b)), Xtime(Mul(a, b)))
  }

  lemma DefectLinear(a: bv8)
    ensures Linear(b => Defect(a, b))
  {
    forall b, c ensures Defect(a, Add(b, c)) == Add(Defect(a, b), Defect(a, c)) {
      hide Add, Xtime, MulBits;
      XtimeAdds(b, c);
      MulBitsRight(a, Xtime(b), Xtime(c), 8);
      MulBitsRight(a, b, c, 8);
      XtimeAdds(Mul(a, b), Mul(a, c));
      Swap4(Mul(a, Xtime(b)), Mul(a, Xtime(c)), Xtime(Mul(a, b)), Xtime(Mul(a, c)));
    }
  }

  lemma DefectAtPower(a: bv8, k: nat)
    requires k < 8
    ensures Defect(a, Power(k)) == 0
  {
    hide Add, MulBits, Power, Shifted;
    MulBitsPower(a, k, 8);
    TopShift(a, k);
    if k < 7 {
      PowerHalf(k + 1);
      MulBitsPower(a, k + 1, 8);
      AddLaws(Shifted(a, k + 1), 0, 0);
    } else {
      TimesModulus(a);
      TopPower();
      RelationHolds(a);
      SwapSum(Shifted(a, 8), Shifted(a, 4), Shifted(a, 3), Shifted(a, 2), a);
    }
  }

  lemma TopPower()
    ensures Xtime(Power(7)) == 0x1D
  {
  }

  /** a * (x^4 + x^3 + x^2 + 1). */
  lemma TimesModulus(a: bv8)
    ensures Mul(a, 0x1D) == Add(Add(Shifted(a, 4), Shifted(a, 3)), Add(Shifted(a, 2), a))
  {
    hide MulBits, Shifted;
    var b0: bv8, b2: bv8, b3: bv8, b4: bv8 := 1, 4, 8, 16;
    assert Add(Add(b4, b3), Add(b2, b0)) == 0x1D;
    MulBitsRight(a, Add(b4, b3), Add(b2, b0), 8);
    MulBitsRight(a, b4, b3, 8);
    MulBitsRight(a, b2, b0, 8);
    MulBitsPower(a, 4, 8);
    MulBitsPower(a, 3, 8);
    MulBitsPower(a, 2, 8);
    MulOne(a);
  }

  lemma TopShift(a: bv8, k: nat)
    ensures Shifted(a, k + 1) == Xtime(Shifted(a, k))
  {
    hide Xtime;
  }

  lemma SwapSum(top: bv8, b: bv8, c: bv8, d: bv8, e: bv8)
    ensures Add(Add(Add(b, c), Add(d, e)), top) == Add(top, Add(Add(b, c), Add(d, e)))
  {
    hide Add;
    AddLaws(top, Add(Add(b, c), Add(d, e)), 0);
  }

  lemma MulXtimeRight(a: bv8, b: bv8)
    ensures Mul(a, Xtime(b)) == Xtime(Mul(a, b))
  {
    hide Add, Xtime, Mul, Defect;
    forall k: nat | k < 8 ensures Defect(a, Power(k)) == 0 { DefectAtPower(a, k); }
    DefectLinear(a);
    LinearZero(c => Defect(a, c), b);
    DefectZero(a, b);
  }

  lemma DefectZero(a: bv8, b: bv8)
    requires Defect(a, b) == 0
    ensures Mul(a, Xtime(b)) == Xtime(Mul(a, b))
  {
    hide Mul, Xtime;
  }

  // ----- powers of the generator -----

  lemma {:induction false} AlphaAdd(i: nat, j: nat)
    ensures Mul(Alpha(i), Alpha(j)) == Alpha(i + j)
    decreases j
  {
    hide Mul, Xtime;
    if j == 0 {
      MulOne(Alpha(i));
    } else {
      AlphaAdd(i, j - 1);
      MulXtimeRight(Alpha(i), Alpha(j - 1));
    }
  }

  lemma XtimeInjective(a: bv8, b: bv8)
    requires Xtime(a) == Xtime(b)
    ensures a == b
  {
    if a & 0x80 != 0 {
      if b & 0x80 != 0 { } else { }
    } else {
      if b & 0x80 != 0 { } else { }
    }
  }

  lemma AlphaSquares()
    ensures Alpha(17) == 0x98 && Alpha(51) == 0x0A && Alpha(85) == 0xD6 && Alpha(255) == 1
  {
    hide Shifted;
    AlphaSmall();
    ShiftedStep(15);
    ShiftedStep(16);
    AlphaAdd(17, 17);
    assert MulBits(0x98, 0x98, 8) == 0x4E;
    AlphaAdd(34, 17);
    assert MulBits(0x4E, 0x98, 8) == 0x0A;
    AlphaAdd(51, 34);
    assert MulBits(0x0A, 0x4E, 8) == 0xD6;
    AlphaAdd(85, 85);
    assert MulBits(0xD6, 0xD6, 8) == 0xD7;
    AlphaAdd(170, 85);
    assert MulBits(0xD7, 0xD6, 8) == 1;
  }

  lemma ShiftedStep(i: nat)
    ensures Alpha(i + 1) == Xtime(Alpha(i))
  {
  }

  // ----- x generates all 255 non-zero elements -----

  /** Two periods have a common divisor that is a period. */
  lemma {:induction false} CommonPeriod(a: nat, b: nat) returns (g: nat, p: nat, q: nat)
    requires 0 < a && 0 < b && Alpha(a) == 1 && Alpha(b) == 1
    ensures a == p * g && b == q * g && Alpha(g) == 1
    decreases a + b
  {
    hide Shifted, Mul;
    if a == b {
      g, p, q := a, 1, 1;
    } else if a < b {
      AlphaAdd(a, b - a);
      AlphaAdd(0, b - a);
      AlphaZero();
      g, p, q := CommonPeriod(a, b - a);
      q := p + q;
    } else {
      AlphaAdd(b, a - b);
      AlphaAdd(0, a - b);
      AlphaZero();
      g, p, q := CommonPeriod(a - b, b);
      p := p + q;
    }
  }

  lemma AlphaZero()
    ensures Alpha(0) == 1
  {
  }

  lemma ProperDivisor(g: nat, q: nat)
    requires g < 255 && q * g == 255
    ensures g == 1 || g == 3 || g == 5 || g == 15 || g == 17 || g == 51 || g == 85
  {
    assert g >= 16 ==> q < 16 by { if g >= 16 { SmallFactor(g, q); } }
    if g < 16 {
      assert g == 1 || g == 2 || g == 3 || g == 4 || g == 5 || g == 6 || g == 7 || g == 8 || g == 9 || g == 10 ||
             g == 11 || g == 12 || g == 13 || g == 14 || g == 15;
    } else {
      assert q == 1 || q == 2 || q == 3 || q == 4 || q == 5 || q == 6 || q == 7 || q == 8 || q == 9 || q == 10 ||
             q == 11 || q == 12 || q == 13 || q == 14 || q == 15;
    }
  }

  lemma SmallFactor(g: nat, q: nat)
    requires g >= 16 && q * g == 255
    ensures q < 16
  {
    assert q >= 16 ==> q * g >= 16 * g;
  }

  /** x has order 255. */
  lemma NoShortPeriod(k: nat)
    requires 0 < k < 255
    ensures Alpha(k) != 1
  {
    hide Shifted;
    AlphaSquares();
    if Alpha(k) == 1 {
      var g, p, q := CommonPeriod(k, 255);
      DivisorBound(k, p, g);
      ProperDivisor(g, q);
      ShortPeriodFails(g);
    }
  }

  lemma DivisorBound(k: nat, p: nat, g: nat)
    requires 0 < k && k == p * g
    ensures g <= k
  {
    assert p >= 1 ==> p * g >= g;
  }

  lemma ShortPeriodFails(g: nat)
    requires g == 1 || g == 3 || g == 5 || g == 15 || g == 17 || g == 51 || g == 85
    ensures Alpha(g) != 1
  {
    hide Shifted;
    AlphaSquares();
    AlphaSmall();
  }

  lemma {:induction false} AlphaInjective(i: nat, j: nat)
    requires i < j < i + 255
    ensures Alpha(i) != Alpha(j)
    decreases i
  {
    hide Xtime;
    if i == 0 {
      NoShortPeriod(j);
    } else {
      AlphaInjective(i - 1, j - 1);
      if Alpha(i) == Alpha(j) { XtimeInjective(Alpha(i - 1), Alpha(j - 1)); }
    }
  }

  lemma {:induction false} AlphaNonZero(i: nat)
    ensures Alpha(i) != 0
  {
    hide Xtime;
    if i > 0 {
      AlphaNonZero(i - 1);
      XtimeZero();
      if Alpha(i) == 0 { XtimeInjective(Alpha(i - 1), 0); }
    }
  }

  lemma AlphaPeriod(i: nat)
    ensures Alpha(i + 255) == Alpha(i)
  {
    hide Shifted, Mul;
    AlphaAdd(i, 255);
    AlphaSquares();
    MulOne(Alpha(i));
  }

  ghost function Powers(n: nat): set<bv8> {
    if n == 0 then {} else Powers(n - 1) + {Alpha(n - 1)}
  }

  lemma {:induction false} InPowers(n: nat, a: bv8)
    ensures a in Powers(n) <==> exists i: nat :: i < n && Alpha(i) == a
  {
    hide Shifted;
    if n > 0 {
      InPowers(n - 1, a);
      if a in Powers(n - 1) {
        var i: nat :| i < n - 1 && Alpha(i) == a;
      }
    }
  }

  lemma {:induction false} PowersSize(n: nat)
    requires n <= 255
    ensures |Powers(n)| == n && 0 !in Powers(n)
  {
    hide Shifted;
    if n > 0 {
      PowersSize(n - 1);
      AlphaNonZero(n - 1);
      InPowers(n - 1, Alpha(n - 1));
      forall i: nat | i < n - 1 ensures Alpha(i) != Alpha(n - 1) { AlphaInjective(i, n - 1); }
    }
  }

  /** There are 256 bytes. */
  lemma {:induction false} ByteCount(s: set<bv8>, n: nat)
    requires 1 <= n <= 256 && forall a | a in s :: a as nat < n
    ensures |s| <= n
    decreases n
  {
    if n == 1 {
      forall a | a in s ensures a == 0 { ZeroByte(a); }
      assert s == {} || s == {0};
    } else {
      var top := (n - 1) as bv8;
      forall a | a in s - {top} ensures a as nat < n - 1 { AsNat(a, n - 1); }
      ByteCount(s - {top}, n - 1);
    }
  }

  lemma ZeroByte(a: bv8)
    requires a as nat < 1
    ensures a == 0
  {
  }

  lemma AsNat(a: bv8, n: nat)
    requires n < 256 && a != n as bv8
    ensures a as nat != n
  {
  }

  /** Every non-zero byte is a power of x. */
  lemma AlphaSurjective(a: bv8)
    requires a != 0
    ensures exists i: nat :: i < 255 && Alpha(i) == a
  {
    hide Shifted, Powers;
    InPowers(255, a);
    PowersSize(255);
    if a !in Powers(255) {
      ByteCount(Powers(255) + {a, 0}, 256);
    }
  }

  // ----- the field laws -----

  lemma MulZero(a: bv8)
    ensures Mul(a, 0) == 0 && Mul(0, a) == 0
  {
    MulBitsZero(a, 8);
    ZeroMulBits(a, 8);
  }

  lemma MulComm(a: bv8, b: bv8)
    ensures Mul(a, b) == Mul(b, a)
  {
    hide Mul, Shifted;
    MulZero(a);
    MulZero(b);
    if a != 0 && b != 0 {
      AlphaSurjective(a);
      AlphaSurjective(b);
      var i: nat, j: nat :| Alpha(i) == a && Alpha(j) == b;
      AlphaAdd(i, j);
      AlphaAdd(j, i);
    }
  }

  lemma MulAssoc(a: bv8, b: bv8, c: bv8)
    ensures Mul(Mul(a, b), c) == Mul(a, Mul(b, c))
  {
    hide Mul, Shifted;
    MulZero(a);
    MulZero(b);
    MulZero(c);
    MulZero(Mul(a, b));
    MulZero(Mul(b, c));
    if a != 0 && b != 0 && c != 0 {
      AlphaSurjective(a);
      AlphaSurjective(b);
      AlphaSurjective(c);
      var i: nat, j: nat, k: nat :| Alpha(i) == a && Alpha(j) == b && Alpha(k) == c;
      AlphaAdd(i, j);
      AlphaAdd(i + j, k);
      AlphaAdd(j, k);
      AlphaAdd(i, j + k);
    }
  }

  lemma MulAdds(a: bv8, b: bv8, c: bv8)
    ensures Mul(a, Add(b, c)) == Add(Mul(a, b), Mul(a, c))
    ensures Mul(Add(a, b), c) == Add(Mul(a, c), Mul(b, c))
  {
    hide Add, MulBits;
    MulBitsRight(a, b, c, 8);
    MulBitsLeft(a, b, c, 8);
  }

  // ----- the tables -----

  lemma DoubleWord(a: bv8)
    ensures var w := (a as bv16) << 1;
            (if w & 0x100 != 0 then w ^ 0x11D else w) == Xtime(a) as bv16
  {
    if a & 0x80 != 0 { } else { }
  }

  /** A byte as an array index. */
  function Index(a: bv8): (i: nat)
    ensures i < 256
  {
    a as nat
  }

  lemma IndexInjective(a: bv8, b: bv8)
    requires a != b
    ensures Index(a) != Index(b)
  {
  }

  lemma Narrow(a: bv8)
    ensures a as bv16 < 256 && (a as bv16) as bv8 == a
  {
  }

  class Tables {
    const exp: array<bv8>
    const log: array<nat>
    var ready: bool

    constructor ()
      ensures exp.Length == 512 && log.Length == 256 && !ready && fresh(exp) && fresh(log)
    {
      exp := new bv8[512];
      log := new nat[256];
      ready := false;
    }

    /** exp holds the powers of x, log the exponent of every non-zero byte. */
    ghost predicate Valid()
      reads this, exp, log
    {
      && exp.Length == 512 && log.Length == 256
      && (ready ==> (forall i: nat | i < 512 :: exp[i] == Alpha(i)) &&
                    (forall a: bv8 | a != 0 :: log[Index(a)] < 255 && Alpha(log[Index(a)]) == a))
    }

    method InitGaloisField()
      requires Valid()
      modifies this, exp, log
      ensures Valid() && ready
    {
      if ready {
        return;
      }
      FillPowers();
      forall a: bv8 | a != 0 ensures log[Index(a)] < 255 && Alpha(log[Index(a)]) == a {
        AlphaSurjective(a);
        var i: nat :| i < 255 && Alpha(i) == a;
        assert log[Index(Alpha(i))] == i;
      }
      var i := 255;
      while i < 512
        invariant 255 <= i <= 512
        invariant forall k: nat | k < i :: exp[k] == Alpha(k)
        modifies exp
      {
        AlphaPeriod(i - 255);
        exp[i] := exp[i - 255];
        i := i + 1;
      }
      ready := true;
    }

    method FillPowers()
      requires exp.Length == 512 && log.Length == 256
      modifies exp, log
      ensures forall k: nat | k < 255 :: exp[k] == Alpha(k) && log[Index(Alpha(k))] == k
    {
      hide Alpha, Xtime, Index;
      var value: bv16 := 1;
      var i := 0;
      AlphaZero();
      while i < 255
        invariant i <= 255 && value == Alpha(i) as bv16
        invariant forall k: nat | k < i :: exp[k] == Alpha(k) && log[Index(Alpha(k))] == k
      {
        Narrow(Alpha(i));
        exp[i] := value as bv8;
        forall k: nat | k < i ensures Index(Alpha(k)) != Index(Alpha(i)) {
          AlphaInjective(k, i);
          IndexInjective(Alpha(k), Alpha(i));
        }
        log[Index(value as bv8)] := i;
        DoubleWord(Alpha(i));
        ShiftedStep(i);
        value := value << 1;
        if value & 0x100 != 0 {
          value := value ^ 0x11D;
        }
        i := i + 1;
      }
    }

    /** The table product is the product modulo 0x11D. */
    function GfMultiply(a: bv8, b: bv8): (c: bv8)
      requires Valid() && ready
      reads this, exp, log
      ensures c == Mul(a, b)
    {
      MulZero(a);
      MulZero(b);
      if a == 0 || b == 0 then 0
      else
        AlphaAdd(log[Index(a)], log[Index(b)]);
        exp[log[Index(a)] + log[Index(b)]]
    }
  }
}
