/** Every version of the encoder's table has room for its codewords: a count of the
    function modules that the zigzag meets. */
module QrCapacity {
  import opened Wrappers
  import opened QrCodewords
  import opened QrSymbol

  type Module = (int, int)

  function At(version: nat, c: nat, i: nat, dx: nat): Module
    requires c < Pairs(version) && i < Size(version) && dx < 2
  {
    (ColumnOf(version, c, dx), RowOf(version, c, i))
  }

  ghost function Met(version: nat, c: nat, i: nat, dx: nat): set<Module>
    requires 1 <= version <= MAX_VERSION && c < Pairs(version) && i < Size(version) && dx < 2
  {
    if Free(version, c, i, dx) then {} else {At(version, c, i, dx)}
  }

  /** Function modules met in the first n rows of pair c. */
  ghost function MetInPair(version: nat, c: nat, n: nat): set<Module>
    requires 1 <= version <= MAX_VERSION && c < Pairs(version) && n <= Size(version)
  {
    if n == 0 then {} else MetInPair(version, c, n - 1) + Met(version, c, n - 1, 0) + Met(version, c, n - 1, 1)
  }

  ghost function MetInPairs(version: nat, k: nat): set<Module>
    requires 1 <= version <= MAX_VERSION && k <= Pairs(version)
  {
    if k == 0 then {} else MetInPairs(version, k - 1) + MetInPair(version, k - 1, Size(version))
  }

  predicate Visited(version: nat, c: nat, n: nat, p: Module)
    requires c < Pairs(version) && n <= Size(version)
  {
    exists i: nat, dx: nat :: i < n && dx < 2 && p == At(version, c, i, dx)
  }

  lemma {:induction false} MetWhere(version: nat, c: nat, n: nat, p: Module)
    requires 1 <= version <= MAX_VERSION && c < Pairs(version) && n <= Size(version) && p in MetInPair(version, c, n)
    ensures Visited(version, c, n, p) && Function(version, p.0, p.1)
  {
    hide Function, ColumnOf, RowOf;
    if p in MetInPair(version, c, n - 1) {
      MetWhere(version, c, n - 1, p);
      var i: nat, dx: nat :| i < n - 1 && dx < 2 && p == At(version, c, i, dx);
    } else if p in Met(version, c, n - 1, 0) {
      assert p == At(version, c, n - 1, 0);
    } else {
      assert p == At(version, c, n - 1, 1);
    }
  }

  lemma {:induction false} MetInPairSize(version: nat, c: nat, n: nat)
    requires 1 <= version <= MAX_VERSION && c < Pairs(version) && n <= Size(version)
    ensures |MetInPair(version, c, n)| + ColumnFree(version, c, n) == 2 * n
  {
    hide Function, ColumnOf, RowOf;
    if n > 0 {
      MetInPairSize(version, c, n - 1);
      var s := MetInPair(version, c, n - 1);
      var a, b := At(version, c, n - 1, 0), At(version, c, n - 1, 1);
      NotMet(version, c, n - 1, 0);
      NotMet(version, c, n - 1, 1);
      if a == b { WalkInjective(version, c, n - 1, 0, c, n - 1, 1); }
      Disjoint3(s, Met(version, c, n - 1, 0), Met(version, c, n - 1, 1));
    }
  }

  lemma NotMet(version: nat, c: nat, n: nat, dx: nat)
    requires 1 <= version <= MAX_VERSION && c < Pairs(version) && n < Size(version) && dx < 2
    ensures At(version, c, n, dx) !in MetInPair(version, c, n)
  {
    hide Function, ColumnOf, RowOf;
    var p := At(version, c, n, dx);
    if p in MetInPair(version, c, n) {
      MetWhere(version, c, n, p);
      SameStep(version, c, n, dx, c);
    }
  }

  /** A step is not visited earlier in its own pair, nor in another pair at all. */
  lemma SameStep(version: nat, c: nat, n: nat, dx: nat, d: nat)
    requires c < Pairs(version) && n < Size(version) && dx < 2 && d < Pairs(version)
    ensures d == c ==> !Visited(version, d, n, At(version, c, n, dx))
    ensures d != c ==> !Visited(version, d, Size(version), At(version, c, n, dx))
  {
    hide ColumnOf, RowOf;
    forall i: nat, e: nat | i < Size(version) && e < 2 && At(version, c, n, dx) == At(version, d, i, e)
      ensures d == c && i == n
    {
      WalkInjective(version, c, n, dx, d, i, e);
    }
  }

  lemma Disjoint3(s: set<Module>, a: set<Module>, b: set<Module>)
    requires s !! a && s !! b && a !! b
    ensures |s + a + b| == |s| + |a| + |b|
  {
    assert (s + a) !! b;
  }

  lemma {:induction false} MetInPairsSize(version: nat, k: nat)
    requires 1 <= version <= MAX_VERSION && k <= Pairs(version)
    ensures |MetInPairs(version, k)| + PairsFree(version, k) == 2 * Size(version) * k
    ensures forall p | p in MetInPairs(version, k) ::
              Function(version, p.0, p.1) && exists c: nat :: c < k && Visited(version, c, Size(version), p)
  {
    hide Function, ColumnOf, RowOf, Visited, MetInPair, ColumnFree;
    if k > 0 {
      MetInPairsSize(version, k - 1);
      var n := Size(version);
      MetInPairSize(version, k - 1, n);
      var s, t := MetInPairs(version, k - 1), MetInPair(version, k - 1, n);
      forall p | p in t ensures Function(version, p.0, p.1) && Visited(version, k - 1, n, p) && p !in s {
        MetWhere(version, k - 1, n, p);
        OtherPair(version, k - 1, p);
      }
      assert s !! t;
      assert 2 * n * (k - 1) + 2 * n == 2 * n * k;
    }
  }

  lemma OtherPair(version: nat, k: nat, p: Module)
    requires k < Pairs(version) && Visited(version, k, Size(version), p)
    ensures forall c: nat | c < k :: !Visited(version, c, Size(version), p)
  {
    hide ColumnOf, RowOf;
    var i: nat, dx: nat :| i < Size(version) && dx < 2 && p == At(version, k, i, dx);
    forall c: nat | c < k ensures !Visited(version, c, Size(version), p) { SameStep(version, k, i, dx, c); }
  }

  // ----- an upper bound for the function modules outside column 6 -----

  ghost function Row(x: int, w: nat, y: int): set<Module> {
    if w == 0 then {} else Row(x, w - 1, y) + {(x + w - 1, y)}
  }

  ghost function Rect(x: int, w: nat, y: int, h: nat): set<Module> {
    if h == 0 then {} else Rect(x, w, y, h - 1) + Row(x, w, y + h - 1)
  }

  lemma {:induction false} RowIs(x: int, w: nat, y: int, p: Module)
    ensures |Row(x, w, y)| <= w
    ensures p in Row(x, w, y) <==> x <= p.0 < x + w && p.1 == y
  {
    if w > 0 { RowIs(x, w - 1, y, p); }
  }

  lemma {:induction false} RectIs(x: int, w: nat, y: int, h: nat, p: Module)
    ensures |Rect(x, w, y, h)| <= w * h
    ensures p in Rect(x, w, y, h) <==> x <= p.0 < x + w && y <= p.1 < y + h
  {
    if h > 0 {
      RectIs(x, w, y, h - 1, p);
      RowIs(x, w, y + h - 1, p);
      assert |Rect(x, w, y, h)| <= |Rect(x, w, y, h - 1)| + |Row(x, w, y + h - 1)|;
      assert w * (h - 1) + w == w * h;
    }
  }

  ghost function Square(cx: int, cy: int): set<Module> {
    Rect(cx - 2, 5, cy - 2, 5)
  }

  ghost function Alignments(version: nat): set<Module>
    requires 1 <= version <= MAX_VERSION
  {
    var p := Centres(version);
    if version == 1 then {}
    else if version <= 6 then Square(p[1], p[1])
    else Square(p[1], p[0]) + Square(p[0], p[1]) + Square(p[1], p[1]) +
         Square(p[1], p[2]) + Square(p[2], p[1]) + Square(p[2], p[2])
  }

  function AlignmentCount(version: nat): nat {
    if version == 1 then 0 else if version <= 6 then 1 else 6
  }

  lemma AlignmentsBound(version: nat, p: Module)
    requires 1 <= version <= MAX_VERSION
    ensures |Alignments(version)| <= 25 * AlignmentCount(version)
    ensures AlignmentModule(version, p.0, p.1) ==> p in Alignments(version)
  {
    hide Info, Rect;
    var q := Centres(version);
    forall i: nat, j: nat | i < |q| && j < |q| && Covers(version, i, j, p.0, p.1) ensures p in Alignments(version) {
      RectIs(q[i] - 2, 5, q[j] - 2, 5, p);
      assert p in Square(q[i], q[j]);
    }
    forall i: nat, j: nat | i < |q| && j < |q| ensures |Square(q[i], q[j])| <= 25 {
      RectIs(q[i] - 2, 5, q[j] - 2, 5, p);
    }
    if version >= 7 {
      Union6(Square(q[1], q[0]), Square(q[0], q[1]), Square(q[1], q[1]),
             Square(q[1], q[2]), Square(q[2], q[1]), Square(q[2], q[2]));
    }
  }

  lemma Union6(a: set<Module>, b: set<Module>, c: set<Module>, d: set<Module>, e: set<Module>, f: set<Module>)
    ensures |a + b + c + d + e + f| <= |a| + |b| + |c| + |d| + |e| + |f|
  {
    assert |a + b| <= |a| + |b|;
    assert |a + b + c| <= |a + b| + |c|;
    assert |a + b + c + d| <= |a + b + c| + |d|;
    assert |a + b + c + d + e| <= |a + b + c + d| + |e|;
  }

  /** Corners, format strips and the horizontal timing row, without column 6. */
  ghost function Frame(size: nat): set<Module>
    requires size >= 21
  {
    Rect(0, 6, 0, 9) + Rect(7, 2, 0, 9) + Rect(size - 8, 8, 0, 9) +
    Rect(0, 6, size - 8, 8) + Rect(7, 2, size - 8, 8) + Rect(9, size - 17, 6, 1)
  }

  lemma FrameBound(size: nat, p: Module)
    requires size >= 21
    ensures |Frame(size)| <= 191 + size
    ensures p.0 != 6 && 0 <= p.0 < size && 0 <= p.1 < size &&
            (FinderModule(size, p.0, p.1) || TimingModule(size, p.0, p.1) || FormatModule(size, p.0, p.1)) ==>
            p in Frame(size)
  {
    hide Rect;
    RectIs(0, 6, 0, 9, p);
    RectIs(7, 2, 0, 9, p);
    RectIs(size - 8, 8, 0, 9, p);
    RectIs(0, 6, size - 8, 8, p);
    RectIs(7, 2, size - 8, 8, p);
    RectIs(9, size - 17, 6, 1, p);
    Union6(Rect(0, 6, 0, 9), Rect(7, 2, 0, 9), Rect(size - 8, 8, 0, 9),
           Rect(0, 6, size - 8, 8), Rect(7, 2, size - 8, 8), Rect(9, size - 17, 6, 1));
  }

  /** Every version has a free module for each bit of its codewords. */
  lemma Capacity(version: nat)
    requires 1 <= version <= MAX_VERSION
    ensures PairsFree(version, Pairs(version)) >= 8 * Info(version).total
  {
    var size := Size(version);
    var bound := Frame(size) + Alignments(version);
    MetInPairsSize(version, Pairs(version));
    var met := MetInPairs(version, Pairs(version));
    forall p | p in met ensures p in bound { MetInBound(version, p); }
    SubsetSize(met, bound);
    FrameBound(size, (0, 0));
    AlignmentsBound(version, (0, 0));
    assert |bound| <= 191 + size + 25 * AlignmentCount(version);
    Enough(version);
  }

  lemma MetInBound(version: nat, p: Module)
    requires 1 <= version <= MAX_VERSION && p in MetInPairs(version, Pairs(version))
    ensures p in Frame(Size(version)) + Alignments(version)
  {
    hide Frame, Alignments, MetInPairs;
    MetInPairsSize(version, Pairs(version));
    var c: nat :| c < Pairs(version) && Visited(version, c, Size(version), p);
    FrameBound(Size(version), p);
    AlignmentsBound(version, p);
  }

  lemma Enough(version: nat)
    requires 1 <= version <= MAX_VERSION
    ensures 2 * Size(version) * Pairs(version) >=
            191 + Size(version) + 25 * AlignmentCount(version) + 8 * Info(version).total
  {
    assert version == 1 || version == 2 || version == 3 || version == 4 || version == 5 || version == 6 ||
           version == 7 || version == 8 || version == 9 || version == 10;
  }
}
