/** Drawing a symbol module by module in the encoder's work matrices, and choosing the mask. */
module QrEncode {
  import opened Wrappers
  import opened Galois
  import opened QrBits
  import opened QrCodewords
  import opened QrSymbol
  import opened QrFormat
  import opened QrDecode
  import opened QrDrawing
  import QrData

  const MAX_SIZE := 57

  // ----- intermediate pictures -----

  /** Centre (i', j') comes before (i, j). */
  predicate Drawn(i': nat, j': nat, i: nat, j: nat) {
    j' < j || (j' == j && i' < i)
  }

  ghost predicate CoveredBefore(version: nat, i: nat, j: nat, x: int, y: int)
    requires 1 <= version <= MAX_VERSION
  {
    exists i': nat, j': nat | i' < |Centres(version)| && j' < |Centres(version)| && Drawn(i', j', i, j) ::
      Covers(version, i', j', x, y)
  }

  ghost predicate DarkBefore(version: nat, i: nat, j: nat, x: int, y: int)
    requires 1 <= version <= MAX_VERSION
  {
    exists i': nat, j': nat | i' < |Centres(version)| && j' < |Centres(version)| && Drawn(i', j', i, j) ::
      CoversDark(version, i', j', x, y)
  }

  lemma CoversOnce(version: nat, i: nat, j: nat, i': nat, j': nat, x: int, y: int)
    requires 1 <= version <= MAX_VERSION && i < |Centres(version)| && j < |Centres(version)|
    requires i' < |Centres(version)| && j' < |Centres(version)|
    requires Covers(version, i, j, x, y) && Covers(version, i', j', x, y)
    ensures i == i' && j == j'
  {
    hide FinderOverlap, Info;
  }

  lemma CoverStep(version: nat, i: nat, j: nat, x: int, y: int)
    requires 1 <= version <= MAX_VERSION && i < |Centres(version)| && j < |Centres(version)|
    ensures CoveredBefore(version, i + 1, j, x, y) <==> CoveredBefore(version, i, j, x, y) || Covers(version, i, j, x, y)
    ensures DarkBefore(version, i + 1, j, x, y) <==>
            if Covers(version, i, j, x, y) then CoversDark(version, i, j, x, y) else DarkBefore(version, i, j, x, y)
  {
    hide Info, Centres, FinderOverlap, InAlignment, AlignmentDark, Covers;
    if CoveredBefore(version, i + 1, j, x, y) && !CoveredBefore(version, i, j, x, y) {
      var i': nat, j': nat :| i' < |Centres(version)| && j' < |Centres(version)| && Drawn(i', j', i + 1, j) &&
                              Covers(version, i', j', x, y);
      assert i' == i && j' == j;
    }
    if Covers(version, i, j, x, y) {
      assert Drawn(i, j, i + 1, j);
      forall i': nat, j': nat | i' < |Centres(version)| && j' < |Centres(version)| && CoversDark(version, i', j', x, y)
        ensures i' == i && j' == j
      {
        CoversOnce(version, i, j, i', j', x, y);
      }
    }
    assert forall i': nat, j': nat | Drawn(i', j', i, j) :: Drawn(i', j', i + 1, j);
    assert forall i': nat, j': nat | Drawn(i', j', i + 1, j) :: Drawn(i', j', i, j) || (i' == i && j' == j);
  }

  predicate Before(s: (nat, nat, nat), c: nat, i: nat, dx: nat) {
    s.0 < c || (s.0 == c && (s.1 < i || (s.1 == i && s.2 < dx)))
  }

  /** The picture when the walk has reached step (c, i, dx). */
  predicate PlacedDark(version: nat, mask: nat, bits: Bits, c: nat, i: nat, dx: nat, x: nat, y: nat)
    requires 1 <= version <= MAX_VERSION && x < Size(version) && y < Size(version)
  {
    if x != 6 && !Function(version, x, y) && Before(StepOf(version, x, y), c, i, dx)
    then DataDark(version, mask, bits, x, y)
    else PatternDark(version, x, y)
  }

  /** The order in which format modules are written: first copy, second copy, dark module. */
  function FormatRank(size: nat, x: int, y: int): nat
    requires size >= 21 && FormatCell(size, x, y)
  {
    var i := FormatIndex(size, x, y);
    if i == 15 then 30 else if x <= 8 && y <= 8 then i else 15 + i
  }

  predicate FormattedDark(version: nat, mask: nat, bits: Bits, k: nat, x: nat, y: nat)
    requires 1 <= version <= MAX_VERSION && x < Size(version) && y < Size(version) && mask < 8
  {
    if FormatCell(Size(version), x, y) && FormatRank(Size(version), x, y) < k then FormatDark(Size(version), mask, x, y)
    else PlacedDark(version, mask, bits, Pairs(version), 0, 0, x, y)
  }

  class Encoder {
    const tables: Tables
    const qr: array2<bool>
    const fn: array2<bool>
    const best: array2<bool>

    ghost predicate Valid() {
      && qr.Length0 == MAX_SIZE && qr.Length1 == MAX_SIZE
      && fn.Length0 == MAX_SIZE && fn.Length1 == MAX_SIZE
      && best.Length0 == MAX_SIZE && best.Length1 == MAX_SIZE
      && qr != fn && qr != best && fn != best
    }

    constructor ()
      ensures Valid() && tables.Valid() && fresh(tables) && fresh(qr) && fresh(fn) && fresh(best)
    {
      tables := new Tables();
      qr := new bool[MAX_SIZE, MAX_SIZE];
      fn := new bool[MAX_SIZE, MAX_SIZE];
      best := new bool[MAX_SIZE, MAX_SIZE];
    }

    /** The picture in the top left corner of the work matrix. */
    function Rows(size: nat): (m: Matrix)
      reads qr
      requires Valid() && size <= MAX_SIZE
      ensures Square(m, size)
    {
      seq(size, y requires 0 <= y < size && Valid() && size <= MAX_SIZE reads qr =>
        seq(size, x requires 0 <= x < size && 0 <= y < size && Valid() && size <= MAX_SIZE reads qr => qr[y, x]))
    }

    method ClearMatrix(size: nat)
      requires Valid() && size <= MAX_SIZE
      modifies qr, fn
      ensures forall x, y | 0 <= x < size && 0 <= y < size :: !qr[y, x] && !fn[y, x]
    {
      for v := 0 to size
        invariant forall x, y | 0 <= x < size && 0 <= y < v :: !qr[y, x] && !fn[y, x]
      {
        for u := 0 to size
          invariant forall x, y | 0 <= x < size && 0 <= y < v :: !qr[y, x] && !fn[y, x]
          invariant forall x | 0 <= x < u :: !qr[v, x] && !fn[v, x]
        {
          qr[v, u] := false;
          fn[v, u] := false;
        }
      }
    }

    /** Coordinates outside the symbol are ignored. */
    method SetModule(size: nat, x: int, y: int, black: bool, isFunction: bool)
      requires Valid() && size <= MAX_SIZE
      modifies qr, fn
      ensures forall u, v | 0 <= u < size && 0 <= v < size ::
                qr[v, u] == if u == x && v == y then black else old(qr[v, u])
      ensures forall u, v | 0 <= u < size && 0 <= v < size ::
                fn[v, u] == ((u == x && v == y && isFunction) || old(fn[v, u]))
    {
      if x < 0 || y < 0 || x >= size || y >= size {
        return;
      }
      qr[y, x] := black;
      if isFunction {
        fn[y, x] := true;
      }
    }

    method DrawFinder(size: nat, ox: int, oy: int)
      requires Valid() && size <= MAX_SIZE
      modifies qr, fn
      ensures forall x, y | 0 <= x < size && 0 <= y < size ::
                qr[y, x] == if InFinder(ox, oy, x, y) then FinderDark(x - ox, y - oy) else old(qr[y, x])
      ensures forall x, y | 0 <= x < size && 0 <= y < size ::
                fn[y, x] == (InFinder(ox, oy, x, y) || old(fn[y, x]))
    {
      for dy := -1 to 8
        invariant forall x, y | 0 <= x < size && 0 <= y < size ::
                    qr[y, x] == if InFinder(ox, oy, x, y) && y < oy + dy then FinderDark(x - ox, y - oy) else old(qr[y, x])
        invariant forall x, y | 0 <= x < size && 0 <= y < size ::
                    fn[y, x] == ((InFinder(ox, oy, x, y) && y < oy + dy) || old(fn[y, x]))
      {
        for dx := -1 to 8
          invariant forall x, y | 0 <= x < size && 0 <= y < size ::
                      qr[y, x] == if InFinder(ox, oy, x, y) && (y < oy + dy || (y == oy + dy && x < ox + dx))
                                  then FinderDark(x - ox, y - oy) else old(qr[y, x])
          invariant forall x, y | 0 <= x < size && 0 <= y < size ::
                      fn[y, x] == ((InFinder(ox, oy, x, y) && (y < oy + dy || (y == oy + dy && x < ox + dx))) ||
                                   old(fn[y, x]))
        {
          var x, y := ox + dx, oy + dy;
          if !(x < 0 || y < 0 || x >= size || y >= size) {
            var black := false;
            if 0 <= dx <= 6 && 0 <= dy <= 6 {
              if dx == 0 || dx == 6 || dy == 0 || dy == 6 {
                black := true;
              }
              if 2 <= dx <= 4 && 2 <= dy <= 4 {
                black := true;
              }
            }
            SetModule(size, x, y, black, true);
          }
        }
      }
    }

    method DrawTiming(size: nat)
      requires Valid() && 21 <= size <= MAX_SIZE
      requires forall x, y | 0 <= x < size && 0 <= y < size :: fn[y, x] == FinderModule(size, x, y)
      modifies qr, fn
      ensures forall x, y | 0 <= x < size && 0 <= y < size ::
                qr[y, x] == if TimingModule(size, x, y) then TimingDark(size, x, y) else old(qr[y, x])
      ensures forall x, y | 0 <= x < size && 0 <= y < size ::
                fn[y, x] == (FinderModule(size, x, y) || TimingModule(size, x, y))
    {
      for i := 8 to size - 8
        invariant forall x, y | 0 <= x < size && 0 <= y < size ::
                    qr[y, x] == if TimingModule(size, x, y) && (if y == 6 then x < i else y < i)
                                then TimingDark(size, x, y) else old(qr[y, x])
        invariant forall x, y | 0 <= x < size && 0 <= y < size ::
                    fn[y, x] == (FinderModule(size, x, y) ||
                                 (TimingModule(size, x, y) && (if y == 6 then x < i else y < i)))
      {
        if !fn[6, i] {
          SetModule(size, i, 6, i % 2 == 0, true);
        }
        if !fn[i, 6] {
          SetModule(size, 6, i, i % 2 == 0, true);
        }
      }
    }

    method DrawAlignment(size: nat, cx: int, cy: int)
      requires Valid() && size <= MAX_SIZE
      modifies qr, fn
      ensures forall x, y | 0 <= x < size && 0 <= y < size ::
                qr[y, x] == if InAlignment(cx, cy, x, y) then AlignmentDark(x - cx, y - cy) else old(qr[y, x])
      ensures forall x, y | 0 <= x < size && 0 <= y < size ::
                fn[y, x] == (InAlignment(cx, cy, x, y) || old(fn[y, x]))
    {
      for dy := -2 to 3
        invariant forall x, y | 0 <= x < size && 0 <= y < size ::
                    qr[y, x] == if InAlignment(cx, cy, x, y) && y < cy + dy
                                then AlignmentDark(x - cx, y - cy) else old(qr[y, x])
        invariant forall x, y | 0 <= x < size && 0 <= y < size ::
                    fn[y, x] == ((InAlignment(cx, cy, x, y) && y < cy + dy) || old(fn[y, x]))
      {
        for dx := -2 to 3
          invariant forall x, y | 0 <= x < size && 0 <= y < size ::
                      qr[y, x] == if InAlignment(cx, cy, x, y) && (y < cy + dy || (y == cy + dy && x < cx + dx))
                                  then AlignmentDark(x - cx, y - cy) else old(qr[y, x])
          invariant forall x, y | 0 <= x < size && 0 <= y < size ::
                      fn[y, x] == ((InAlignment(cx, cy, x, y) && (y < cy + dy || (y == cy + dy && x < cx + dx))) ||
                                   old(fn[y, x]))
        {
          var ax := if dx < 0 then -dx else dx;
          var ay := if dy < 0 then -dy else dy;
          var black := ax == 2 || ay == 2 || (ax == 0 && ay == 0);
          SetModule(size, cx + dx, cy + dy, black, true);
        }
      }
    }

    /** Draws the pattern at centre (i, j) unless it runs into a finder. */
    method DrawCentre(version: nat, i: nat, j: nat)
      requires Valid() && 1 <= version <= MAX_VERSION && i < |Centres(version)| && j < |Centres(version)|
      modifies qr, fn
      ensures forall x, y | 0 <= x < Size(version) && 0 <= y < Size(version) ::
                qr[y, x] == if Covers(version, i, j, x, y) then CoversDark(version, i, j, x, y) else old(qr[y, x])
      ensures forall x, y | 0 <= x < Size(version) && 0 <= y < Size(version) ::
                fn[y, x] == (Covers(version, i, j, x, y) || old(fn[y, x]))
    {
      hide Info, FinderOverlap, InAlignment, AlignmentDark;
      var positions := Centres(version);
      if FinderOverlap(Size(version), positions[i], positions[j]) {
        return;
      }
      DrawAlignment(Size(version), positions[i], positions[j]);
    }

    method DrawAlignmentPatterns(version: nat)
      requires Valid() && 1 <= version <= MAX_VERSION
      modifies qr, fn
      ensures forall x, y | 0 <= x < Size(version) && 0 <= y < Size(version) ::
                qr[y, x] == if AlignmentModule(version, x, y) then AlignmentsDark(version, x, y) else old(qr[y, x])
      ensures forall x, y | 0 <= x < Size(version) && 0 <= y < Size(version) ::
                fn[y, x] == (AlignmentModule(version, x, y) || old(fn[y, x]))
    {
      hide Info, Covers, CoversDark, CoveredBefore, DarkBefore;
      assert forall x, y :: !CoveredBefore(version, 0, 0, x, y) by { NoneCovered(version); }
      var n := |Centres(version)|;
      var size := Size(version);
      for j := 0 to n
        invariant forall x, y | 0 <= x < size && 0 <= y < size ::
                    qr[y, x] == if CoveredBefore(version, 0, j, x, y) then DarkBefore(version, 0, j, x, y) else old(qr[y, x])
        invariant forall x, y | 0 <= x < size && 0 <= y < size ::
                    fn[y, x] == (CoveredBefore(version, 0, j, x, y) || old(fn[y, x]))
      {
        for i := 0 to n
          invariant forall x, y | 0 <= x < size && 0 <= y < size ::
                      qr[y, x] == if CoveredBefore(version, i, j, x, y) then DarkBefore(version, i, j, x, y) else old(qr[y, x])
          invariant forall x, y | 0 <= x < size && 0 <= y < size ::
                      fn[y, x] == (CoveredBefore(version, i, j, x, y) || old(fn[y, x]))
        {
          DrawCentre(version, i, j);
          forall x, y | 0 <= x < size && 0 <= y < size
            ensures CoveredBefore(version, i + 1, j, x, y) <==>
                    CoveredBefore(version, i, j, x, y) || Covers(version, i, j, x, y)
            ensures DarkBefore(version, i + 1, j, x, y) <==>
                    if Covers(version, i, j, x, y) then CoversDark(version, i, j, x, y) else DarkBefore(version, i, j, x, y)
          {
            CoverStep(version, i, j, x, y);
          }
        }
        CoverRow(version, j);
      }
      CoverAll(version);
    }

    ghost predicate Marked(version: nat)
      reads fn
      requires Valid() && 1 <= version <= MAX_VERSION
    {
      forall x, y | 0 <= x < Size(version) && 0 <= y < Size(version) :: fn[y, x] == Function(version, x, y)
    }

    method BuildFunctionPatterns(version: nat)
      requires Valid() && 1 <= version <= MAX_VERSION
      modifies qr, fn
      ensures Marked(version)
      ensures forall x, y | 0 <= x < Size(version) && 0 <= y < Size(version) :: qr[y, x] == PatternDark(version, x, y)
    {
      hide AlignmentModule, AlignmentsDark;
      var size := Size(version);
      DrawFinders(size);
      DrawTiming(size);
      DrawAlignmentPatterns(version);
      MarkFormat(size);
    }

    method DrawFinders(size: nat)
      requires Valid() && 21 <= size <= MAX_SIZE
      modifies qr, fn
      ensures forall x, y | 0 <= x < size && 0 <= y < size :: qr[y, x] == FindersDark(size, x, y)
      ensures forall x, y | 0 <= x < size && 0 <= y < size :: fn[y, x] == FinderModule(size, x, y)
    {
      ClearMatrix(size);
      DrawFinder(size, 0, 0);
      DrawFinder(size, size - 7, 0);
      DrawFinder(size, 0, size - 7);
    }

    method MarkFormat(size: nat)
      requires Valid() && 21 <= size <= MAX_SIZE
      modifies fn
      ensures forall x, y | 0 <= x < size && 0 <= y < size :: fn[y, x] == (FormatModule(size, x, y) || old(fn[y, x]))
    {
      for i := 0 to 9
        invariant forall x, y | 0 <= x < size && 0 <= y < size ::
                    fn[y, x] == ((y == 8 && x < i) || (x == 8 && y < i) || old(fn[y, x]))
      {
        fn[8, i] := true;
        fn[i, 8] := true;
      }
      for i := 0 to 8
        invariant forall x, y | 0 <= x < size && 0 <= y < size ::
                    fn[y, x] == ((y == 8 && (x < 9 || x >= size - i)) || (x == 8 && (y < 9 || y >= size - i)) ||
                                 old(fn[y, x]))
      {
        fn[8, size - 1 - i] := true;
        fn[size - 1 - i, 8] := true;
      }
      fn[size - 8, 8] := true;
    }

    /** The picture as the walk of PlaceData has left it at step (c, i, dx). */
    ghost predicate Placed(version: nat, mask: nat, bits: Bits, c: nat, i: nat, dx: nat)
      reads qr
      requires Valid() && 1 <= version <= MAX_VERSION
    {
      forall x: nat, y: nat | x < Size(version) && y < Size(version) ::
        qr[y, x] == PlacedDark(version, mask, bits, c, i, dx, x, y)
    }

    method PlaceBit(version: nat, ghost c: nat, ghost i: nat, dx: nat, px: nat, y: nat, codewords: seq<bv8>, mask: nat,
                    bitIndex: nat) returns (next: nat)
      requires Valid() && 1 <= version <= MAX_VERSION && c < Pairs(version) && i < Size(version) && dx < 2
      requires px == ColumnOf(version, c, dx) && y == RowOf(version, c, i) && bitIndex == BitNumber(version, c, i, dx)
      requires Marked(version) && Placed(version, mask, AllBits(codewords), c, i, dx)
      modifies qr
      ensures Marked(version) && Placed(version, mask, AllBits(codewords), c, i, dx + 1)
      ensures next == bitIndex + One(Free(version, c, i, dx))
    {
      hide Function, PatternDark, MaskCondition, BitNumber, DataDark, AllBits;
      StepAt(version, c, i, dx);
      next := bitIndex;
      if !fn[y, px] {
        var bit := false;
        if bitIndex < 8 * |codewords| {
          AllBitsAt(codewords, bitIndex);
          bit := BitOf(codewords[bitIndex / 8], bitIndex % 8);
        }
        if MaskCondition(mask, px, y) {
          bit := !bit;
        }
        qr[y, px] := bit;
        next := next + 1;
        DataDarkIs(version, mask, AllBits(codewords), c, i, dx);
      }
      forall u: nat, v: nat | u < Size(version) && v < Size(version)
        ensures qr[v, u] == PlacedDark(version, mask, AllBits(codewords), c, i, dx + 1, u, v)
      {
        if u != 6 && StepOf(version, u, v) == (c, i, dx) {
          assert u == px && v == y;
        }
      }
    }

    lemma StartPlaced(version: nat, mask: nat, bits: Bits)
      requires Valid() && 1 <= version <= MAX_VERSION
      requires forall x, y | 0 <= x < Size(version) && 0 <= y < Size(version) :: qr[y, x] == PatternDark(version, x, y)
      ensures Placed(version, mask, bits, 0, 0, 0)
    {
      hide PatternDark, DataDark, Function, StepOf;
    }

    lemma NextRow(version: nat, mask: nat, bits: Bits, c: nat, i: nat)
      requires Valid() && 1 <= version <= MAX_VERSION && Placed(version, mask, bits, c, i, 2)
      ensures Placed(version, mask, bits, c, i + 1, 0)
    {
      hide PatternDark, DataDark, Function, StepOf;
    }

    lemma NextPair(version: nat, mask: nat, bits: Bits, c: nat)
      requires Valid() && 1 <= version <= MAX_VERSION && Placed(version, mask, bits, c, Size(version), 0)
      ensures Placed(version, mask, bits, c + 1, 0, 0)
    {
      hide PatternDark, DataDark, Function, StepOf;
    }

    method PlaceData(version: nat, codewords: seq<bv8>, mask: nat)
      requires Valid() && 1 <= version <= MAX_VERSION && Marked(version)
      requires forall x, y | 0 <= x < Size(version) && 0 <= y < Size(version) :: qr[y, x] == PatternDark(version, x, y)
      modifies qr
      ensures Marked(version) && Placed(version, mask, AllBits(codewords), Pairs(version), 0, 0)
    {
      hide Marked, Placed, AllBits, PairsFree, ColumnOf;
      NoPairs(version);
      var size := Size(version);
      ghost var bits := AllBits(codewords);
      StartPlaced(version, mask, bits);
      var bitIndex := 0;
      var x := size - 1;
      var direction := -1;
      ghost var c := 0;
      while x > 0
        invariant 0 <= c <= Pairs(version)
        invariant x == (if size - 1 - 2 * c >= 6 then size - 1 - 2 * c else size - 2 - 2 * c)
        invariant direction == if c % 2 == 1 then 1 else -1
        invariant bitIndex == PairsFree(version, c)
        invariant Marked(version) && Placed(version, mask, bits, c, 0, 0)
        decreases x
      {
        if x == 6 {
          x := x - 1;
        }
        ColumnAt(version, c);
        bitIndex := PlacePair(version, c, x, direction, codewords, mask, bitIndex);
        x := x - 2;
        direction := -direction;
        c := c + 1;
      }
    }

    /** The two modules of one row. */
    method PlaceRow(version: nat, ghost c: nat, ghost i: nat, x: int, y: nat, codewords: seq<bv8>, mask: nat, start: nat)
      returns (bitIndex: nat)
      requires Valid() && 1 <= version <= MAX_VERSION && c < Pairs(version) && i < Size(version)
      requires x == ColumnOf(version, c, 0) && y == RowOf(version, c, i)
      requires start == PairsFree(version, c) + ColumnFree(version, c, i)
      requires Marked(version) && Placed(version, mask, AllBits(codewords), c, i, 0)
      modifies qr
      ensures Marked(version) && Placed(version, mask, AllBits(codewords), c, i + 1, 0)
      ensures bitIndex == PairsFree(version, c) + ColumnFree(version, c, i + 1)
    {
      hide Marked, Placed, AllBits, Free, PairsFree, RowOf;
      bitIndex := PlaceBit(version, c, i, 0, x, y, codewords, mask, start);
      bitIndex := PlaceBit(version, c, i, 1, x - 1, y, codewords, mask, bitIndex);
      NextRow(version, mask, AllBits(codewords), c, i);
    }

    /** Walks one pair of columns. */
    method PlacePair(version: nat, ghost c: nat, x: int, direction: int, codewords: seq<bv8>, mask: nat, start: nat)
      returns (bitIndex: nat)
      requires Valid() && 1 <= version <= MAX_VERSION && c < Pairs(version)
      requires x == ColumnOf(version, c, 0) && direction == (if c % 2 == 1 then 1 else -1)
      requires start == PairsFree(version, c)
      requires Marked(version) && Placed(version, mask, AllBits(codewords), c, 0, 0)
      modifies qr
      ensures Marked(version) && Placed(version, mask, AllBits(codewords), c + 1, 0, 0)
      ensures bitIndex == PairsFree(version, c + 1)
    {
      hide Marked, Placed, AllBits, ColumnFree, PairsFree;
      NoRows(version, c);
      var size := Size(version);
      ghost var bits := AllBits(codewords);
      bitIndex := start;
      for i := 0 to size
        invariant bitIndex == PairsFree(version, c) + ColumnFree(version, c, i)
        invariant Marked(version) && Placed(version, mask, bits, c, i, 0)
      {
        var y := if direction == 1 then i else size - 1 - i;
        bitIndex := PlaceRow(version, c, i, x, y, codewords, mask, bitIndex);
      }
      NextPair(version, mask, bits, c);
    }

    /** The picture after the first k format modules have been written. */
    ghost predicate Formatted(version: nat, mask: nat, bits: Bits, k: nat)
      reads qr
      requires Valid() && 1 <= version <= MAX_VERSION && mask < 8
    {
      forall x: nat, y: nat | x < Size(version) && y < Size(version) ::
        qr[y, x] == FormattedDark(version, mask, bits, k, x, y)
    }

    /** Writes the k-th format module. */
    method WriteFormat(version: nat, mask: nat, ghost bits: Bits, ghost k: nat, x: nat, y: nat, black: bool)
      requires Valid() && 1 <= version <= MAX_VERSION && mask < 8 && x < Size(version) && y < Size(version)
      requires FormatCell(Size(version), x, y) && FormatRank(Size(version), x, y) == k
      requires black == FormatDark(Size(version), mask, x, y)
      requires Marked(version) && Formatted(version, mask, bits, k)
      modifies qr, fn
      ensures Marked(version) && Formatted(version, mask, bits, k + 1)
    {
      hide Function, PlacedDark, FormatDark;
      FormatIsFunction(version, x, y);
      SetModule(Size(version), x, y, black, true);
      forall u: nat, v: nat | u < Size(version) && v < Size(version)
        ensures qr[v, u] == FormattedDark(version, mask, bits, k + 1, u, v)
      {
      }
    }

    method DrawFormatBits(version: nat, mask: nat, ghost data: Bits)
      requires Valid() && 1 <= version <= MAX_VERSION && mask < 8
      requires Marked(version) && Placed(version, mask, data, Pairs(version), 0, 0)
      modifies qr, fn
      ensures Marked(version)
      ensures forall x: nat, y: nat | x < Size(version) && y < Size(version) :: qr[y, x] == Dark(version, mask, data, x, y)
    {
      hide Function, PlacedDark, FormatBits, BitAt, Formatted, Marked;
      var size := Size(version);
      var bits := MakeFormatBits(mask);
      StartFormatted(version, mask, data);
      for i := 0 to 6
        invariant Marked(version) && Formatted(version, mask, data, i)
      {
        WriteFormat(version, mask, data, i, 8, i, BitAt(bits, i));
      }
      WriteFormat(version, mask, data, 6, 8, 7, BitAt(bits, 6));
      WriteFormat(version, mask, data, 7, 8, 8, BitAt(bits, 7));
      WriteFormat(version, mask, data, 8, 7, 8, BitAt(bits, 8));
      for i := 9 to 15
        invariant Marked(version) && Formatted(version, mask, data, i)
      {
        WriteFormat(version, mask, data, i, 14 - i, 8, BitAt(bits, i));
      }
      for i := 0 to 8
        invariant Marked(version) && Formatted(version, mask, data, 15 + i)
      {
        WriteFormat(version, mask, data, 15 + i, size - 1 - i, 8, BitAt(bits, i));
      }
      for i := 8 to 15
        invariant Marked(version) && Formatted(version, mask, data, 15 + i)
      {
        WriteFormat(version, mask, data, 15 + i, 8, size - 15 + i, BitAt(bits, i));
      }
      WriteFormat(version, mask, data, 30, 8, size - 8, true);
      EndFormatted(version, mask, data);
    }

    lemma StartFormatted(version: nat, mask: nat, bits: Bits)
      requires Valid() && 1 <= version <= MAX_VERSION && mask < 8
      requires Placed(version, mask, bits, Pairs(version), 0, 0)
      ensures Formatted(version, mask, bits, 0)
    {
      hide PlacedDark;
    }

    lemma EndFormatted(version: nat, mask: nat, bits: Bits)
      requires Valid() && 1 <= version <= MAX_VERSION && mask < 8 && Formatted(version, mask, bits, 31)
      ensures forall x: nat, y: nat | x < Size(version) && y < Size(version) :: qr[y, x] == Dark(version, mask, bits, x, y)
    {
      hide Function, DataDark, PatternDark, FormatDark;
    }

    /** Draws the symbol for one mask. */
    method DrawSymbol(version: nat, codewords: seq<bv8>, mask: nat)
      requires Valid() && 1 <= version <= MAX_VERSION && mask < 8
      modifies qr, fn
      ensures Rows(Size(version)) == Drawing(version, mask, AllBits(codewords))
    {
      hide Function, Dark, AllBits, PatternDark, Marked, Placed, Drawing;
      BuildFunctionPatterns(version);
      PlaceData(version, codewords, mask);
      DrawFormatBits(version, mask, AllBits(codewords));
      RowsAre(Size(version), Drawing(version, mask, AllBits(codewords)));
    }

    lemma RowsAre(size: nat, d: Matrix)
      requires Valid() && size <= MAX_SIZE && Square(d, size)
      requires forall x: nat, y: nat | x < size && y < size :: qr[y, x] == d[y][x]
      ensures Rows(size) == d
    {
      var m := Rows(size);
      forall y: nat | y < size ensures m[y] == d[y] {
        assert forall x: nat | x < size :: m[y][x] == d[y][x];
      }
    }

    method CopyMatrix(from: array2<bool>, to: array2<bool>, size: nat)
      requires Valid() && size <= MAX_SIZE && from != to
      requires from.Length0 == from.Length1 == to.Length0 == to.Length1 == MAX_SIZE
      modifies to
      ensures forall x, y | 0 <= x < size && 0 <= y < size :: to[y, x] == from[y, x]
    {
      for v := 0 to size
        invariant forall x, y | 0 <= x < size && 0 <= y < v :: to[y, x] == from[y, x]
      {
        for u := 0 to size
          invariant forall x, y | 0 <= x < size && 0 <= y < v :: to[y, x] == from[y, x]
          invariant forall x | 0 <= x < u :: to[v, x] == from[v, x]
        {
          to[v, u] := from[v, u];
        }
      }
    }

    /** Tries the eight masks and keeps the first picture of least penalty. */
    method ChooseMask(version: nat, codewords: seq<bv8>, penalty: Matrix -> nat) returns (bestMask: nat)
      requires Valid() && 1 <= version <= MAX_VERSION && forall m :: penalty(m) < 0x7FFFFFFF
      modifies qr, fn, best
      ensures bestMask < 8 && forall x: nat, y: nat | x < Size(version) && y < Size(version) ::
                best[y, x] == Drawing(version, bestMask, AllBits(codewords))[y][x]
      ensures var p := penalty(Drawing(version, bestMask, AllBits(codewords)));
              && (forall k: nat | k < 8 :: p <= penalty(Drawing(version, k, AllBits(codewords))))
              && (forall k: nat | k < bestMask :: p < penalty(Drawing(version, k, AllBits(codewords))))
    {
      hide Drawing, AllBits;
      var size := Size(version);
      ghost var bits := AllBits(codewords);
      var bestScore := 0x7FFFFFFF;
      bestMask := 0;
      for mask := 0 to 8
        invariant mask == 0 ==> bestScore == 0x7FFFFFFF
        invariant mask > 0 ==> bestMask < mask && bestScore == penalty(Drawing(version, bestMask, bits))
        invariant mask > 0 ==> forall x: nat, y: nat | x < size && y < size :: best[y, x] == Drawing(version, bestMask, bits)[y][x]
        invariant forall k: nat | k < mask :: bestScore <= penalty(Drawing(version, k, bits))
        invariant mask > 0 ==> forall k: nat | k < bestMask :: bestScore < penalty(Drawing(version, k, bits))
      {
        DrawSymbol(version, codewords, mask);
        var score := penalty(Rows(size));
        if score < bestScore {
          bestScore := score;
          bestMask := mask;
          CopyMatrix(qr, best, size);
          assert forall x: nat, y: nat | x < size && y < size :: best[y, x] == Rows(size)[y][x];
        }
      }
    }

    /** Encodes a text in the smallest version that holds it, under the first mask of least penalty; the
        result, whatever the penalty function, reads back as the text. */
    method EncodeQr(text: seq<bv8>, penalty: Matrix -> nat) returns (ok: bool, version: nat, mask: nat)
      requires Valid() && tables.Valid()
      requires forall m :: penalty(m) < 0x7FFFFFFF
      modifies tables, tables.exp, tables.log, qr, fn, best
      ensures ok <==> exists v | 1 <= v <= MAX_VERSION :: Fits(|text|, v)
      ensures ok ==> 1 <= version <= MAX_VERSION && Fits(|text|, version) && mask < 8
      ensures ok ==> forall v | 1 <= v < version :: !Fits(|text|, v)
      ensures ok ==>
                var bits := AllBits(Codewords(DataBytes(text, version), version));
                && Rows(Size(version)) == Drawing(version, mask, bits)
                && (forall k: nat | k < 8 :: penalty(Rows(Size(version))) <= penalty(Drawing(version, k, bits)))
                && (forall k: nat | k < mask :: penalty(Rows(Size(version))) < penalty(Drawing(version, k, bits)))
      ensures ok ==> Decode(Rows(Size(version)), version) == text
    {
      hide Fits, Info, Drawing, AllBits, Codewords, DataBytes, Decode, Tables.Valid;
      tables.InitGaloisField();
      ok, mask := false, 0;
      version := SelectVersion(|text|);
      if version == 0 {
        return;
      }
      ok := true;
      var output := QrData.MakeCodewords(tables, text, version);
      var codewords := output[..];
      ghost var bits := AllBits(codewords);
      mask := ChooseMask(version, codewords, penalty);
      CopyMatrix(best, qr, Size(version));
      RowsAre(Size(version), Drawing(version, mask, bits));
      DrawingDecodes(version, mask, text);
    }
  }

  lemma NoPairs(version: nat)
    requires 1 <= version <= MAX_VERSION
    ensures PairsFree(version, 0) == 0
  {
  }

  lemma NoRows(version: nat, c: nat)
    requires 1 <= version <= MAX_VERSION && c < Pairs(version)
    ensures ColumnFree(version, c, 0) == 0
    ensures PairsFree(version, c + 1) == PairsFree(version, c) + ColumnFree(version, c, Size(version))
  {
    hide Free;
  }

  lemma ColumnAt(version: nat, c: nat)
    requires c < Pairs(version)
    ensures var x := Size(version) - 1 - 2 * c;
            ColumnOf(version, c, 0) == if x > 6 then x else x - 1
  {
  }

  lemma StepAt(version: nat, c: nat, i: nat, dx: nat)
    requires version >= 1 && c < Pairs(version) && i < Size(version) && dx < 2
    ensures StepOf(version, ColumnOf(version, c, dx), RowOf(version, c, i)) == (c, i, dx)
  {
    var s := StepOf(version, ColumnOf(version, c, dx), RowOf(version, c, i));
    WalkInjective(version, c, i, dx, s.0, s.1, s.2);
  }

  lemma DataDarkIs(version: nat, mask: nat, bits: Bits, c: nat, i: nat, dx: nat)
    requires 1 <= version <= MAX_VERSION && c < Pairs(version) && i < Size(version) && dx < 2
    ensures var x, y := ColumnOf(version, c, dx), RowOf(version, c, i);
            DataDark(version, mask, bits, x, y) == (DataBit(bits, BitNumber(version, c, i, dx)) != MaskCondition(mask, x, y))
  {
    hide BitNumber, MaskCondition;
    StepAt(version, c, i, dx);
  }

  lemma NoneCovered(version: nat)
    requires 1 <= version <= MAX_VERSION
    ensures forall x, y :: !CoveredBefore(version, 0, 0, x, y)
  {
  }

  lemma CoverRow(version: nat, j: nat)
    requires 1 <= version <= MAX_VERSION
    ensures forall x, y :: CoveredBefore(version, 0, j + 1, x, y) == CoveredBefore(version, |Centres(version)|, j, x, y)
    ensures forall x, y :: DarkBefore(version, 0, j + 1, x, y) == DarkBefore(version, |Centres(version)|, j, x, y)
  {
    hide Info, Centres, Covers, CoversDark;
    var n := |Centres(version)|;
    assert forall i': nat, j': nat | i' < n :: Drawn(i', j', 0, j + 1) == Drawn(i', j', n, j);
  }

  lemma CoverAll(version: nat)
    requires 1 <= version <= MAX_VERSION
    ensures forall x, y :: CoveredBefore(version, 0, |Centres(version)|, x, y) == AlignmentModule(version, x, y)
    ensures forall x, y :: DarkBefore(version, 0, |Centres(version)|, x, y) == AlignmentsDark(version, x, y)
  {
    hide Info, Centres, Covers, CoversDark;
    var n := |Centres(version)|;
    assert forall i': nat, j': nat | j' < n :: Drawn(i', j', 0, n);
  }
}
