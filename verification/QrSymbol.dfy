/** The layout of a QR symbol: which modules are function modules, in which order data
    modules are visited, and how many there are. */
module QrSymbol {
  import opened Wrappers
  import opened QrCodewords

  function Size(version: nat): nat {
    17 + 4 * version
  }

  // ----- function modules -----

  /** The 9 x 9 square around a finder with its corner at (ox, oy), separators included. */
  predicate InFinder(ox: int, oy: int, x: int, y: int) {
    -1 <= x - ox <= 7 && -1 <= y - oy <= 7
  }

  predicate FinderModule(size: nat, x: int, y: int) {
    InFinder(0, 0, x, y) || InFinder(size - 7, 0, x, y) || InFinder(0, size - 7, x, y)
  }

  predicate TimingModule(size: nat, x: int, y: int) {
    (y == 6 && 8 <= x < size - 8) || (x == 6 && 8 <= y < size - 8)
  }

  /** Row and column numbers of alignment centres. */
  function Centres(version: nat): (p: seq<nat>)
    requires 1 <= version <= MAX_VERSION
    ensures |p| <= 3 && forall i | 0 <= i < |p| :: 6 <= p[i] <= Size(version) - 7
    ensures forall i, j | 0 <= i < j < |p| :: p[i] + 5 <= p[j]
    ensures |p| == (if version == 1 then 0 else if version <= 6 then 2 else 3)
    ensures |p| > 0 ==> p[0] == 6 && p[|p| - 1] == Size(version) - 7
  {
    if version == 1 then [] else [6] + Info(version).alignment
  }

  /** A centre whose pattern would run into a finder is skipped. */
  predicate FinderOverlap(size: nat, cx: int, cy: int) {
    (cx - 2 <= 6 && cx + 2 >= 0 && cy - 2 <= 6 && cy + 2 >= 0) ||
    (cx - 2 <= size - 1 && cx + 2 >= size - 7 && cy - 2 <= 6 && cy + 2 >= 0) ||
    (cx - 2 <= 6 && cx + 2 >= 0 && cy - 2 <= size - 1 && cy + 2 >= size - 7)
  }

  predicate InAlignment(cx: int, cy: int, x: int, y: int) {
    -2 <= x - cx <= 2 && -2 <= y - cy <= 2
  }

  /** Centre (i, j) is drawn and covers (x, y). */
  predicate Covers(version: nat, i: nat, j: nat, x: int, y: int)
    requires 1 <= version <= MAX_VERSION && i < |Centres(version)| && j < |Centres(version)|
  {
    !FinderOverlap(Size(version), Centres(version)[i], Centres(version)[j]) &&
    InAlignment(Centres(version)[i], Centres(version)[j], x, y)
  }

  predicate AlignmentModule(version: nat, x: int, y: int)
    requires 1 <= version <= MAX_VERSION
  {
    exists i: nat, j: nat | i < |Centres(version)| && j < |Centres(version)| :: Covers(version, i, j, x, y)
  }

  predicate FormatModule(size: nat, x: int, y: int) {
    (y == 8 && (0 <= x < 9 || size - 8 <= x < size)) || (x == 8 && (0 <= y < 9 || size - 8 <= y < size))
  }

  predicate Function(version: nat, x: int, y: int)
    requires 1 <= version <= MAX_VERSION
  {
    var size := Size(version);
    FinderModule(size, x, y) || TimingModule(size, x, y) || AlignmentModule(version, x, y) || FormatModule(size, x, y)
  }

  /** Column 6 holds function modules only, so skipping it loses none for data. */
  lemma ColumnSix(version: nat, y: int)
    requires 1 <= version <= MAX_VERSION && 0 <= y < Size(version)
    ensures Function(version, 6, y)
  {
  }

  // ----- the zigzag -----

  function Pairs(version: nat): nat {
    8 + 2 * version
  }

  /** Column `dx` (0 right, 1 left) of the c-th pair of columns; column 6 is skipped. */
  function ColumnOf(version: nat, c: nat, dx: nat): (x: int)
    requires c < Pairs(version) && dx < 2
    ensures 0 <= x < Size(version) && x != 6
  {
    var x := Size(version) - 1 - 2 * c;
    (if x > 6 then x else x - 1) - dx
  }

  /** Pairs are walked upwards and downwards in turn. */
  function RowOf(version: nat, c: nat, i: nat): (y: int)
    requires i < Size(version)
    ensures 0 <= y < Size(version)
  {
    if c % 2 == 1 then i else Size(version) - 1 - i
  }

  /** No two steps of the walk meet the same module. */
  lemma WalkInjective(version: nat, c: nat, i: nat, dx: nat, c': nat, i': nat, dx': nat)
    requires c < Pairs(version) && i < Size(version) && dx < 2
    requires c' < Pairs(version) && i' < Size(version) && dx' < 2
    requires ColumnOf(version, c, dx) == ColumnOf(version, c', dx') && RowOf(version, c, i) == RowOf(version, c', i')
    ensures c == c' && i == i' && dx == dx'
  {
  }

  predicate Free(version: nat, c: nat, i: nat, dx: nat)
    requires 1 <= version <= MAX_VERSION && c < Pairs(version) && i < Size(version) && dx < 2
  {
    !Function(version, ColumnOf(version, c, dx), RowOf(version, c, i))
  }

  /** Free modules in the first `n` rows of pair c, in walking order. */
  function ColumnFree(version: nat, c: nat, n: nat): nat
    requires 1 <= version <= MAX_VERSION && c < Pairs(version) && n <= Size(version)
  {
    if n == 0 then 0
    else ColumnFree(version, c, n - 1) + One(Free(version, c, n - 1, 0)) + One(Free(version, c, n - 1, 1))
  }

  /** Free modules in the first k pairs. */
  function PairsFree(version: nat, k: nat): nat
    requires 1 <= version <= MAX_VERSION && k <= Pairs(version)
  {
    if k == 0 then 0 else PairsFree(version, k - 1) + ColumnFree(version, k - 1, Size(version))
  }

  /** The number of the data bit that step (c, i, dx) carries. */
  function BitNumber(version: nat, c: nat, i: nat, dx: nat): nat
    requires 1 <= version <= MAX_VERSION && c < Pairs(version) && i < Size(version) && dx < 2
  {
    PairsFree(version, c) + ColumnFree(version, c, i) + (if dx == 1 then One(Free(version, c, i, 0)) else 0)
  }
}
