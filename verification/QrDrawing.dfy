/** The picture of a symbol, module by module. */
module QrDrawing {
  import opened QrBits
  import opened QrCodewords
  import opened QrSymbol
  import opened QrFormat
  import opened QrDecode

  // ----- function patterns -----

  predicate FinderDark(dx: int, dy: int) {
    0 <= dx <= 6 && 0 <= dy <= 6 &&
    (dx == 0 || dx == 6 || dy == 0 || dy == 6 || (2 <= dx <= 4 && 2 <= dy <= 4))
  }

  /** The colour the three finders leave behind; they do not touch each other. */
  predicate FindersDark(size: nat, x: int, y: int) {
    FinderDark(x, y) || FinderDark(x - (size - 7), y) || FinderDark(x, y - (size - 7))
  }

  predicate TimingDark(size: nat, x: int, y: int) {
    TimingModule(size, x, y) && (if y == 6 then x % 2 == 0 else y % 2 == 0)
  }

  predicate AlignmentDark(dx: int, dy: int) {
    dx == -2 || dx == 2 || dy == -2 || dy == 2 || (dx == 0 && dy == 0)
  }

  predicate CoversDark(version: nat, i: nat, j: nat, x: int, y: int)
    requires 1 <= version <= MAX_VERSION && i < |Centres(version)| && j < |Centres(version)|
  {
    Covers(version, i, j, x, y) && AlignmentDark(x - Centres(version)[i], y - Centres(version)[j])
  }

  predicate AlignmentsDark(version: nat, x: int, y: int)
    requires 1 <= version <= MAX_VERSION
  {
    exists i: nat, j: nat | i < |Centres(version)| && j < |Centres(version)| :: CoversDark(version, i, j, x, y)
  }

  /** Finders, timing, alignment on top; everything else light. */
  predicate PatternDark(version: nat, x: int, y: int)
    requires 1 <= version <= MAX_VERSION
  {
    if AlignmentModule(version, x, y) then AlignmentsDark(version, x, y)
    else FindersDark(Size(version), x, y) || TimingDark(Size(version), x, y)
  }

  // ----- data and format -----

  /** The walk meets every module outside column 6: the step that meets (x, y). */
  function StepOf(version: nat, x: int, y: int): (s: (nat, nat, nat))
    requires 0 <= x < Size(version) && 0 <= y < Size(version) && x != 6 && version >= 1
    ensures s.0 < Pairs(version) && s.1 < Size(version) && s.2 < 2
    ensures ColumnOf(version, s.0, s.2) == x && RowOf(version, s.0, s.1) == y
  {
    var k := if x > 6 then Size(version) - 1 - x else Size(version) - 2 - x;
    var c := k / 2;
    (c, if c % 2 == 1 then y else Size(version) - 1 - y, k % 2)
  }

  predicate DataDark(version: nat, mask: nat, bits: Bits, x: nat, y: nat)
    requires 1 <= version <= MAX_VERSION && x < Size(version) && y < Size(version) && x != 6
  {
    var (c, i, dx) := StepOf(version, x, y);
    DataBit(bits, BitNumber(version, c, i, dx)) != MaskCondition(mask, x, y)
  }

  /** The modules a format copy or the dark module occupies. */
  predicate FormatCell(size: nat, x: int, y: int) {
    FormatModule(size, x, y) && !(x == 8 && y == 6) && !(x == 6 && y == 8)
  }

  /** The format bit shown at a format module; 15 stands for the dark module. */
  function FormatIndex(size: nat, x: int, y: int): (i: nat)
    requires size >= 21 && FormatCell(size, x, y)
    ensures i <= 15
  {
    if x == 8 && y == size - 8 then 15
    else if x == 8 && y <= 5 then y
    else if x == 8 && y == 7 then 6
    else if x == 8 && y == 8 then 7
    else if x == 8 then y - size + 15
    else if x == 7 then 8
    else if x <= 5 then 14 - x
    else size - 1 - x
  }

  predicate FormatDark(size: nat, mask: nat, x: int, y: int)
    requires size >= 21 && FormatCell(size, x, y) && mask < 8
  {
    var i := FormatIndex(size, x, y);
    i == 15 || BitAt(FormatBits(mask), i)
  }

  /** The finished symbol. */
  predicate Dark(version: nat, mask: nat, bits: Bits, x: nat, y: nat)
    requires 1 <= version <= MAX_VERSION && x < Size(version) && y < Size(version) && mask < 8
  {
    if FormatCell(Size(version), x, y) then FormatDark(Size(version), mask, x, y)
    else if Function(version, x, y) || x == 6 then PatternDark(version, x, y)
    else DataDark(version, mask, bits, x, y)
  }

  function Drawing(version: nat, mask: nat, bits: Bits): (m: Matrix)
    requires 1 <= version <= MAX_VERSION && mask < 8
    ensures Square(m, Size(version))
    ensures forall x: nat, y: nat | x < Size(version) && y < Size(version) :: m[y][x] == Dark(version, mask, bits, x, y)
  {
    var n := Size(version);
    seq(n, y requires 0 <= y < n => seq(n, x requires 0 <= x < n => Dark(version, mask, bits, x, y)))
  }

  // ----- the drawing can be read -----

  /** The drawn patterns are those of the standard. */
  lemma MaskIsRule(mask: nat, x: nat, y: nat)
    ensures MaskCondition(mask, x, y) == MaskRule(mask, y, x)
  {
    assert x * y == y * x;
    ParityShift(x * y % 3, x + y);
  }

  lemma ParityShift(a: nat, b: nat)
    ensures (a + b) % 2 == (b % 2 + a) % 2
  {
  }

  lemma DrawingShowsData(version: nat, mask: nat, bits: Bits)
    requires 1 <= version <= MAX_VERSION && mask < 8
    ensures ShowsData(Drawing(version, mask, bits), version, mask, bits)
  {
    hide Function, PatternDark, BitNumber, MaskCondition, MaskRule, FormatDark, Drawing;
    var m := Drawing(version, mask, bits);
    forall c: nat, i: nat, dx: nat | c < Pairs(version) && i < Size(version) && dx < 2
      ensures ShowsStep(m, version, mask, bits, c, i, dx)
    {
      var x, y := ColumnOf(version, c, dx), RowOf(version, c, i);
      if Free(version, c, i, dx) {
        FormatIsFunction(version, x, y);
        var s := StepOf(version, x, y);
        WalkInjective(version, c, i, dx, s.0, s.1, s.2);
        MaskIsRule(mask, x, y);
        assert m[y][x] == Dark(version, mask, bits, x, y);
      }
    }
  }

  lemma FormatIsFunction(version: nat, x: int, y: int)
    requires 1 <= version <= MAX_VERSION
    ensures FormatCell(Size(version), x, y) ==> Function(version, x, y)
  {
  }

  lemma DrawingShowsFormat(version: nat, mask: nat, bits: Bits)
    requires 1 <= version <= MAX_VERSION && mask < 8
    ensures ShowsFormat(Drawing(version, mask, bits), version, mask)
  {
    hide Function, PatternDark, BitNumber, MaskCondition, Drawing, FormatBits, BitAt, DataDark;
    var m := Drawing(version, mask, bits);
    var size := Size(version);
    forall i: nat | i < 15 ensures m[FirstCopy(i).1][FirstCopy(i).0] == BitAt(FormatBits(mask), i) {
      var (x, y) := FirstCopy(i);
      assert FormatCell(size, x, y) && FormatIndex(size, x, y) == i;
      assert m[y][x] == Dark(version, mask, bits, x, y);
    }
    forall i: nat | i < 15 ensures m[SecondCopy(size, i).1][SecondCopy(size, i).0] == BitAt(FormatBits(mask), i) {
      var (x, y) := SecondCopy(size, i);
      assert FormatCell(size, x, y) && FormatIndex(size, x, y) == i;
      assert m[y][x] == Dark(version, mask, bits, x, y);
    }
    assert m[size - 8][8] == Dark(version, mask, bits, 8, size - 8);
  }

  /** Whatever mask is chosen, the drawn symbol decodes to the text. */
  lemma DrawingDecodes(version: nat, mask: nat, text: seq<bv8>)
    requires 1 <= version <= MAX_VERSION && mask < 8 && Fits(|text|, version)
    ensures Decode(Drawing(version, mask, AllBits(Codewords(DataBytes(text, version), version))), version) == text
  {
    hide Fits, ShowsData, ShowsFormat, Drawing, Codewords, DataBytes, Decode, AllBits;
    var bits := AllBits(Codewords(DataBytes(text, version), version));
    DrawingShowsData(version, mask, bits);
    DrawingShowsFormat(version, mask, bits);
    DecodeRoundTrip(Drawing(version, mask, bits), version, mask, text);
  }
}
