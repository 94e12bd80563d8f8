/** Reading a symbol back: mask from the first format copy, modules along the zigzag,
    codewords, blocks, text. */
module QrDecode {
  import opened Wrappers
  import opened QrBits
  import opened QrCodewords
  import opened QrSymbol
  import opened QrCapacity
  import opened QrFormat

  /** Rows of modules; true is dark. */
  type Matrix = seq<seq<bool>>

  predicate Square(m: Matrix, size: nat) {
    |m| == size && forall y | 0 <= y < size :: |m[y]| == size
  }

  /** The mask patterns as section 7.8.2 of ISO/IEC 18004:2015 gives them for row i and column j; the reader has its
      own copy. */
  predicate MaskRule(mask: nat, i: nat, j: nat) {
    match mask
    case 0 => (i + j) % 2 == 0
    case 1 => i % 2 == 0
    case 2 => j % 3 == 0
    case 3 => (i + j) % 3 == 0
    case 4 => (i / 2 + j / 3) % 2 == 0
    case 5 => i * j % 2 + i * j % 3 == 0
    case 6 => (i * j % 2 + i * j % 3) % 2 == 0
    case 7 => ((i + j) % 2 + i * j % 3) % 2 == 0
    case _ => false
  }

  /** The unmasked module at a step of the walk. */
  predicate ReadModule(m: Matrix, version: nat, mask: nat, c: nat, i: nat, dx: nat)
    requires Square(m, Size(version)) && c < Pairs(version) && i < Size(version) && dx < 2
  {
    var x, y := ColumnOf(version, c, dx), RowOf(version, c, i);
    m[y][x] != MaskRule(mask, y, x)
  }

  function ReadStep(m: Matrix, version: nat, mask: nat, c: nat, i: nat, dx: nat): (s: Bits)
    requires Square(m, Size(version)) && 1 <= version <= MAX_VERSION && c < Pairs(version) && i < Size(version) && dx < 2
    ensures |s| == One(Free(version, c, i, dx))
  {
    if Free(version, c, i, dx) then [ReadModule(m, version, mask, c, i, dx)] else []
  }

  function ReadPair(m: Matrix, version: nat, mask: nat, c: nat, n: nat): (s: Bits)
    requires Square(m, Size(version)) && 1 <= version <= MAX_VERSION && c < Pairs(version) && n <= Size(version)
    ensures |s| == ColumnFree(version, c, n)
  {
    if n == 0 then []
    else ReadPair(m, version, mask, c, n - 1) + ReadStep(m, version, mask, c, n - 1, 0) +
         ReadStep(m, version, mask, c, n - 1, 1)
  }

  function ReadPairs(m: Matrix, version: nat, mask: nat, k: nat): (s: Bits)
    requires Square(m, Size(version)) && 1 <= version <= MAX_VERSION && k <= Pairs(version)
    ensures |s| == PairsFree(version, k)
  {
    if k == 0 then []
    else ReadPairs(m, version, mask, k - 1) + ReadPair(m, version, mask, k - 1, Size(version))
  }

  function ReadMask(m: Matrix): nat
    requires |m| > 8 && |m[8]| > 8
  {
    (if m[8][4] then 0 else 1) + (if m[8][3] then 2 else 0) + (if m[8][2] then 0 else 4)
  }

  /** The text of a symbol of one of the ten versions. */
  function Decode(m: Matrix, version: nat): seq<bv8>
    requires 1 <= version <= MAX_VERSION && Square(m, Size(version))
  {
    Capacity(version);
    var bits := ReadPairs(m, version, ReadMask(m), Pairs(version));
    var codewords := Pack(bits[..8 * Info(version).total]);
    ReadText(AllBits(Deinterleave(codewords, version)), version)
  }

  // ----- what a drawn symbol shows -----

  /** Data bit k, light when the codewords are used up. */
  predicate DataBit(bits: Bits, k: nat) {
    k < |bits| && bits[k]
  }

  ghost predicate ShowsStep(m: Matrix, version: nat, mask: nat, bits: Bits, c: nat, i: nat, dx: nat)
    requires Square(m, Size(version)) && 1 <= version <= MAX_VERSION && c < Pairs(version) && i < Size(version) && dx < 2
  {
    Free(version, c, i, dx) ==>
      ReadModule(m, version, mask, c, i, dx) == DataBit(bits, BitNumber(version, c, i, dx))
  }

  ghost predicate ShowsData(m: Matrix, version: nat, mask: nat, bits: Bits)
    requires Square(m, Size(version)) && 1 <= version <= MAX_VERSION
  {
    forall c: nat, i: nat, dx: nat | c < Pairs(version) && i < Size(version) && dx < 2 ::
      ShowsStep(m, version, mask, bits, c, i, dx)
  }

  /** Column and row of bit i in the first format copy. */
  function FirstCopy(i: nat): (int, int)
    requires i < 15
  {
    if i <= 5 then (8, i) else if i == 6 then (8, 7) else if i == 7 then (8, 8) else if i == 8 then (7, 8)
    else (14 - i, 8)
  }

  function SecondCopy(size: nat, i: nat): (int, int)
    requires i < 15
  {
    if i < 8 then (size - 1 - i, 8) else (8, size - 15 + i)
  }

  ghost predicate ShowsFormat(m: Matrix, version: nat, mask: nat)
    requires Square(m, Size(version)) && version >= 1 && mask < 8
  {
    var size := Size(version);
    && (forall i: nat | i < 15 :: m[FirstCopy(i).1][FirstCopy(i).0] == BitAt(FormatBits(mask), i))
    && (forall i: nat | i < 15 :: m[SecondCopy(size, i).1][SecondCopy(size, i).0] == BitAt(FormatBits(mask), i))
    && m[size - 8][8]
  }

  // ----- reading undoes drawing -----

  lemma {:induction false} ReadPairAt(m: Matrix, version: nat, mask: nat, bits: Bits, c: nat, n: nat, k: nat)
    requires Square(m, Size(version)) && 1 <= version <= MAX_VERSION && c < Pairs(version) && n <= Size(version)
    requires ShowsData(m, version, mask, bits) && k < ColumnFree(version, c, n)
    ensures ReadPair(m, version, mask, c, n)[k] == DataBit(bits, PairsFree(version, c) + k)
    decreases n
  {
    hide Free, ReadModule, PairsFree;
    var before := ColumnFree(version, c, n - 1);
    if k < before {
      ReadPairAt(m, version, mask, bits, c, n - 1, k);
    } else {
      assert ShowsStep(m, version, mask, bits, c, n - 1, 0);
      assert ShowsStep(m, version, mask, bits, c, n - 1, 1);
    }
  }

  lemma {:induction false} ReadPairsAt(m: Matrix, version: nat, mask: nat, bits: Bits, p: nat, k: nat)
    requires Square(m, Size(version)) && 1 <= version <= MAX_VERSION && p <= Pairs(version)
    requires ShowsData(m, version, mask, bits) && k < PairsFree(version, p)
    ensures ReadPairs(m, version, mask, p)[k] == DataBit(bits, k)
    decreases p
  {
    hide Free, ReadModule, ShowsData, ReadPair, ColumnFree;
    var before := PairsFree(version, p - 1);
    if k < before {
      ReadPairsAt(m, version, mask, bits, p - 1, k);
    } else {
      ReadPairAt(m, version, mask, bits, p - 1, Size(version), k - before);
    }
  }

  lemma ReadMaskIs(m: Matrix, version: nat, mask: nat)
    requires Square(m, Size(version)) && version >= 1 && mask < 8 && ShowsFormat(m, version, mask)
    ensures ReadMask(m) == mask
  {
    hide FormatBits, BitAt;
    assert FirstCopy(10) == (4, 8) && FirstCopy(11) == (3, 8) && FirstCopy(12) == (2, 8);
    assert m[8][4] == BitAt(FormatBits(mask), 10);
    assert m[8][3] == BitAt(FormatBits(mask), 11);
    assert m[8][2] == BitAt(FormatBits(mask), 12);
    MaskBits(mask);
  }

  /** A symbol that shows the codewords of a text under any mask decodes to that text. */
  lemma DecodeRoundTrip(m: Matrix, version: nat, mask: nat, text: seq<bv8>)
    requires 1 <= version <= MAX_VERSION && Fits(|text|, version) && mask < 8 && Square(m, Size(version))
    requires ShowsData(m, version, mask, AllBits(Codewords(DataBytes(text, version), version)))
    requires ShowsFormat(m, version, mask)
    ensures Decode(m, version) == text
  {
    hide Info, ShowsData, ShowsFormat, DataBytes, Codewords, ReadPairs, PairsFree, Pack, AllBits, ReadText;
    ReadMaskIs(m, version, mask);
    Capacity(version);
    var data := DataBytes(text, version);
    var words := Codewords(data, version);
    var bits := AllBits(words);
    var read := ReadPairs(m, version, mask, Pairs(version));
    forall k: nat | k < |bits| ensures read[k] == bits[k] {
      ReadPairsAt(m, version, mask, bits, Pairs(version), k);
    }
    assert read[..|bits|] == bits;
    PackBits(words);
    DeinterleaveRoundTrip(data, version);
    ReadTextRoundTrip(text, version);
  }
}
