/** What the encoder's own constants and patterns look like: the masks, the walk, the function patterns, the capacity
    table, and the filling of the data codewords. */
module QrLaws {
  import opened QrBits
  import opened QrCodewords
  import opened QrSymbol
  import opened QrFormat
  import opened QrDrawing
  import opened QrDecode

  // ----- masks -----

  /** Mask 0 is a chessboard, mask 1 stripes of rows, mask 2 columns with period 3, mask 3 diagonals with period 3. */
  lemma MaskLaws(x: nat, y: nat)
    ensures MaskCondition(0, 0, 0) && MaskCondition(0, x, y) == !MaskCondition(0, x + 1, y) == !MaskCondition(0, x, y + 1)
    ensures MaskCondition(1, 0, 0) && MaskCondition(1, x, y) == MaskCondition(1, x + 1, y) == !MaskCondition(1, x, y + 1)
    ensures MaskCondition(2, x, y) == MaskCondition(2, x, y + 1) == MaskCondition(2, x + 3, y)
    ensures MaskCondition(2, 0, y) && !MaskCondition(2, 1, y) && !MaskCondition(2, 2, y)
    ensures MaskCondition(3, x + 1, y) == MaskCondition(3, x, y + 1) && MaskCondition(3, x, 0) == MaskCondition(2, x, 0)
  {
    assert (x + 3) % 3 == x % 3;
  }

  /** Mask 4 is a chessboard of blocks three wide and two high. */
  lemma BlockMaskLaws(x: nat, y: nat)
    ensures MaskCondition(4, x, y) == !MaskCondition(4, x + 3, y) == !MaskCondition(4, x, y + 2)
    ensures x < 3 && y < 2 ==> MaskCondition(4, x, y)
  {
    assert (x + 3) / 3 == x / 3 + 1 && (y + 2) / 2 == y / 2 + 1;
  }

  /** Masks 5 to 7 depend on the product: a multiple of six, at most two above one, and mask 0 turned over where the
      product is one above a multiple of three. */
  lemma ProductMaskLaws(x: nat, y: nat)
    ensures MaskCondition(5, x, y) <==> x * y % 6 == 0
    ensures MaskCondition(6, x, y) <==> x * y % 6 <= 2
    ensures MaskCondition(7, x, y) <==> (MaskCondition(0, x, y) <==> x * y % 3 != 1)
  {
    SixParts(x * y);
    ParityFlip(x * y % 3, x + y);
  }

  lemma ParityFlip(r: nat, q: nat)
    requires r < 3
    ensures (r + q) % 2 == 0 <==> (q % 2 == 0 <==> r != 1)
  {
  }

  lemma SixParts(p: nat)
    ensures p % 2 + p % 3 == 0 <==> p % 6 == 0
    ensures (p % 2 + p % 3) % 2 == 0 <==> p % 6 <= 2
  {
    var q, r := p / 6, p % 6;
    assert p == 6 * q + r;
    Parts(q, r);
    assert r == 0 || r == 1 || r == 2 || r == 3 || r == 4 || r == 5;
  }

  lemma {:induction false} Parts(q: nat, r: nat)
    ensures (6 * q + r) % 2 == r % 2 && (6 * q + r) % 3 == r % 3
  {
    if q > 0 {
      Parts(q - 1, r);
      var x := 6 * (q - 1) + r;
      assert 6 * q + r == x + 6 && (x + 6) % 2 == x % 2 && (x + 6) % 3 == x % 3;
    }
  }

  // ----- where the format bits stand -----

  const FIRST_COPY: seq<(int, int)> :=
    [(8, 0), (8, 1), (8, 2), (8, 3), (8, 4), (8, 5), (8, 7), (8, 8), (7, 8), (5, 8), (4, 8), (3, 8), (2, 8), (1, 8), (0, 8)]

  /** Down column 8 and back along row 8 around the upper left finder, without the timing row and column; and from the
      right edge along row 8, then down column 8 to the lower edge. */
  lemma FormatPlaces(size: nat, i: nat)
    requires i < 15 && size >= 21
    ensures FirstCopy(i) == FIRST_COPY[i] && FirstCopy(i).0 != 6 && FirstCopy(i).1 != 6
    ensures SecondCopy(size, 0) == (size - 1, 8) && SecondCopy(size, 7) == (size - 8, 8)
    ensures SecondCopy(size, 8) == (8, size - 7) && SecondCopy(size, 14) == (8, size - 1)
    ensures i < 14 && i != 7 ==>
              var (x, y), (x', y') := SecondCopy(size, i), SecondCopy(size, i + 1);
              if i < 7 then x' == x - 1 && y' == y else x' == x && y' == y + 1
  {
    assert i == 0 || i == 1 || i == 2 || i == 3 || i == 4 || i == 5 || i == 6 || i == 7 || i == 8 || i == 9 || i == 10 ||
           i == 11 || i == 12 || i == 13 || i == 14;
  }

  // ----- the walk -----

  /** The walk starts in the lower right corner; a step goes from the right to the left module of a pair, then to the
      next row, and from the end of a pair to the next pair in the same row; so it goes upwards first and then in
      turn down and up, and pairs lie side by side except for the one that skips column 6. */
  lemma WalkLaws(version: nat, c: nat, i: nat)
    requires 1 <= version <= MAX_VERSION && c < Pairs(version) && i < Size(version)
    ensures ColumnOf(version, 0, 0) == Size(version) - 1 == RowOf(version, 0, 0)
    ensures ColumnOf(version, c, 1) == ColumnOf(version, c, 0) - 1
    ensures i + 1 < Size(version) ==>
              RowOf(version, c, i + 1) == RowOf(version, c, i) + (if c % 2 == 0 then -1 else 1)
    ensures c + 1 < Pairs(version) ==> RowOf(version, c + 1, 0) == RowOf(version, c, Size(version) - 1)
    ensures c + 1 < Pairs(version) ==>
              ColumnOf(version, c + 1, 0) == ColumnOf(version, c, 1) - (if ColumnOf(version, c, 1) == 7 then 2 else 1)
    ensures ColumnOf(version, Pairs(version) - 1, 1) == 0
  {
  }

  // ----- function patterns -----

  const FINDER: seq<string> := ["#######", "#.....#", "#.###.#", "#.###.#", "#.###.#", "#.....#", "#######"]
  const ALIGNMENT: seq<string> := ["#####", "#...#", "#.#.#", "#...#", "#####"]

  /** The picture of a finder: three nested squares, and light around it. */
  lemma FinderPicture(x: int, y: int)
    ensures 0 <= x < 7 && 0 <= y < 7 ==> (FinderDark(x, y) <==> FINDER[y][x] == '#')
    ensures !(0 <= x < 7 && 0 <= y < 7) ==> !FinderDark(x, y)
  {
    if 0 <= x < 7 && 0 <= y < 7 {
      assert y == 0 || y == 1 || y == 2 || y == 3 || y == 4 || y == 5 || y == 6;
      assert x == 0 || x == 1 || x == 2 || x == 3 || x == 4 || x == 5 || x == 6;
    }
  }

  lemma AlignmentPicture(x: int, y: int)
    requires 0 <= x < 5 && 0 <= y < 5
    ensures AlignmentDark(x - 2, y - 2) <==> ALIGNMENT[y][x] == '#'
  {
    assert y == 0 || y == 1 || y == 2 || y == 3 || y == 4;
    assert x == 0 || x == 1 || x == 2 || x == 3 || x == 4;
  }

  /** Every symbol shows the three finders in its corners with light separators, timing lines that alternate between
      them starting dark, and no other function module dark outside alignment, format and those. */
  lemma PatternsInPlace(version: nat, x: int, y: int)
    requires 1 <= version <= MAX_VERSION && 0 <= x < Size(version) && 0 <= y < Size(version)
    ensures var n := Size(version);
            && (x < 8 && y < 8 ==> (PatternDark(version, x, y) <==> FinderDark(x, y)))
            && (x >= n - 8 && y < 8 ==> (PatternDark(version, x, y) <==> FinderDark(x - (n - 7), y)))
            && (x < 8 && y >= n - 8 ==> (PatternDark(version, x, y) <==> FinderDark(x, y - (n - 7))))
            && (8 <= x < n - 8 && y == 6 && !AlignmentModule(version, x, y) ==> (PatternDark(version, x, y) <==> x % 2 == 0))
            && (8 <= y < n - 8 && x == 6 && !AlignmentModule(version, x, y) ==> (PatternDark(version, x, y) <==> y % 2 == 0))
  {
    NoAlignmentInCorners(version, x, y);
    var n := Size(version);
    FinderPicture(x, y);
    FinderPicture(x - (n - 7), y);
    FinderPicture(x, y - (n - 7));
    hide FinderDark, AlignmentModule;
  }

  lemma NoAlignmentInCorners(version: nat, x: int, y: int)
    requires 1 <= version <= MAX_VERSION
    ensures AlignmentModule(version, x, y) ==> !FinderModule(Size(version), x, y)
  {
    hide Centres;
    if AlignmentModule(version, x, y) {
      var i: nat, j: nat :| i < |Centres(version)| && j < |Centres(version)| && Covers(version, i, j, x, y);
    }
  }

  /** Alignment centres are evenly spaced from 6 to the seventh module from the end. */
  lemma CentresEven(version: nat)
    requires 7 <= version <= MAX_VERSION
    ensures var p := Centres(version);
            p[0] == 6 && p[2] == Size(version) - 7 && p[1] - p[0] == p[2] - p[1]
  {
  }

  // ----- capacity and filling -----

  /** The longest text of each version, as in table 7 of ISO/IEC 18004:2015 for bytes at level L. */
  lemma CapacityTable(n: nat)
    ensures Fits(n, 1) <==> n <= 17
    ensures Fits(n, 2) <==> n <= 32
    ensures Fits(n, 3) <==> n <= 53
    ensures Fits(n, 4) <==> n <= 78
    ensures Fits(n, 5) <==> n <= 106
    ensures Fits(n, 6) <==> n <= 134
    ensures Fits(n, 7) <==> n <= 154
    ensures Fits(n, 8) <==> n <= 192
    ensures Fits(n, 9) <==> n <= 230
    ensures Fits(n, 10) <==> n <= 271
  {
  }

  /** Byte mode is 0100, the count has 8 or 16 bits, and the text follows. */
  lemma PayloadLayout(text: seq<bv8>, version: nat)
    requires 1 <= version <= MAX_VERSION && Fits(|text|, version)
    ensures var s := DataBits(text, version);
            var w := if version < 10 then 8 else 16;
            && NumberOf(s[..4]) == 4 && NumberOf(s[4..4 + w]) == |text| && s[4 + w..4 + w + 8 * |text|] == AllBits(text)
  {
    hide Info, AllBits, CountBits, DataBits, NumberOf, Pow2, Fits;
    PayloadSlices(text, version);
    ModeIsFour();
    CountFits(|text|, version);
    CountRoundTrip(|text|, CountWidth(version));
  }

  lemma PayloadSlices(text: seq<bv8>, version: nat)
    requires 1 <= version <= MAX_VERSION && Fits(|text|, version)
    ensures var s, w := DataBits(text, version), CountWidth(version);
            && 4 + w + 8 * |text| <= |s|
            && s[..4] == MODE && s[4..4 + w] == CountBits(|text|, w) && s[4 + w..4 + w + 8 * |text|] == AllBits(text)
  {
    hide Info, AllBits, CountBits, Filled;
    var w := CountWidth(version);
    var p, s := Payload(text, version), DataBits(text, version);
    assert s[..|p|] == p;
    assert |p| == 4 + w + 8 * |text|;
    PrefixSlice(s, p, 0, 4);
    PrefixSlice(s, p, 4, 4 + w);
    PrefixSlice(s, p, 4 + w, |p|);
    hide DataBits;
    assert p[0..4] == MODE && p[4..4 + w] == CountBits(|text|, w) && p[4 + w..|p|] == AllBits(text);
  }

  lemma PrefixSlice(s: seq<bool>, p: seq<bool>, a: nat, b: nat)
    requires p <= s && a <= b <= |p|
    ensures s[a..b] == p[a..b]
  {
  }

  lemma ModeIsFour()
    ensures NumberOf(MODE) == 4
  {
    assert MODE[..3] == [false, true, false] && MODE[..3][..2] == [false, true] && [false, true][..1] == [false];
    assert [false][..0] == [];
    assert NumberOf([false]) == 0 && NumberOf([false, true]) == 1 && NumberOf([false, true, false]) == 2;
  }

  /** Behind the text stand zero bits, four of them if there is room, up to a byte boundary, and then the bytes 236 and
      17 in turn. */
  lemma FillingLayout(text: seq<bv8>, version: nat) returns (first: nat)
    requires 1 <= version <= MAX_VERSION && Fits(|text|, version)
    ensures var s, d := DataBits(text, version), DataBytes(text, version);
            var used := 4 + (if version < 10 then 8 else 16) + 8 * |text|;
            && used <= 8 * first <= used + 11 && first <= |d|
            && (8 * first < used + 4 ==> first == |d|)
            && (forall k | used <= k < 8 * first :: !s[k])
            && (forall k: nat | first <= k < |d| :: d[k] == if (k - first) % 2 == 0 then 236 else 17)
  {
    hide Info, AllBits, Payload, Pack, ByteBits, FromBits;
    var p, n := Payload(text, version), Info(version).data;
    var z := FillBits(|p|, n);
    first := (|p| + z) / 8;
    var s, d := DataBits(text, version), DataBytes(text, version);
    var pad := Padding(n - first);
    assert s == p + FalseBits(z) + AllBits(pad);
    assert AllBits(d)[8 * first..] == AllBits(pad);
    forall k: nat | first <= k < |d| ensures d[k] == pad[k - first] { TailByte(d, pad, first, k); }
  }

  lemma TailByte(d: seq<bv8>, pad: seq<bv8>, first: nat, k: nat)
    requires first <= k < |d| == first + |pad| && AllBits(d)[8 * first..] == AllBits(pad)
    ensures d[k] == pad[k - first]
  {
    hide AllBits, ByteBits, FromBits;
    forall b: nat | b < 8 ensures ByteBits(d[k])[b] == ByteBits(pad[k - first])[b] {
      assert (8 * k + b) / 8 == k && (8 * (k - first) + b) / 8 == k - first;
      AllBitsAt(d, 8 * k + b);
      AllBitsAt(pad, 8 * (k - first) + b);
      assert AllBits(d)[8 * first..][8 * (k - first) + b] == AllBits(d)[8 * k + b];
    }
    assert ByteBits(d[k]) == ByteBits(pad[k - first]);
    ByteRoundTrip(d[k]);
    ByteRoundTrip(pad[k - first]);
  }

  /** Two blocks take turns, the first half of the data first; the check bytes follow in the same way. */
  lemma InterleaveOrder(data: seq<bv8>, version: nat, j: nat)
    requires 1 <= version <= MAX_VERSION && |data| == Info(version).data
    ensures var i, c := Info(version), Codewords(data, version);
            && (i.blocks == 1 && j < |data| ==> c[j] == data[j])
            && (i.blocks == 2 && 2 * j + 1 < |data| ==> c[2 * j] == data[j] && c[2 * j + 1] == data[|data| / 2 + j])
  {
    hide Info, Interleave;
    var i := Info(version);
    var n := Share(i.data, i.blocks);
    TurnOrder(DataParts(data, i.blocks), n, j);
  }

  lemma TurnOrder(parts: seq<seq<bv8>>, n: nat, j: nat)
    requires 1 <= |parts| <= 2 && forall b | 0 <= b < |parts| :: |parts[b]| == n
    ensures |parts| == 1 && j < n ==> Interleave(parts, n)[j] == parts[0][j]
    ensures |parts| == 2 && j < n ==> Interleave(parts, n)[2 * j] == parts[0][j] && Interleave(parts, n)[2 * j + 1] == parts[1][j]
  {
    hide Interleave;
    var s := Interleave(parts, n);
    if j < n {
      assert s[Place(|parts|, 0, j)] == parts[0][j];
      if |parts| == 2 { assert s[Place(2, 1, j)] == parts[1][j]; }
    }
  }
}
