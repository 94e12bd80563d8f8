/** From text to codewords: mode, count, text and padding bits, blocks with check bytes,
    and the interleaved order; and back. */
module QrCodewords {
  import opened Galois
  import opened ReedSolomon
  import opened QrBits

  datatype VersionInfo = VersionInfo(size: nat, total: nat, data: nat, blocks: nat, ecc: nat, alignment: seq<nat>)

  const MAX_VERSION: nat := 10

  /** The encoder's own table, error correction level L. */
  function Info(version: nat): (i: VersionInfo)
    requires 1 <= version <= MAX_VERSION
    ensures i.size == 17 + 4 * version
    ensures (i.blocks == 1 || i.blocks == 2) && Whole(i.data, i.blocks)
    ensures i.total == i.data + Times(i.ecc, i.blocks) && 7 <= i.ecc < 40
    ensures 0 < Share(i.data, i.blocks) <= 150 && i.data <= 300 && i.total <= 400
    ensures Share(i.data, i.blocks) + i.ecc <= 255
  {
    if version == 1 then VersionInfo(21, 26, 19, 1, 7, [])
    else if version == 2 then VersionInfo(25, 44, 34, 1, 10, [18])
    else if version == 3 then VersionInfo(29, 70, 55, 1, 15, [22])
    else if version == 4 then VersionInfo(33, 100, 80, 1, 20, [26])
    else if version == 5 then VersionInfo(37, 134, 108, 1, 26, [30])
    else if version == 6 then VersionInfo(41, 172, 136, 2, 18, [34])
    else if version == 7 then VersionInfo(45, 196, 156, 2, 20, [22, 38])
    else if version == 8 then VersionInfo(49, 242, 194, 2, 24, [24, 42])
    else if version == 9 then VersionInfo(53, 292, 232, 2, 30, [26, 46])
    else VersionInfo(57, 346, 274, 2, 36, [28, 50])
  }

  // One or two blocks: products and quotients by the block count, and the place of
  // byte j of block b in the drawn order.

  function Times(n: nat, blocks: nat): nat { if blocks == 1 then n else 2 * n }

  function Share(n: nat, blocks: nat): nat { if blocks == 1 then n else n / 2 }

  predicate Whole(n: nat, blocks: nat) { Times(Share(n, blocks), blocks) == n }

  function Place(blocks: nat, b: nat, j: nat): nat { if blocks == 1 then j else 2 * j + b }

  function PartOf(blocks: nat, k: nat): nat { if blocks == 1 then 0 else k % 2 }

  function CountWidth(version: nat): nat {
    if version <= 9 then 8 else 16
  }

  /** A text of this length fits: mode, count and text bits fill at most the data bytes. */
  predicate Fits(length: nat, version: nat)
    requires 1 <= version <= MAX_VERSION
  {
    (4 + CountWidth(version) + length * 8 + 7) / 8 <= Info(version).data
  }

  /** The smallest version that fits, or 0. */
  method SelectVersion(length: nat) returns (selected: nat)
    ensures selected <= MAX_VERSION && (selected != 0 ==> Fits(length, selected))
    ensures forall u | 1 <= u <= MAX_VERSION && (selected == 0 || u < selected) :: !Fits(length, u)
  {
    hide Info;
    selected := 0;
    var version := 1;
    while version <= MAX_VERSION
      invariant 1 <= version <= MAX_VERSION + 1 && selected == 0
      invariant forall u | 1 <= u < version :: !Fits(length, u)
    {
      if (4 + CountWidth(version) + length * 8 + 7) / 8 <= Info(version).data {
        selected := version;
        return;
      }
      version := version + 1;
    }
  }

  // ----- data codewords -----

  const MODE: Bits := [false, true, false, false]

  function Payload(text: seq<bv8>, version: nat): (s: Bits)
    ensures |s| == 4 + CountWidth(version) + 8 * |text|
  {
    MODE + CountBits(|text|, CountWidth(version)) + AllBits(text)
  }

  function FalseBits(n: nat): (s: Bits)
    ensures |s| == n && forall i | 0 <= i < n :: !s[i]
  {
    seq(n, _ => false)
  }

  function PadByte(i: nat): bv8 {
    if i % 2 == 0 then 0xEC else 0x11
  }

  function Padding(n: nat): (p: seq<bv8>)
    ensures |p| == n && forall i | 0 <= i < n :: p[i] == PadByte(i)
  {
    seq(n, i requires 0 <= i => PadByte(i))
  }

  /** Zero bits after `used` bits: up to four, then up to a byte boundary. */
  function FillBits(used: nat, capacity: nat): (n: nat)
    requires used <= 8 * capacity
    ensures used + n <= 8 * capacity && (used + n) % 8 == 0
  {
    var t := if 8 * capacity - used < 4 then 8 * capacity - used else 4;
    t + (8 - (used + t) % 8) % 8
  }

  /** Mode, count, text, zero bits and padding bytes that fill d data codewords. */
  function Filled(p: Bits, d: nat): (s: Bits)
    requires |p| <= 8 * d
    ensures |s| == 8 * d && s[..|p|] == p
  {
    var z := FillBits(|p|, d);
    p + FalseBits(z) + AllBits(Padding(d - (|p| + z) / 8))
  }

  /** The bits of the data codewords. */
  function DataBits(text: seq<bv8>, version: nat): (s: Bits)
    requires 1 <= version <= MAX_VERSION && Fits(|text|, version)
    ensures |s| == 8 * Info(version).data
  {
    Filled(Payload(text, version), Info(version).data)
  }

  /** The reader of the data codewords: mode, count, bytes. */
  function ReadText(s: Bits, version: nat): seq<bv8>
  {
    var w := CountWidth(version);
    if |s| < 4 + w || s[..4] != MODE then []
    else
      var n := NumberOf(s[4..4 + w]);
      if |s| < 4 + w + 8 * n then [] else Pack(s[4 + w..4 + w + 8 * n])
  }

  /** The text comes back, for every version it fits. */
  lemma ReadTextRoundTrip(text: seq<bv8>, version: nat)
    requires 1 <= version <= MAX_VERSION && Fits(|text|, version)
    ensures ReadText(DataBits(text, version), version) == text
  {
    hide Info, Pack, AllBits, NumberOf, CountBits, Filled;
    var w := CountWidth(version);
    var p := Payload(text, version);
    var s := DataBits(text, version);
    assert s[..|p|] == p;
    var count := CountBits(|text|, w);
    assert s[..4] == MODE;
    assert s[4..4 + w] == count;
    CountFits(|text|, version);
    CountRoundTrip(|text|, w);
    assert s[4 + w..4 + w + 8 * |text|] == AllBits(text);
    PackBits(text);
  }

  /** A text that fits has a length that its count field can hold. */
  lemma CountFits(length: nat, version: nat)
    requires 1 <= version <= MAX_VERSION && Fits(length, version)
    ensures length < Pow2(CountWidth(version))
  {
    assert Pow2(8) == 256;
    assert Pow2(16) == 65536;
  }

  lemma DataPacked(text: seq<bv8>, version: nat)
    requires 1 <= version <= MAX_VERSION && Fits(|text|, version)
    ensures var d := Pack(DataBits(text, version));
            |d| == Info(version).data && AllBits(d) == DataBits(text, version)
  {
    hide Info, Fits, DataBits;
    BitsPack(DataBits(text, version));
  }

  /** The data codewords. */
  function DataBytes(text: seq<bv8>, version: nat): (d: seq<bv8>)
    requires 1 <= version <= MAX_VERSION && Fits(|text|, version)
    ensures |d| == Info(version).data && AllBits(d) == DataBits(text, version)
  {
    DataPacked(text, version);
    Pack(DataBits(text, version))
  }

  // ----- blocks and interleaving -----

  /** Block b of the data, cut into equal parts. */
  function Block(data: seq<bv8>, blocks: nat, b: nat): (s: seq<bv8>)
    requires b < blocks <= 2 && Whole(|data|, blocks)
    ensures |s| == Share(|data|, blocks)
  {
    if b == 0 then data[..Share(|data|, blocks)] else data[Share(|data|, blocks)..]
  }

  /** Byte k of the interleaved order comes from each part in turn. */
  function Interleave(parts: seq<seq<bv8>>, length: nat): (s: seq<bv8>)
    requires 1 <= |parts| <= 2 && forall b | 0 <= b < |parts| :: |parts[b]| == length
    ensures |s| == Times(length, |parts|)
    ensures forall b: nat, j: nat | b < |parts| && j < length :: s[Place(|parts|, b, j)] == parts[b][j]
  {
    seq(Times(length, |parts|), k requires 0 <= k < Times(length, |parts|) =>
      parts[PartOf(|parts|, k)][Share(k, |parts|)])
  }

  function DataParts(data: seq<bv8>, blocks: nat): (p: seq<seq<bv8>>)
    requires 1 <= blocks <= 2 && Whole(|data|, blocks)
    ensures |p| == blocks && forall b | 0 <= b < blocks :: p[b] == Block(data, blocks, b)
  {
    seq(blocks, b requires 0 <= b < blocks => Block(data, blocks, b))
  }

  function EccParts(data: seq<bv8>, blocks: nat, ecc: nat): (p: seq<seq<bv8>>)
    requires 1 <= blocks <= 2 && Whole(|data|, blocks) && ecc >= 1
    ensures |p| == blocks && forall b | 0 <= b < blocks :: p[b] == CheckBytes(Block(data, blocks, b), ecc)
  {
    seq(blocks, b requires 0 <= b < blocks => CheckBytes(Block(data, blocks, b), ecc))
  }

  /** The codewords in the order in which they are drawn. */
  function Codewords(data: seq<bv8>, version: nat): (c: seq<bv8>)
    requires 1 <= version <= MAX_VERSION && |data| == Info(version).data
    ensures |c| == Info(version).total
  {
    var i := Info(version);
    Interleave(DataParts(data, i.blocks), Share(i.data, i.blocks)) + Interleave(EccParts(data, i.blocks, i.ecc), i.ecc)
  }

  /** Every `blocks`-th byte from `offset` + b on. */
  function Pick(c: seq<bv8>, offset: nat, blocks: nat, b: nat, n: nat): (s: seq<bv8>)
    requires b < blocks <= 2 && offset + Times(n, blocks) <= |c|
    ensures |s| == n
  {
    seq(n, j requires 0 <= j < n => c[offset + Place(blocks, b, j)])
  }

  lemma PickIs(c: seq<bv8>, offset: nat, parts: seq<seq<bv8>>, b: nat, n: nat)
    requires 1 <= |parts| <= 2 && forall b | 0 <= b < |parts| :: |parts[b]| == n
    requires b < |parts| && offset + Times(n, |parts|) <= |c|
    requires c[offset..offset + Times(n, |parts|)] == Interleave(parts, n)
    ensures Pick(c, offset, |parts|, b, n) == parts[b]
  {
    var s := Interleave(parts, n);
    forall j: nat | j < n ensures c[offset + Place(|parts|, b, j)] == parts[b][j] {
      assert s[Place(|parts|, b, j)] == c[offset + Place(|parts|, b, j)];
    }
  }

  /** Block b of drawn codewords: its data bytes, then its check bytes. */
  function BlockWord(c: seq<bv8>, version: nat, b: nat): (w: seq<bv8>)
    requires 1 <= version <= MAX_VERSION && |c| == Info(version).total && b < Info(version).blocks
    ensures |w| == Share(Info(version).data, Info(version).blocks) + Info(version).ecc
  {
    var i := Info(version);
    Pick(c, 0, i.blocks, b, Share(i.data, i.blocks)) + Pick(c, i.data, i.blocks, b, i.ecc)
  }

  /** The data bytes of drawn codewords, back in text order. */
  function Deinterleave(c: seq<bv8>, version: nat): (data: seq<bv8>)
    requires 1 <= version <= MAX_VERSION && |c| == Info(version).total
    ensures |data| == Info(version).data
  {
    var i := Info(version);
    var n := Share(i.data, i.blocks);
    if i.blocks == 1 then BlockWord(c, version, 0)[..n]
    else BlockWord(c, version, 0)[..n] + BlockWord(c, version, 1)[..n]
  }

  /** A block of the drawn codewords is that block of the data with its check bytes. */
  lemma BlockWordIs(data: seq<bv8>, version: nat, b: nat)
    requires 1 <= version <= MAX_VERSION && |data| == Info(version).data && b < Info(version).blocks
    ensures var i := Info(version);
            var block := Block(data, i.blocks, b);
            BlockWord(Codewords(data, version), version, b) == block + CheckBytes(block, i.ecc)
  {
    hide Info, CheckBytes, Block, Interleave, Pick;
    var i := Info(version);
    var c := Codewords(data, version);
    var n := Share(i.data, i.blocks);
    var dp, ep := DataParts(data, i.blocks), EccParts(data, i.blocks, i.ecc);
    assert c[0..0 + i.data] == Interleave(dp, n);
    assert c[i.data..i.data + Times(i.ecc, i.blocks)] == Interleave(ep, i.ecc);
    PickIs(c, 0, dp, b, n);
    PickIs(c, i.data, ep, b, i.ecc);
  }

  lemma DeinterleaveRoundTrip(data: seq<bv8>, version: nat)
    requires 1 <= version <= MAX_VERSION && |data| == Info(version).data
    ensures Deinterleave(Codewords(data, version), version) == data
  {
    hide Info, CheckBytes, Codewords, BlockWord;
    var i := Info(version);
    BlockWordIs(data, version, 0);
    if i.blocks == 2 { BlockWordIs(data, version, 1); }
  }

  /** Every block of a symbol is a Reed-Solomon codeword: it vanishes at the first
      `ecc` powers of x. */
  lemma BlocksVanish(data: seq<bv8>, version: nat, b: nat, r: nat)
    requires 1 <= version <= MAX_VERSION && |data| == Info(version).data
    requires b < Info(version).blocks && r < Info(version).ecc
    ensures Eval(BlockWord(Codewords(data, version), version, b), Alpha(r)) == 0
  {
    hide Info, Eval, Alpha, CheckBytes, Codewords, BlockWord;
    BlockWordIs(data, version, b);
    CodewordVanishes(Block(data, Info(version).blocks, b), Info(version).ecc, r);
  }
}
