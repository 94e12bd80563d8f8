/** The packing loops of the QR encoder: bits into data codewords, blocks with their check
    bytes into the drawn order. */
module QrData {
  import opened Bytes
  import opened Galois
  import opened ReedSolomon
  import opened QrBits
  import opened QrCodewords
  import opened QrEcc

  /** The buffer holds exactly the bits written so far; all later bits are zero. */
  ghost predicate Holds(data: seq<bv8>, written: Bits) {
    |written| <= 8 * |data| &&
    AllBits(data) == written + FalseBits(8 * |data| - |written|)
  }

  lemma HoldsAt(data: seq<bv8>, written: Bits)
    requires |written| <= 8 * |data|
    ensures Holds(data, written) <==>
            forall i: nat | i < 8 * |data| :: BitOf(data[i / 8], i % 8) == (i < |written| && written[i])
  {
    hide BitOf, AllBits;
    forall i: nat | i < 8 * |data| ensures AllBits(data)[i] == BitOf(data[i / 8], i % 8) { AllBitsAt(data, i); }
    var full := written + FalseBits(8 * |data| - |written|);
    if Holds(data, written) {
      forall i: nat | i < 8 * |data| ensures BitOf(data[i / 8], i % 8) == (i < |written| && written[i]) {
        assert full[i] == AllBits(data)[i];
      }
    }
  }

  method WriteBit(data: array<bv8>, bitPos: nat, bit: bool, ghost written: Bits) returns (next: nat)
    requires |written| == bitPos < 8 * data.Length && Holds(data[..], written)
    modifies data
    ensures next == bitPos + 1 && Holds(data[..], written + [bit])
  {
    hide WithBit, Holds;
    ghost var before := data[..];
    if bit {
      data[bitPos / 8] := WithBit(data[bitPos / 8], bitPos % 8);
      assert data[..] == before[bitPos / 8 := WithBit(before[bitPos / 8], bitPos % 8)];
    }
    NextBit(before, written, bit);
    next := bitPos + 1;
  }

  /** The byte with bit k, from the most significant, set. */
  function WithBit(b: bv8, k: nat): bv8
    requires k < 8
  {
    b | Power(7 - k)
  }

  lemma NextBit(data: seq<bv8>, written: Bits, bit: bool)
    requires |written| < 8 * |data| && Holds(data, written)
    ensures var n := |written|;
            Holds(if bit then data[n / 8 := WithBit(data[n / 8], n % 8)] else data, written + [bit])
  {
    hide WithBit, BitOf, Holds;
    var n := |written|;
    HoldsAt(data, written);
    var after := if bit then data[n / 8 := WithBit(data[n / 8], n % 8)] else data;
    forall i: nat | i < 8 * |after|
      ensures BitOf(after[i / 8], i % 8) == (i < n + 1 && (written + [bit])[i])
    {
      OrBit(data[i / 8], n % 8, i % 8);
    }
    HoldsAt(after, written + [bit]);
  }

  lemma OrBit(b: bv8, k: nat, j: nat)
    requires k < 8 && j < 8
    ensures BitOf(WithBit(b, k), j) == (j == k || BitOf(b, j))
  {
    SetBits(b, 7 - k, 7 - j);
  }

  /** A run of bits, one after the other. */
  method WriteByte(data: array<bv8>, bitPos: nat, c: bv8, ghost written: Bits) returns (next: nat)
    requires |written| == bitPos && bitPos + 8 <= 8 * data.Length && Holds(data[..], written)
    modifies data
    ensures next == bitPos + 8 && Holds(data[..], written + ByteBits(c))
  {
    hide Holds, BitOf;
    next := bitPos;
    var b := 0;
    ghost var bits := ByteBits(c);
    assert written + bits[..0] == written;
    while b < 8
      invariant b <= 8 && next == bitPos + b
      invariant Holds(data[..], written + bits[..b])
    {
      next := WriteBit(data, next, BitOf(c, b), written + bits[..b]);
      assert written + bits[..b] + [bits[b]] == written + bits[..b + 1];
      b := b + 1;
    }
    assert bits[..8] == bits;
  }

  method WriteCount(data: array<bv8>, bitPos: nat, length: nat, width: nat, ghost written: Bits) returns (next: nat)
    requires |written| == bitPos && bitPos + width <= 8 * data.Length && Holds(data[..], written)
    modifies data
    ensures next == bitPos + width && Holds(data[..], written + CountBits(length, width))
  {
    hide Holds;
    next := bitPos;
    ghost var bits := CountBits(length, width);
    var i := 0;
    assert written + bits[..0] == written;
    while i < width
      invariant i <= width && next == bitPos + i
      invariant Holds(data[..], written + bits[..i])
    {
      CountBitsAt(length, width, i);
      next := WriteBit(data, next, length / Pow2(width - 1 - i) % 2 == 1, written + bits[..i]);
      assert written + bits[..i] + [bits[i]] == written + bits[..i + 1];
      i := i + 1;
    }
    assert bits[..width] == bits;
  }

  method WriteZeros(data: array<bv8>, bitPos: nat, n: nat, ghost written: Bits) returns (next: nat)
    requires |written| == bitPos && bitPos + n <= 8 * data.Length && Holds(data[..], written)
    modifies data
    ensures next == bitPos + n && Holds(data[..], written + FalseBits(n))
  {
    hide Holds;
    next := bitPos;
    var i := 0;
    assert written + FalseBits(0) == written;
    while i < n
      invariant i <= n && next == bitPos + i
      invariant Holds(data[..], written + FalseBits(i))
    {
      next := WriteBit(data, next, false, written + FalseBits(i));
      assert written + FalseBits(i) + [false] == written + FalseBits(i + 1);
      i := i + 1;
    }
  }

  /** The data codewords of a text that fits the version. */
  method MakeDataCodewords(text: seq<bv8>, version: nat) returns (data: array<bv8>)
    requires 1 <= version <= MAX_VERSION && Fits(|text|, version)
    ensures fresh(data) && data[..] == DataBytes(text, version)
  {
    hide Info, Holds, Fits, Filled, AllBits, Payload;
    PayloadFits(|text|, version);
    data := new bv8[Info(version).data];
    Clear(data);
    var bitPos := WritePayload(data, text, version);
    Finish(data, bitPos, Payload(text, version));
    PackBits(data[..]);
  }

  method WritePayload(data: array<bv8>, text: seq<bv8>, version: nat) returns (bitPos: nat)
    requires 4 + CountWidth(version) + 8 * |text| <= 8 * data.Length && Holds(data[..], [])
    modifies data
    ensures bitPos == 4 + CountWidth(version) + 8 * |text| && Holds(data[..], Payload(text, version))
  {
    hide Holds, AllBits, CountBits;
    bitPos := WriteBit(data, 0, false, []);
    bitPos := WriteBit(data, bitPos, true, [] + [false]);
    bitPos := WriteBit(data, bitPos, false, [] + [false] + [true]);
    bitPos := WriteBit(data, bitPos, false, [] + [false] + [true] + [false]);
    assert [] + [false] + [true] + [false] + [false] == MODE;
    bitPos := WriteCount(data, bitPos, |text|, CountWidth(version), MODE);
    bitPos := WriteText(data, bitPos, text, MODE + CountBits(|text|, CountWidth(version)));
  }

  /** Terminator, alignment and padding. */
  method Finish(data: array<bv8>, start: nat, ghost w: Bits)
    requires |w| == start <= 8 * data.Length && Holds(data[..], w)
    modifies data
    ensures AllBits(data[..]) == Filled(w, data.Length)
  {
    hide Holds, Filled, AllBits;
    var remaining := data.Length * 8 - start;
    var terminator := if remaining < 4 then remaining else 4;
    var bitPos := WriteZeros(data, start, terminator, w);
    FillBitsIs(|w|, data.Length);
    bitPos := WriteAlign(data, bitPos, w + FalseBits(terminator));
    ghost var z := FillBits(|w|, data.Length);
    assert w + FalseBits(terminator) + FalseBits(bitPos - |w| - terminator) == w + FalseBits(z);
    WritePadding(data, bitPos / 8, w + FalseBits(z));
    FilledIs(w, data.Length);
  }

  lemma PayloadFits(length: nat, version: nat)
    requires 1 <= version <= MAX_VERSION && Fits(length, version)
    ensures 4 + CountWidth(version) + 8 * length <= 8 * Info(version).data
  {
    hide Info;
  }

  lemma FillBitsIs(used: nat, d: nat)
    requires used <= 8 * d
    ensures var t := if d * 8 - used < 4 then d * 8 - used else 4;
            FillBits(used, d) == t + (8 - (used + t) % 8) % 8
  {
  }

  lemma FilledIs(p: Bits, d: nat)
    requires |p| <= 8 * d
    ensures var z := FillBits(|p|, d);
            Filled(p, d) == p + FalseBits(z) + AllBits(Padding(d - (|p| + z) / 8))
  {
  }

  method Clear(data: array<bv8>)
    modifies data
    ensures Holds(data[..], [])
  {
    var i := 0;
    while i < data.Length
      invariant i <= data.Length && forall k | 0 <= k < i :: data[k] == 0
    {
      data[i] := 0;
      i := i + 1;
    }
    HoldsAt(data[..], []);
    forall k: nat | k < 8 * data.Length ensures !BitOf(data[..][k / 8], k % 8) { ZeroBit(k % 8); }
  }

  lemma ZeroBit(k: nat)
    requires k < 8
    ensures !BitOf(0, k)
  {
  }

  method WriteText(data: array<bv8>, bitPos: nat, text: seq<bv8>, ghost written: Bits) returns (next: nat)
    requires |written| == bitPos && bitPos + 8 * |text| <= 8 * data.Length && Holds(data[..], written)
    modifies data
    ensures next == bitPos + 8 * |text| && Holds(data[..], written + AllBits(text))
  {
    hide Holds, ByteBits;
    next := bitPos;
    var i := 0;
    assert text[..0] == [] && written + AllBits([]) == written;
    while i < |text|
      invariant i <= |text| && next == bitPos + 8 * i
      invariant Holds(data[..], written + AllBits(text[..i]))
    {
      next := WriteByte(data, next, text[i], written + AllBits(text[..i]));
      assert text[..i + 1][..i] == text[..i];
      assert written + AllBits(text[..i]) + ByteBits(text[i]) == written + AllBits(text[..i + 1]);
      i := i + 1;
    }
    assert text[..i] == text;
  }

  /** Zero bits up to the next byte boundary. */
  method WriteAlign(data: array<bv8>, bitPos: nat, ghost written: Bits) returns (next: nat)
    requires |written| == bitPos && bitPos <= 8 * data.Length && Holds(data[..], written)
    modifies data
    ensures next == bitPos + (8 - bitPos % 8) % 8 && next <= 8 * data.Length
    ensures Holds(data[..], written + FalseBits(next - bitPos))
  {
    hide Holds;
    next := bitPos;
    assert written + FalseBits(0) == written;
    while next % 8 != 0
      invariant bitPos <= next <= bitPos + (8 - bitPos % 8) % 8 && next <= 8 * data.Length
      invariant Holds(data[..], written + FalseBits(next - bitPos))
      decreases bitPos + 8 - next
    {
      ghost var n := next - bitPos;
      next := WriteBit(data, next, false, written + FalseBits(n));
      assert written + FalseBits(n) + [false] == written + FalseBits(n + 1);
    }
  }

  /** Alternating pad bytes to the end of the buffer. */
  method WritePadding(data: array<bv8>, start: nat, ghost written: Bits)
    requires |written| == 8 * start && start <= data.Length && Holds(data[..], written)
    modifies data
    ensures AllBits(data[..]) == written + AllBits(Padding(data.Length - start))
  {
    hide ByteBits;
    ghost var front := data[..start];
    Prefix(data[..], start, written);
    var bytePos := start;
    var pad: bv8 := 0xEC;
    while bytePos < data.Length
      invariant start <= bytePos <= data.Length
      invariant data[..start] == front && pad == PadByte(bytePos - start)
      invariant forall k: nat | start <= k < bytePos :: data[k] == PadByte(k - start)
    {
      data[bytePos] := pad;
      bytePos := bytePos + 1;
      pad := if pad == 0xEC then 0x11 else 0xEC;
    }
    assert data[..] == front + Padding(data.Length - start);
    AllBitsConcat(front, Padding(data.Length - start));
  }

  /** The bits written so far are those of the bytes before the position. */
  lemma Prefix(data: seq<bv8>, n: nat, written: Bits)
    requires n <= |data| && |written| == 8 * n && Holds(data, written)
    ensures AllBits(data[..n]) == written
  {
    hide ByteBits;
    assert data == data[..n] + data[n..];
    AllBitsConcat(data[..n], data[n..]);
    assert AllBits(data)[..8 * n] == written;
  }

  /** All codewords in the order in which they are drawn. */
  method MakeCodewords(tables: Tables, text: seq<bv8>, version: nat) returns (output: array<bv8>)
    requires tables.Valid() && tables.ready
    requires 1 <= version <= MAX_VERSION && Fits(|text|, version)
    ensures fresh(output) && output[..] == Codewords(DataBytes(text, version), version)
  {
    hide Info, DataBytes, CheckBytes, Interleave, DataParts, EccParts, Tables.Valid;
    var i := Info(version);
    var data := MakeDataCodewords(text, version);
    ghost var d := data[..];
    var n := Share(i.data, i.blocks);
    var dataParts, eccParts := [], [];
    var b := 0;
    while b < i.blocks
      invariant b <= i.blocks && |dataParts| == |eccParts| == b && tables.Valid()
      invariant data[..] == d
      invariant forall k: nat | k < b :: dataParts[k] == Block(d, i.blocks, k)
      invariant forall k: nat | k < b :: eccParts[k] == CheckBytes(Block(d, i.blocks, k), i.ecc)
    {
      var block := if b == 0 then data[..n] else data[n..];
      var ecc := new bv8[40];
      MakeEcc(tables, block, i.ecc, ecc);
      dataParts := dataParts + [block];
      eccParts := eccParts + [ecc[..i.ecc]];
      b := b + 1;
    }
    assert dataParts == DataParts(d, i.blocks);
    assert eccParts == EccParts(d, i.blocks, i.ecc);
    output := new bv8[i.total];
    WriteInterleaved(dataParts, n, output, 0);
    ghost var first := output[..i.data];
    WriteInterleaved(eccParts, i.ecc, output, i.data);
    assert output[..i.data] == first;
    assert output[..] == output[..i.data] + output[i.data..];
  }

  /** Byte after byte, one from each part in turn. */
  method WriteInterleaved(parts: seq<seq<bv8>>, length: nat, output: array<bv8>, start: nat)
    requires 1 <= |parts| <= 2 && forall b | 0 <= b < |parts| :: |parts[b]| == length
    requires start + Times(length, |parts|) <= output.Length
    modifies output
    ensures output[start..start + Times(length, |parts|)] == Interleave(parts, length)
    ensures output[..start] == old(output[..start])
  {
    hide Interleave;
    ghost var s := Interleave(parts, length);
    var pos := start;
    var i := 0;
    while i < length
      invariant i <= length && pos == start + Times(i, |parts|)
      invariant output[..start] == old(output[..start])
      invariant output[start..pos] == s[..pos - start]
    {
      var b := 0;
      while b < |parts|
        invariant b <= |parts| && pos == start + Times(i, |parts|) + b
        invariant output[..start] == old(output[..start])
        invariant output[start..pos] == s[..pos - start]
      {
        PlaceIs(|parts|, b, i, length);
        assert s[Place(|parts|, b, i)] == parts[b][i];
        ghost var done := output[start..pos];
        output[pos] := parts[b][i];
        assert output[start..pos] == done;
        pos := pos + 1;
        assert s[..pos - start] == done + [parts[b][i]];
        b := b + 1;
      }
      i := i + 1;
    }
  }

  lemma PlaceIs(blocks: nat, b: nat, i: nat, length: nat)
    requires 1 <= blocks <= 2 && b < blocks && i < length
    ensures Place(blocks, b, i) == Times(i, blocks) + b < Times(length, blocks)
  {
  }
}
