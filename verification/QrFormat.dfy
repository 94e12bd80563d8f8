/** Format information: five data bits, ten check bits, and the mask patterns. */
module QrFormat {

  predicate MaskCondition(mask: nat, x: nat, y: nat) {
    if mask == 0 then (x + y) % 2 == 0
    else if mask == 1 then y % 2 == 0
    else if mask == 2 then x % 3 == 0
    else if mask == 3 then (x + y) % 3 == 0
    else if mask == 4 then (y / 2 + x / 3) % 2 == 0
    else if mask == 5 then x * y % 2 + x * y % 3 == 0
    else if mask == 6 then (x * y % 2 + x * y % 3) % 2 == 0
    else if mask == 7 then (x * y % 3 + (x + y)) % 2 == 0
    else false
  }

  const GENERATOR: bv16 := 0x537
  const XOR_MASK: bv16 := 0x5412

  /** Bit i, from the least significant. */
  predicate BitAt(value: bv16, i: nat)
    requires i < 16
  {
    (value >> i) & 1 != 0
  }

  /** Division steps for bits i, i - 1, ..., 10. */
  function Reduce(value: bv16, i: nat): bv16
    requires i < 15
  {
    if i < 10 then value
    else Reduce(if BitAt(value, i) then value ^ (GENERATOR << (i - 10)) else value, i - 1)
  }

  function FormatData(mask: nat): bv16
    requires mask < 8
  {
    8 | (mask as bv16)
  }

  function FormatBits(mask: nat): bv16
    requires mask < 8
  {
    var data := FormatData(mask);
    ((data << 10) | Reduce(data << 10, 14)) ^ XOR_MASK
  }

  method MakeFormatBits(mask: nat) returns (bits: bv16)
    requires mask < 8
    ensures bits == FormatBits(mask)
  {
    var data := FormatData(mask);
    var value := data << 10;
    var i := 14;
    while i >= 10
      invariant 9 <= i <= 14
      invariant Reduce(value, i) == Reduce(data << 10, 14)
    {
      if BitAt(value, i) {
        value := value ^ (GENERATOR << (i - 10));
      }
      i := i - 1;
    }
    return ((data << 10) | value) ^ XOR_MASK;
  }

  /** The eight format words of level L. */
  lemma FormatTable()
    ensures FormatBits(0) == 0x77C4 && FormatBits(1) == 0x72F3 && FormatBits(2) == 0x7DAA && FormatBits(3) == 0x789D
    ensures FormatBits(4) == 0x662F && FormatBits(5) == 0x6318 && FormatBits(6) == 0x6C41 && FormatBits(7) == 0x6976
  {
    assert FormatData(0) == 0x8;
    assert Reduce(0x9B8, 11) == 0x3D6;
    assert Reduce(0x2000, 13) == 0x3D6;
    assert FormatData(1) == 0x9;
    assert Reduce(0xDB8, 11) == 0x2E1;
    assert Reduce(0x2400, 13) == 0x2E1;
    assert FormatData(2) == 0xa;
    assert Reduce(0x1B8, 11) == 0x1B8;
    assert Reduce(0x2800, 13) == 0x1B8;
    assert FormatData(3) == 0xb;
    assert Reduce(0x5B8, 11) == 0x8F;
    assert Reduce(0x2C00, 13) == 0x8F;
    assert FormatData(4) == 0xc;
    assert Reduce(0xD64, 11) == 0x23D;
    assert Reduce(0x3000, 13) == 0x23D;
    assert FormatData(5) == 0xd;
    assert Reduce(0x964, 11) == 0x30A;
    assert Reduce(0x3400, 13) == 0x30A;
    assert FormatData(6) == 0xe;
    assert Reduce(0x564, 11) == 0x53;
    assert Reduce(0x3800, 13) == 0x53;
    assert FormatData(7) == 0xf;
    assert Reduce(0x164, 11) == 0x164;
    assert Reduce(0x3C00, 13) == 0x164;
  }

  /** Bits 10 to 12, with the fixed pattern removed, are the mask number. */
  lemma MaskBits(mask: nat)
    requires mask < 8
    ensures (if BitAt(FormatBits(mask), 10) then 0 else 1) + (if BitAt(FormatBits(mask), 11) then 2 else 0) +
            (if BitAt(FormatBits(mask), 12) then 0 else 4) == mask
  {
    hide FormatBits;
    FormatTable();
  }
}
