/** The Internet checksum: a folded one's-complement sum of big-endian 16-bit words. */
module Checksum {
  import opened Words

  /** Sum of the words; an odd last byte is the high half of a word. */
  function Sum(data: seq<Byte>): nat {
    if |data| == 0 then 0
    else if |data| == 1 then Pair(data[0], 0)
    else Pair(data[0], data[1]) + Sum(data[2..])
  }

  function Fold(sum: nat): (f: Half)
    ensures f % 65535 == sum % 65535 && (f == 0 <==> sum == 0)
  {
    if sum < 0x1_0000 then sum else Fold(sum % 0x1_0000 + sum / 0x1_0000)
  }

  function Complement(f: Half): Half {
    0xFFFF - f
  }

  function ChecksumOf(data: seq<Byte>): Half {
    Complement(Fold(Sum(data)))
  }

  method MakeChecksum(data: seq<Byte>) returns (c: Half)
    requires |data| <= 0x1_0000
    ensures c == ChecksumOf(data)
  {
    var sum := 0;
    var at := 0;
    assert data[0..] == data;
    while |data| - at > 1
      invariant 0 <= at <= |data| && at % 2 == 0
      invariant sum + Sum(data[at..]) == Sum(data)
      invariant sum <= 0xFFFF * (at / 2)
    {
      sum := sum + Pair(data[at], data[at + 1]);
      assert data[at..][2..] == data[at + 2..];
      at := at + 2;
    }
    if |data| - at > 0 {
      sum := sum + Pair(data[at], 0);
    }
    // the 32-bit accumulator of the code does not overflow
    assert sum < 0x1_0000_0000;
    while sum >= 0x1_0000
      invariant 0 <= sum && Fold(sum) == Fold(Sum(data))
    {
      sum := sum % 0x1_0000 + sum / 0x1_0000;
    }
    return Complement(sum);
  }

  // ----- what the receiver's test means -----

  /** The test passes exactly when the sum is a positive multiple of 65535. */
  lemma ZeroIff(data: seq<Byte>)
    ensures ChecksumOf(data) == 0 <==> Sum(data) > 0 && Sum(data) % 65535 == 0
  {
  }

  lemma {:induction false} SumConcat(a: seq<Byte>, b: seq<Byte>)
    requires |a| % 2 == 0
    ensures Sum(a + b) == Sum(a) + Sum(b)
  {
    if |a| == 0 {
      assert a + b == b;
    } else {
      SumConcat(a[2..], b);
      assert (a + b)[2..] == a[2..] + b;
    }
  }

  lemma SumField(pre: seq<Byte>, v: Half, post: seq<Byte>)
    requires |pre| % 2 == 0
    ensures Sum(pre + [High(v), Low(v)] + post) == Sum(pre) + v + Sum(post)
  {
    SumConcat(pre + [High(v), Low(v)], post);
    SumConcat(pre, [High(v), Low(v)]);
    PairSplit(v);
    assert [High(v), Low(v)][2..] == [];
  }

  /** Filling the field with the checksum computed over a zero field makes the test pass; so does 0xFFFF when that
      checksum is 0. */
  lemma FilledPasses(pre: seq<Byte>, post: seq<Byte>)
    requires |pre| % 2 == 0
    ensures var c := ChecksumOf(pre + [0, 0] + post);
            && ChecksumOf(pre + [High(c), Low(c)] + post) == 0
            && (c == 0 ==> ChecksumOf(pre + [0xFF, 0xFF] + post) == 0)
  {
    assert High(0) == 0 && Low(0) == 0 && High(0xFFFF) == 0xFF && Low(0xFFFF) == 0xFF;
    hide Sum, Fold, High, Low;
    var c := ChecksumOf(pre + [0, 0] + post);
    SumField(pre, 0, post);
    SumField(pre, c, post);
    SumField(pre, 0xFFFF, post);
    Completes(Sum(pre) + Sum(post), c);
    ZeroIff(pre + [High(c), Low(c)] + post);
    ZeroIff(pre + [0xFF, 0xFF] + post);
  }

  lemma Completes(sum: nat, c: Half)
    requires c == Complement(Fold(sum))
    ensures sum + c > 0 && (sum + c) % 65535 == 0
    ensures c == 0 ==> (sum + 0xFFFF) % 65535 == 0
  {
  }

  lemma {:induction false} SumUpdate(data: seq<Byte>, i: nat, b: Byte)
    requires i < |data|
    ensures Sum(data[i := b]) - Sum(data) == (b - data[i]) * (if i % 2 == 0 then 256 else 1)
  {
    if i >= 2 {
      assert data[i := b][2..] == data[2..][i - 2 := b];
      SumUpdate(data[2..], i - 2, b);
    } else if |data| > 1 {
      assert data[i := b][2..] == data[2..];
    }
  }

  /** Every change of a single byte in a message that passes is detected. */
  lemma ByteChangeDetected(data: seq<Byte>, i: nat, b: Byte)
    requires i < |data| && ChecksumOf(data) == 0 && b != data[i]
    ensures ChecksumOf(data[i := b]) != 0
  {
    hide Sum, Fold;
    SumUpdate(data, i, b);
    ZeroIff(data);
    ZeroIff(data[i := b]);
    var was, now := Sum(data), Sum(data[i := b]);
    assert -65535 < now - was < 65535 && now != was;
    if now % 65535 == 0 { MultiplesApart(was, now); }
  }

  lemma MultiplesApart(x: int, y: int)
    requires x % 65535 == 0 && y % 65535 == 0 && -65535 < x - y < 65535
    ensures x == y
  {
  }
}
