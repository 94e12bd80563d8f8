/** Bit strings of the QR encoder: bytes and counts as bits, most significant first. */
module QrBits {
  import opened Wrappers
  import opened Bytes
  import opened Galois

  type Bits = seq<bool>

  /** Bit k of a byte, counted from the most significant. */
  predicate BitOf(b: bv8, k: nat)
    requires k < 8
  {
    HasBit(b, 7 - k)
  }

  function ByteBits(b: bv8): (s: Bits)
    ensures |s| == 8 && forall k: nat | k < 8 :: s[k] == BitOf(b, k)
  {
    seq(8, k requires 0 <= k < 8 => BitOf(b, k))
  }

  function FromBits(s: Bits): bv8
    requires |s| == 8
  {
    Add(Add(Add(Add(Add(Add(Add(When(s[7], 1), When(s[6], 2)), When(s[5], 4)), When(s[4], 8)),
                    When(s[3], 16)), When(s[2], 32)), When(s[1], 64)), When(s[0], 128))
  }

  lemma ByteRoundTrip(b: bv8)
    ensures FromBits(ByteBits(b)) == b
  {
    hide Add;
    BitWhen(b, 0);
    BitWhen(b, 1);
    BitWhen(b, 2);
    BitWhen(b, 3);
    BitWhen(b, 4);
    BitWhen(b, 5);
    BitWhen(b, 6);
    BitWhen(b, 7);
    BitsOf(b);
  }

  lemma BitWhen(b: bv8, k: nat)
    requires k < 8
    ensures When(BitOf(b, 7 - k), Power(k)) == b & Power(k)
  {
    OneBit(b, Power(k));
  }

  lemma AndAdd(a: bv8, b: bv8, p: bv8)
    ensures Add(a, b) & p == Add(a & p, b & p)
  {
  }

  lemma WhenAnd(c: bool, i: nat, j: nat)
    requires i < 8 && j < 8
    ensures When(c, Power(i)) & Power(j) == if i == j then When(c, Power(j)) else 0
  {
  }

  /** Bit j of a byte built from bits is that bit. */
  lemma FromBitsAt(s: Bits, j: nat)
    requires |s| == 8 && j < 8
    ensures FromBits(s) & Power(j) == When(s[7 - j], Power(j))
  {
    hide Add, When;
    var p := Power(j);
    var a1 := Add(When(s[7], 1), When(s[6], 2));
    var a2 := Add(a1, When(s[5], 4));
    var a3 := Add(a2, When(s[4], 8));
    var a4 := Add(a3, When(s[3], 16));
    var a5 := Add(a4, When(s[2], 32));
    var a6 := Add(a5, When(s[1], 64));
    AndAdd(a6, When(s[0], 128), p);
    AndAdd(a5, When(s[1], 64), p);
    AndAdd(a4, When(s[2], 32), p);
    AndAdd(a3, When(s[3], 16), p);
    AndAdd(a2, When(s[4], 8), p);
    AndAdd(a1, When(s[5], 4), p);
    AndAdd(When(s[7], 1), When(s[6], 2), p);
    WhenAnd(s[7], 0, j);
    WhenAnd(s[6], 1, j);
    WhenAnd(s[5], 2, j);
    WhenAnd(s[4], 3, j);
    WhenAnd(s[3], 4, j);
    WhenAnd(s[2], 5, j);
    WhenAnd(s[1], 6, j);
    WhenAnd(s[0], 7, j);
    AddLaws(0, 0, 0);
    AddLaws(When(s[7 - j], p), 0, 0);
  }

  lemma BitsRoundTrip(s: Bits)
    requires |s| == 8
    ensures ByteBits(FromBits(s)) == s
  {
    hide FromBits;
    forall k: nat | k < 8 ensures BitOf(FromBits(s), k) == s[k] { FromBitsAt(s, 7 - k); }
  }

  /** All bits of a byte string. */
  function AllBits(bytes: seq<bv8>): (s: Bits)
    ensures |s| == 8 * |bytes|
  {
    if bytes == [] then [] else AllBits(bytes[..|bytes| - 1]) + ByteBits(bytes[|bytes| - 1])
  }

  lemma {:induction false} AllBitsAt(bytes: seq<bv8>, i: nat)
    requires i < 8 * |bytes|
    ensures AllBits(bytes)[i] == BitOf(bytes[i / 8], i % 8)
  {
    hide BitOf;
    var n := |bytes| - 1;
    if i < 8 * n { AllBitsAt(bytes[..n], i); }
  }

  lemma {:induction false} AllBitsConcat(a: seq<bv8>, b: seq<bv8>)
    ensures AllBits(a + b) == AllBits(a) + AllBits(b)
    decreases |b|
  {
    if b == [] {
      assert a + b == a;
    } else {
      var n := |b| - 1;
      assert (a + b)[..|a + b| - 1] == a + b[..n];
      AllBitsConcat(a, b[..n]);
    }
  }

  /** Bytes read back from a bit string, a last incomplete byte being dropped. */
  function Pack(s: Bits): (bytes: seq<bv8>)
    ensures |bytes| == |s| / 8
    decreases |s|
  {
    if |s| < 8 then [] else [FromBits(s[..8])] + Pack(s[8..])
  }

  lemma {:induction false} PackBits(bytes: seq<bv8>)
    ensures Pack(AllBits(bytes)) == bytes
  {
    hide FromBits, ByteBits;
    if bytes != [] {
      var head, tail := [bytes[0]], bytes[1..];
      assert bytes == head + tail;
      AllBitsConcat(head, tail);
      OneByte(bytes[0]);
      var s := AllBits(bytes);
      assert s[..8] == ByteBits(bytes[0]) && s[8..] == AllBits(tail);
      ByteRoundTrip(bytes[0]);
      PackBits(tail);
    }
  }

  lemma {:induction false} BitsPack(s: Bits)
    requires |s| % 8 == 0
    ensures AllBits(Pack(s)) == s
    decreases |s|
  {
    hide FromBits, ByteBits;
    if |s| >= 8 {
      var head, tail := s[..8], s[8..];
      BitsPack(tail);
      AllBitsConcat([FromBits(head)], Pack(tail));
      OneByte(FromBits(head));
      BitsRoundTrip(head);
      assert s == head + tail;
    }
  }

  lemma OneByte(b: bv8)
    ensures AllBits([b]) == ByteBits(b)
  {
    assert [b][..0] == [];
    assert AllBits([]) == [];
  }

  // ----- counts -----

  /** The low k bits of n. */
  function CountBits(n: nat, k: nat): (s: Bits)
    ensures |s| == k
  {
    if k == 0 then [] else CountBits(n / 2, k - 1) + [n % 2 == 1]
  }

  function NumberOf(s: Bits): nat {
    if s == [] then 0 else 2 * NumberOf(s[..|s| - 1]) + (if s[|s| - 1] then 1 else 0)
  }

  function Pow2(k: nat): (p: nat)
    ensures p > 0
  {
    if k == 0 then 1 else 2 * Pow2(k - 1)
  }

  lemma {:induction false} CountRoundTrip(n: nat, k: nat)
    requires n < Pow2(k)
    ensures NumberOf(CountBits(n, k)) == n
    decreases k
  {
    if k > 0 {
      CountRoundTrip(n / 2, k - 1);
      assert CountBits(n, k)[..k - 1] == CountBits(n / 2, k - 1);
    }
  }

  /** Bit i, from the most significant, of a k-bit count is (n >> (k - 1 - i)) & 1. */
  lemma {:induction false} CountBitsAt(n: nat, k: nat, i: nat)
    requires i < k
    ensures CountBits(n, k)[i] == (n / Pow2(k - 1 - i) % 2 == 1)
    decreases k
  {
    if i < k - 1 {
      CountBitsAt(n / 2, k - 1, i);
      DivTwice(n, Pow2(k - 2 - i));
    }
  }

  lemma DivTwice(n: nat, p: nat)
    requires p > 0
    ensures n / 2 / p == n / (2 * p)
  {
    var q := n / 2 / p;
    assert n / 2 == q * p + n / 2 % p;
    assert n == 2 * (n / 2) + n % 2;
    assert n == q * (2 * p) + (2 * (n / 2 % p) + n % 2);
    QuotientIs(n, 2 * p, q, 2 * (n / 2 % p) + n % 2);
  }
}
