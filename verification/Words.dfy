/** Bytes and 32-bit sequence numbers. */
module Words {
  type Byte = x: int | 0 <= x < 256
  type Half = x: int | 0 <= x < 0x1_0000
  type Word = x: int | 0 <= x < 0x1_0000_0000

  function High(v: Half): Byte { v / 256 }
  function Low(v: Half): Byte { v % 256 }

  function Pair(high: Byte, low: Byte): Half {
    var h: int, l: int := high, low;
    256 * h + l
  }

  lemma PairSplit(v: Half)
    ensures Pair(High(v), Low(v)) == v
  {
  }

  /** A hexadecimal digit in either case, or -1. */
  function HexValue(c: char): (v: int)
    ensures -1 <= v < 16
  {
    if '0' <= c <= '9' then (c - '0') as int
    else if 'a' <= c <= 'f' then (c - 'a') as int + 10
    else if 'A' <= c <= 'F' then (c - 'A') as int + 10
    else -1
  }

  /** The sixteen digits by position, the letters in both cases, and nothing else. */
  lemma HexDigits(i: nat, c: char)
    requires i < 16
    ensures HexValue("0123456789abcdef"[i]) == i && HexValue("0123456789ABCDEF"[i]) == i
    ensures HexValue(c) >= 0 ==> c == "0123456789abcdef"[HexValue(c)] || c == "0123456789ABCDEF"[HexValue(c)]
  {
  }

  const MODULUS := 0x1_0000_0000

  /** An unbounded position as a 32-bit number. */
  function Wrap(x: int): Word {
    x % MODULUS
  }

  /** A 32-bit number read as a signed one. */
  function Signed(w: Word): int {
    if w < 0x8000_0000 then w else w - MODULUS
  }

  /** Positions closer than 2^32 are told apart by their sequence numbers. */
  lemma WrapInjective(x: int, y: int)
    requires Wrap(x) == Wrap(y) && -MODULUS < x - y < MODULUS
    ensures x == y
  {
  }

  lemma WrapAdd(x: int, n: int)
    ensures Wrap(Wrap(x) + n) == Wrap(x + n)
  {
  }

  /** Position p lies in (acked, sent] and carries number a. */
  predicate Outstanding(base: int, acked: int, sent: int, a: Word, p: int) {
    acked < p <= sent && Wrap(base + p) == a
  }

  /** With at most 2^31 - 1 positions outstanding, the signed comparisons of the acknowledgement test accept
      exactly the numbers of outstanding positions. */
  lemma AckInWindow(base: int, acked: int, sent: int, a: Word)
    requires acked <= sent < acked + 0x8000_0000
    ensures Signed(Wrap(a - Wrap(base + acked))) > 0 && Signed(Wrap(Wrap(base + sent) - a)) >= 0 <==>
            exists p :: Outstanding(base, acked, sent, a, p)
    ensures Signed(Wrap(a - Wrap(base + acked))) > 0 && Signed(Wrap(Wrap(base + sent) - a)) >= 0 ==>
            Outstanding(base, acked, sent, a, acked + Wrap(a - Wrap(base + acked)))
  {
    AckDistance(base, acked, sent, a);
    var d := Wrap(a - Wrap(base + acked));
    assert Signed(d) > 0 && Signed(Wrap(Wrap(base + sent) - a)) >= 0 ==> Outstanding(base, acked, sent, a, acked + d);
    forall p | Outstanding(base, acked, sent, a, p) ensures d == p - acked {
      PositionDistance(base, acked, p);
    }
  }

  /** The signed difference of two numbers is the difference of their positions. */
  lemma SignedDifference(x: int, y: int)
    requires -0x8000_0000 <= x - y < 0x8000_0000
    ensures Signed(Wrap(Wrap(x) - Wrap(y))) == x - y
  {
  }

  lemma PositionDistance(base: int, acked: int, p: int)
    requires 0 <= p - acked < MODULUS
    ensures Wrap(Wrap(base + p) - Wrap(base + acked)) == p - acked
  {
  }

  lemma AckDistance(base: int, acked: int, sent: int, a: Word)
    requires acked <= sent < acked + 0x8000_0000
    ensures var d := Wrap(a - Wrap(base + acked));
            && Wrap(base + acked + d) == a
            && Wrap(Wrap(base + sent) - a) == (if d <= sent - acked then sent - acked - d else sent - acked - d + MODULUS)
  {
  }
}
