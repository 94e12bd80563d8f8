/** TCP segments as the client sees them after the header has been checked, and the peer that sends them. */
module TcpSegments {
  import opened Wrappers
  import opened Words

  /** `flags` is the flag byte, `options` the header bytes after the first twenty. */
  datatype Segment = Segment(flags: Byte, seqno: Word, ackno: Word, options: seq<Byte>, payload: seq<Byte>)

  predicate Fin(flags: Byte) { flags % 2 == 1 }
  predicate Syn(flags: Byte) { flags / 2 % 2 == 1 }
  predicate Rst(flags: Byte) { flags / 4 % 2 == 1 }
  predicate Ack(flags: Byte) { flags / 16 % 2 == 1 }

  const SYN: Byte := 0x02
  const ACK: Byte := 0x10
  const FIN_ACK: Byte := 0x11
  const PSH_ACK: Byte := 0x18

  const MAX_PAYLOAD := 1460

  /** Something handed to the network. */
  datatype Sent = Sent(flags: Byte, seqno: Word, ackno: Word, payload: seq<Byte>)

  /** A segment of a peer with initial number `isn` and byte stream `stream`: payload at offset k, FIN only at
      the end, and behind the FIN empty acknowledgements. */
  predicate FromPeer(isn: Word, stream: seq<Byte>, s: Segment, k: nat) {
    && (if Syn(s.flags) then s.seqno == isn && k == 0 else s.seqno == Wrap(isn + 1 + k))
    && if k == |stream| + 1 then s.payload == [] && !Fin(s.flags) && !Syn(s.flags)
       else
         && k + |s.payload| <= |stream|
         && s.payload == stream[k..k + |s.payload|]
         && (Fin(s.flags) ==> k + |s.payload| == |stream|)
  }

  /** Within 2^32 of the current position. */
  predicate Near(cur: nat, s: Segment, k: nat) {
    cur + 1 - MODULUS < k && k + |s.payload| < cur + MODULUS
  }

  ghost predicate Genuine(isn: Word, stream: seq<Byte>, cur: nat, s: Segment) {
    exists k: nat :: FromPeer(isn, stream, s, k) && Near(cur, s, k)
  }

  /** What the client holds is the peer's stream up to position `cur`. */
  predicate Tracks(isn: Word, stream: seq<Byte>, syn: bool, closed: bool, overflow: bool, rcv: Word, cur: nat,
                   got: seq<Byte>)
  {
    && cur <= |stream|
    && (!syn ==> cur == 0 && !closed && !overflow && got == [])
    && (syn ==> rcv == Wrap(isn + 1 + cur + One(closed)))
    && (closed ==> cur == |stream|)
    && (!overflow ==> got == stream[..cur])
  }

  /** The sequence number of a genuine segment's payload equals the expected one exactly when the payload starts
      at the current position. */
  lemma PayloadInOrder(isn: Word, stream: seq<Byte>, closed: bool, overflow: bool, rcv: Word, cur: nat, got: seq<Byte>,
                       s: Segment, k: nat)
    requires Tracks(isn, stream, true, closed, overflow, rcv, cur, got)
    requires FromPeer(isn, stream, s, k) && Near(cur, s, k)
    ensures var p := Wrap(s.seqno + One(Syn(s.flags)));
            && p == Wrap(isn + 1 + k)
            && (p == rcv <==> k == cur + One(closed))
            && (|s.payload| > 0 && p == rcv ==> !closed)
            && (k != cur || closed ==> (Wrap(p + |s.payload|) == rcv <==> k + |s.payload| == cur + One(closed)))
  {
    hide Wrap;
    PayloadNumberIs(isn, stream, s, k);
    var p := Wrap(s.seqno + One(Syn(s.flags)));
    var here, e := cur + One(closed), k + |s.payload|;
    if p == rcv { WrapInjective(isn + 1 + k, isn + 1 + here); }
    WrapAdd(isn + 1 + k, |s.payload|);
    if Wrap(isn + 1 + e) == rcv { WrapInjective(isn + 1 + e, isn + 1 + here); }
  }

  lemma PayloadNumberIs(isn: Word, stream: seq<Byte>, s: Segment, k: nat)
    requires FromPeer(isn, stream, s, k)
    ensures Wrap(s.seqno + One(Syn(s.flags))) == Wrap(isn + 1 + k)
  {
  }

  /** Taking an in-order payload moves the position on; only a payload that does not fit sets `overflow`. */
  lemma TakeInOrderTracks(isn: Word, stream: seq<Byte>, overflow: bool, rcv: Word, cur: nat, got: seq<Byte>, s: Segment, n: nat)
    requires Tracks(isn, stream, true, false, overflow, rcv, cur, got)
    requires FromPeer(isn, stream, s, cur) && n <= |s.payload|
    ensures Tracks(isn, stream, true, false, overflow || n < |s.payload|, Wrap(rcv + |s.payload|), cur + |s.payload|,
                   got + s.payload[..n])
  {
  }

  // ----- maximum segment size -----

  /** The well-formed options before an end mark or the first malformed one. */
  function Options(o: seq<Byte>): (r: seq<(Byte, seq<Byte>)>)
    decreases |o|
  {
    if |o| == 0 || o[0] == 0 then []
    else if o[0] == 1 then Options(o[1..])
    else if |o| < 2 || o[1] < 2 || o[1] > |o| then []
    else [(o[0], o[2..o[1]])] + Options(o[o[1]..])
  }

  function Read16(b: seq<Byte>): Half
    requires |b| >= 2
  {
    Pair(b[0], b[1])
  }

  predicate Advertises(option: (Byte, seq<Byte>), v: int) {
    option.0 == 2 && |option.1| == 2 && Read16(option.1) == v && v >= 536
  }

  /** v is the least of m and the advertised sizes of at least 536. */
  ghost predicate IsLeast(options: seq<(Byte, seq<Byte>)>, m: int, v: int) {
    && v <= m
    && (v == m || exists i | 0 <= i < |options| :: Advertises(options[i], v))
    && forall i, w | 0 <= i < |options| && Advertises(options[i], w) :: v <= w
  }

  function Lower(option: (Byte, seq<Byte>), m: int): int {
    if option.0 == 2 && |option.1| == 2 && 536 <= Read16(option.1) < m then Read16(option.1) else m
  }

  function LowerAll(options: seq<(Byte, seq<Byte>)>, m: int): int {
    if |options| == 0 then m else LowerAll(options[1..], Lower(options[0], m))
  }

  lemma {:induction false} LowerAllIsLeast(options: seq<(Byte, seq<Byte>)>, m: int)
    ensures IsLeast(options, m, LowerAll(options, m))
    ensures m >= 536 ==> LowerAll(options, m) >= 536
  {
    if |options| > 0 {
      var rest, n := options[1..], Lower(options[0], m);
      var v := LowerAll(rest, n);
      LowerAllIsLeast(rest, n);
      if v != n {
        var i :| 0 <= i < |rest| && Advertises(rest[i], v);
        assert Advertises(options[i + 1], v);
      } else if v != m {
        assert Advertises(options[0], v);
      }
      forall i, w | 0 <= i < |options| && Advertises(options[i], w) ensures v <= w {
        if i > 0 { assert Advertises(rest[i - 1], w); }
      }
    }
  }

  predicate Malformed(options: seq<Byte>, index: nat)
    requires index < |options|
  {
    index + 1 >= |options| || options[index + 1] < 2 || options[index + 1] > |options| - index
  }

  /** What the options from `index` on make of m. */
  function MssFrom(options: seq<Byte>, index: nat, m: int): int
    requires index <= |options|
  {
    LowerAll(Options(options[index..]), m)
  }

  lemma OptionsAt(options: seq<Byte>, index: nat, m: int)
    requires index < |options|
    ensures options[index] == 0 || (options[index] > 1 && Malformed(options, index)) ==> MssFrom(options, index, m) == m
    ensures options[index] == 1 ==> MssFrom(options, index, m) == MssFrom(options, index + 1, m)
    ensures options[index] > 1 && !Malformed(options, index) ==>
              var size := options[index + 1];
              MssFrom(options, index, m) ==
              MssFrom(options, index + size, Lower((options[index], options[index + 2..index + size]), m))
  {
    hide Lower;
    var rest := options[index..];
    assert rest[1..] == options[index + 1..];
    if options[index] > 1 && !Malformed(options, index) {
      var size := options[index + 1];
      assert rest[2..size] == options[index + 2..index + size] && rest[size..] == options[index + size..];
    }
  }

  method PeerMssFromOptions(options: seq<Byte>) returns (mss: nat)
    ensures IsLeast(Options(options), MAX_PAYLOAD, mss) && 536 <= mss <= 1460
  {
    LowerAllIsLeast(Options(options), MAX_PAYLOAD);
    mss := MAX_PAYLOAD;
    var index := 0;
    assert options[0..] == options;
    assert forall m :: MssFrom(options, |options|, m) == m;
    hide IsLeast, Options, LowerAll, MssFrom;
    while index < |options|
      invariant index <= |options|
      invariant MssFrom(options, index, mss) == MssFrom(options, 0, MAX_PAYLOAD)
    {
      OptionsAt(options, index, mss);
      var kind := options[index];
      if kind == 0 {
        break;
      }
      if kind == 1 {
        index := index + 1;
        continue;
      }
      if Malformed(options, index) {
        break;
      }
      var size := options[index + 1];
      if kind == 2 && size == 4 {
        var advertised := Read16(options[index + 2..index + 4]);
        if advertised >= 536 && advertised < mss {
          mss := advertised;
        }
      }
      index := index + size;
    }
  }
}
