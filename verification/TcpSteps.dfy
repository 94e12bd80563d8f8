/** The TCP client as a state machine: what each arriving segment does, and what every step keeps. */
module TcpSteps {
  import opened Wrappers
  import opened Words
  import opened TcpSegments

  /** Fixed for a connection: buffer size, our initial number, the outcome of the i-th send. */
  datatype Config = Config(capacity: nat, iss: Word, sendOk: nat -> bool)

  datatype Peer = Peer(isn: Word, stream: seq<Byte>)

  datatype Client = Client(active: bool, syn: bool, reset: bool, requestAcked: bool, closed: bool, finSent: bool,
                           overflow: bool, requestSent: bool, mss: nat, nxt: Word, rcv: Word, una: Word)

  /** Have all segments been genuine; position in the peer's stream; bytes handed out by reads; the unwrapped
      positions behind `nxt` and `una`. */
  datatype History = History(genuine: bool, cur: nat, taken: seq<Byte>, sentPos: int, ackedPos: int)

  /** `pending` holds the bytes received and not yet handed out. */
  datatype State = State(c: Client, pending: seq<Byte>, log: seq<Sent>, attempts: nat, h: History)

  // ----- sending -----

  function Emit(cf: Config, s: State, flags: Byte, seqno: Word, payload: seq<Byte>): (r: (State, bool)) {
    if |payload| > MAX_PAYLOAD then (s, false)
    else
      var ok := cf.sendOk(s.attempts);
      (s.(attempts := s.attempts + 1, log := if ok then s.log + [Sent(flags, seqno, s.c.rcv, payload)] else s.log), ok)
  }

  function Reply(cf: Config, s: State, flags: Byte): State {
    Emit(cf, s, flags, s.c.nxt, []).0
  }

  // ----- the handler, step by step -----

  function Mss(options: seq<Byte>): (m: nat)
    ensures 536 <= m <= MAX_PAYLOAD
  {
    LowerAllIsLeast(Options(options), MAX_PAYLOAD);
    LowerAll(Options(options), MAX_PAYLOAD)
  }

  function Open(cf: Config, s: State, seg: Segment): State {
    var c := s.c.(syn := true, rcv := Wrap(seg.seqno + 1), una := Wrap(cf.iss + 1), mss := Mss(seg.options));
    Reply(cf, s.(c := c, h := s.h.(ackedPos := 1)), ACK)
  }

  predicate Acceptable(c: Client, ackno: Word) {
    Signed(Wrap(ackno - c.una)) > 0 && Signed(Wrap(c.nxt - ackno)) >= 0
  }

  function TakeAck(s: State, ackno: Word): State {
    var t := if Acceptable(s.c, ackno)
             then s.(c := s.c.(una := ackno), h := s.h.(ackedPos := s.h.ackedPos + Wrap(ackno - s.c.una)))
             else s;
    if t.c.requestSent && ackno == t.c.nxt then t.(c := t.c.(requestAcked := true)) else t
  }

  function Copied(cf: Config, s: State, payload: seq<Byte>): (n: nat)
    ensures n <= |payload|
  {
    if |s.pending| + |payload| <= cf.capacity then |payload|
    else if |s.pending| <= cf.capacity then cf.capacity - |s.pending| else 0
  }

  function Deliver(cf: Config, s: State, payload: seq<Byte>): State {
    var n := Copied(cf, s, payload);
    s.(pending := s.pending + payload[..n],
       c := s.c.(overflow := s.c.overflow || n < |payload|, rcv := Wrap(s.c.rcv + |payload|)),
       h := s.h.(cur := s.h.cur + |payload|))
  }

  function PayloadNumber(seg: Segment): Word {
    Wrap(seg.seqno + One(Syn(seg.flags)))
  }

  function TakePayload(cf: Config, s: State, seg: Segment): State {
    if |seg.payload| == 0 then s
    else Reply(cf, if PayloadNumber(seg) == s.c.rcv then Deliver(cf, s, seg.payload) else s, ACK)
  }

  function TakeFin(cf: Config, s: State, p: Word): State {
    if p != s.c.rcv then Reply(cf, s, ACK)
    else
      var t := Reply(cf, s.(c := s.c.(rcv := Wrap(s.c.rcv + 1), closed := true)), ACK);
      if t.c.finSent then t else SendFin(cf, t)
  }

  function SendFin(cf: Config, s: State): State {
    var (t, ok) := Emit(cf, s, FIN_ACK, s.c.nxt, []);
    if ok then t.(c := t.c.(nxt := Wrap(t.c.nxt + 1), finSent := true), h := t.h.(sentPos := t.h.sentPos + 1)) else t
  }

  predicate SynAck(cf: Config, seg: Segment) {
    Syn(seg.flags) && Ack(seg.flags) && seg.ackno == Wrap(cf.iss + 1)
  }

  function Process(cf: Config, s: State, seg: Segment): State {
    var t := if Ack(seg.flags) then TakeAck(s, seg.ackno) else s;
    var u := TakePayload(cf, t, seg);
    if Fin(seg.flags) then TakeFin(cf, u, Wrap(PayloadNumber(seg) + |seg.payload|)) else u
  }

  ghost function Note(peer: Peer, s: State, seg: Segment): State {
    s.(h := s.h.(genuine := s.h.genuine && Genuine(peer.isn, peer.stream, s.h.cur, seg)))
  }

  ghost function Handle(cf: Config, peer: Peer, s: State, seg: Segment): State {
    if !s.c.active then s
    else
      var t := Note(peer, s, seg);
      if Rst(seg.flags) then t.(c := t.c.(reset := true))
      else if SynAck(cf, seg) && !t.c.syn then Process(cf, Open(cf, t, seg), seg)
      else if SynAck(cf, seg) then Reply(cf, t, ACK)
      else if !t.c.syn then t
      else Process(cf, t, seg)
  }

  // ----- invariants -----

  ghost predicate Receiving(peer: Peer, s: State) {
    s.h.genuine ==> Tracks(peer.isn, peer.stream, s.c.syn, s.c.closed, s.c.overflow, s.c.rcv, s.h.cur, s.h.taken + s.pending)
  }

  ghost predicate Numbered(cf: Config, s: State) {
    && s.c.nxt == Wrap(cf.iss + s.h.sentPos)
    && (s.c.syn ==> s.c.una == Wrap(cf.iss + s.h.ackedPos))
    && (s.c.finSent ==> s.c.syn)
  }

  /** Our SYN has not been sent yet, whatever has arrived. */
  ghost predicate BeforeSyn(cf: Config, s: State) {
    Numbered(cf, s) && s.h.sentPos == One(s.c.finSent) && (s.c.syn ==> s.h.ackedPos == 1)
  }

  /** The largest distance that, with a FIN, the signed comparisons of sequence numbers can tell. */
  const SPAN := 0x7FFF_FFFE

  /** In true positions, una <= nxt <= una + limit, plus one for a FIN. */
  ghost predicate Within(cf: Config, s: State, limit: nat) {
    && Numbered(cf, s) && 536 <= s.c.mss <= MAX_PAYLOAD
    && (s.c.syn ==> 1 <= s.h.ackedPos <= s.h.sentPos <= s.h.ackedPos + limit + One(s.c.finSent))
    && (!s.c.syn ==> s.h.sentPos == 1)
  }

  ghost predicate Ordered(cf: Config, s: State) {
    Within(cf, s, SPAN)
  }

  /** At most one segment is unacknowledged. */
  ghost predicate Window(cf: Config, s: State) {
    Within(cf, s, s.c.mss)
  }

  /** The sends with flag byte `flags`. */
  function Of(log: seq<Sent>, flags: Byte): seq<Sent> {
    if |log| == 0 then []
    else Of(log[..|log| - 1], flags) + (if log[|log| - 1].flags == flags then [log[|log| - 1]] else [])
  }

  lemma OfSnoc(log: seq<Sent>, x: Sent, f: Byte)
    ensures Of(log + [x], f) == Of(log, f) + (if x.flags == f then [x] else [])
  {
    assert (log + [x])[..|log|] == log;
  }

  /** What arriving segments may not change. */
  ghost predicate Follows(s: State, t: State) {
    && t.c.active == s.c.active && t.c.requestSent == s.c.requestSent && t.h.taken == s.h.taken
    && (s.c.reset ==> t.c.reset) && (s.c.finSent ==> t.c.finSent)
    && (s.c.syn ==> t.c.syn && t.c.mss == s.c.mss && t.h.ackedPos >= s.h.ackedPos)
    && (536 <= s.c.mss <= MAX_PAYLOAD ==> 536 <= t.c.mss <= MAX_PAYLOAD)
    && t.h.sentPos == s.h.sentPos + (if t.c.finSent && !s.c.finSent then 1 else 0)
    && (t.h.genuine ==> s.h.genuine) && t.attempts >= s.attempts
    && Of(t.log, SYN) == Of(s.log, SYN) && Of(t.log, PSH_ACK) == Of(s.log, PSH_ACK)
  }

  lemma FollowsTrans(a: State, b: State, c: State)
    requires Follows(a, b) && Follows(b, c)
    ensures Follows(a, c)
  {
    hide Of;
  }

  lemma ReplyKeeps(cf: Config, s: State, flags: Byte)
    requires flags == ACK || flags == FIN_ACK
    ensures var t := Reply(cf, s, flags);
            t == s.(log := t.log, attempts := t.attempts) && t.attempts >= s.attempts &&
            Of(t.log, SYN) == Of(s.log, SYN) && Of(t.log, PSH_ACK) == Of(s.log, PSH_ACK)
  {
    hide Of;
    var x := Sent(flags, s.c.nxt, s.c.rcv, []);
    OfSnoc(s.log, x, SYN);
    OfSnoc(s.log, x, PSH_ACK);
  }

  /** The predicates on numbers depend on these fields only. */
  lemma SameNumbers(cf: Config, s: State, t: State)
    requires s.c.(rcv := 0, closed := true, reset := true, requestAcked := true, overflow := true) ==
             t.c.(rcv := 0, closed := true, reset := true, requestAcked := true, overflow := true)
    requires s.h.sentPos == t.h.sentPos && s.h.ackedPos == t.h.ackedPos
    ensures BeforeSyn(cf, s) == BeforeSyn(cf, t) && Ordered(cf, s) == Ordered(cf, t) && Window(cf, s) == Window(cf, t)
  {
    hide Wrap;
  }

  // ----- each step -----

  lemma OpenKeeps(cf: Config, peer: Peer, s: State, seg: Segment)
    requires !s.c.syn && Syn(seg.flags)
    requires s.h.genuine ==> Genuine(peer.isn, peer.stream, s.h.cur, seg)
    ensures var t := Open(cf, s, seg);
            && t.c.syn && t.h.genuine == s.h.genuine && t.h.cur == s.h.cur && Follows(s, t)
            && (Receiving(peer, s) ==> Receiving(peer, t))
            && (BeforeSyn(cf, s) ==> BeforeSyn(cf, t))
            && (Ordered(cf, s) ==> Ordered(cf, t))
  {
    hide Of, Wrap, Options, LowerAll;
    var c := s.c.(syn := true, rcv := Wrap(seg.seqno + 1), una := Wrap(cf.iss + 1), mss := Mss(seg.options));
    ReplyKeeps(cf, s.(c := c, h := s.h.(ackedPos := 1)), ACK);
  }

  /** An acknowledgement moves `una` exactly when it names an outstanding position. */
  lemma TakeAckWindow(cf: Config, s: State, ackno: Word)
    requires s.c.syn && Ordered(cf, s)
    ensures Ordered(cf, TakeAck(s, ackno))
    ensures Acceptable(s.c, ackno) <==> exists p :: Outstanding(cf.iss, s.h.ackedPos, s.h.sentPos, ackno, p)
    ensures Acceptable(s.c, ackno) ==>
              Outstanding(cf.iss, s.h.ackedPos, s.h.sentPos, ackno, TakeAck(s, ackno).h.ackedPos)
  {
    hide Wrap, Signed;
    AckInWindow(cf.iss, s.h.ackedPos, s.h.sentPos, ackno);
  }

  lemma TakeAckBeforeSyn(cf: Config, s: State, ackno: Word)
    requires s.c.syn && BeforeSyn(cf, s)
    ensures BeforeSyn(cf, TakeAck(s, ackno))
  {
    hide Wrap, Signed;
    AckBeforeSyn(cf.iss, s.h.sentPos, ackno);
  }

  lemma TakeAckFollows(s: State, ackno: Word)
    ensures Follows(s, TakeAck(s, ackno))
  {
    hide Of, Wrap, Acceptable;
  }

  lemma TakeAckKeeps(cf: Config, peer: Peer, s: State, ackno: Word)
    requires s.c.syn
    ensures var t := TakeAck(s, ackno);
            && t.c.syn && t.h.genuine == s.h.genuine && t.h.cur == s.h.cur && Follows(s, t)
            && (Receiving(peer, s) ==> Receiving(peer, t))
            && (BeforeSyn(cf, s) ==> BeforeSyn(cf, t))
            && (Ordered(cf, s) ==> Ordered(cf, t))
  {
    hide Ordered, BeforeSyn, Outstanding, Acceptable, Receiving, Follows;
    TakeAckFollows(s, ackno);
    SameReceiving(peer, s, TakeAck(s, ackno));
    if Ordered(cf, s) { TakeAckWindow(cf, s, ackno); }
    if BeforeSyn(cf, s) { TakeAckBeforeSyn(cf, s, ackno); }
  }

  /** While our SYN is unsent, no acknowledgement number is accepted. */
  lemma AckBeforeSyn(iss: Word, sentPos: int, a: Word)
    requires 0 <= sentPos <= 1
    ensures !(Signed(Wrap(a - Wrap(iss + 1))) > 0 && Signed(Wrap(Wrap(iss + sentPos) - a)) >= 0)
  {
  }

  lemma DeliverKeeps(cf: Config, peer: Peer, s: State, seg: Segment)
    requires s.c.syn && Receiving(peer, s)
    requires s.h.genuine ==> FromPeer(peer.isn, peer.stream, seg, s.h.cur) && !s.c.closed
    ensures Receiving(peer, Deliver(cf, s, seg.payload))
  {
    hide Tracks, FromPeer, Copied, Wrap;
    var got := s.h.taken + s.pending;
    var n := Copied(cf, s, seg.payload);
    assert s.h.taken + (s.pending + seg.payload[..n]) == got + seg.payload[..n];
    if s.h.genuine {
      TakeInOrderTracks(peer.isn, peer.stream, s.c.overflow, s.c.rcv, s.h.cur, got, seg, n);
    }
  }

  lemma TakePayloadFollows(cf: Config, s: State, seg: Segment)
    ensures Follows(s, TakePayload(cf, s, seg))
  {
    hide Of, Wrap, Copied, PayloadNumber;
    if |seg.payload| > 0 {
      ReplyKeeps(cf, if PayloadNumber(seg) == s.c.rcv then Deliver(cf, s, seg.payload) else s, ACK);
    }
  }

  lemma TakePayloadKeeps(cf: Config, peer: Peer, s: State, seg: Segment, k: nat)
    requires s.c.syn && Receiving(peer, s)
    requires s.h.genuine ==> FromPeer(peer.isn, peer.stream, seg, k) && Near(s.h.cur, seg, k)
    ensures var t := TakePayload(cf, s, seg);
            && t.c.syn && t.h.genuine == s.h.genuine && Follows(s, t) && Receiving(peer, t)
            && (BeforeSyn(cf, s) ==> BeforeSyn(cf, t))
            && (Ordered(cf, s) ==> Ordered(cf, t))
            && (t.h.genuine && Wrap(PayloadNumber(seg) + |seg.payload|) == t.c.rcv ==>
                  k + |seg.payload| == t.h.cur + One(t.c.closed))
  {
    hide Wrap, FromPeer, Near, Copied, Ordered, BeforeSyn, Receiving, PayloadNumber, Follows;
    TakePayloadFollows(cf, s, seg);
    SameNumbers(cf, s, TakePayload(cf, s, seg));
    var p := PayloadNumber(seg);
    if s.h.genuine { InOrder(peer, s, seg, k); }
    if |seg.payload| > 0 {
      var d := if p == s.c.rcv then Deliver(cf, s, seg.payload) else s;
      if p == s.c.rcv { DeliverKeeps(cf, peer, s, seg); }
      ReplyKeeps(cf, d, ACK);
      SameReceiving(peer, d, Reply(cf, d, ACK));
    }
  }

  lemma InOrder(peer: Peer, s: State, seg: Segment, k: nat)
    requires s.c.syn && Receiving(peer, s) && s.h.genuine
    requires FromPeer(peer.isn, peer.stream, seg, k) && Near(s.h.cur, seg, k)
    ensures var p, n := PayloadNumber(seg), |seg.payload|;
            && (p == s.c.rcv <==> k == s.h.cur + One(s.c.closed))
            && (n > 0 && p == s.c.rcv ==> !s.c.closed)
            && (n == 0 || p != s.c.rcv ==> (Wrap(p + n) == s.c.rcv <==> k + n == s.h.cur + One(s.c.closed)))
  {
    hide Wrap, Tracks, FromPeer, Near;
    PayloadInOrder(peer.isn, peer.stream, s.c.closed, s.c.overflow, s.c.rcv, s.h.cur, s.h.taken + s.pending, seg, k);
    WrapAdd(seg.seqno + One(Syn(seg.flags)), 0);
  }

  lemma SameReceiving(peer: Peer, s: State, t: State)
    requires t.pending == s.pending && t.h == s.h.(sentPos := t.h.sentPos, ackedPos := t.h.ackedPos)
    requires t.c.syn == s.c.syn && t.c.closed == s.c.closed && t.c.overflow == s.c.overflow && t.c.rcv == s.c.rcv
    ensures Receiving(peer, s) == Receiving(peer, t)
  {
  }

  lemma CloseTracks(isn: Word, stream: seq<Byte>, overflow: bool, rcv: Word, got: seq<Byte>)
    requires Tracks(isn, stream, true, false, overflow, rcv, |stream|, got)
    ensures Tracks(isn, stream, true, true, overflow, Wrap(rcv + 1), |stream|, got)
  {
  }

  lemma TakeFinKeeps(cf: Config, peer: Peer, s: State, p: Word)
    requires s.c.syn && Receiving(peer, s)
    requires s.h.genuine && p == s.c.rcv ==> !s.c.closed && s.h.cur == |peer.stream|
    ensures var t := TakeFin(cf, s, p);
            && t.h.genuine == s.h.genuine && Follows(s, t) && Receiving(peer, t)
            && (BeforeSyn(cf, s) ==> BeforeSyn(cf, t))
            && (Ordered(cf, s) ==> Ordered(cf, t))
  {
    hide Of, Wrap, Tracks, Ordered, BeforeSyn;
    if p != s.c.rcv {
      ReplyKeeps(cf, s, ACK);
      SameNumbers(cf, s, TakeFin(cf, s, p));
    } else {
      if s.h.genuine { CloseTracks(peer.isn, peer.stream, s.c.overflow, s.c.rcv, s.h.taken + s.pending); }
      var r := s.(c := s.c.(rcv := Wrap(s.c.rcv + 1), closed := true));
      ReplyKeeps(cf, r, ACK);
      ReplyKeeps(cf, Reply(cf, r, ACK), FIN_ACK);
      FinWindow(cf, s, TakeFin(cf, s, p));
    }
  }

  lemma FinWindow(cf: Config, s: State, t: State)
    requires s.c.syn
    requires var n := One(t.c.finSent && !s.c.finSent);
             t.c == s.c.(rcv := t.c.rcv, closed := t.c.closed, nxt := if n == 1 then Wrap(s.c.nxt + 1) else s.c.nxt,
                         finSent := s.c.finSent || t.c.finSent) &&
             t.h == s.h.(sentPos := s.h.sentPos + n)
    ensures (BeforeSyn(cf, s) ==> BeforeSyn(cf, t)) && (Ordered(cf, s) ==> Ordered(cf, t))
  {
    hide Wrap;
    WrapAdd(cf.iss + s.h.sentPos, 1);
  }

  lemma ProcessKeeps(cf: Config, peer: Peer, s: State, seg: Segment)
    requires s.c.syn && Receiving(peer, s)
    requires s.h.genuine ==> Genuine(peer.isn, peer.stream, s.h.cur, seg)
    ensures var t := Process(cf, s, seg);
            && t.h.genuine == s.h.genuine && Follows(s, t) && Receiving(peer, t)
            && (BeforeSyn(cf, s) ==> BeforeSyn(cf, t))
            && (Ordered(cf, s) ==> Ordered(cf, t))
  {
    hide Of, Wrap, Follows, Receiving, BeforeSyn, Ordered, TakeAck, TakePayload, TakeFin, Near, Acceptable, Outstanding;
    var k: nat := 0;
    if s.h.genuine {
      var j: nat :| FromPeer(peer.isn, peer.stream, seg, j) && Near(s.h.cur, seg, j);
      k := j;
    }
    var t := if Ack(seg.flags) then TakeAck(s, seg.ackno) else s;
    TakeAckKeeps(cf, peer, s, seg.ackno);
    SelfFollows(s);
    var u := TakePayload(cf, t, seg);
    TakePayloadKeeps(cf, peer, t, seg, k);
    FollowsTrans(s, t, u);
    if Fin(seg.flags) {
      var p := Wrap(PayloadNumber(seg) + |seg.payload|);
      AtEnd(peer, u, seg, k, p);
      TakeFinKeeps(cf, peer, u, p);
      FollowsTrans(s, u, TakeFin(cf, u, p));
    }
  }

  lemma SelfFollows(s: State)
    ensures Follows(s, s)
  {
  }

  lemma AtEnd(peer: Peer, s: State, seg: Segment, k: nat, p: Word)
    requires Receiving(peer, s) && s.c.syn && Fin(seg.flags)
    requires s.h.genuine ==> FromPeer(peer.isn, peer.stream, seg, k)
    requires s.h.genuine && p == s.c.rcv ==> k + |seg.payload| == s.h.cur + One(s.c.closed)
    ensures s.h.genuine && p == s.c.rcv ==> !s.c.closed && s.h.cur == |peer.stream|
  {
  }

  /** Every arriving segment keeps the received bytes a prefix of the peer's stream and the send window exact. */
  lemma HandleKeeps(cf: Config, peer: Peer, s: State, seg: Segment)
    requires Receiving(peer, s)
    ensures var t := Handle(cf, peer, s, seg);
            && Follows(s, t) && Receiving(peer, t)
            && (BeforeSyn(cf, s) ==> BeforeSyn(cf, t))
            && (Ordered(cf, s) ==> Ordered(cf, t))
            && t.h.genuine == (s.h.genuine && (!s.c.active || Genuine(peer.isn, peer.stream, s.h.cur, seg)))
  {
    hide Of, Wrap, Genuine, Process, Open, Tracks, Ordered, BeforeSyn, Options, LowerAll;
    var t := Note(peer, s, seg);
    SameNumbers(cf, s, t);
    SameNumbers(cf, s, t.(c := t.c.(reset := true)));
    if s.c.active && !Rst(seg.flags) {
      if SynAck(cf, seg) && !t.c.syn {
        OpenKeeps(cf, peer, t, seg);
        ProcessKeeps(cf, peer, Open(cf, t, seg), seg);
      } else if SynAck(cf, seg) {
        ReplyKeeps(cf, t, ACK);
        SameNumbers(cf, t, Reply(cf, t, ACK));
      } else if t.c.syn {
        ProcessKeeps(cf, peer, t, seg);
      }
    }
  }

  /** An in-order payload is taken as far as it fits and an in-order FIN closes the stream; a segment from anywhere
      else in the stream changes neither. */
  ghost predicate Progress(cf: Config, s: State, t: State, seg: Segment, k: nat) {
    var here := k == s.h.cur && !s.c.closed;
    && t.h.cur == (if here then s.h.cur + |seg.payload| else s.h.cur)
    && t.pending == (if here then s.pending + seg.payload[..Copied(cf, s, seg.payload)] else s.pending)
    && t.c.closed == (s.c.closed || (Fin(seg.flags) && k + |seg.payload| == t.h.cur))
    && t.c.reset == s.c.reset
  }

  lemma HandleProgress(cf: Config, peer: Peer, s: State, seg: Segment, k: nat)
    requires Receiving(peer, s) && s.h.genuine && s.c.active && s.c.syn && !Rst(seg.flags) && !SynAck(cf, seg)
    requires FromPeer(peer.isn, peer.stream, seg, k) && Near(s.h.cur, seg, k)
    ensures Progress(cf, s, Handle(cf, peer, s, seg), seg, k)
  {
    hide Process, Genuine, Progress, Receiving, FromPeer, Near;
    PlacedGenuine(peer, s, seg, k);
    assert Note(peer, s, seg) == s;
    ProcessProgress(cf, peer, s, seg, k);
  }

  lemma ProcessProgress(cf: Config, peer: Peer, s: State, seg: Segment, k: nat)
    requires Receiving(peer, s) && s.h.genuine && s.c.syn
    requires FromPeer(peer.isn, peer.stream, seg, k) && Near(s.h.cur, seg, k)
    ensures Progress(cf, s, Process(cf, s, seg), seg, k)
  {
    hide Wrap, Near, FromPeer, Receiving, TakeAck, TakePayload, TakeFin, PayloadNumber, Copied;
    var a := if Ack(seg.flags) then TakeAck(s, seg.ackno) else s;
    TakeAckEffect(s, seg.ackno);
    SameReceiving(peer, s, a);
    EmptyAtClosed(peer, a, seg, k);
    InOrder(peer, a, seg, k);
    TakePayloadEffect(cf, a, seg);
    FinInOrder(cf, peer, a, seg, k);
    TakeFinEffect(cf, TakePayload(cf, a, seg), Wrap(PayloadNumber(seg) + |seg.payload|));
    SameCopied(cf, s, a, seg.payload);
  }

  lemma PlacedGenuine(peer: Peer, s: State, seg: Segment, k: nat)
    requires FromPeer(peer.isn, peer.stream, seg, k) && Near(s.h.cur, seg, k)
    ensures Genuine(peer.isn, peer.stream, s.h.cur, seg)
  {
  }

  lemma TakeAckEffect(s: State, ackno: Word)
    ensures var t := TakeAck(s, ackno);
            && t.pending == s.pending && t.h == s.h.(ackedPos := t.h.ackedPos)
            && t.c == s.c.(una := t.c.una, requestAcked := t.c.requestAcked)
  {
    hide Acceptable, Wrap;
  }

  lemma SameCopied(cf: Config, s: State, t: State, payload: seq<Byte>)
    requires t.pending == s.pending
    ensures Copied(cf, s, payload) == Copied(cf, t, payload)
  {
  }

  lemma TakePayloadEffect(cf: Config, s: State, seg: Segment)
    ensures var t := TakePayload(cf, s, seg);
            var here := |seg.payload| > 0 && PayloadNumber(seg) == s.c.rcv;
            && t.c.closed == s.c.closed && t.c.reset == s.c.reset && t.c.syn == s.c.syn
            && t.h.cur == (if here then s.h.cur + |seg.payload| else s.h.cur)
            && t.pending == (if here then s.pending + seg.payload[..Copied(cf, s, seg.payload)] else s.pending)
            && (|seg.payload| == 0 ==> s.pending + seg.payload[..Copied(cf, s, seg.payload)] == s.pending)
  {
    hide Wrap, PayloadNumber;
  }

  lemma TakeFinEffect(cf: Config, s: State, p: Word)
    ensures var t := TakeFin(cf, s, p);
            && t.pending == s.pending && t.h.cur == s.h.cur && t.c.reset == s.c.reset
            && t.c.closed == (s.c.closed || p == s.c.rcv)
  {
    hide Wrap;
  }

  /** Once closed, a genuine payload lies before the current position. */
  lemma EmptyAtClosed(peer: Peer, s: State, seg: Segment, k: nat)
    requires Receiving(peer, s) && s.h.genuine && s.c.syn && FromPeer(peer.isn, peer.stream, seg, k)
    ensures s.c.closed && (|seg.payload| > 0 || Fin(seg.flags)) ==> k + |seg.payload| <= s.h.cur
  {
  }

  /** The number behind the payload is the expected one exactly when the segment ends at the position reached. */
  lemma FinInOrder(cf: Config, peer: Peer, s: State, seg: Segment, k: nat)
    requires Receiving(peer, s) && s.h.genuine && s.c.syn
    requires FromPeer(peer.isn, peer.stream, seg, k) && Near(s.h.cur, seg, k)
    ensures var t := TakePayload(cf, s, seg);
            Wrap(PayloadNumber(seg) + |seg.payload|) == t.c.rcv <==> k + |seg.payload| == t.h.cur + One(t.c.closed)
  {
    hide Tracks, FromPeer, Near, Receiving, Copied;
    InOrder(peer, s, seg, k);
  }

  // ----- what arriving segments are answered with -----

  /** What the n-th send leaves in the log. */
  function Record(cf: Config, n: nat, x: Sent): seq<Sent> {
    if cf.sendOk(n) then [x] else []
  }

  /** The next position not received, as a sequence number. */
  function Expected(peer: Peer, cur: nat, closed: bool): Word {
    Wrap(peer.isn + 1 + cur + One(closed))
  }

  /** The answers to a segment at our number `nxt`: an acknowledgement of `data` for its payload, one of `end` for its
      FIN, and our own FIN when this closes the stream. */
  ghost predicate Answers(cf: Config, s: State, t: State, seg: Segment, data: Word, end: Word, closing: bool) {
    var a, b := s.attempts, s.attempts + One(|seg.payload| > 0);
    var c := b + One(Fin(seg.flags));
    && t.attempts == c + One(closing) && t.c.finSent == (s.c.finSent || (closing && cf.sendOk(c)))
    && t.log == s.log + (if |seg.payload| > 0 then Record(cf, a, Sent(ACK, s.c.nxt, data, [])) else [])
                      + (if Fin(seg.flags) then Record(cf, b, Sent(ACK, s.c.nxt, end, [])) else [])
                      + (if closing then Record(cf, c, Sent(FIN_ACK, s.c.nxt, end, [])) else [])
  }

  lemma TakeAckSilent(s: State, ackno: Word)
    ensures var t := TakeAck(s, ackno);
            && t.log == s.log && t.attempts == s.attempts && t.c.nxt == s.c.nxt && t.c.finSent == s.c.finSent
            && (t.c.requestAcked <==> s.c.requestAcked || (s.c.requestSent && ackno == s.c.nxt))
  {
    hide Acceptable, Wrap;
  }

  lemma TakePayloadAnswers(cf: Config, s: State, seg: Segment)
    ensures var t := TakePayload(cf, s, seg);
            && t.c.nxt == s.c.nxt && t.c.finSent == s.c.finSent && t.c.closed == s.c.closed
            && t.attempts == s.attempts + One(|seg.payload| > 0)
            && t.log == s.log + (if |seg.payload| > 0 then Record(cf, s.attempts, Sent(ACK, s.c.nxt, t.c.rcv, [])) else [])
  {
    hide Wrap, Copied, PayloadNumber;
  }

  lemma TakeFinAnswers(cf: Config, s: State, p: Word)
    ensures var t := TakeFin(cf, s, p);
            var closing := p == s.c.rcv && !s.c.finSent;
            && t.attempts == s.attempts + 1 + One(closing) && t.c.finSent == (s.c.finSent || (closing && cf.sendOk(s.attempts + 1)))
            && t.log == s.log + Record(cf, s.attempts, Sent(ACK, s.c.nxt, t.c.rcv, []))
                              + (if closing then Record(cf, s.attempts + 1, Sent(FIN_ACK, s.c.nxt, t.c.rcv, [])) else [])
  {
    hide Wrap;
  }

  /** A segment that reaches an open connection is answered: its payload, in order or not, with an acknowledgement of
      what has been received, its FIN with one more, and the FIN that closes the stream with ours. */
  lemma ProcessAnswers(cf: Config, s: State, seg: Segment)
    ensures var a := if Ack(seg.flags) then TakeAck(s, seg.ackno) else s;
            var u, t := TakePayload(cf, a, seg), Process(cf, s, seg);
            var p := Wrap(PayloadNumber(seg) + |seg.payload|);
            Answers(cf, s, t, seg, u.c.rcv, t.c.rcv, Fin(seg.flags) && p == u.c.rcv && !s.c.finSent)
  {
    hide Wrap, TakeAck, TakePayload, TakeFin, PayloadNumber, Record;
    var a := if Ack(seg.flags) then TakeAck(s, seg.ackno) else s;
    TakeAckSilent(s, seg.ackno);
    TakePayloadAnswers(cf, a, seg);
    var u := TakePayload(cf, a, seg);
    TakeFinAnswers(cf, u, Wrap(PayloadNumber(seg) + |seg.payload|));
  }

  /** For the peer's segments the numbers acknowledged are those of the first position not received, after the payload
      and after the FIN. */
  lemma HandleAnswers(cf: Config, peer: Peer, s: State, seg: Segment, k: nat)
    requires Receiving(peer, s) && s.h.genuine && s.c.active && s.c.syn && !Rst(seg.flags) && !SynAck(cf, seg)
    requires FromPeer(peer.isn, peer.stream, seg, k) && Near(s.h.cur, seg, k)
    ensures var t := Handle(cf, peer, s, seg);
            Answers(cf, s, t, seg, Expected(peer, t.h.cur, s.c.closed), Expected(peer, t.h.cur, t.c.closed),
                    t.c.closed && !s.c.closed && !s.c.finSent)
  {
    hide Process, Genuine, Progress, Receiving, FromPeer, Near, Answers, Wrap;
    PlacedGenuine(peer, s, seg, k);
    assert Note(peer, s, seg) == s;
    AnswersInOrder(cf, peer, s, seg, k);
  }

  lemma AnswersInOrder(cf: Config, peer: Peer, s: State, seg: Segment, k: nat)
    requires Receiving(peer, s) && s.h.genuine && s.c.syn
    requires FromPeer(peer.isn, peer.stream, seg, k) && Near(s.h.cur, seg, k)
    ensures var t := Process(cf, s, seg);
            Answers(cf, s, t, seg, Expected(peer, t.h.cur, s.c.closed), Expected(peer, t.h.cur, t.c.closed),
                    t.c.closed && !s.c.closed && !s.c.finSent)
  {
    hide Wrap, Near, FromPeer, Receiving, TakeAck, TakePayload, TakeFin, PayloadNumber, Copied, Answers, Progress;
    var a := if Ack(seg.flags) then TakeAck(s, seg.ackno) else s;
    var u, t := TakePayload(cf, a, seg), Process(cf, s, seg);
    var p := Wrap(PayloadNumber(seg) + |seg.payload|);
    TakeAckEffect(s, seg.ackno);
    SameReceiving(peer, s, a);
    TakePayloadKeeps(cf, peer, a, seg, k);
    TakePayloadEffect(cf, a, seg);
    ExpectedIs(peer, u);
    if Fin(seg.flags) {
      AtEnd(peer, u, seg, k, p);
      TakeFinKeeps(cf, peer, u, p);
      TakeFinEffect(cf, u, p);
    }
    FollowsSyn(cf, u, t, p);
    ExpectedIs(peer, t);
    ProcessAnswers(cf, s, seg);
  }

  lemma ExpectedIs(peer: Peer, s: State)
    requires Receiving(peer, s) && s.h.genuine && s.c.syn
    ensures s.c.rcv == Expected(peer, s.h.cur, s.c.closed)
  {
  }

  lemma FollowsSyn(cf: Config, s: State, t: State, p: Word)
    requires t == s || t == TakeFin(cf, s, p)
    ensures t.c.syn == s.c.syn && t.h.genuine == s.h.genuine
  {
    hide Wrap;
  }

  /** A SYN-ACK is acknowledged, the first and every repeated one. */
  lemma SynAckAnswered(cf: Config, peer: Peer, s: State, seg: Segment)
    requires s.c.active && !Rst(seg.flags) && SynAck(cf, seg)
    ensures var t := Handle(cf, peer, s, seg);
            if s.c.syn then
              && t.attempts == s.attempts + 1
              && t.log == s.log + Record(cf, s.attempts, Sent(ACK, s.c.nxt, s.c.rcv, []))
            else
              && t.attempts >= s.attempts + 1
              && s.log + Record(cf, s.attempts, Sent(ACK, s.c.nxt, Wrap(seg.seqno + 1), [])) <= t.log
  {
    hide Genuine, Wrap, Process, Options, LowerAll;
    var n := Note(peer, s, seg);
    var o := Open(cf, n, seg);
    if !s.c.syn {
      ProcessAnswers(cf, o, seg);
    }
  }

  /** Segments of no connection, resets, and everything before the SYN-ACK are not answered. */
  lemma DroppedSilently(cf: Config, peer: Peer, s: State, seg: Segment)
    requires !s.c.active || Rst(seg.flags) || (!s.c.syn && !SynAck(cf, seg))
    ensures var t := Handle(cf, peer, s, seg);
            && t.log == s.log && t.attempts == s.attempts && t.pending == s.pending
            && t.c == s.c.(reset := s.c.reset || (s.c.active && Rst(seg.flags)))
  {
    hide Genuine;
  }

  /** Everything a run of arriving segments keeps. */
  ghost predicate Keeps(cf: Config, peer: Peer, s: State, t: State) {
    && Follows(s, t) && Receiving(peer, t)
    && (BeforeSyn(cf, s) ==> BeforeSyn(cf, t))
    && (Ordered(cf, s) ==> Ordered(cf, t))
  }

  /** Arriving segments keep every bound on what is unacknowledged. */
  lemma WindowFollows(cf: Config, s: State, t: State)
    requires Window(cf, s) && Follows(s, t)
    requires Ordered(cf, s) ==> Ordered(cf, t)
    ensures Window(cf, t)
  {
    hide Of, Wrap;
  }

  lemma WindowOrdered(cf: Config, s: State)
    requires Window(cf, s)
    ensures Ordered(cf, s)
  {
  }

  lemma KeepsTrans(cf: Config, peer: Peer, a: State, b: State, c: State)
    requires Keeps(cf, peer, a, b) && Keeps(cf, peer, b, c)
    ensures Keeps(cf, peer, a, c)
  {
    hide Follows, Receiving, BeforeSyn, Ordered;
    FollowsTrans(a, b, c);
  }

  ghost function HandleAll(cf: Config, peer: Peer, s: State, segs: seq<Segment>): State {
    if |segs| == 0 then s else Handle(cf, peer, HandleAll(cf, peer, s, segs[..|segs| - 1]), segs[|segs| - 1])
  }

  /** The same over every sequence of arrivals. */
  lemma {:induction false} HandleAllKeeps(cf: Config, peer: Peer, s: State, segs: seq<Segment>)
    requires Receiving(peer, s)
    ensures Keeps(cf, peer, s, HandleAll(cf, peer, s, segs))
  {
    hide Follows, Receiving, BeforeSyn, Ordered, Handle;
    if |segs| == 0 {
      SelfFollows(s);
    } else {
      var t := HandleAll(cf, peer, s, segs[..|segs| - 1]);
      HandleAllKeeps(cf, peer, s, segs[..|segs| - 1]);
      HandleKeeps(cf, peer, t, segs[|segs| - 1]);
      KeepsTrans(cf, peer, s, t, HandleAll(cf, peer, s, segs));
    }
  }

  ghost predicate Placed(peer: Peer, seg: Segment) {
    exists k: nat :: FromPeer(peer.isn, peer.stream, seg, k)
  }

  /** Every arrival is a piece of the peer's stream, whatever was lost, repeated or reordered. */
  ghost predicate Honest(peer: Peer, segs: seq<Segment>) {
    forall i | 0 <= i < |segs| :: Placed(peer, segs[i])
  }

  /** A stream short of 2^32 bytes leaves no other segment to be confused with: honest arrivals stay genuine. */
  lemma {:induction false} HandleAllGenuine(cf: Config, peer: Peer, s: State, segs: seq<Segment>)
    requires Receiving(peer, s) && s.h.genuine && Honest(peer, segs) && |peer.stream| + 2 < MODULUS
    ensures HandleAll(cf, peer, s, segs).h.genuine
  {
    hide Handle, Keeps, Genuine, Placed;
    if |segs| > 0 {
      var n := |segs| - 1;
      var t := HandleAll(cf, peer, s, segs[..n]);
      HandleAllKeeps(cf, peer, s, segs[..n]);
      HandleAllGenuine(cf, peer, s, segs[..n]);
      KeepsReceiving(cf, peer, s, t);
      PlacedIsGenuine(peer, t, segs[n]);
      HandleKeeps(cf, peer, t, segs[n]);
    }
  }

  lemma PlacedIsGenuine(peer: Peer, s: State, seg: Segment)
    requires Receiving(peer, s) && s.h.genuine && Placed(peer, seg) && |peer.stream| + 2 < MODULUS
    ensures Genuine(peer.isn, peer.stream, s.h.cur, seg)
  {
    var k: nat :| FromPeer(peer.isn, peer.stream, seg, k);
    assert Near(s.h.cur, seg, k);
  }

  lemma KeepsReceiving(cf: Config, peer: Peer, s: State, t: State)
    requires Keeps(cf, peer, s, t)
    ensures Receiving(peer, t) && t.attempts >= s.attempts
  {
  }

  ghost predicate HasReset(segs: seq<Segment>) {
    exists i | 0 <= i < |segs| :: Rst(segs[i].flags)
  }

  lemma HandleReset(cf: Config, peer: Peer, s: State, seg: Segment)
    ensures Handle(cf, peer, s, seg).c.reset == (s.c.reset || (s.c.active && Rst(seg.flags)))
  {
    hide Genuine, Wrap, TakeAck, TakePayload, TakeFin, Options, LowerAll;
    var n := Note(peer, s, seg);
    ProcessReset(cf, n, seg);
    ProcessReset(cf, Open(cf, n, seg), seg);
  }

  lemma ProcessReset(cf: Config, s: State, seg: Segment)
    ensures Process(cf, s, seg).c.reset == s.c.reset
  {
    hide Wrap, TakeAck, TakePayload, TakeFin, PayloadNumber, Copied;
    var a := if Ack(seg.flags) then TakeAck(s, seg.ackno) else s;
    TakeAckEffect(s, seg.ackno);
    TakePayloadEffect(cf, a, seg);
    TakeFinEffect(cf, TakePayload(cf, a, seg), Wrap(PayloadNumber(seg) + |seg.payload|));
  }

  /** Arrivals reset the connection exactly when one of them is a reset. */
  lemma {:induction false} HandleAllReset(cf: Config, peer: Peer, s: State, segs: seq<Segment>)
    requires Receiving(peer, s)
    ensures HandleAll(cf, peer, s, segs).c.reset <==> s.c.reset || (s.c.active && HasReset(segs))
  {
    hide Handle, Receiving, Ordered, BeforeSyn;
    if |segs| > 0 {
      var n := |segs| - 1;
      HandleAllReset(cf, peer, s, segs[..n]);
      HandleAllKeeps(cf, peer, s, segs[..n]);
      HandleReset(cf, peer, HandleAll(cf, peer, s, segs[..n]), segs[n]);
      assert HasReset(segs) <==> HasReset(segs[..n]) || Rst(segs[n].flags) by {
        assert forall i | 0 <= i < n :: segs[i] == segs[..n][i];
      }
    }
  }

  // ----- stream mode -----

  /** Only a FIN may be unacknowledged: the state between successful writes. */
  ghost predicate Idle(s: State) {
    s.c.syn && s.h.sentPos <= s.h.ackedPos + One(s.c.finSent)
  }

  /** Part of a buffer and how often it was sent. */
  datatype Chunk = Chunk(offset: nat, length: nat, times: nat)

  function End(chunks: seq<Chunk>): nat {
    if |chunks| == 0 then 0 else chunks[|chunks| - 1].offset + chunks[|chunks| - 1].length
  }

  /** Consecutive from offset 0, none larger than the MSS, none sent more than four times. */
  ghost predicate Consecutive(chunks: seq<Chunk>, mss: nat) {
    forall i | 0 <= i < |chunks| ::
      1 <= chunks[i].length <= mss && 1 <= chunks[i].times <= 4 && chunks[i].offset == End(chunks[..i])
  }

  /** All of `sent` carry exactly this payload at this position. */
  ghost predicate Copies(sent: seq<Sent>, position: int, payload: seq<Byte>) {
    forall i | 0 <= i < |sent| :: sent[i].seqno == Wrap(position) && sent[i].payload == payload
  }

  /** The data segments sent are the chunks of the buffer in order, each repeated `times` times. */
  ghost predicate Transmits(sent: seq<Sent>, base: int, buffer: seq<Byte>, chunks: seq<Chunk>)
    decreases |chunks|
  {
    if |chunks| == 0 then sent == []
    else
      var c := chunks[|chunks| - 1];
      && c.times <= |sent| && c.offset + c.length <= |buffer|
      && Copies(sent[|sent| - c.times..], base + c.offset, buffer[c.offset..c.offset + c.length])
      && Transmits(sent[..|sent| - c.times], base, buffer, chunks[..|chunks| - 1])
  }

  lemma TransmitsSnoc(sent: seq<Sent>, more: seq<Sent>, base: int, buffer: seq<Byte>, chunks: seq<Chunk>, c: Chunk)
    requires Transmits(sent, base, buffer, chunks)
    requires |more| == c.times && c.offset + c.length <= |buffer|
    requires Copies(more, base + c.offset, buffer[c.offset..c.offset + c.length])
    ensures Transmits(sent + more, base, buffer, chunks + [c])
  {
    var all := chunks + [c];
    assert all[..|all| - 1] == chunks;
    assert (sent + more)[..|sent|] == sent && (sent + more)[|sent|..] == more;
  }

  lemma ConsecutiveSnoc(chunks: seq<Chunk>, mss: nat, c: Chunk)
    requires Consecutive(chunks, mss) && 1 <= c.length <= mss && 1 <= c.times <= 4 && c.offset == End(chunks)
    ensures Consecutive(chunks + [c], mss) && End(chunks + [c]) == End(chunks) + c.length
  {
    var all := chunks + [c];
    forall i | 0 <= i < |all| ensures 1 <= all[i].length <= mss && 1 <= all[i].times <= 4 && all[i].offset == End(all[..i]) {
      if i < |chunks| {
        assert all[..i] == chunks[..i];
        assert chunks[i].offset == End(chunks[..i]);
      } else {
        assert all[..i] == chunks;
      }
    }
  }

  /** Reading n bytes. */
  function Take(s: State, n: nat): State
    requires n <= |s.pending|
  {
    s.(pending := s.pending[n..], h := s.h.(taken := s.h.taken + s.pending[..n]))
  }

  lemma TakeKeeps(cf: Config, peer: Peer, s: State, n: nat)
    requires n <= |s.pending| && Receiving(peer, s)
    ensures Receiving(peer, Take(s, n)) && Ordered(cf, Take(s, n)) == Ordered(cf, s) && Window(cf, Take(s, n)) == Window(cf, s)
  {
    hide Tracks, Wrap;
    assert s.h.taken + s.pending[..n] + s.pending[n..] == s.h.taken + s.pending;
  }

  /** A data segment at `nxt`, and `nxt` moved behind it. */
  function SendData(cf: Config, s: State, payload: seq<Byte>): (State, bool) {
    var (t, ok) := Emit(cf, s, PSH_ACK, s.c.nxt, payload);
    if ok then
      (t.(c := t.c.(nxt := Wrap(t.c.nxt + |payload|)), h := t.h.(sentPos := t.h.sentPos + |payload|)), true)
    else (t, false)
  }

  /** The room the client's own fields show for n more bytes. */
  predicate Fits(c: Client, n: nat) {
    Wrap(c.nxt - c.una) + n <= c.mss + One(c.finSent)
  }

  lemma Unacknowledged(cf: Config, s: State)
    requires s.c.syn && Ordered(cf, s)
    ensures Wrap(s.c.nxt - s.c.una) == s.h.sentPos - s.h.ackedPos
    ensures Idle(s) ==> Window(cf, s) && forall n: nat | n <= s.c.mss :: Fits(s.c, n)
  {
    hide Wrap;
    PositionDistance(cf.iss, s.h.ackedPos, s.h.sentPos);
  }

  /** Sending n more bytes keeps the window exactly when the difference of the two sequence numbers leaves room for
      them; a state between successful writes has room for a whole segment. */
  lemma SendDataWindow(cf: Config, s: State, t: State, n: nat)
    requires s.c.syn && Ordered(cf, s) && s.h.sentPos + n <= s.h.ackedPos + SPAN
    requires t.c == s.c.(nxt := if n == 0 then s.c.nxt else Wrap(s.c.nxt + n)) && t.h == s.h.(sentPos := s.h.sentPos + n)
    ensures Ordered(cf, t)
    ensures Window(cf, t) <==> Fits(s.c, n)
  {
    hide Wrap;
    WrapAdd(cf.iss + s.h.sentPos, n);
    PositionDistance(cf.iss, s.h.ackedPos, s.h.sentPos);
  }

  lemma MssPositive(cf: Config, s: State)
    requires Ordered(cf, s)
    ensures 536 <= s.c.mss <= MAX_PAYLOAD
  {
  }

  lemma SendDataKeeps(cf: Config, peer: Peer, s: State, payload: seq<Byte>)
    requires s.c.syn && Ordered(cf, s) && Receiving(peer, s) && 1 <= |payload| <= s.c.mss
    requires s.h.sentPos + |payload| <= s.h.ackedPos + SPAN
    ensures var (t, ok) := SendData(cf, s, payload);
            && Ordered(cf, t) && Receiving(peer, t) && t.c == s.c.(nxt := t.c.nxt)
            && (Window(cf, t) <==> if ok then Fits(s.c, |payload|) else Window(cf, s))
            && t.h == s.h.(sentPos := s.h.sentPos + if ok then |payload| else 0)
            && t.attempts == s.attempts + 1 && ok == cf.sendOk(s.attempts)
            && Of(t.log, PSH_ACK) == Of(s.log, PSH_ACK) + (if ok then [Sent(PSH_ACK, s.c.nxt, s.c.rcv, payload)] else [])
  {
    hide Of, Wrap, Receiving, Ordered, Window, Fits;
    var (t, ok) := SendData(cf, s, payload);
    if ok { SendDataWindow(cf, s, t, |payload|); } else { SameNumbers(cf, s, t); }
    MssPositive(cf, s);
    SameReceiving(peer, s, t);
    OfSnoc(s.log, Sent(PSH_ACK, s.c.nxt, s.c.rcv, payload), PSH_ACK);
  }

  /** The loop test of the writer: has everything up to position e been acknowledged? */
  lemma WaitTest(cf: Config, s: State, e: int)
    requires Ordered(cf, s) && s.c.syn && s.h.ackedPos - 2 <= e <= s.h.sentPos
    ensures Signed(Wrap(s.c.una - Wrap(cf.iss + e))) < 0 <==> s.h.ackedPos < e
  {
    hide Wrap, Signed;
    SignedDifference(cf.iss + s.h.ackedPos, cf.iss + e);
  }

  lemma ResendKeeps(cf: Config, peer: Peer, s: State, seqno: Word, payload: seq<Byte>)
    requires Receiving(peer, s) && Ordered(cf, s)
    ensures var (t, ok) := Emit(cf, s, PSH_ACK, seqno, payload);
            && Ordered(cf, t) && Receiving(peer, t) && t.c == s.c && t.h == s.h
            && Of(t.log, PSH_ACK) == Of(s.log, PSH_ACK) + (if ok then [Sent(PSH_ACK, seqno, s.c.rcv, payload)] else [])
  {
    hide Of, Wrap, Receiving, Numbered;
    var (t, ok) := Emit(cf, s, PSH_ACK, seqno, payload);
    SameReceiving(peer, s, t);
    SameNumbers(cf, s, t);
    OfSnoc(s.log, Sent(PSH_ACK, seqno, s.c.rcv, payload), PSH_ACK);
  }

  /** The first SYN also sets `nxt`. */
  function EmitSyn(cf: Config, s: State, first: bool): (State, bool) {
    var (t, ok) := Emit(cf, s, SYN, cf.iss, []);
    if ok && first then (t.(c := t.c.(nxt := Wrap(cf.iss + 1)), h := t.h.(sentPos := 1)), true) else (t, ok)
  }

  /** Sending the SYN opens the window, whatever arrived before it. */
  lemma SynWindow(cf: Config, s: State, t: State)
    requires BeforeSyn(cf, s) && 536 <= s.c.mss <= MAX_PAYLOAD
    requires t.c == s.c.(nxt := Wrap(cf.iss + 1)) && t.h == s.h.(sentPos := 1)
    ensures Window(cf, t)
  {
  }

  lemma EmitSynKeeps(cf: Config, peer: Peer, s: State, first: bool)
    requires Receiving(peer, s)
    ensures var (t, ok) := EmitSyn(cf, s, first);
            && Receiving(peer, t) && t.pending == s.pending
            && t.attempts == s.attempts + 1 && ok == cf.sendOk(s.attempts)
            && Of(t.log, SYN) == Of(s.log, SYN) + Record(cf, s.attempts, Sent(SYN, cf.iss, s.c.rcv, [])) && Of(t.log, PSH_ACK) == Of(s.log, PSH_ACK)
            && t.c == s.c.(nxt := t.c.nxt) && t.h == s.h.(sentPos := t.h.sentPos)
            && (ok && first && BeforeSyn(cf, s) && 536 <= s.c.mss <= MAX_PAYLOAD ==> Window(cf, t) && t.h.sentPos == 1)
            && (!(ok && first) ==> t.c == s.c && t.h == s.h && (Window(cf, s) ==> Window(cf, t)))
  {
    hide Wrap, Of, Receiving, Window, BeforeSyn;
    var x := Sent(SYN, cf.iss, s.c.rcv, []);
    OfSnoc(s.log, x, SYN);
    OfSnoc(s.log, x, PSH_ACK);
    var (t, ok) := EmitSyn(cf, s, first);
    SameReceiving(peer, s, t);
    if ok && first {
      if BeforeSyn(cf, s) && 536 <= s.c.mss <= MAX_PAYLOAD { SynWindow(cf, s, t); }
    } else {
      SameNumbers(cf, s, t);
    }
  }

  // ----- a write after a failed write -----

  /** A chunk sent again n times without an answer. */
  function Unanswered(cf: Config, s: State, seqno: Word, payload: seq<Byte>, n: nat): State {
    if n == 0 then s else Emit(cf, Unanswered(cf, s, seqno, payload, n - 1), PSH_ACK, seqno, payload).0
  }

  lemma {:induction false} UnansweredSame(cf: Config, s: State, seqno: Word, payload: seq<Byte>, n: nat)
    ensures var t := Unanswered(cf, s, seqno, payload, n);
            t == s.(log := t.log, attempts := t.attempts)
  {
    if n > 0 { UnansweredSame(cf, s, seqno, payload, n - 1); }
  }

  /** A network that takes every segment. */
  const LINE := Config(16384, 0, (i: nat) => true)

  const FIRST := State(Client(true, false, false, false, false, false, false, false, MAX_PAYLOAD, 0, 0, 0), [], [], 0,
                       History(true, 0, [], 0, 0))

  /** After our SYN and the peer's SYN-ACK. */
  ghost function Established(peer: Peer): State {
    Handle(LINE, peer, EmitSyn(LINE, FIRST, true).0, Segment(SYN + ACK, peer.isn, 1, [], []))
  }

  lemma EstablishedIs(peer: Peer)
    ensures var s := Established(peer);
            && s.c.syn && !s.c.finSent && s.c.mss == MAX_PAYLOAD && s.c.nxt == s.c.una == 1
            && s.h.sentPos == s.h.ackedPos == 1 && Idle(s) && Window(LINE, s)
  {
    hide Genuine;
    var seg := Segment(SYN + ACK, peer.isn, 1, [], []);
    assert Mss(seg.options) == MAX_PAYLOAD;
    var s := Note(peer, EmitSyn(LINE, FIRST, true).0, seg);
    var t := Open(LINE, s, seg);
    assert t.c == s.c.(syn := true, rcv := t.c.rcv, una := 1, mss := MAX_PAYLOAD);
    assert !Acceptable(t.c, 1);
  }

  /** A full segment and three more copies of it that nobody answers. */
  ghost function FailedWrite(peer: Peer): State {
    var s, chunk := Established(peer), seq(MAX_PAYLOAD, _ => 0);
    Unanswered(LINE, SendData(LINE, s, chunk).0, s.c.nxt, chunk, 3)
  }

  /** After it one more byte leaves the window. */
  lemma FailedWriteLeavesWindow(peer: Peer)
    ensures var s := FailedWrite(peer);
            && s.c.syn && Window(LINE, s) && !Fits(s.c, 1) && !Window(LINE, SendData(LINE, s, [0]).0)
  {
    hide Established, Unanswered, Ordered, Window;
    var s, chunk: seq<Byte> := Established(peer), seq(MAX_PAYLOAD, _ => 0);
    EstablishedIs(peer);
    WindowOrdered(LINE, s);
    var t := SendData(LINE, s, chunk).0;
    SendDataWindow(LINE, s, t, MAX_PAYLOAD);
    UnansweredSame(LINE, t, s.c.nxt, chunk, 3);
    var u := FailedWrite(peer);
    SameNumbers(LINE, t, u);
    SendDataWindow(LINE, u, SendData(LINE, u, [0]).0, 1);
  }
}
