/** The TCP client object: a client record, a receive queue and a response buffer updated in place by the segment
    handler, the stream callbacks and the request loop. */
module Tcp {
  import opened Wrappers
  import opened Words
  import opened TcpSegments
  import opened TcpSteps

  const QUEUE_SIZE := 16384

  function Slot(head: nat, i: nat): (k: nat)
    ensures k < QUEUE_SIZE
  {
    (head + i) % QUEUE_SIZE
  }

  lemma SlotsDistinct(head: nat, i: nat, j: nat)
    requires head < QUEUE_SIZE && i < j < QUEUE_SIZE
    ensures Slot(head, i) != Slot(head, j)
  {
  }

  /** The queue's contents, oldest first. */
  function Ring(q: seq<Byte>, head: nat, length: nat): (s: seq<Byte>)
    requires |q| == QUEUE_SIZE
    ensures |s| == length && forall i: nat | i < length :: s[i] == q[Slot(head, i)]
  {
    seq(length, i requires 0 <= i < length => q[Slot(head, i)])
  }

  type Tick = x: int | 0 <= x < 0x1_0000_0000_0000_0000

  /** 64-bit difference of tick counts. */
  function Elapsed(now: Tick, since: Tick): Tick {
    (now - since) % 0x1_0000_0000_0000_0000
  }

  /** One poll of the network: what has arrived and the tick count after it. */
  datatype Round = Round(now: Tick, arrivals: seq<Segment>)

  /** Something sent at the polls of a range whenever `period` ticks have passed since the last time, and at the first
      poll if `eager`: how often, and when last. */
  function Schedule(rounds: seq<Round>, from: nat, upto: nat, last: Tick, period: nat, eager: bool): (nat, Tick)
    requires from <= upto <= |rounds|
  {
    if upto == from then (0, last)
    else
      var (n, l) := Schedule(rounds, from, upto - 1, last, period, eager);
      var now := rounds[upto - 1].now;
      if (eager && n == 0) || Elapsed(now, l) >= period then (n + 1, now) else (n, l)
  }

  lemma ScheduleNext(rounds: seq<Round>, from: nat, upto: nat, last: Tick, period: nat, eager: bool)
    requires from <= upto < |rounds|
    ensures Schedule(rounds, from, from, last, period, eager) == (0, last)
    ensures var (n, l) := Schedule(rounds, from, upto, last, period, eager);
            Schedule(rounds, from, upto + 1, last, period, eager) ==
            if (eager && n == 0) || Elapsed(rounds[upto].now, l) >= period then (n + 1, rounds[upto].now) else (n, l)
  {
    hide Elapsed;
  }

  lemma ScheduleStart(rounds: seq<Round>, from: nat, last: Tick, period: nat, eager: bool)
    requires from <= |rounds|
    ensures Schedule(rounds, from, from, last, period, eager) == (0, last)
  {
  }

  datatype StreamOp = Read(count: nat) | Write(bytes: seq<Byte>)

  /** The bytes of all writes, in order. */
  function Writes(ops: seq<StreamOp>): seq<Byte> {
    if |ops| == 0 then []
    else Writes(ops[..|ops| - 1]) + (if ops[|ops| - 1].Write? then ops[|ops| - 1].bytes else [])
  }

  /** How many bytes all reads ask for. */
  function Wanted(ops: seq<StreamOp>): nat {
    if |ops| == 0 then 0
    else Wanted(ops[..|ops| - 1]) + (if ops[|ops| - 1].Read? then ops[|ops| - 1].count else 0)
  }

  function ReadCount(ops: seq<StreamOp>): nat {
    if |ops| == 0 then 0 else ReadCount(ops[..|ops| - 1]) + One(ops[|ops| - 1].Read?)
  }

  lemma NoOps()
    ensures Writes([]) == [] && Wanted([]) == 0 && ReadCount([]) == 0
  {
  }

  lemma NextOp(ops: seq<StreamOp>, n: nat)
    requires n < |ops|
    ensures Writes(ops[..n + 1]) == Writes(ops[..n]) + (if ops[n].Write? then ops[n].bytes else [])
    ensures Wanted(ops[..n + 1]) == Wanted(ops[..n]) + (if ops[n].Read? then ops[n].count else 0)
    ensures ReadCount(ops[..n + 1]) == ReadCount(ops[..n]) + One(ops[n].Read?)
  {
    assert ops[..n + 1][..n] == ops[..n];
  }

  datatype Timer = Timer(synAttempts: nat, lastSyn: Tick, requestAttempts: nat, lastRequest: Tick)

  class Connection {
    // the network; the deadline has passed when all rounds are used up
    const sendOk: nat -> bool
    const rounds: seq<Round>
    var attempts: nat
    var round: nat
    var clock: Tick
    var log: seq<Sent>

    // the client
    const streamMode: bool
    const iss: Word
    var client: Client
    const response: array<Byte>
    var responseLength: nat
    const queue: array<Byte>
    var head: nat
    var length: nat

    ghost const peer: Peer
    ghost var h: History

    ghost predicate Valid()
      reads this`head, this`length, this`responseLength
    {
      && queue.Length == QUEUE_SIZE && head < QUEUE_SIZE && length <= QUEUE_SIZE
      && 2 <= response.Length <= 0x7FFF_FFFF && responseLength < response.Length
      && queue != response
    }

    ghost function Pending(): seq<Byte>
      reads this`head, this`length, this`responseLength, queue, response
      requires Valid()
    {
      if streamMode then Ring(queue[..], head, length) else response[..responseLength]
    }

    ghost function Cf(): Config
      requires response.Length > 0
    {
      Config(if streamMode then QUEUE_SIZE else response.Length - 1, iss, sendOk)
    }

    ghost function Value(): State
      reads this`head, this`length, this`responseLength, this`client, this`log, this`attempts, this`h
      reads queue, response
      requires Valid()
    {
      State(client, Pending(), log, attempts, h)
    }

    /** A new connection that has neither sent nor received anything. */
    constructor (streamMode: bool, iss: Word, buffer: array<Byte>, sendOk: nat -> bool, rounds: seq<Round>,
                 ghost peer: Peer)
      requires 2 <= buffer.Length <= 0x7FFF_FFFF
      modifies buffer
      ensures Valid() && fresh(queue) && response == buffer && responseLength == 0 && buffer[0] == 0
      ensures this.streamMode == streamMode && this.iss == iss && this.rounds == rounds && this.peer == peer
      ensures this.sendOk == sendOk && round == 0
      ensures client == Client(true, false, false, false, false, false, false, false, MAX_PAYLOAD, iss, 0, 0)
      ensures Value() == State(client, [], [], 0, History(true, 0, [], 0, 0))
      ensures Sound() && BeforeSyn(Cf(), Value())
    {
      this.streamMode, this.iss, this.sendOk, this.rounds, this.peer := streamMode, iss, sendOk, rounds, peer;
      response := buffer;
      queue := new Byte[QUEUE_SIZE];
      client := Client(true, false, false, false, false, false, false, false, MAX_PAYLOAD, iss, 0, 0);
      responseLength, head, length := 0, 0, 0;
      attempts, round, clock, log := 0, 0, 0, [];
      h := History(true, 0, [], 0, 0);
      new;
      response[0] := 0;
    }

    method Send(flags: Byte, sequence: Word, payload: seq<Byte>) returns (ok: bool)
      requires Valid()
      modifies this`attempts, this`log
      ensures Valid() && (Value(), ok) == Emit(Cf(), old(Value()), flags, sequence, payload)
    {
      if |payload| > MAX_PAYLOAD {
        return false;
      }
      ok := sendOk(attempts);
      attempts := attempts + 1;
      if ok {
        log := log + [Sent(flags, sequence, client.rcv, payload)];
      }
    }

    // ----- receiving -----

    /** Copies the first n bytes behind the queue's contents. */
    method Enqueue(payload: seq<Byte>, n: nat)
      requires Valid() && n <= |payload| && length + n <= QUEUE_SIZE
      modifies this`length, queue
      ensures Valid() && Ring(queue[..], head, length) == old(Ring(queue[..], head, length)) + payload[..n]
    {
      hide Slot;
      for index := 0 to n
        invariant Valid() && length == old(length)
        invariant forall i: nat | i < length :: queue[Slot(head, i)] == old(queue[Slot(head, i)])
        invariant forall i: nat | i < index :: queue[Slot(head, length + i)] == payload[i]
        modifies queue
      {
        var tail := Slot(head, length + index);
        forall i: nat | i < length + index ensures Slot(head, i) != tail {
          SlotsDistinct(head, i, length + index);
        }
        queue[tail] := payload[index];
      }
      length := length + n;
      ghost var was, now := old(Ring(queue[..], head, length)), Ring(queue[..], head, length);
      forall i: nat | i < length ensures now[i] == (was + payload[..n])[i] {
        if i >= |was| { assert queue[Slot(head, |was| + (i - |was|))] == payload[i - |was|]; }
      }
    }

    method AppendResponse(payload: seq<Byte>, n: nat)
      requires Valid() && n <= |payload| && responseLength + n < response.Length
      modifies this`responseLength, response
      ensures Valid() && response[..responseLength] == old(response[..responseLength]) + payload[..n]
      ensures response[responseLength] == 0
    {
      for index := 0 to n
        invariant response[..responseLength] == old(response[..responseLength])
        invariant response[responseLength..responseLength + index] == payload[..index]
        modifies response
      {
        response[responseLength + index] := payload[index];
      }
      responseLength := responseLength + n;
      response[responseLength] := 0;
    }

    /** The response buffer stays a terminated string. */
    ghost predicate Terminated()
      reads this`head, this`length, this`responseLength, response
      requires Valid()
    {
      !streamMode ==> response[responseLength] == 0
    }

    /** Takes an in-order payload; what does not fit is dropped and `overflow` is set. */
    method TakeInOrder(payload: seq<Byte>)
      requires Valid() && Terminated()
      modifies this`length, this`responseLength, this`client, this`h, queue, response
      ensures Valid() && Terminated() && Value() == Deliver(Cf(), old(Value()), payload)
    {
      var room := if streamMode then QUEUE_SIZE - length else response.Length - 1 - responseLength;
      var copyLength := |payload|;
      if copyLength > room {
        copyLength := room;
      }
      if streamMode {
        Enqueue(payload, copyLength);
      } else {
        AppendResponse(payload, copyLength);
      }
      if copyLength < |payload| {
        client := client.(overflow := true);
      }
      client := client.(rcv := Wrap(client.rcv + |payload|));
      h := h.(cur := h.cur + |payload|);
    }

    method HandleTcp(seg: Segment)
      requires Valid() && Terminated()
      modifies this`length, this`responseLength, this`client, this`h, this`attempts, this`log, queue, response
      ensures Valid() && Terminated() && Value() == Handle(Cf(), peer, old(Value()), seg)
    {
      hide Wrap, Genuine, Pending, Open, Process;
      if !client.active {
        return;
      }
      h := Note(peer, Value(), seg).h;
      if Rst(seg.flags) {
        client := client.(reset := true);
        return;
      }
      if Syn(seg.flags) && Ack(seg.flags) && !client.syn && seg.ackno == Wrap(iss + 1) {
        OpenConnection(seg);
      } else if Syn(seg.flags) && Ack(seg.flags) && client.syn && seg.ackno == Wrap(iss + 1) {
        var _ := Send(ACK, client.nxt, []);
        return;
      } else if !client.syn {
        return;
      }
      ProcessSegment(seg);
    }

    method OpenConnection(seg: Segment)
      requires Valid() && Terminated()
      modifies this`client, this`h, this`attempts, this`log
      ensures Valid() && Terminated() && Value() == Open(Cf(), old(Value()), seg)
    {
      hide Wrap, Pending;
      var mss := PeerMssFromOptions(seg.options);
      LeastUnique(Options(seg.options), MAX_PAYLOAD, mss, Mss(seg.options));
      client := client.(syn := true, rcv := Wrap(seg.seqno + 1), una := Wrap(iss + 1), mss := mss);
      h := h.(ackedPos := 1);
      var _ := Send(ACK, client.nxt, []);
    }

    method ReceiveAck(ackno: Word)
      requires Valid() && Terminated()
      modifies this`client, this`h
      ensures Valid() && Terminated() && Value() == TakeAck(old(Value()), ackno)
    {
      hide Wrap, Pending, Acceptable;
      var c := client;
      if Acceptable(c, ackno) {
        h := h.(ackedPos := h.ackedPos + Wrap(ackno - c.una));
        c := c.(una := ackno);
      }
      if c.requestSent && ackno == c.nxt {
        c := c.(requestAcked := true);
      }
      client := c;
    }

    method ReceivePayload(seg: Segment) returns (payloadSequence: Word)
      requires Valid() && Terminated()
      modifies this`length, this`responseLength, this`client, this`h, this`attempts, this`log, queue, response
      ensures Valid() && Terminated() && Value() == TakePayload(Cf(), old(Value()), seg)
      ensures payloadSequence == Wrap(PayloadNumber(seg) + |seg.payload|)
    {
      hide Wrap, Pending, Deliver;
      payloadSequence := Wrap(seg.seqno + One(Syn(seg.flags)));
      WrapAdd(seg.seqno + One(Syn(seg.flags)), 0);
      if |seg.payload| > 0 {
        if payloadSequence == client.rcv {
          TakeInOrder(seg.payload);
        }
        var _ := Send(ACK, client.nxt, []);
        payloadSequence := Wrap(payloadSequence + |seg.payload|);
      }
    }

    method ReceiveFin(payloadSequence: Word)
      requires Valid() && Terminated()
      modifies this`client, this`h, this`attempts, this`log
      ensures Valid() && Terminated() && Value() == TakeFin(Cf(), old(Value()), payloadSequence)
    {
      hide Wrap, Pending, SendFin;
      if payloadSequence == client.rcv {
        client := client.(rcv := Wrap(client.rcv + 1), closed := true);
        var _ := Send(ACK, client.nxt, []);
        if !client.finSent {
          CloseOurSide();
        }
      } else {
        var _ := Send(ACK, client.nxt, []);
      }
    }

    method CloseOurSide()
      requires Valid() && Terminated()
      modifies this`client, this`h, this`attempts, this`log
      ensures Valid() && Terminated() && Value() == SendFin(Cf(), old(Value()))
    {
      hide Wrap, Pending;
      var ok := Send(FIN_ACK, client.nxt, []);
      if ok {
        client := client.(nxt := Wrap(client.nxt + 1), finSent := true);
        h := h.(sentPos := h.sentPos + 1);
      }
    }

    method ProcessSegment(seg: Segment)
      requires Valid() && Terminated()
      modifies this`length, this`responseLength, this`client, this`h, this`attempts, this`log, queue, response
      ensures Valid() && Terminated() && Value() == Process(Cf(), old(Value()), seg)
    {
      hide Wrap, Ring, TakeAck, TakePayload, TakeFin, Value, Cf;
      if Ack(seg.flags) {
        ReceiveAck(seg.ackno);
      }
      var payloadSequence := ReceivePayload(seg);
      if Fin(seg.flags) {
        ReceiveFin(payloadSequence);
      }
    }

    /** The data segment at `nxt`. */
    method SendChunk(chunk: seq<Byte>) returns (ok: bool)
      requires Valid()
      modifies this`client, this`h, this`attempts, this`log
      ensures Valid() && (Value(), ok) == SendData(Cf(), old(Value()), chunk)
    {
      hide Wrap, Pending;
      ok := Send(PSH_ACK, client.nxt, chunk);
      if ok {
        client := client.(nxt := Wrap(client.nxt + |chunk|));
        h := h.(sentPos := h.sentPos + |chunk|);
      }
    }

    lemma WaitTestHere(e: int)
      requires Valid() && Ordered(Cf(), Value()) && client.syn && e <= h.sentPos <= e + 1
      ensures h.ackedPos <= h.sentPos
      ensures Signed(Wrap(client.una - Wrap(iss + e))) < 0 <==> h.ackedPos < e
    {
      hide Wrap, Signed, Pending, Ordered;
      OrderedNumbers(Cf(), Value());
      WaitTest(Cf(), Value(), e);
    }

    // ----- waiting -----

    predicate Expired()
      reads this`round
    {
      round == |rounds|
    }

    /** Everything the network ever delivers is a piece of the peer's stream, in whatever order and number. */
    ghost predicate HonestNetwork() {
      |peer.stream| + 2 < MODULUS && forall i | 0 <= i < |rounds| :: Honest(peer, rounds[i].arrivals)
    }

    /** Everything the loops below rely on. */
    ghost predicate Sound()
      reads this`head, this`length, this`responseLength, this`round, this`client, this`log, this`attempts, this`h
      reads queue, response
    {
      && Valid() && Terminated() && Receiving(peer, Value()) && round <= |rounds|
      && (HonestNetwork() ==> h.genuine)
    }

    /** One of the polls in this range delivered a reset. */
    ghost predicate ResetArrived(from: nat, upto: nat) {
      exists r: nat | from <= r < upto && r < |rounds| :: HasReset(rounds[r].arrivals)
    }

    /** The network refused one of the sends in this range. */
    ghost predicate Refused(from: nat, upto: nat) {
      exists i: nat | from <= i < upto :: !sendOk(i)
    }

    /** Hands every arrived segment to the handler. */
    method Poll()
      requires Sound() && !Expired()
      modifies this`length, this`responseLength, this`client, this`h, this`attempts, this`log, this`round, this`clock
      modifies queue, response
      ensures Sound() && round == old(round) + 1 && clock == rounds[old(round)].now && attempts >= old(attempts)
      ensures Value() == HandleAll(Cf(), peer, old(Value()), rounds[old(round)].arrivals)
      ensures Keeps(Cf(), peer, old(Value()), Value())
      ensures old(Window(Cf(), Value())) ==> Window(Cf(), Value())
      ensures client.reset ==> old(client.reset) || ResetArrived(old(round), round)
    {
      hide Handle, Keeps, Pending, Receiving, Terminated, Honest, Window, HasReset;
      var arrivals := rounds[round].arrivals;
      ghost var start := Value();
      HandleAllKeeps(Cf(), peer, start, []);
      for i := 0 to |arrivals|
        invariant Valid() && Terminated() && Value() == HandleAll(Cf(), peer, start, arrivals[..i])
        modifies this`length, this`responseLength, this`client, this`h, this`attempts, this`log, queue, response
      {
        assert arrivals[..i + 1][..i] == arrivals[..i];
        HandleTcp(arrivals[i]);
      }
      assert arrivals[..|arrivals|] == arrivals;
      HandleAllKeeps(Cf(), peer, start, arrivals);
      KeepsReceiving(Cf(), peer, start, Value());
      if old(Window(Cf(), Value())) { KeepsWindow(Cf(), peer, start, Value()); }
      if HonestNetwork() { HandleAllGenuine(Cf(), peer, start, arrivals); }
      HandleAllReset(Cf(), peer, start, arrivals);
      clock := rounds[round].now;
      round := round + 1;
    }

    // ----- stream mode -----

    /** Moves the oldest n bytes of the queue into the buffer. */
    method Dequeue(buffer: array<Byte>, n: nat)
      requires Sound() && streamMode && n <= length && n <= buffer.Length && buffer != queue && buffer != response
      modifies this`head, this`length, this`h, buffer
      ensures Sound() && Value() == Take(old(Value()), n) && buffer[..n] == old(Pending())[..n]
      ensures Window(Cf(), Value()) == old(Window(Cf(), Value()))
    {
      hide Slot, Receiving, Window;
      ghost var start, bytes := head, Pending();
      for index := 0 to n
        invariant head == (if index == 0 then start else Slot(start, index)) && head < QUEUE_SIZE
        invariant buffer[..index] == bytes[..index]
        modifies this`head, buffer
      {
        NextSlots(start, index);
        assert queue[head] == bytes[index];
        buffer[index] := queue[head];
        head := Slot(head, 1);
        assert buffer[..index + 1] == buffer[..index] + [bytes[index]];
      }
      length := length - n;
      h := h.(taken := h.taken + buffer[..n]);
      forall i: nat | i < length ensures queue[Slot(head, i)] == bytes[n + i] {
        SlotsAdd(start, n, i);
      }
      assert Pending() == bytes[n..];
      TakeKeeps(Cf(), peer, old(Value()), n);
    }

    method TlsRead(buffer: array<Byte>, count: nat) returns (n: int)
      requires Sound() && streamMode && count <= buffer.Length && buffer != queue && buffer != response
      modifies this`head, this`length, this`responseLength, this`client, this`h, this`attempts, this`log, this`round, this`clock
      modifies queue, response, buffer
      ensures Sound() && round >= old(round)
      ensures n == -1 || (1 <= n <= count && (n == count || Pending() == []))
      ensures h.taken == old(h.taken) + (if n > 0 then buffer[..n] else [])
      ensures Follows(old(Value()), Value().(h := h.(taken := old(h.taken))))
      ensures old(Window(Cf(), Value())) ==> Window(Cf(), Value())
      ensures client.reset ==> old(client.reset) || ResetArrived(old(round), round)
      ensures n == -1 && 0 < count <= 0x7FFF_FFFF ==>
                Pending() == [] && (client.reset || client.overflow || client.closed || Expired())
    {
      hide Receiving, Window, Of;
      if count == 0 || count > 0x7FFF_FFFF {
        return -1;
      }
      while length == 0
        invariant Sound() && round >= old(round)
        invariant Keeps(Cf(), peer, old(Value()), Value())
        invariant old(Window(Cf(), Value())) ==> Window(Cf(), Value())
        invariant client.reset ==> old(client.reset) || ResetArrived(old(round), round)
        decreases |rounds| - round
      {
        if client.reset || client.overflow || client.closed || Expired() {
          return -1;
        }
        ghost var before := Value();
        Poll();
        KeepsTrans(Cf(), peer, old(Value()), before, Value());
      }
      var size := count;
      if size > length {
        size := length;
      }
      Dequeue(buffer, size);
      n := size;
    }

    /** Sends one chunk, up to four times, until it is acknowledged. */
    method WriteChunk(chunk: seq<Byte>) returns (ok: bool, ghost copies: seq<Sent>)
      requires Sound() && Ordered(Cf(), Value()) && client.syn && Room() && 1 <= |chunk| <= client.mss
      modifies this`length, this`responseLength, this`client, this`h, this`attempts, this`log, this`round, this`clock
      modifies queue, response
      ensures Sound() && Ordered(Cf(), Value()) && round >= old(round)
      ensures client.syn && client.mss == old(client.mss) && client.active == old(client.active) && h.taken == old(h.taken)
      ensures old(client.finSent) ==> client.finSent
      ensures ok ==> Idle(Value())
      ensures client.reset ==> old(client.reset) || ResetArrived(old(round), round)
      ensures old(Window(Cf(), Value())) && old(Fits(client, |chunk|)) ==> Window(Cf(), Value())
      ensures !ok ==> client.reset || Expired() || |copies| == 4 || (attempts > old(attempts) && !sendOk(attempts - 1))
      ensures ok && !client.finSent ==> h.sentPos == h.ackedPos == old(h.sentPos) + |chunk|
      ensures |copies| <= 4 && (ok ==> |copies| >= 1)
      ensures Of(log, PSH_ACK) == old(Of(log, PSH_ACK)) + copies
      ensures Copies(copies, iss + old(h.sentPos), chunk)
    {
      hide Wrap, Receiving, Ordered, Window, Fits, Of, Signed, Pending, HonestNetwork, Schedule, ResetArrived, Elapsed;
      copies := [];
      var segmentSequence := client.nxt;
      assert segmentSequence == Wrap(iss + h.sentPos) by { OrderedNumbers(Cf(), Value()); }
      var expectedAck := Wrap(client.nxt + |chunk|);
      assert expectedAck == Wrap(iss + (h.sentPos + |chunk|)) by { WrapAdd(iss + h.sentPos, |chunk|); }
      MssPositive(Cf(), Value());
      SendDataKeeps(Cf(), peer, Value(), chunk);
      ok := SendChunk(chunk);
      if ok {
        ghost var first := Sent(PSH_ACK, segmentSequence, client.rcv, chunk);
        ghost var more;
        ghost var sent := Value();
        ok, more := AwaitAck(segmentSequence, expectedAck, chunk, h.sentPos, sent);
        OrderedNumbers(Cf(), Value());
        WindowAfter(Cf(), sent, Value());
        copies := [first] + more;
      }
    }

    /** Since the state `start`, everything up to position e has been sent, and perhaps a FIN. */
    ghost predicate Waiting(e: int, start: State)
      reads this`head, this`length, this`responseLength, this`round, this`client, this`log, this`attempts, this`h
      reads queue, response
    {
      && Sound() && Ordered(Cf(), Value()) && client.syn && client.mss == start.c.mss && client.active == start.c.active
      && h.taken == start.h.taken && (start.c.finSent ==> client.finSent)
      && h.sentPos == e + One(client.finSent && !start.c.finSent) && h.ackedPos >= start.h.ackedPos
    }

    method Resend(sequence: Word, chunk: seq<Byte>, ghost e: int, ghost start: State) returns (ok: bool)
      requires Waiting(e, start) && |chunk| <= MAX_PAYLOAD
      modifies this`attempts, this`log
      ensures Waiting(e, start)
      ensures Of(log, PSH_ACK) == old(Of(log, PSH_ACK)) + (if ok then [Sent(PSH_ACK, sequence, client.rcv, chunk)] else [])
      ensures attempts == old(attempts) + 1 && ok == sendOk(old(attempts))
    {
      hide Receiving, Ordered, Of, Pending, HonestNetwork;
      ResendKeeps(Cf(), peer, Value(), sequence, chunk);
      ok := Send(PSH_ACK, sequence, chunk);
    }

    /** Polls and resends until everything up to position e is acknowledged. */
    method AwaitAck(sequence: Word, expectedAck: Word, chunk: seq<Byte>, ghost e: int, ghost start: State)
      returns (ok: bool, ghost copies: seq<Sent>)
      requires Waiting(e, start) && h.sentPos == e && expectedAck == Wrap(iss + e) && |chunk| <= MAX_PAYLOAD
      modifies this`length, this`responseLength, this`client, this`h, this`attempts, this`log, this`round, this`clock
      modifies queue, response
      ensures Waiting(e, start) && round >= old(round) && attempts >= old(attempts)
      ensures client.reset ==> old(client.reset) || ResetArrived(old(round), round)
      ensures ok ==> h.ackedPos >= e
      ensures var due := Schedule(rounds, old(round), if ok && round > old(round) then round - 1 else round, old(clock), 50, false).0;
              && |copies| <= due <= |copies| + 1 && (ok ==> due == |copies|)
              && (!ok && due == |copies| ==> client.reset || Expired())
      ensures !ok ==> client.reset || Expired() || |copies| == 3 || (attempts > old(attempts) && !sendOk(attempts - 1))
      ensures |copies| <= 3 && Of(log, PSH_ACK) == old(Of(log, PSH_ACK)) + copies
      ensures forall i | 0 <= i < |copies| :: copies[i].seqno == sequence && copies[i].payload == chunk
    {
      hide Wrap, Receiving, Ordered, Of, Signed, Pending, Elapsed, HonestNetwork, Schedule, ResetArrived;
      WaitTestHere(e);
      ScheduleStart(rounds, round, clock, 50, false);
      hide Waiting;
      copies := [];
      var tries := 1;
      var lastSend := clock;
      while Signed(Wrap(client.una - expectedAck)) < 0
        invariant Waiting(e, start) && old(round) <= round <= |rounds| && attempts >= old(attempts)
        invariant client.reset ==> old(client.reset) || ResetArrived(old(round), round)
        invariant tries == 1 + |copies| && tries <= 4
        invariant Schedule(rounds, old(round), round, old(clock), 50, false) == (|copies|, lastSend)
        invariant round > old(round) ==> Signed(Wrap(client.una - expectedAck)) < 0
        invariant Of(log, PSH_ACK) == old(Of(log, PSH_ACK)) + copies
        invariant forall i | 0 <= i < |copies| :: copies[i].seqno == sequence && copies[i].payload == chunk
        invariant Signed(Wrap(client.una - expectedAck)) < 0 <==> h.ackedPos < e
        decreases |rounds| - round
      {
        if client.reset || Expired() {
          return false, copies;
        }
        ScheduleNext(rounds, old(round), round, old(clock), 50, false);
        PollStream(e, start, old(round));
        var now := clock;
        if Signed(Wrap(client.una - expectedAck)) >= 0 {
          break;
        }
        if Elapsed(now, lastSend) >= 50 {
          if tries >= 4 {
            return false, copies;
          }
          ok := Resend(sequence, chunk, e, start);
          if !ok {
            return;
          }
          copies := copies + [Sent(PSH_ACK, sequence, client.rcv, chunk)];
          tries := tries + 1;
          lastSend := now;
        }
      }
      ok := true;
    }

    method PollStream(ghost e: int, ghost start: State, ghost from: nat)
      requires Waiting(e, start) && !Expired() && from <= round
      modifies this`length, this`responseLength, this`client, this`h, this`attempts, this`log, this`round, this`clock
      modifies queue, response
      ensures Waiting(e, start) && round == old(round) + 1 <= |rounds| && attempts >= old(attempts)
      ensures clock == rounds[old(round)].now
      ensures client.reset ==> old(client.reset) || ResetArrived(from, round)
      ensures old(ResetArrived(from, round)) ==> ResetArrived(from, round)
      ensures Of(log, PSH_ACK) == old(Of(log, PSH_ACK))
      ensures Signed(Wrap(client.una - Wrap(iss + e))) < 0 <==> h.ackedPos < e
    {
      hide Wrap, Signed, Of, Ordered, Window, Receiving, Pending, HonestNetwork;
      Poll();
      WaitTestHere(e);
    }

    /** Space for a segment before the signed comparisons of sequence numbers fail. */
    ghost predicate Room()
      reads this`h
    {
      h.sentPos + MAX_PAYLOAD <= h.ackedPos + SPAN
    }

    function FirstChunk(buffer: seq<Byte>): nat
      reads this`client
    {
      if |buffer| <= client.mss then |buffer| else client.mss
    }

    /** Success means that the whole buffer was sent at consecutive sequence numbers and acknowledged. A write may
        follow a failed one; it keeps the window if its first chunk fits. */
    method TlsWrite(buffer: seq<Byte>) returns (written: int, ghost data: seq<Sent>, ghost chunks: seq<Chunk>)
      requires Sound() && streamMode && Ordered(Cf(), Value()) && client.syn && Room()
      modifies this`length, this`responseLength, this`client, this`h, this`attempts, this`log, this`round, this`clock
      modifies queue, response
      ensures Sound() && Ordered(Cf(), Value()) && round >= old(round)
      ensures old(Window(Cf(), Value())) && old(Fits(client, FirstChunk(buffer))) ==> Window(Cf(), Value())
      ensures client.syn && client.mss == old(client.mss) && client.active == old(client.active) && h.taken == old(h.taken)
      ensures old(client.finSent) ==> client.finSent
      ensures client.reset ==> old(client.reset) || ResetArrived(old(round), round)
      ensures written == -1 || written == |buffer|
      ensures written > 0 || (written == 0 && old(Idle(Value()))) ==> Idle(Value())
      ensures Of(log, PSH_ACK) == old(Of(log, PSH_ACK)) + data
      ensures written == -1 ==> |buffer| > 0x7FFF_FFFF || !client.active || client.reset || Expired() || |data| >= 4 ||
                                (attempts > 0 && !sendOk(attempts - 1))
      ensures written >= 0 && !client.finSent ==>
                && h.sentPos == old(h.sentPos) + |buffer|
                && (written > 0 || old(Idle(Value())) ==> h.ackedPos == h.sentPos)
                && Carries(data, iss + old(h.sentPos), buffer, chunks, client.mss, |buffer|)
    {
      hide Wrap, Receiving, Ordered, Window, Fits, Of, Pending, Copies, Carries, HonestNetwork;
      data, chunks := [], [];
      CarriesNothing(iss + h.sentPos, buffer, client.mss);
      if |buffer| > 0x7FFF_FFFF {
        return -1, data, chunks;
      }
      written := 0;
      while written < |buffer|
        invariant 0 <= written <= |buffer|
        invariant Sound() && Ordered(Cf(), Value()) && client.syn && Room() && round >= old(round)
        invariant client.reset ==> old(client.reset) || ResetArrived(old(round), round)
        invariant if written == 0 then client == old(client) && h == old(h) else Idle(Value())
        invariant old(Window(Cf(), Value())) && old(Fits(client, FirstChunk(buffer))) ==> Window(Cf(), Value())
        invariant client.mss == old(client.mss) && client.active == old(client.active) && h.taken == old(h.taken)
        invariant old(client.finSent) ==> client.finSent
        invariant Of(log, PSH_ACK) == old(Of(log, PSH_ACK)) + data
        invariant !client.finSent ==>
                    && h.sentPos == old(h.sentPos) + written
                    && Carries(data, iss + old(h.sentPos), buffer, chunks, client.mss, written)
      {
        if !client.active || client.reset || Expired() {
          return -1, data, chunks;
        }
        MssPositive(Cf(), Value());
        if written > 0 { Unacknowledged(Cf(), Value()); }
        var chunkLength := |buffer| - written;
        if chunkLength > client.mss {
          chunkLength := client.mss;
        }
        ghost var copies;
        var ok;
        ok, copies := WriteChunk(buffer[written..written + chunkLength]);
        ghost var sofar := data;
        data := data + copies;
        if !ok {
          return -1, data, chunks;
        }
        OrderedNumbers(Cf(), Value());
        if !client.finSent {
          ghost var c := Chunk(written, chunkLength, |copies|);
          CarriesSnoc(sofar, copies, iss + old(h.sentPos), buffer, chunks, client.mss, c);
          chunks := chunks + [c];
        }
        written := written + chunkLength;
      }
      OrderedNumbers(Cf(), Value());
    }

    // ----- opening and requesting -----

    method SendSyn(first: bool) returns (ok: bool)
      requires Valid()
      modifies this`client, this`h, this`attempts, this`log
      ensures Valid() && (Value(), ok) == EmitSyn(Cf(), old(Value()), first)
    {
      hide Wrap, Pending;
      ok := Send(SYN, iss, []);
      if ok && first {
        client := client.(nxt := Wrap(iss + 1));
        h := h.(sentPos := 1);
      }
    }

    /** Four SYNs went unanswered or the network refused a send. */
    ghost predicate GaveUp(syns: nat, from: nat)
      reads this`log, this`attempts
    {
      |Of(log, SYN)| == syns + 4 || Refused(from, attempts)
    }

    /** The handshake of the stream mode. */
    method Connect() returns (connected: bool)
      requires Sound() && streamMode && BeforeSyn(Cf(), Value()) && client.active && !client.reset && !client.syn
      requires client.mss == MAX_PAYLOAD && h.taken == []
      modifies this`length, this`responseLength, this`client, this`h, this`attempts, this`log, this`round, this`clock
      modifies queue, response
      ensures Sound() && connected == client.syn && (!connected ==> client.reset || Expired())
      ensures connected && !client.reset ==> Window(Cf(), Value()) && Idle(Value()) && h.sentPos <= 1 + One(client.finSent)
      ensures |Of(log, SYN)| <= old(|Of(log, SYN)|) + 4 && Of(log, PSH_ACK) == old(Of(log, PSH_ACK))
      ensures h.taken == [] && client.active && round >= old(round) && attempts >= old(attempts)
      ensures client.reset ==> ResetArrived(old(round), round) || GaveUp(old(|Of(log, SYN)|), old(attempts))
      ensures var due := old(|Of(log, SYN)|) + Schedule(rounds, old(round), round, old(clock), 100, true).0;
              |Of(log, SYN)| <= due <= |Of(log, SYN)| + 1 && (!client.reset ==> |Of(log, SYN)| == due)
      ensures old(Of(log, SYN)) <= Of(log, SYN) && Copies(Of(log, SYN)[old(|Of(log, SYN)|)..], iss, [])
    {
      hide Wrap, Of, Pending, Copies, Receiving, Window, BeforeSyn, Elapsed, Schedule, HonestNetwork, ResetArrived, Refused;
      var synAttempts := 0;
      var lastSyn := clock;
      ghost var syns := Of(log, SYN);
      NoCopies(iss, []);
      assert syns[|syns|..] == [];
      ScheduleStart(rounds, round, clock, 100, true);
      while !client.reset && !client.syn && !Expired()
        invariant Sound() && h.taken == [] && client.active && 536 <= client.mss <= MAX_PAYLOAD
        invariant 0 <= synAttempts <= 4 && |Of(log, SYN)| == |syns| + synAttempts
        invariant Schedule(rounds, old(round), round, old(clock), 100, true) == (synAttempts, lastSyn)
        invariant syns <= Of(log, SYN) && Copies(Of(log, SYN)[|syns|..], iss, [])
        invariant round >= old(round) && attempts >= old(attempts)
        invariant client.reset ==> ResetArrived(old(round), round)
        invariant Of(log, PSH_ACK) == old(Of(log, PSH_ACK))
        invariant synAttempts == 0 ==> BeforeSyn(Cf(), Value()) && !client.syn
        invariant synAttempts > 0 ==> Window(Cf(), Value()) && h.sentPos <= 1 + One(client.finSent)
        decreases |rounds| - round
      {
        ScheduleNext(rounds, old(round), round, old(clock), 100, true);
        PollOpening(old(round));
        var now := clock;
        if synAttempts == 0 || Elapsed(now, lastSyn) >= 100 {
          if synAttempts >= 4 {
            Abort();
            break;
          }
          var ok := SynTurn(synAttempts == 0, syns, old(attempts));
          if !ok {
            Abort();
            break;
          }
          synAttempts := synAttempts + 1;
          lastSyn := now;
        }
      }
      if synAttempts > 0 { WindowNumbers(Cf(), Value()); }
      connected := client.syn;
    }

    /** A poll during the handshake. */
    method PollOpening(ghost from: nat)
      requires Sound() && !Expired() && from <= round && !client.reset
      modifies this`length, this`responseLength, this`client, this`h, this`attempts, this`log, this`round, this`clock
      modifies queue, response
      ensures Sound() && round == old(round) + 1 <= |rounds| && clock == rounds[old(round)].now && attempts >= old(attempts)
      ensures old(BeforeSyn(Cf(), Value())) ==> BeforeSyn(Cf(), Value())
      ensures old(Window(Cf(), Value())) ==> Window(Cf(), Value())
      ensures h.taken == old(h.taken) && client.active == old(client.active)
      ensures h.sentPos == old(h.sentPos) + One(client.finSent && !old(client.finSent)) && (old(client.finSent) ==> client.finSent)
      ensures old(536 <= client.mss <= MAX_PAYLOAD) ==> 536 <= client.mss <= MAX_PAYLOAD
      ensures Of(log, PSH_ACK) == old(Of(log, PSH_ACK)) && Of(log, SYN) == old(Of(log, SYN))
      ensures client.reset ==> ResetArrived(from, round)
    {
      hide Wrap, Of, Pending, Receiving, Window, BeforeSyn, Keeps, HonestNetwork, HasReset;
      ghost var before := Value();
      Poll();
      ConnectKeeps(before);
    }

    /** One SYN of the handshake, behind the `syns` of before it. */
    method SynTurn(first: bool, ghost syns: seq<Sent>, ghost from: nat) returns (ok: bool)
      requires Sound() && from <= attempts && 536 <= client.mss <= MAX_PAYLOAD
      requires if first then BeforeSyn(Cf(), Value()) else Window(Cf(), Value()) && h.sentPos <= 1 + One(client.finSent)
      requires syns <= Of(log, SYN) && Copies(Of(log, SYN)[|syns|..], iss, [])
      modifies this`client, this`h, this`attempts, this`log
      ensures Sound() && attempts >= from && client == old(client).(nxt := client.nxt) && h == old(h).(sentPos := h.sentPos)
      ensures Of(log, PSH_ACK) == old(Of(log, PSH_ACK)) && |Of(log, SYN)| == old(|Of(log, SYN)|) + One(ok)
      ensures syns <= Of(log, SYN) && Copies(Of(log, SYN)[|syns|..], iss, [])
      ensures ok ==> Window(Cf(), Value()) && h.sentPos <= 1 + One(client.finSent)
      ensures !ok ==> Refused(from, attempts) && (old(Window(Cf(), Value())) ==> Window(Cf(), Value())) && h == old(h)
    {
      hide Wrap, Of, Pending, Receiving, Window, BeforeSyn, EmitSyn, HonestNetwork, Copies;
      BackOne(iss);
      EmitSynKeeps(Cf(), peer, Value(), first);
      CopiesMore(syns, Of(log, SYN), iss, Sent(SYN, iss, client.rcv, []));
      ghost var x := Sent(SYN, iss, client.rcv, []);
      ok := SendSyn(first);
      assert Of(log, SYN) == if ok then old(Of(log, SYN)) + [x] else old(Of(log, SYN));
    }

    lemma ConnectKeeps(before: State)
      requires Sound() && Keeps(Cf(), peer, before, Value())
      ensures BeforeSyn(Cf(), before) ==> BeforeSyn(Cf(), Value())
      ensures Ordered(Cf(), before) ==> Ordered(Cf(), Value())
      ensures h.taken == before.h.taken && client.active == before.c.active
      ensures h.sentPos == before.h.sentPos + (if client.finSent && !before.c.finSent then 1 else 0)
      ensures before.c.finSent ==> client.finSent
      ensures 536 <= before.c.mss <= MAX_PAYLOAD ==> 536 <= client.mss <= MAX_PAYLOAD
      ensures Of(log, PSH_ACK) == Of(before.log, PSH_ACK) && Of(log, SYN) == Of(before.log, SYN)
      ensures client.requestSent == before.c.requestSent && (before.c.syn ==> client.syn)
    {
      hide Of, Ordered, Receiving, Pending, BeforeSyn, HonestNetwork;
    }

    method Abort()
      requires Sound()
      modifies this`client
      ensures Sound() && client == old(client).(reset := true) && Pending() == old(Pending())
      ensures Window(Cf(), Value()) == old(Window(Cf(), Value()))
    {
      hide Of, Window, Receiving, Pending;
      ghost var before := Value();
      client := client.(reset := true);
      SameReceiving(peer, before, Value());
      SameNumbers(Cf(), before, Value());
    }

    /** Why an operation of a session failed; `data` are the data segments sent so far. */
    ghost predicate Fails(op: StreamOp, data: seq<Sent>)
      reads this`head, this`length, this`responseLength, this`client, this`round, this`attempts, queue, response
      requires Valid()
    {
      match op
      case Read(count) =>
        count == 0 || count > 0x7FFF_FFFF ||
        (Pending() == [] && (client.reset || client.overflow || client.closed || Expired()))
      case Write(bytes) =>
        |bytes| > 0x7FFF_FFFF || !client.active || client.reset || Expired() || |data| >= 4 ||
        (attempts > 0 && !sendOk(attempts - 1))
    }

    /** A whole stream-mode connection: the handshake, then the operations in order until the first that fails. Whatever
        the network does, the bytes read are the peer's, in order and without gaps, the send window holds, and the
        data segments sent carry the bytes of the writes, in order, all of them acknowledged when it succeeds. */
    method Session(ops: seq<StreamOp>)
      returns (connected: bool, ok: bool, done: nat, got: seq<Byte>, put: seq<Byte>, ghost data: seq<Sent>,
               ghost chunks: seq<Chunk>)
      requires Sound() && streamMode && BeforeSyn(Cf(), Value()) && client.active && !client.reset && !client.syn
      requires client.mss == MAX_PAYLOAD && h.taken == [] && !client.finSent
      modifies this`head, this`length, this`responseLength, this`client, this`h, this`attempts, this`log, this`round, this`clock
      modifies queue, response
      ensures Sound() && h.taken == got && done <= |ops|
      ensures (HonestNetwork() || h.genuine) && !client.overflow ==> got + Pending() <= peer.stream
      ensures put == Writes(ops[..done]) && ReadCount(ops[..done]) <= |got| <= Wanted(ops[..done])
      ensures (ok ==> connected && done == |ops|) && (!connected ==> done == 0 && (client.reset || Expired()))
      ensures connected && !ok ==> done < |ops| && Fails(ops[done], data)
      ensures client.reset ==>
                ResetArrived(old(round), round) || (!connected && GaveUp(old(|Of(log, SYN)|), old(attempts)))
      ensures connected ==> Window(Cf(), Value()) && (ok ==> Idle(Value()))
      ensures Of(log, PSH_ACK) == old(Of(log, PSH_ACK)) + data
      ensures ok && !client.finSent ==>
                h.ackedPos == h.sentPos == 1 + |put| && Carries(data, iss + 1, put, chunks, client.mss, |put|)
    {
      hide Wrap, Of, Pending, Receiving, Ordered, Window, BeforeSyn, Carries, HonestNetwork, Fails, ResetArrived, GaveUp;
      NoOps();
      hide Writes, Wanted, ReadCount;
      got, put, data, chunks, done := [], [], [], [], 0;
      connected := Connect();
      connected := connected && !client.reset;
      if connected {
        WindowNumbers(Cf(), Value());
        CarriesNothing(iss + 1, put, client.mss);
      }
      ok := connected;
      assert ops[..0] == [];
      while ok && done < |ops|
        invariant done <= |ops| && Sound() && h.taken == got && put == Writes(ops[..done])
        invariant ReadCount(ops[..done]) <= |got| <= Wanted(ops[..done])
        invariant (ok ==> connected) && (!connected ==> done == 0 && (client.reset || Expired()))
        invariant connected && !ok ==> done < |ops| && Fails(ops[done], data)
        invariant round >= old(round)
        invariant if connected then client.reset ==> ResetArrived(old(round), round)
                  else client.reset ==> ResetArrived(old(round), round) || GaveUp(old(|Of(log, SYN)|), old(attempts))
        invariant connected ==> Window(Cf(), Value()) && client.syn && (ok ==> Idle(Value()))
        invariant Of(log, PSH_ACK) == old(Of(log, PSH_ACK)) + data
        invariant ok && !client.finSent ==>
                    h.ackedPos == h.sentPos == 1 + |put| && Carries(data, iss + 1, put, chunks, client.mss, |put|)
        decreases ok, |ops| - done
      {
        NextOp(ops, done);
        match ops[done] {
          case Read(count) =>
            var n, bytes := ReadOp(count, data, old(round));
            got := got + bytes;
            ok := n > 0;
          case Write(bytes) =>
            ghost var d, c;
            var n;
            n, d, c := WriteOp(bytes, data, old(round));
            ok := n >= 0;
            if ok {
              if !client.finSent {
                CarriesJoin(data, d, iss + 1, put, bytes, chunks, c, client.mss, |bytes|);
                chunks := chunks + Shifted(c, |put|);
              }
              put := put + bytes;
            }
            data := data + d;
        }
        if ok {
          done := done + 1;
        }
      }
      assert ops[..|ops|] == ops;
      Prefix();
    }

    /** A read between successful writes. */
    method ReadOp(count: nat, ghost sofar: seq<Sent>, ghost from: nat) returns (n: int, bytes: seq<Byte>)
      requires Sound() && streamMode && Window(Cf(), Value()) && Idle(Value())
      requires from <= round && (client.reset ==> ResetArrived(from, round))
      modifies this`head, this`length, this`responseLength, this`client, this`h, this`attempts, this`log, this`round, this`clock
      modifies queue, response
      ensures Sound() && Window(Cf(), Value()) && Idle(Value()) && round >= old(round)
      ensures client.mss == old(client.mss) && h.taken == old(h.taken) + bytes && Of(log, PSH_ACK) == old(Of(log, PSH_ACK))
      ensures client.reset ==> ResetArrived(from, round)
      ensures !client.finSent ==> !old(client.finSent) && h.sentPos == h.ackedPos == old(h.sentPos)
      ensures if n > 0 then 1 <= |bytes| <= count else bytes == [] && Fails(Read(count), sofar)
    {
      hide Wrap, Of, Pending, Receiving, Ordered, Window, Follows, HonestNetwork, HasReset;
      ghost var before := Value();
      var buffer := new Byte[count];
      n := TlsRead(buffer, count);
      bytes := if n > 0 then buffer[..n] else [];
      ReadKeeps(before, h.taken);
    }

    /** A write between successful writes. */
    method WriteOp(bytes: seq<Byte>, ghost sofar: seq<Sent>, ghost from: nat)
      returns (n: int, ghost data: seq<Sent>, ghost chunks: seq<Chunk>)
      requires Sound() && streamMode && Window(Cf(), Value()) && Idle(Value())
      requires from <= round && (client.reset ==> ResetArrived(from, round))
      modifies this`length, this`responseLength, this`client, this`h, this`attempts, this`log, this`round, this`clock
      modifies queue, response
      ensures Sound() && Window(Cf(), Value()) && client.syn && round >= old(round)
      ensures client.mss == old(client.mss) && h.taken == old(h.taken) && Of(log, PSH_ACK) == old(Of(log, PSH_ACK)) + data
      ensures client.reset ==> ResetArrived(from, round)
      ensures n >= 0 ==> Idle(Value())
      ensures n >= 0 && !client.finSent ==>
                && !old(client.finSent) && h.ackedPos == h.sentPos == old(h.sentPos) + |bytes|
                && Carries(data, iss + old(h.sentPos), bytes, chunks, client.mss, |bytes|)
      ensures n < 0 ==> Fails(Write(bytes), sofar + data)
    {
      hide Wrap, Of, Pending, Receiving, Ordered, Window, Carries, Fits, HonestNetwork, HasReset;
      WindowOrdered(Cf(), Value());
      Unacknowledged(Cf(), Value());
      OrderedNumbers(Cf(), Value());
      n, data, chunks := TlsWrite(bytes);
      OrderedNumbers(Cf(), Value());
    }

    lemma Prefix()
      requires Sound()
      ensures h.genuine && !client.overflow ==> h.taken + Pending() <= peer.stream
    {
      hide Pending, Wrap;
    }

    lemma ReadKeeps(before: State, taken: seq<Byte>)
      requires Valid() && Window(Cf(), before) && Window(Cf(), Value()) && Idle(before)
      requires h.taken == taken && Follows(before, Value().(h := h.(taken := before.h.taken)))
      ensures Idle(Value()) && client.mss == before.c.mss && Of(log, PSH_ACK) == Of(before.log, PSH_ACK)
      ensures !client.finSent ==> !before.c.finSent && h.sentPos == h.ackedPos == before.h.sentPos
    {
      hide Of, Pending, Numbered;
    }

    /** Changes to these parts of the record do not touch what has been received. */
    method SetSending(nxt: Word, requestSent: bool, active: bool)
      requires Sound()
      modifies this`client
      ensures Sound() && client == old(client).(nxt := nxt, requestSent := requestSent, active := active)
      ensures Pending() == old(Pending())
    {
      hide Receiving, Pending;
      ghost var before := Value();
      client := client.(nxt := nxt, requestSent := requestSent, active := active);
      SameReceiving(peer, before, Value());
    }

    method SendPlain(flags: Byte, sequence: Word, payload: seq<Byte>) returns (ok: bool)
      requires Sound()
      modifies this`attempts, this`log
      ensures Sound() && Pending() == old(Pending())
      ensures var x := Sent(flags, sequence, client.rcv, payload);
              && Of(log, SYN) == (if ok && flags == SYN then old(Of(log, SYN)) + [x] else old(Of(log, SYN)))
              && Of(log, PSH_ACK) == (if ok && flags == PSH_ACK then old(Of(log, PSH_ACK)) + [x] else old(Of(log, PSH_ACK)))
      ensures attempts >= old(attempts) && (!ok ==> |payload| > MAX_PAYLOAD || Refused(old(attempts), attempts))
      ensures attempts == old(attempts) + One(|payload| <= MAX_PAYLOAD) && (ok <==> |payload| <= MAX_PAYLOAD && sendOk(old(attempts)))
      ensures log == old(log) + (if ok then [Sent(flags, sequence, client.rcv, payload)] else [])
    {
      hide Receiving, Pending, Of;
      ghost var before := Value();
      OfSnoc(log, Sent(flags, sequence, client.rcv, payload), SYN);
      OfSnoc(log, Sent(flags, sequence, client.rcv, payload), PSH_ACK);
      ok := Send(flags, sequence, payload);
      SameReceiving(peer, before, Value());
    }

    /** At most four SYNs and four copies of the request have been sent. */
    ghost predicate Counted(request: seq<Byte>, timer: Timer, requestSent: bool)
      reads this`log
    {
      && |Of(log, SYN)| == timer.synAttempts <= 4 && |Of(log, PSH_ACK)| == timer.requestAttempts <= 4
      && Copies(Of(log, PSH_ACK), iss + 1, request) && Copies(Of(log, SYN), iss, [])
      && (timer.requestAttempts > 0 <==> requestSent)
    }

    /** The request does not fit in a segment the peer takes. */
    predicate Oversized(request: seq<Byte>)
      reads this`client
    {
      |request| > client.mss || |request| > MAX_PAYLOAD
    }

    predicate SynDue(timer: Timer)
      reads this`clock
    {
      timer.synAttempts == 0 || Elapsed(clock, timer.lastSyn) >= 100
    }

    predicate RequestDue(timer: Timer)
      reads this`clock, this`client
    {
      !client.requestSent ||
      (!client.requestAcked && timer.requestAttempts < 4 && Elapsed(clock, timer.lastRequest) >= 100)
    }

    /** Another SYN, unless four have been sent. */
    method NextSyn(ghost request: seq<Byte>, timer: Timer) returns (ok: bool)
      requires Sound() && Counted(request, timer, client.requestSent)
      modifies this`attempts, this`log
      ensures Sound() && Pending() == old(Pending()) && attempts >= old(attempts)
      ensures if ok then Counted(request, timer.(synAttempts := timer.synAttempts + 1), client.requestSent)
              else Counted(request, timer, client.requestSent) && GaveUp(0, old(attempts))
      ensures ok <==> timer.synAttempts < 4 && sendOk(old(attempts))
      ensures log == old(log) + (if ok then [Sent(SYN, iss, client.rcv, [])] else [])
    {
      hide Sound, Pending, Of, Wrap, Copies, Refused;
      BackOne(iss);
      CopiesSnoc(Of(log, SYN), iss, Sent(SYN, iss, client.rcv, []));
      ok := false;
      if timer.synAttempts < 4 {
        ok := SendPlain(SYN, iss, []);
      }
    }

    /** A SYN at once and then every 100 ticks; giving up after the fourth or when the network refuses one. */
    method AdvanceSyn(ghost request: seq<Byte>, timer: Timer) returns (next: Timer)
      requires Sound() && Counted(request, timer, client.requestSent)
      modifies this`client, this`attempts, this`log
      ensures Sound() && Counted(request, next, client.requestSent) && Pending() == old(Pending()) && attempts >= old(attempts)
      ensures client.reset && !old(client.reset) ==> GaveUp(0, old(attempts))
      ensures var sent := SynDue(timer) && timer.synAttempts < 4 && sendOk(old(attempts));
              && next == (if sent then timer.(synAttempts := timer.synAttempts + 1, lastSyn := clock) else timer)
              && log == old(log) + (if sent then [Sent(SYN, iss, client.rcv, [])] else [])
              && client == old(client).(reset := old(client.reset) || (SynDue(timer) && !sent),
                                        nxt := if sent && timer.synAttempts == 0 then Wrap(iss + 1) else old(client.nxt))
    {
      hide Sound, Pending, Of, Elapsed, Wrap, Window, Copies, GaveUp, Value, Cf, Valid;
      next := timer;
      if timer.synAttempts == 0 || Elapsed(clock, timer.lastSyn) >= 100 {
        var ok := NextSyn(request, timer);
        if !ok {
          Abort();
          return;
        }
        if timer.synAttempts == 0 {
          SetSending(Wrap(iss + 1), client.requestSent, client.active);
        }
        next := timer.(synAttempts := timer.synAttempts + 1, lastSyn := clock);
      }
    }

    /** A copy of the request; the first moves `nxt` behind it. */
    method AdvanceRequest(request: seq<Byte>, timer: Timer) returns (next: Timer)
      requires Sound() && Counted(request, timer, client.requestSent) && timer.requestAttempts < 4
      modifies this`client, this`attempts, this`log
      ensures Sound() && Counted(request, next, client.requestSent) && Pending() == old(Pending()) && attempts >= old(attempts)
      ensures client.reset && !old(client.reset) ==> GaveUp(0, old(attempts)) || Oversized(request)
      ensures var sent := |request| <= MAX_PAYLOAD && sendOk(old(attempts));
              var first := !old(client.requestSent);
              && next == (if sent then timer.(requestAttempts := timer.requestAttempts + 1, lastRequest := clock) else timer)
              && log == old(log) + (if sent then [Sent(PSH_ACK, Wrap(iss + 1), client.rcv, request)] else [])
              && client == old(client).(reset := old(client.reset) || !sent, requestSent := old(client.requestSent) || sent,
                                        nxt := if first && sent then Wrap(Wrap(iss + 1) + |request|)
                                               else if first then Wrap(iss + 1) else old(client.nxt))
    {
      hide Sound, Pending, Of, Wrap, Window, Copies, Refused, Value, Cf, Valid;
      CopiesSnoc(Of(log, PSH_ACK), iss + 1, Sent(PSH_ACK, Wrap(iss + 1), client.rcv, request));
      next := timer;
      if !client.requestSent {
        SetSending(Wrap(iss + 1), false, client.active);
      }
      var ok := SendPlain(PSH_ACK, Wrap(iss + 1), request);
      if !ok {
        Abort();
        return;
      }
      if !client.requestSent {
        SetSending(Wrap(client.nxt + |request|), true, client.active);
      }
      next := timer.(requestAttempts := timer.requestAttempts + 1, lastRequest := clock);
    }

    /** One turn of the request loop after the poll: a SYN while the connection is not open, then the request, each
        when it is due. */
    method Advance(request: seq<Byte>, timer: Timer) returns (next: Timer)
      requires Sound() && Counted(request, timer, client.requestSent)
      modifies this`client, this`attempts, this`log
      ensures Sound() && Counted(request, next, client.requestSent)
      ensures client == old(client).(nxt := client.nxt, requestSent := client.requestSent, reset := client.reset)
      ensures Pending() == old(Pending()) && attempts >= old(attempts)
      ensures client.reset && !old(client.reset) ==> GaveUp(0, old(attempts)) || Oversized(request)
      ensures !client.reset && !client.syn ==>
                log == old(log) + (if SynDue(timer) then [Sent(SYN, iss, client.rcv, [])] else []) &&
                next == (if SynDue(timer) then timer.(synAttempts := timer.synAttempts + 1, lastSyn := clock) else timer)
      ensures !client.reset && client.syn ==>
                client.requestSent &&
                log == old(log) + (if old(RequestDue(timer)) then [Sent(PSH_ACK, Wrap(iss + 1), client.rcv, request)] else []) &&
                next == (if old(RequestDue(timer)) then timer.(requestAttempts := timer.requestAttempts + 1, lastRequest := clock)
                         else timer)
    {
      hide Receiving, Pending, Of, Elapsed, Wrap, Window, Copies, Refused, HonestNetwork, Terminated;
      next := timer;
      if !client.syn {
        next := AdvanceSyn(request, timer);
      } else if !client.requestSent {
        if |request| > client.mss {
          Abort();
          return;
        }
        next := AdvanceRequest(request, timer);
      } else if !client.requestAcked && timer.requestAttempts < 4 && Elapsed(clock, timer.lastRequest) >= 100 {
        next := AdvanceRequest(request, timer);
      }
    }

    /** The request loop; `late` is whether the deadline passes between its last turn and the final tick read. A
        positive result is the length of the peer's entire stream, which the response buffer then holds. */
    method HttpGet(request: seq<Byte>, late: bool) returns (result: int)
      requires Sound() && !streamMode && client.active && !client.syn && !client.requestSent
      requires log == [] && h.taken == []
      modifies this`length, this`responseLength, this`client, this`h, this`attempts, this`log, this`round, this`clock
      modifies queue, response
      ensures Sound() && !client.active
      ensures client.reset || Expired() || client.closed
      ensures client.reset ==>
                old(client.reset) || ResetArrived(old(round), round) || GaveUp(0, old(attempts)) || Oversized(request)
      ensures (HonestNetwork() || h.genuine) && |peer.stream| > 0 && !client.overflow && !Expired() && !late && !client.reset ==>
                result > 0
      ensures result > 0 ==> result < response.Length && client.closed && !client.overflow && !client.reset
      ensures result > 0 && (HonestNetwork() || h.genuine) ==> response[..result] == peer.stream && response[result] == 0
      ensures result <= 0 ==> result == -3 || result == -4 || result == -5
      ensures result == -5 <==> client.overflow
      ensures result == -3 ==> !client.syn
      ensures result > 0 <==> !client.overflow && !Expired() && !late && !client.reset && client.syn && responseLength > 0
      ensures result > 0 ==> result == responseLength
      ensures |Of(log, SYN)| <= 4 && |Of(log, PSH_ACK)| <= 4 && Copies(Of(log, PSH_ACK), iss + 1, request)
      ensures Copies(Of(log, SYN), iss, [])
      ensures round > old(round) && !client.reset ==> Begun()
      ensures client.syn && !client.finSent ==>
                attempts > 0 && (sendOk(attempts - 1) ==>
                                   |log| > 0 && log[|log| - 1] == Sent(FIN_ACK, Wrap(client.nxt - 1), client.rcv, []))
    {
      hide Receiving, Pending, Of, Wrap, Copies, HonestNetwork, GaveUp, ResetArrived, Oversized, Begun;
      assert Of(log, SYN) == [] && Of(log, PSH_ACK) == [] by { EmptyLog(log); }
      var timer := RunLoop(request);
      var timedOut := Expired() || late;
      var connected := client.syn;
      var overflow := client.overflow;
      var length := responseLength;
      Finish(request, old(attempts));
      if h.genuine && client.closed && !client.overflow { WholeStream(); }
      if overflow {
        return -5;
      }
      if timedOut {
        return -4;
      }
      if client.reset || !connected || length == 0 {
        return if connected then -4 else -3;
      }
      return length;
    }

    /** A SYN has been sent before the connection opened, and the request since. */
    ghost predicate Begun()
      reads this`log, this`client
    {
      if client.syn then client.requestSent && |Of(log, PSH_ACK)| > 0 else |Of(log, SYN)| > 0
    }

    /** A last FIN, and the connection is no longer active. */
    method Finish(ghost request: seq<Byte>, ghost from: nat)
      requires Sound() && client.active
      modifies this`client, this`attempts, this`log
      ensures Sound() && client == old(client).(nxt := client.nxt, active := false) && Pending() == old(Pending())
      ensures Of(log, SYN) == old(Of(log, SYN)) && Of(log, PSH_ACK) == old(Of(log, PSH_ACK))
      ensures (old(GaveUp(0, from)) ==> GaveUp(0, from)) && Oversized(request) == old(Oversized(request))
      ensures old(Begun()) ==> Begun()
      ensures client.syn && !client.finSent ==>
                attempts > 0 && (sendOk(attempts - 1) ==>
                                   |log| > 0 && log[|log| - 1] == Sent(FIN_ACK, Wrap(client.nxt - 1), client.rcv, []))
    {
      hide Sound, Pending, Of, Wrap;
      if client.syn && !client.finSent {
        ghost var n := client.nxt;
        var ok := SendPlain(FIN_ACK, client.nxt, []);
        BackOne(n);
        if ok {
          SetSending(Wrap(client.nxt + 1), client.requestSent, client.active);
        }
      }
      SetSending(client.nxt, client.requestSent, false);
    }

    method RunLoop(request: seq<Byte>) returns (timer: Timer)
      requires Sound() && !streamMode && client.active && !client.syn && !client.requestSent
      requires Of(log, SYN) == [] && Of(log, PSH_ACK) == [] && h.taken == []
      modifies this`length, this`responseLength, this`client, this`h, this`attempts, this`log, this`round, this`clock
      modifies queue, response
      ensures Sound() && h.taken == [] && client.active
      ensures client.reset || Expired() || client.closed
      ensures round >= old(round) && attempts >= old(attempts)
      ensures client.reset ==>
                old(client.reset) || ResetArrived(old(round), round) || GaveUp(0, old(attempts)) || Oversized(request)
      ensures |Of(log, SYN)| <= 4 && |Of(log, PSH_ACK)| <= 4 && Copies(Of(log, PSH_ACK), iss + 1, request)
      ensures Copies(Of(log, SYN), iss, [])
      ensures round > old(round) && !client.reset ==> Begun()
    {
      hide Receiving, Pending, Of, Wrap, BeforeSyn, Window, HonestNetwork, HasReset, Copies;
      NoCopies(iss + 1, request);
      NoCopies(iss, []);
      timer := Timer(0, clock, 0, 0);
      while !client.reset && !Expired()
        invariant Sound() && h.taken == [] && client.active
        invariant Counted(request, timer, client.requestSent) && round >= old(round) && attempts >= old(attempts)
        invariant client.reset ==>
                    old(client.reset) || ResetArrived(old(round), round) || GaveUp(0, old(attempts)) || Oversized(request)
        invariant round > old(round) && !client.reset ==> Begun()
        decreases |rounds| - round
      {
        ghost var before := Value();
        Poll();
        ConnectKeeps(before);
        timer := Advance(request, timer);
        if client.closed {
          break;
        }
      }
    }

    lemma WholeStream()
      requires Sound() && !streamMode && h.genuine && h.taken == [] && client.closed && !client.overflow
      ensures response[..responseLength] == peer.stream && responseLength == |peer.stream| && client.syn
    {
    }
  }

  lemma CopiesSnoc(sent: seq<Sent>, position: int, x: Sent)
    requires Copies(sent, position, x.payload) && x.seqno == Wrap(position)
    ensures Copies(sent + [x], position, x.payload)
  {
  }

  lemma BackOne(n: Word)
    ensures Wrap(Wrap(n + 1) - 1) == n == Wrap(n)
  {
  }

  lemma NoCopies(position: int, payload: seq<Byte>)
    ensures Copies([], position, payload)
  {
  }

  lemma CopiesMore(a: seq<Sent>, b: seq<Sent>, position: int, x: Sent)
    requires a <= b && Copies(b[|a|..], position, x.payload) && x.seqno == Wrap(position)
    ensures Copies((b + [x])[|a|..], position, x.payload)
  {
    assert (b + [x])[|a|..] == b[|a|..] + [x];
  }

  lemma EmptyLog(log: seq<Sent>)
    requires log == []
    ensures forall f: Byte :: Of(log, f) == []
  {
  }

  lemma NextSlots(head: nat, i: nat)
    requires head < QUEUE_SIZE
    ensures Slot(Slot(head, i), 1) == Slot(head, i + 1) && Slot(head, 0) == head
  {
  }

  lemma SlotsAdd(head: nat, n: nat, i: nat)
    requires head < QUEUE_SIZE
    ensures Slot(Slot(head, n), i) == Slot(head, n + i) && Slot(head, 0) == head
  {
  }

  /** The first n bytes of the buffer, in consecutive chunks. */
  ghost predicate Carries(sent: seq<Sent>, base: int, buffer: seq<Byte>, chunks: seq<Chunk>, mss: nat, n: nat) {
    Consecutive(chunks, mss) && End(chunks) == n && Transmits(sent, base, buffer, chunks)
  }

  lemma CarriesNothing(base: int, buffer: seq<Byte>, mss: nat)
    ensures Carries([], base, buffer, [], mss, 0)
  {
  }

  lemma CarriesSnoc(sent: seq<Sent>, more: seq<Sent>, base: int, buffer: seq<Byte>, chunks: seq<Chunk>, mss: nat, c: Chunk)
    requires Carries(sent, base, buffer, chunks, mss, c.offset) && 1 <= c.length <= mss && 1 <= c.times == |more| <= 4
    requires c.offset + c.length <= |buffer| && Copies(more, base + c.offset, buffer[c.offset..c.offset + c.length])
    ensures Carries(sent + more, base, buffer, chunks + [c], mss, c.offset + c.length)
  {
    hide Transmits, Consecutive, Copies;
    TransmitsSnoc(sent, more, base, buffer, chunks, c);
    ConsecutiveSnoc(chunks, mss, c);
  }

  /** The chunks of a buffer that starts at offset n. */
  function Shifted(chunks: seq<Chunk>, n: nat): (r: seq<Chunk>)
    ensures |r| == |chunks| && forall i | 0 <= i < |r| :: r[i] == chunks[i].(offset := chunks[i].offset + n)
  {
    seq(|chunks|, i requires 0 <= i < |chunks| => chunks[i].(offset := chunks[i].offset + n))
  }

  lemma {:induction false} TransmitsMore(sent: seq<Sent>, base: int, a: seq<Byte>, b: seq<Byte>, chunks: seq<Chunk>)
    requires Transmits(sent, base, a, chunks)
    ensures Transmits(sent, base, a + b, chunks)
    decreases |chunks|
  {
    if |chunks| > 0 {
      var c := chunks[|chunks| - 1];
      assert (a + b)[c.offset..c.offset + c.length] == a[c.offset..c.offset + c.length];
      TransmitsMore(sent[..|sent| - c.times], base, a, b, chunks[..|chunks| - 1]);
    }
  }

  /** One buffer sent behind another is their concatenation sent. */
  lemma {:induction false} CarriesJoin(s1: seq<Sent>, s2: seq<Sent>, base: int, a: seq<Byte>, b: seq<Byte>, c1: seq<Chunk>,
                                       c2: seq<Chunk>, mss: nat, n: nat)
    requires Carries(s1, base, a, c1, mss, |a|) && Carries(s2, base + |a|, b, c2, mss, n)
    ensures Carries(s1 + s2, base, a + b, c1 + Shifted(c2, |a|), mss, |a| + n)
    decreases |c2|
  {
    hide Carries, Copies;
    if |c2| == 0 {
      JoinNothing(s1, s2, base, a, b, c1, mss, n);
      assert s1 + [] == s1 && c2 == [] && c1 + Shifted([], |a|) == c1;
    } else {
      CarriesLast(s2, base + |a|, b, c2, mss, n);
      var last := |c2| - 1;
      var c := c2[last];
      var k := |s2| - c.times;
      CarriesJoin(s1, s2[..k], base, a, b, c1, c2[..last], mss, c.offset);
      var d := c.(offset := c.offset + |a|);
      assert (a + b)[d.offset..d.offset + d.length] == b[c.offset..c.offset + c.length];
      CarriesSnoc(s1 + s2[..k], s2[k..], base, a + b, c1 + Shifted(c2[..last], |a|), mss, d);
      assert s1 + s2[..k] + s2[k..] == s1 + s2;
      assert c1 + Shifted(c2[..last], |a|) + [d] == c1 + Shifted(c2, |a|);
    }
  }

  lemma JoinNothing(s1: seq<Sent>, s2: seq<Sent>, base: int, a: seq<Byte>, b: seq<Byte>, c1: seq<Chunk>, mss: nat, n: nat)
    requires Carries(s1, base, a, c1, mss, |a|) && Carries(s2, base + |a|, b, [], mss, n)
    ensures s2 == [] && n == 0 && Carries(s1, base, a + b, c1, mss, |a|)
  {
    hide Copies;
    TransmitsMore(s1, base, a, b, c1);
  }

  lemma CarriesLast(sent: seq<Sent>, base: int, buffer: seq<Byte>, chunks: seq<Chunk>, mss: nat, end: nat)
    requires Carries(sent, base, buffer, chunks, mss, end) && |chunks| > 0
    ensures var n := |chunks| - 1;
            var c := chunks[n];
            && end == c.offset + c.length && 1 <= c.length <= mss && 1 <= c.times <= 4 && c.times <= |sent| && c.offset + c.length <= |buffer|
            && Copies(sent[|sent| - c.times..], base + c.offset, buffer[c.offset..c.offset + c.length])
            && Carries(sent[..|sent| - c.times], base, buffer, chunks[..n], mss, c.offset)
  {
    hide Copies;
    var n := |chunks| - 1;
    forall i | 0 <= i < n ensures chunks[..n][..i] == chunks[..i] { }
    assert Consecutive(chunks[..n], mss);
  }

  lemma OrderedNumbers(cf: Config, s: State)
    requires Ordered(cf, s)
    ensures s.c.nxt == Wrap(cf.iss + s.h.sentPos)
    ensures s.c.syn ==> 1 <= s.h.ackedPos <= s.h.sentPos <= s.h.ackedPos + SPAN + One(s.c.finSent)
  {
  }

  lemma WindowNumbers(cf: Config, s: State)
    requires Window(cf, s)
    ensures s.c.nxt == Wrap(cf.iss + s.h.sentPos)
    ensures s.c.syn ==> 1 <= s.h.ackedPos <= s.h.sentPos <= s.h.ackedPos + s.c.mss + One(s.c.finSent)
  {
  }

  lemma WindowAfter(cf: Config, s: State, t: State)
    requires s.c.syn && t.c.syn && Ordered(cf, t) && t.c.mss == s.c.mss && t.h.ackedPos >= s.h.ackedPos
    requires t.h.sentPos == s.h.sentPos + One(t.c.finSent && !s.c.finSent) && (s.c.finSent ==> t.c.finSent)
    ensures Window(cf, s) ==> Window(cf, t)
  {
    hide Wrap;
  }

  lemma KeepsWindow(cf: Config, peer: Peer, s: State, t: State)
    requires Keeps(cf, peer, s, t) && Window(cf, s)
    ensures Window(cf, t)
  {
    hide Window, Ordered, BeforeSyn, Receiving, Follows;
    WindowFollows(cf, s, t);
  }

  lemma LeastUnique(options: seq<(Byte, seq<Byte>)>, m: int, v: int, w: int)
    requires IsLeast(options, m, v) && w == LowerAll(options, m)
    ensures v == w
  {
    LowerAllIsLeast(options, m);
    assert v < w ==> v != m;
    assert w < v ==> w != m;
  }
}
