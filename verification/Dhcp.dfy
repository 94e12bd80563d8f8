/** The DHCP client: messages and options on the wire, and the state machine from discovery to a bound address. */
module Dhcp {
  import opened Wrappers
  import opened Words
  import opened Packets

  type Mac = m: seq<Byte> | |m| == 6 witness [0, 0, 0, 0, 0, 0]

  const ZERO: Address := [0, 0, 0, 0]

  predicate Usable(a: Address) {
    a != ZERO && a[0] < 224 && a[0] != 127
  }

  // ----- options -----

  type Item = (Byte, seq<Byte>)

  /** Codes and values up to the end mark; None without one or with an option that runs over the end. */
  function Items(s: seq<Byte>): Option<seq<Item>>
    decreases |s|
  {
    if |s| == 0 then None
    else if s[0] == 0 then Items(s[1..])
    else if s[0] == 255 then Some([])
    else if |s| < 2 || s[1] > |s| - 2 then None
    else
      var rest := Items(s[2 + s[1]..]);
      if rest.None? then None else Some([(s[0], s[2..2 + s[1]])] + rest.value)
  }

  datatype Options = Options(messageType: Option<Byte>, server: Option<Address>, mask: Option<Address>,
                             router: Option<Address>, dns: Option<Address>)

  const NO_OPTIONS := Options(None, None, None, None, None)

  function Note(o: Options, item: Item): Options {
    var (code, value) := item;
    if code == 53 && |value| == 1 then o.(messageType := Some(value[0]))
    else if code == 54 && |value| == 4 then o.(server := Some(value))
    else if code == 1 && |value| == 4 then o.(mask := Some(value))
    else if code == 3 && |value| >= 4 then o.(router := Some(value[..4]))
    else if code == 6 && |value| >= 4 then o.(dns := Some(value[..4]))
    else o
  }

  function NoteAll(o: Options, items: seq<Item>): Options
    decreases |items|
  {
    if |items| == 0 then o else NoteAll(Note(o, items[0]), items[1..])
  }

  const MAGIC: seq<Byte> := [99, 130, 83, 99]

  function OptionsOf(packet: seq<Byte>): Option<Options> {
    if |packet| < 240 || packet[236..240] != MAGIC then None
    else
      var items := Items(packet[240..]);
      if items.None? then None
      else
        var o := NoteAll(NO_OPTIONS, items.value);
        if o.messageType.None? then None else Some(o)
  }

  /** One step of the option cursor. */
  lemma ItemsAt(s: seq<Byte>, at: nat, o: Options)
    requires at < |s|
    ensures s[at] == 0 ==> Items(s[at..]) == Items(s[at + 1..])
    ensures s[at] == 255 ==> Items(s[at..]) == Some([])
    ensures 0 < s[at] < 255 && (at + 1 >= |s| || s[at + 1] > |s| - (at + 2)) ==> Items(s[at..]) == None
    ensures 0 < s[at] < 255 && at + 1 < |s| && s[at + 1] <= |s| - (at + 2) ==>
              var n := s[at + 1];
              var rest := Items(s[at + 2 + n..]);
              && Items(s[at..]).None? == rest.None?
              && (rest.Some? ==>
                    NoteAll(o, Items(s[at..]).value) == NoteAll(Note(o, (s[at], s[at + 2..at + 2 + n])), rest.value))
  {
    hide Note;
    var t := s[at..];
    assert t[1..] == s[at + 1..];
    if 0 < s[at] < 255 && at + 1 < |s| && s[at + 1] <= |s| - (at + 2) {
      var n := s[at + 1];
      assert t[2..2 + n] == s[at + 2..at + 2 + n] && t[2 + n..] == s[at + 2 + n..];
    }
  }

  method ParseOptions(packet: seq<Byte>) returns (r: Option<Options>)
    ensures r == OptionsOf(packet)
  {
    hide Items, NoteAll;
    if |packet| < 240 || packet[236..240] != MAGIC {
      return None;
    }
    var options := NO_OPTIONS;
    var cursor := 240;
    ghost var whole := Items(packet[240..]);
    NoItems(packet, options);
    while cursor < |packet|
      invariant 240 <= cursor <= |packet|
      invariant Items(packet[cursor..]).None? == whole.None?
      invariant whole.Some? ==> NoteAll(options, Items(packet[cursor..]).value) == NoteAll(NO_OPTIONS, whole.value)
      decreases |packet| - cursor
    {
      ItemsAt(packet, cursor, options);
      var code := packet[cursor];
      if code == 0 {
        cursor := cursor + 1;
        continue;
      }
      if code == 255 {
        NoItems(packet, options);
        return if options.messageType.None? then None else Some(options);
      }
      if cursor + 1 >= |packet| || packet[cursor + 1] > |packet| - (cursor + 2) {
        return None;
      }
      var n := packet[cursor + 1];
      options := Note(options, (code, packet[cursor + 2..cursor + 2 + n]));
      cursor := cursor + 2 + n;
    }
    assert packet[cursor..] == [];
    return None;
  }

  lemma NoItems(packet: seq<Byte>, o: Options)
    ensures Items([]) == None && NoteAll(o, []) == o
  {
  }

  // ----- messages -----

  function Tlv(code: Byte, value: seq<Byte>): seq<Byte>
    requires |value| < 256
  {
    [code, |value|] + value
  }

  /** What a client message says. */
  datatype Message = Message(request: bool, xid: Word, elapsed: Half, mac: Mac, offered: Address, server: Address)

  function Header(m: Message): (h: seq<Byte>)
    ensures |h| == 240
  {
    [1, 1, 6, 0] + Be32(m.xid) + Be16(m.elapsed) + Be16(0x8000) + Zeros(16) + m.mac + Zeros(202) + MAGIC
  }

  function Zeros(n: nat): (z: seq<Byte>)
    ensures |z| == n
  {
    seq(n, _ => 0)
  }

  function OptionBytes(m: Message): seq<Byte> {
    Tlv(53, [if m.request then 3 else 1]) +
    (Tlv(61, [1] + m.mac) +
     ((if m.request then Tlv(50, m.offered) + Tlv(54, m.server) else []) +
      (Tlv(55, [1, 3, 6, 15, 51, 58, 59]) + [255])))
  }

  function MessageBytes(m: Message): seq<Byte> {
    Header(m) + OptionBytes(m)
  }

  lemma ItemsTlv(code: Byte, value: seq<Byte>, rest: seq<Byte>)
    requires 0 < code < 255 && |value| < 256
    ensures Items(Tlv(code, value) + rest) ==
            if Items(rest).None? then None else Some([(code, value)] + Items(rest).value)
  {
    var s := Tlv(code, value) + rest;
    assert s[2..2 + |value|] == value && s[2 + |value|..] == rest;
  }

  lemma NoteOther(o: Options, code: Byte, value: seq<Byte>)
    requires code == 61 || code == 50 || code == 55
    ensures Note(o, (code, value)) == o
  {
  }

  lemma NoteFirst(o: Options, item: Item, rest: seq<Item>)
    ensures NoteAll(o, [item] + rest) == NoteAll(Note(o, item), rest)
  {
    assert ([item] + rest)[1..] == rest;
  }

  /** The option reader recovers type and server from every message the client builds. */
  lemma MessageOptions(m: Message)
    ensures OptionsOf(MessageBytes(m)) ==
            Some(NO_OPTIONS.(messageType := Some(if m.request then 3 else 1),
                             server := if m.request then Some(m.server) else None))
  {
    hide Header, Tlv, Items, NoteAll;
    var packet := MessageBytes(m);
    assert packet[236..240] == MAGIC by { HeaderMagic(m); assert packet[236..240] == Header(m)[236..240]; }
    assert packet[240..] == OptionBytes(m);
    var kind: Byte := if m.request then 3 else 1;
    var list: seq<Byte> := [1, 3, 6, 15, 51, 58, 59];
    var end: seq<Byte> := [255];
    EndMark();
    ItemsTlv(55, list, end);
    var t3 := Tlv(55, list) + end;
    var o1 := Note(NO_OPTIONS, (53, [kind]));
    var t2 := if m.request then Tlv(50, m.offered) + (Tlv(54, m.server) + t3) else t3;
    assert (if m.request then Tlv(50, m.offered) + Tlv(54, m.server) else []) + t3 == t2;
    var t1 := Tlv(61, [1] + m.mac) + t2;
    if m.request {
      ItemsTlv(54, m.server, t3);
      ItemsTlv(50, m.offered, Tlv(54, m.server) + t3);
    }
    ItemsTlv(61, [1] + m.mac, t2);
    ItemsTlv(53, [kind], t1);
    var o2 := if m.request then Note(o1, (54, m.server)) else o1;
    ListOptions(m, list, kind, o1, o2);
  }

  lemma EndMark()
    ensures Items([255]) == Some([])
  {
  }

  lemma HeaderMagic(m: Message)
    ensures Header(m)[236..240] == MAGIC
  {
  }

  lemma ListOptions(m: Message, list: seq<Byte>, kind: Byte, o1: Options, o2: Options)
    requires o1 == Note(NO_OPTIONS, (53, [kind])) && o2 == if m.request then Note(o1, (54, m.server)) else o1
    ensures var last: seq<Item> := [(55, list)] + [];
            var middle: seq<Item> := if m.request then [(50, m.offered)] + ([(54, m.server)] + last) else last;
            NoteAll(NO_OPTIONS, [(53, [kind])] + ([(61, [1] + m.mac)] + middle)) == o2
  {
    hide Note;
    var last: seq<Item> := [(55, list)] + [];
    var tail: seq<Item> := [(54, m.server)] + last;
    var middle: seq<Item> := if m.request then [(50, m.offered)] + tail else last;
    NoteFirst(NO_OPTIONS, (53, [kind]), [(61, [1] + m.mac)] + middle);
    NoteFirst(o1, (61, [1] + m.mac), middle);
    NoteOther(o1, 61, [1] + m.mac);
    NoteOther(o1, 50, m.offered);
    NoteOther(o2, 55, list);
    NoteFirst(o2, (55, list), []);
    NoItems([], o2);
    if m.request {
      NoteFirst(o1, (50, m.offered), tail);
      NoteFirst(o1, (54, m.server), last);
    }
  }

  // ----- the state machine -----

  datatype Phase = Stopped | Discovering | Requesting | Bound | Failed

  /** An offer of `address` by `server` in transaction `xid`. */
  datatype Offer = Offer(xid: Word, server: Address, address: Address)

  function OrElse(a: Option<Address>, b: Address): Address {
    if a.Some? then a.value else b
  }

  /** A reply of the current transaction to this client. */
  predicate Addressed(packet: seq<Byte>, xid: Word, mac: Mac) {
    |packet| >= 240 && packet[0] == 2 && packet[1] == 1 && packet[2] == 6 && Read32(packet[4..8]) == xid &&
    packet[28..34] == mac
  }

  /** The address field of a reply. */
  function YourAddress(packet: seq<Byte>): Address
    requires |packet| >= 20
  {
    packet[16..20]
  }

  /** The offer a packet makes in a transaction, if it makes one. */
  function OfferOf(packet: seq<Byte>, xid: Word, mac: Mac): Option<Offer> {
    if !Addressed(packet, xid, mac) then None
    else
      var o := OptionsOf(packet);
      if o.None? || o.value.messageType != Some(2) || o.value.server.None? then None
      else Some(Offer(xid, o.value.server.value, YourAddress(packet)))
  }

  function Delay(attempts: nat): nat {
    if attempts <= 1 then 100 else if attempts == 2 then 200 else if attempts == 3 then 400 else 800
  }

  /** A tick count and a new transaction number for a restart, or a packet as well. */
  datatype Event = Tick(now: nat) | Packet(bytes: seq<Byte>, now: nat, newId: Word)

  /** The same message but for the seconds it reports. */
  predicate Alike(a: Message, b: Message) {
    a.(elapsed := 0) == b.(elapsed := 0)
  }

  /** From `start` on, a message is repeated at most three times before one of the other kind follows. */
  ghost predicate Bursts(sent: seq<Message>, start: nat) {
    && (forall i | start < i < |sent| :: sent[i].request != sent[i - 1].request || Alike(sent[i], sent[i - 1]))
    && (forall i: nat | start + 4 <= i < |sent| :: Turns(sent, i))
  }

  /** One of the four messages before the i-th is of the other kind. */
  predicate Turns(sent: seq<Message>, i: nat)
    requires 4 <= i < |sent|
  {
    exists j | i - 4 <= j < i :: sent[j].request != sent[i].request
  }

  /** Another message after k repetitions of it, which began behind one of the other kind. */
  lemma BurstsSnoc(sent: seq<Message>, start: nat, k: nat, m: Message)
    requires Bursts(sent, start) && k <= 3 && start + k <= |sent|
    requires forall i | |sent| - k <= i < |sent| :: Alike(sent[i], m)
    requires start + k < |sent| ==> sent[|sent| - k - 1].request != m.request
    ensures Bursts(sent + [m], start)
  {
    var t := sent + [m];
    forall i: nat | start + 4 <= i < |t| ensures Turns(t, i) {
      if i < |sent| {
        assert Turns(sent, i);
        var j :| i - 4 <= j < i && sent[j].request != sent[i].request;
        assert t[j].request != t[i].request;
      } else {
        assert t[|sent| - k - 1].request != t[i].request;
      }
    }
  }

  /** An event's packet makes the offer in some transaction. */
  ghost predicate Made(events: seq<Event>, f: Offer, mac: Mac) {
    exists i | 0 <= i < |events| :: events[i].Packet? && OfferOf(events[i].bytes, f.xid, mac) == Some(f)
  }

  /** An acknowledgement, by the selected server if it names one, for the offered address if it names one. */
  predicate Acknowledgement(packet: seq<Byte>, xid: Word, mac: Mac, server: Address, offered: Address) {
    Addressed(packet, xid, mac) && OptionsOf(packet).Some? &&
    var o := OptionsOf(packet).value;
    o.messageType == Some(5) && (o.server.Some? ==> o.server.value == server) &&
    (YourAddress(packet) == ZERO || YourAddress(packet) == offered)
  }

  ghost predicate Confirmed(events: seq<Event>, xid: Word, mac: Mac, server: Address, offered: Address) {
    exists i | 0 <= i < |events| :: events[i].Packet? && Acknowledgement(events[i].bytes, xid, mac, server, offered)
  }

  class Client {
    const mac: Mac
    var phase: Phase
    var xid: Word
    var attempts: nat
    var retryAt: nat
    var offered: Address
    var server: Address
    var mask: Address
    var router: Address
    var dns: Address
    var ip: Address
    var netmask: Address
    var gateway: Address
    var dnsServer: Address
    var sent: seq<Message>

    // history: where the messages since the last start and of this phase begin, and every offer taken
    ghost var epoch: nat
    ghost var begun: nat
    ghost var offers: set<Offer>

    constructor (mac: Mac)
      ensures Inv() && phase == Stopped && this.mac == mac && sent == [] && offers == {}
    {
      this.mac := mac;
      phase, xid, attempts, retryAt := Stopped, 0, 0, 0;
      offered, server, mask, router, dns := ZERO, ZERO, ZERO, ZERO, ZERO;
      ip, netmask, gateway, dnsServer := ZERO, ZERO, ZERO, ZERO;
      sent, epoch, begun, offers := [], 0, 0, {};
    }

    predicate Waiting()
      reads this
    {
      phase == Discovering || phase == Requesting
    }

    /** The messages of this phase: at most four, all alike. */
    ghost predicate Counted()
      reads this
    {
      && epoch <= begun <= |sent| && 1 <= attempts <= 4 && |sent| - begun == attempts
      && (epoch < begun ==> sent[begun - 1].request != (phase == Requesting))
      && forall i | begun <= i < |sent| ::
           && sent[i].request == (phase == Requesting) && sent[i].xid == xid && sent[i].mac == mac
           && sent[i].offered == offered && sent[i].server == server
    }

    /** Every REQUEST since the start names an offer that was taken. */
    ghost predicate Requested()
      reads this`sent, this`epoch, this`offers
    {
      forall i | epoch <= i < |sent| && sent[i].request :: Offer(sent[i].xid, sent[i].server, sent[i].offered) in offers
    }

    /** The last message was a REQUEST for the address at the server. */
    ghost predicate Asked()
      reads this
    {
      epoch < |sent| && sent[|sent| - 1].request && sent[|sent| - 1].xid == xid && sent[|sent| - 1].mac == mac &&
      sent[|sent| - 1].offered == offered && sent[|sent| - 1].server == server
    }

    ghost predicate Inv()
      reads this
    {
      && epoch <= |sent| && Bursts(sent, epoch) && Requested()
      && (Waiting() ==> Counted())
      && (phase == Requesting || phase == Bound ==>
            Usable(offered) && Usable(server) && Offer(xid, server, offered) in offers)
      && (phase == Bound ==> ip == offered && Asked())
    }

    method TransmitMessage(request: bool, now: nat)
      modifies this`sent
      ensures sent == old(sent) + [Message(request, xid, if now > 6553500 then 0xFFFF else now / 100, mac, offered, server)]
    {
      sent := sent + [Message(request, xid, if now > 6553500 then 0xFFFF else now / 100, mac, offered, server)];
    }

    method BeginDiscovery(newId: Word, now: nat)
      requires epoch <= |sent| && Bursts(sent, epoch) && Requested() && (epoch < |sent| ==> sent[|sent| - 1].request)
      modifies this`phase, this`begun, this`attempts, this`retryAt, this`sent, this`xid
      modifies this`offered, this`server, this`mask, this`router, this`dns
      ensures phase == Discovering && attempts == 1 && retryAt == now + 100 && xid != 0
      ensures Counted() && Bursts(sent, epoch) && Requested()
      ensures |sent| == |old(sent)| + 1 && old(sent) <= sent
    {
      xid := if newId == 0 then 1 else newId;
      offered, server, mask, router, dns := ZERO, ZERO, ZERO, ZERO, ZERO;
      StartPhase(Discovering, now);
    }

    /** The first transmission of a phase. */
    method StartPhase(next: Phase, now: nat)
      requires next == Discovering || next == Requesting
      requires epoch <= |sent| && Bursts(sent, epoch) && Requested()
      requires next == Requesting ==> Offer(xid, server, offered) in offers
      requires epoch < |sent| ==> sent[|sent| - 1].request != (next == Requesting)
      modifies this`phase, this`begun, this`attempts, this`retryAt, this`sent
      ensures phase == next && attempts == 1 && retryAt == now + 100
      ensures Counted() && Bursts(sent, epoch) && Requested()
      ensures |sent| == |old(sent)| + 1 && old(sent) <= sent
    {
      hide Bursts;
      phase := next;
      begun := |sent|;
      TransmitMessage(next == Requesting, now);
      BurstsSnoc(old(sent), epoch, 0, sent[|sent| - 1]);
      attempts := 1;
      retryAt := now + 100;
    }

    method Start(available: bool, newId: Word, now: nat)
      requires Inv()
      modifies this
      ensures Inv() && phase == if available then Discovering else Stopped
      ensures old(sent) <= sent && offers == old(offers)
    {
      if !available {
        phase := Stopped;
        return;
      }
      epoch := |sent|;
      BeginDiscovery(newId, now);
    }

    /** Retransmits with growing delay; gives up after the fourth transmission of a phase. */
    method Poll(now: nat)
      requires Inv()
      modifies this`phase, this`attempts, this`retryAt, this`sent
      ensures Inv() && old(sent) <= sent
      ensures old(phase) == Bound || old(phase) == Failed || old(phase) == Stopped || now < old(retryAt) ==>
                phase == old(phase) && attempts == old(attempts) && sent == old(sent) && retryAt == old(retryAt)
      ensures old(Waiting()) && now >= old(retryAt) && old(attempts) == 4 ==> phase == Failed && sent == old(sent)
      ensures old(Waiting()) && now >= old(retryAt) && old(attempts) < 4 ==>
                phase == old(phase) && attempts == old(attempts) + 1 && |sent| == |old(sent)| + 1 && retryAt == now + Delay(attempts)
      ensures old(Waiting()) && now >= old(retryAt) && old(attempts) < 4 ==>
                (attempts == 2 && retryAt == now + 200) || (attempts == 3 && retryAt == now + 400) || retryAt == now + 800
    {
      hide Bursts;
      if !Waiting() || now < retryAt {
        return;
      }
      if attempts >= 4 {
        phase := Failed;
        return;
      }
      TransmitMessage(phase == Requesting, now);
      BurstsSnoc(old(sent), epoch, attempts, sent[|sent| - 1]);
      attempts := attempts + 1;
      retryAt := now + Delay(attempts);
    }

    predicate Acknowledges(packet: seq<Byte>)
      reads this
    {
      Acknowledgement(packet, xid, mac, server, offered)
    }

    predicate Refuses(packet: seq<Byte>)
      reads this
    {
      Addressed(packet, xid, mac) && OptionsOf(packet).Some? &&
      var o := OptionsOf(packet).value;
      o.messageType == Some(6) && (o.server.Some? ==> o.server.value == server)
    }

    predicate Offers(packet: seq<Byte>)
      reads this
    {
      var f := OfferOf(packet, xid, mac);
      f.Some? && Usable(f.value.address) && Usable(f.value.server)
    }

    method Receive(packet: seq<Byte>, now: nat, newId: Word)
      requires Inv()
      modifies this
      ensures Inv() && old(sent) <= sent && epoch == old(epoch)
      ensures old(phase) == Bound || old(phase) == Failed || old(phase) == Stopped ==>
                phase == old(phase) && sent == old(sent) && ip == old(ip) && netmask == old(netmask) &&
                gateway == old(gateway) && dnsServer == old(dnsServer) && xid == old(xid) && server == old(server)
      ensures old(phase) == Discovering ==> phase == if old(Offers(packet)) then Requesting else Discovering
      ensures old(phase) == Discovering && phase == Requesting ==>
                var o := OptionsOf(packet).value;
                && Offer(xid, server, offered) == OfferOf(packet, old(xid), mac).value
                && mask == OrElse(o.mask, ZERO) && router == OrElse(o.router, ZERO) && dns == OrElse(o.dns, ZERO)
      ensures old(phase) == Requesting ==>
                phase == if old(Acknowledges(packet)) then Bound else if old(Refuses(packet)) then Discovering else Requesting
      ensures old(phase) == Requesting && phase == Bound ==>
                var o := OptionsOf(packet).value;
                ip == old(offered) && xid == old(xid) && server == old(server) && netmask == OrElse(o.mask, old(mask)) &&
                gateway == OrElse(o.router, old(router)) && dnsServer == OrElse(o.dns, old(dns))
      ensures phase != Bound ==> ip == old(ip)
      ensures offers == old(offers) ||
              (OfferOf(packet, old(xid), mac).Some? && offers == old(offers) + {OfferOf(packet, old(xid), mac).value})
    {
      hide OptionsOf, Bursts, Usable, YourAddress, Read32, Requested;
      if !Addressed(packet, xid, mac) {
        return;
      }
      var parsed := ParseOptions(packet);
      if parsed.None? {
        return;
      }
      var o := parsed.value;
      if phase == Discovering && o.messageType == Some(2) && o.server.Some? {
        TakeOffer(packet, o, now);
        return;
      }
      if phase != Requesting || (o.server.Some? && o.server.value != server) {
        return;
      }
      if o.messageType == Some(6) {
        BeginDiscovery(newId, now);
        return;
      }
      if o.messageType != Some(5) {
        return;
      }
      var acknowledged := YourAddress(packet);
      if acknowledged != ZERO && acknowledged != offered {
        return;
      }
      ApplyConfiguration(acknowledged, o);
    }

    /** The first usable offer moves the client to Requesting. */
    method TakeOffer(packet: seq<Byte>, o: Options, now: nat)
      requires Inv() && phase == Discovering && Addressed(packet, xid, mac) && OptionsOf(packet) == Some(o)
      requires o.messageType == Some(2) && o.server.Some?
      modifies this`phase, this`begun, this`attempts, this`retryAt, this`sent, this`offers
      modifies this`offered, this`server, this`mask, this`router, this`dns
      ensures Inv() && old(sent) <= sent
      ensures phase == if old(Offers(packet)) then Requesting else Discovering
      ensures phase == Requesting ==>
                && Offer(xid, server, offered) == OfferOf(packet, xid, mac).value
                && mask == OrElse(o.mask, ZERO) && router == OrElse(o.router, ZERO) && dns == OrElse(o.dns, ZERO)
      ensures offers == old(offers) || offers == old(offers) + {OfferOf(packet, old(xid), mac).value}
    {
      hide OptionsOf, Inv, Usable;
      var address := YourAddress(packet);
      if !Usable(address) || !Usable(o.server.value) {
        return;
      }
      Select(address, o.server.value, o, now);
    }

    method Select(address: Address, chosen: Address, o: Options, now: nat)
      requires Inv() && phase == Discovering && Usable(address) && Usable(chosen)
      modifies this`phase, this`begun, this`attempts, this`retryAt, this`sent, this`offers
      modifies this`offered, this`server, this`mask, this`router, this`dns
      ensures Inv() && phase == Requesting && offered == address && server == chosen && old(sent) <= sent
      ensures mask == OrElse(o.mask, ZERO) && router == OrElse(o.router, ZERO) && dns == OrElse(o.dns, ZERO)
      ensures offers == old(offers) + {Offer(xid, chosen, address)}
    {
      hide Bursts, Usable;
      offers := offers + {Offer(xid, chosen, address)};
      assert Requested() && (epoch < |sent| ==> !sent[|sent| - 1].request);
      hide Requested, Counted, OrElse;
      offered, server := address, chosen;
      mask, router, dns := OrElse(o.mask, ZERO), OrElse(o.router, ZERO), OrElse(o.dns, ZERO);
      StartPhase(Requesting, now);
    }

    method ApplyConfiguration(acknowledged: Address, o: Options)
      requires Inv() && phase == Requesting && (acknowledged == ZERO || acknowledged == offered)
      modifies this`ip, this`netmask, this`gateway, this`dnsServer, this`phase
      ensures Inv() && phase == Bound && ip == offered
      ensures netmask == OrElse(o.mask, mask) && gateway == OrElse(o.router, router) && dnsServer == OrElse(o.dns, dns)
    {
      assert Asked();
      hide Bursts, Requested, Counted, Usable;
      ip := if acknowledged == ZERO then offered else acknowledged;
      netmask := OrElse(o.mask, mask);
      gateway := OrElse(o.router, router);
      dnsServer := OrElse(o.dns, dns);
      phase := Bound;
    }

    /** Every run: a bound address is usable and was offered, in the current transaction, by the server the client
        selected, in a packet of this run or before it, the client asked for it last of all, and a packet acknowledged
        it; every REQUEST names such an offer; a message is sent at most four times before one of the other kind; once
        bound or failed, nothing changes any more. */
    method Run(events: seq<Event>)
      requires Inv()
      modifies this
      ensures Inv() && old(sent) <= sent && epoch == old(epoch) && Bursts(sent, epoch) && Requested()
      ensures phase == Bound ==> Usable(ip) && Usable(server) && Offer(xid, server, ip) in offers && Asked() && offered == ip
      ensures phase == Bound && old(phase) != Bound ==> Confirmed(events, xid, mac, server, ip)
      ensures forall f | f in offers :: f in old(offers) || Made(events, f, mac)
      ensures old(phase) == Bound || old(phase) == Failed ==> phase == old(phase) && ip == old(ip) && sent == old(sent)
    {
      hide Bursts, OfferOf, Usable, Acknowledgement;
      for i := 0 to |events|
        invariant Inv() && old(sent) <= sent && epoch == old(epoch)
        invariant forall f | f in offers :: f in old(offers) || Made(events, f, mac)
        invariant phase == Bound && old(phase) != Bound ==> Confirmed(events, xid, mac, server, ip)
        invariant old(phase) == Bound || old(phase) == Failed ==> phase == old(phase) && ip == old(ip) && sent == old(sent)
      {
        match events[i] {
          case Tick(now) => Poll(now);
          case Packet(bytes, now, newId) =>
            ghost var f := OfferOf(bytes, xid, mac);
            if f.Some? {
              OfferXid(bytes, xid, mac);
              assert Made(events, f.value, mac);
            }
            Receive(bytes, now, newId);
        }
      }
    }
  }

  lemma OfferXid(packet: seq<Byte>, xid: Word, mac: Mac)
    requires OfferOf(packet, xid, mac).Some?
    ensures OfferOf(packet, xid, mac).value.xid == xid
  {
  }
}
