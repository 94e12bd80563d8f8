/** Where the bytes of a message stand: network order, the DHCP fields of both directions, and the options by number. */
module WireLaws {
  import opened Wrappers
  import opened Words
  import opened Checksum
  import opened TcpSegments
  import opened Packets
  import opened Dhcp

  // ----- network order -----

  /** The bytes of a 32-bit field are the digits of the number in base 256, the most significant first. */
  lemma NetworkOrder(v: Word)
    ensures var b := Be32(v);
            b[0] == v / 0x100_0000 && b[1] == v / 0x1_0000 % 256 && b[2] == v / 256 % 256 && b[3] == v % 256
  {
    var low := v % 0x1_0000;
    assert low / 256 == v / 256 % 256 && low % 256 == v % 256;
    assert v / 0x1_0000 / 256 == v / 0x100_0000;
  }

  /** Reading weighs them the same way. */
  lemma NetworkValue(b: seq<Byte>)
    requires |b| == 4
    ensures var b0: int, b1: int, b2: int, b3: int := b[0], b[1], b[2], b[3];
            Read32(b) == b0 * 0x100_0000 + b1 * 0x1_0000 + b2 * 256 + b3
  {
  }

  lemma NetworkOrder16(v: Half)
    ensures Be16(v)[0] == v / 256 && Be16(v)[1] == v % 256
    ensures forall a: Byte, b: Byte :: Pair(a, b) / 256 == a && Pair(a, b) % 256 == b
  {
  }

  /** The bits of the flag byte: FIN is bit 0, SYN bit 1, RST bit 2, PSH bit 3, ACK bit 4. */
  lemma FlagBits()
    ensures Syn(SYN) && !Ack(SYN) && !Fin(SYN) && !Rst(SYN) && SYN == 2
    ensures Ack(ACK) && !Syn(ACK) && !Fin(ACK) && !Rst(ACK) && ACK == 16
    ensures Fin(FIN_ACK) && Ack(FIN_ACK) && !Syn(FIN_ACK) && !Rst(FIN_ACK) && FIN_ACK == 1 + 16
    ensures Ack(PSH_ACK) && !Syn(PSH_ACK) && !Fin(PSH_ACK) && !Rst(PSH_ACK) && PSH_ACK == 8 + 16
  {
  }

  /** The pseudo header in front of UDP and TCP, as in section 3.1 of RFC 9293. */
  lemma PseudoHeader(source: Address, destination: Address, protocol: Byte, length: Half)
    ensures var b := Pseudo(source, destination, protocol, length);
            && b[..4] == source && b[4..8] == destination && b[8] == 0 && b[9] == protocol
            && b[10] == length / 256 && b[11] == length % 256
  {
    PairSplit(length);
  }

  // ----- DHCP messages of the client -----

  /** The option list of every message, with the requested address under 50 and the server under 54. */
  lemma MessageItems(m: Message)
    ensures Items(MessageBytes(m)[240..]) ==
            Some(if m.request
                 then [(53, [3]), (61, [1] + m.mac), (50, m.offered), (54, m.server), (55, [1, 3, 6, 15, 51, 58, 59])]
                 else [(53, [1]), (61, [1] + m.mac), (55, [1, 3, 6, 15, 51, 58, 59])])
  {
    hide Header, Tlv, Items;
    assert MessageBytes(m)[240..] == OptionBytes(m);
    var kind: Byte := if m.request then 3 else 1;
    var list: seq<Byte> := [1, 3, 6, 15, 51, 58, 59];
    var end: seq<Byte> := [255];
    EndMark();
    ItemsTlv(55, list, end);
    var t3 := Tlv(55, list) + end;
    var t2 := if m.request then Tlv(50, m.offered) + (Tlv(54, m.server) + t3) else t3;
    assert (if m.request then Tlv(50, m.offered) + Tlv(54, m.server) else []) + t3 == t2;
    if m.request {
      ItemsTlv(54, m.server, t3);
      ItemsTlv(50, m.offered, Tlv(54, m.server) + t3);
    }
    ItemsTlv(61, [1] + m.mac, t2);
    ItemsTlv(53, [kind], Tlv(61, [1] + m.mac) + t2);
    var last: seq<Item> := [(55, list)] + [];
    var middle: seq<Item> := if m.request then [(50, m.offered)] + ([(54, m.server)] + last) else last;
    assert Items(OptionBytes(m)) == Some([(53, [kind])] + ([(61, [1] + m.mac)] + middle));
    assert last == [(55, list)];
    var all: seq<Item> := [(53, [kind])] + ([(61, [1] + m.mac)] + middle);
    if m.request {
      assert all == [(53, [3]), (61, [1] + m.mac), (50, m.offered), (54, m.server), (55, list)];
    } else {
      assert all == [(53, [1]), (61, [1] + m.mac), (55, list)];
    }
  }

  /** The fixed fields: a request on Ethernet, the transaction at 4, seconds at 8, the broadcast flag at 10, no
      addresses, the hardware address at 28, and the cookie at 236. */
  lemma MessageHeader(m: Message)
    ensures var b := MessageBytes(m);
            && b[..4] == [1, 1, 6, 0] && b[4..8] == Be32(m.xid) && b[8..10] == Be16(m.elapsed) && b[10..12] == [0x80, 0]
            && (forall i | 12 <= i < 28 || 34 <= i < 236 :: b[i] == 0) && b[28..34] == m.mac
            && b[236..240] == [99, 130, 83, 99]
  {
    hide OptionBytes, Be32;
    var b, h := MessageBytes(m), Header(m);
    assert b[..240] == h;
    HeaderFields(m);
    assert b[..4] == h[..4] && b[4..8] == h[4..8] && b[8..10] == h[8..10] && b[10..12] == h[10..12];
    assert b[28..34] == h[28..34] && b[236..240] == h[236..240];
    assert forall i | 0 <= i < 240 :: b[i] == h[i];
  }

  lemma HeaderFields(m: Message)
    ensures var h := Header(m);
            && h[..4] == [1, 1, 6, 0] && h[4..8] == Be32(m.xid) && h[8..10] == Be16(m.elapsed) && h[10..12] == [0x80, 0]
            && (forall i | 12 <= i < 28 || 34 <= i < 236 :: h[i] == 0) && h[28..34] == m.mac && h[236..240] == MAGIC
  {
    hide Be32;
    assert Be16(0x8000) == [0x80, 0];
  }

  // ----- options by number -----

  /** The value of the last option with this code and a length in the given range. */
  function Last(items: seq<Item>, code: Byte, low: nat, high: nat): (r: Option<seq<Byte>>)
    ensures r.Some? ==> low <= |r.value| <= high
  {
    if |items| == 0 then None
    else
      var (c, value) := items[|items| - 1];
      if c == code && low <= |value| <= high then Some(value) else Last(items[..|items| - 1], code, low, high)
  }

  /** Of any option list: the message type is option 53, the server 54, the mask 1, and router and name server the
      first address of options 3 and 6; of several options with one code the last counts, and options of the
      wrong length do not. */
  lemma {:induction false} OptionsByNumber(items: seq<Item>)
    requires forall i | 0 <= i < |items| :: |items[i].1| < 256
    ensures var o := NoteAll(NO_OPTIONS, items);
            && o.messageType == (var v := Last(items, 53, 1, 1); if v.Some? then Some(v.value[0]) else None)
            && o.server == Last(items, 54, 4, 4) && o.mask == Last(items, 1, 4, 4)
            && o.router == First(Last(items, 3, 4, 255)) && o.dns == First(Last(items, 6, 4, 255))
  {
    hide Note, NoteAll;
    NoItems([], NO_OPTIONS);
    if |items| == 0 {
      assert items == [];
    } else {
      var init, item := items[..|items| - 1], items[|items| - 1];
      OptionsByNumber(init);
      NoteFields(NoteAll(NO_OPTIONS, init), item);
      NoteAllLast(NO_OPTIONS, init, item);
      assert init + [item] == items;
    }
  }

  lemma NoteFields(o: Options, item: Item)
    ensures var n, code, value := Note(o, item), item.0, item.1;
            && n.messageType == (if code == 53 && |value| == 1 then Some(value[0]) else o.messageType)
            && n.server == (if code == 54 && |value| == 4 then Some(value) else o.server)
            && n.mask == (if code == 1 && |value| == 4 then Some(value) else o.mask)
            && n.router == (if code == 3 && |value| >= 4 then Some(value[..4]) else o.router)
            && n.dns == (if code == 6 && |value| >= 4 then Some(value[..4]) else o.dns)
  {
  }

  function First(v: Option<seq<Byte>>): (r: Option<seq<Byte>>)
    ensures r.Some? <==> v.Some? && |v.value| >= 4
    ensures r.Some? ==> |r.value| == 4
  {
    if v.Some? && |v.value| >= 4 then Some(v.value[..4]) else None
  }

  lemma {:induction false} NoteAllLast(o: Options, items: seq<Item>, item: Item)
    ensures NoteAll(o, items + [item]) == Note(NoteAll(o, items), item)
    decreases |items|
  {
    hide Note;
    if |items| == 0 {
      assert items + [item] == [item];
      assert NoteAll(o, [item]) == NoteAll(Note(o, item), [item][1..]);
    } else {
      NoteAllLast(Note(o, items[0]), items[1..], item);
      assert (items + [item])[1..] == items[1..] + [item];
    }
  }

  // ----- replies of a server -----

  /** A server's reply, as in section 2 of RFC 2131 and the options of RFC 2132. */
  datatype Reply = Reply(kind: Byte, xid: Word, mac: Mac, yours: Address, server: Address, mask: Address, router: Address,
                         dns: Address)

  function ReplyHeader(r: Reply): (h: seq<Byte>)
    ensures |h| == 240
  {
    var fixed: seq<Byte> := [2, 1, 6, 0];
    var ciaddr: seq<Byte>, giaddr: seq<Byte> := [0, 0, 0, 0], [0, 0, 0, 0];
    fixed + Be32(r.xid) + [0, 0, 0x80, 0] + ciaddr + r.yours + r.server + giaddr + r.mac + Zeros(10) + Zeros(64) + Zeros(128)
    + [99, 130, 83, 99]
  }

  function ReplyBytes(r: Reply): seq<Byte> {
    ReplyHeader(r) + (Tlv(53, [r.kind]) + (Tlv(54, r.server) + (Tlv(1, r.mask) + (Tlv(3, r.router) + (Tlv(6, r.dns) + [255])))))
  }

  lemma ReplyFields(r: Reply)
    ensures var b := ReplyBytes(r);
            |b| >= 240 && Addressed(b, r.xid, r.mac) && YourAddress(b) == r.yours && b[236..240] == MAGIC
  {
    hide Be32, Read32, Tlv;
    Read32Be32(r.xid);
    var b, h := ReplyBytes(r), ReplyHeader(r);
    ReplyHeaderFields(r);
    assert b[..240] == h;
    assert b[4..8] == h[4..8] && b[16..20] == h[16..20] && b[28..34] == h[28..34] && b[236..240] == h[236..240];
    assert forall i | 0 <= i < 3 :: b[i] == h[i];
  }

  lemma ReplyHeaderFields(r: Reply)
    ensures var h := ReplyHeader(r);
            && h[0] == 2 && h[1] == 1 && h[2] == 6 && h[4..8] == Be32(r.xid) && h[16..20] == r.yours && h[28..34] == r.mac
            && h[236..240] == MAGIC
  {
    hide Be32;
  }

  /** The client reads a server's reply as the server meant it: its address for the client, its type, and every
      setting in the option it belongs to; an OFFER is taken as the offer of that address by that server. */
  lemma ReplyUnderstood(r: Reply)
    ensures var b := ReplyBytes(r);
            && Addressed(b, r.xid, r.mac) && YourAddress(b) == r.yours
            && OptionsOf(b) == Some(Options(Some(r.kind), Some(r.server), Some(r.mask), Some(r.router), Some(r.dns)))
            && OfferOf(b, r.xid, r.mac) == if r.kind == 2 then Some(Offer(r.xid, r.server, r.yours)) else None
  {
    ReplyFields(r);
    ReplyOptions(r);
    hide ReplyBytes, Addressed, OptionsOf, YourAddress;
  }

  lemma ReplyOptions(r: Reply)
    ensures OptionsOf(ReplyBytes(r)) ==
            Some(Options(Some(r.kind), Some(r.server), Some(r.mask), Some(r.router), Some(r.dns)))
  {
    ReplyFields(r);
    ReplyItems(r);
    var items: seq<Item> := [(53, [r.kind]), (54, r.server), (1, r.mask), (3, r.router), (6, r.dns)];
    hide ReplyBytes, Items, NoteAll;
    ReplyNotes(r, items);
  }

  lemma ReplyItems(r: Reply)
    ensures |ReplyBytes(r)| >= 240
    ensures Items(ReplyBytes(r)[240..]) ==
            Some([(53, [r.kind]), (54, r.server), (1, r.mask), (3, r.router), (6, r.dns)])
  {
    hide ReplyHeader, Tlv, Items;
    var end: seq<Byte> := [255];
    var t5 := Tlv(6, r.dns) + end;
    var t4 := Tlv(3, r.router) + t5;
    var t3 := Tlv(1, r.mask) + t4;
    var t2 := Tlv(54, r.server) + t3;
    assert ReplyBytes(r)[240..] == Tlv(53, [r.kind]) + t2;
    EndMark();
    ItemsTlv(6, r.dns, end);
    ItemsTlv(3, r.router, t5);
    ItemsTlv(1, r.mask, t4);
    ItemsTlv(54, r.server, t3);
    ItemsTlv(53, [r.kind], t2);
    var all: seq<Item> := [(53, [r.kind])] + ([(54, r.server)] + ([(1, r.mask)] + ([(3, r.router)] + ([(6, r.dns)] + []))));
    assert Items(ReplyBytes(r)[240..]) == Some(all);
    assert all == [(53, [r.kind]), (54, r.server), (1, r.mask), (3, r.router), (6, r.dns)];
  }

  lemma ReplyNotes(r: Reply, items: seq<Item>)
    requires items == [(53, [r.kind]), (54, r.server), (1, r.mask), (3, r.router), (6, r.dns)]
    ensures NoteAll(NO_OPTIONS, items) == Options(Some(r.kind), Some(r.server), Some(r.mask), Some(r.router), Some(r.dns))
  {
    var o1 := NO_OPTIONS.(messageType := Some(r.kind));
    var o2 := o1.(server := Some(r.server));
    var o3 := o2.(mask := Some(r.mask));
    var o4 := o3.(router := Some(r.router));
    assert r.router[..4] == r.router && r.dns[..4] == r.dns;
    assert Note(NO_OPTIONS, items[0]) == o1 && Note(o1, items[1]) == o2 && Note(o2, items[2]) == o3;
    assert Note(o3, items[3]) == o4 && Note(o4, items[4]) == o4.(dns := Some(r.dns));
    hide Note;
    NoteAllLast(NO_OPTIONS, [], items[0]);
    NoteAllLast(NO_OPTIONS, items[..1], items[1]);
    NoteAllLast(NO_OPTIONS, items[..2], items[2]);
    NoteAllLast(NO_OPTIONS, items[..3], items[3]);
    NoteAllLast(NO_OPTIONS, items[..4], items[4]);
    assert [] + [items[0]] == items[..1] && items[..1] + [items[1]] == items[..2] && items[..2] + [items[2]] == items[..3];
    assert items[..3] + [items[3]] == items[..4] && items[..4] + [items[4]] == items;
  }

  /** A server that copies the transaction and the hardware address out of the client's message reaches that client. */
  lemma EchoAddressed(m: Message, packet: seq<Byte>)
    requires |packet| >= 240 && packet[..3] == [2, 1, 6]
    requires packet[4..8] == MessageBytes(m)[4..8] && packet[28..34] == MessageBytes(m)[28..34]
    ensures Addressed(packet, m.xid, m.mac)
  {
    MessageHeader(m);
    hide MessageBytes, Be32, Read32;
    Read32Be32(m.xid);
    assert packet[0] == packet[..3][0] && packet[1] == packet[..3][1] && packet[2] == packet[..3][2];
  }

  /** Addresses of classes A to C but for 0.0.0.0 and the loopback network. */
  lemma UsableAddresses(a: Address)
    ensures Usable(a) <==> a[0] / 32 != 7 && a[0] != 127 && exists i | 0 <= i < 4 :: a[i] != 0
  {
    assert a == ZERO <==> a[0] == 0 && a[1] == 0 && a[2] == 0 && a[3] == 0;
  }
}
