/**
  IPv4 datagrams and Ethernet frames: the packet parser, and the layout of RFC 791, section 3.1, that it reads.
*/
module Ipv4Packet {
  import opened Common
  import opened Ipv4Text

  const ICMP: Byte := 1
  const TCP: Byte := 6
  const UDP: Byte := 17

  datatype Packet = Packet(
    timestamp: real,
    srcIp: seq<Byte>,
    destIp: seq<Byte>,
    ports: Option<(nat, nat)>,
    protocol: seq<int>,
    length: nat
  )

  function ProtocolName(id: Byte): seq<int> {
    if id == TCP then TextBytes("tcp")
    else if id == UDP then TextBytes("udp")
    else if id == ICMP then TextBytes("icmp")
    else TextBytes("ip-") + Decimal(id)
  }

  /** Two bytes in network order. */
  function Network16(high: Byte, low: Byte): nat {
    high * 256 + low
  }

  function ParseIpv4Packet(data: seq<Byte>, timestamp: real, frameLength: Option<nat>): Option<Packet> {
    if |data| < 20 then None
    else
      var version, ihl := data[0] / 16, data[0] % 16 * 4;
      if version != 4 || ihl < 20 || |data| < ihl then None
      else
        var ports :=
          if data[9] in {TCP, UDP} && |data| >= ihl + 4
          then Some((Network16(data[ihl], data[ihl + 1]), Network16(data[ihl + 2], data[ihl + 3])))
          else None;
        Some(Packet(
          timestamp,
          Dotted(Address(data[12], data[13], data[14], data[15])),
          Dotted(Address(data[16], data[17], data[18], data[19])),
          ports,
          ProtocolName(data[9]),
          if frameLength.Some? then frameLength.value else Network16(data[2], data[3])))
  }

  function ParseEthernetFrame(data: seq<Byte>, timestamp: real): Option<Packet> {
    if |data| < 14 || Network16(data[12], data[13]) != 0x0800 then None
    else ParseIpv4Packet(data[14..], timestamp, Some(|data|))
  }

  // ----- the datagram's own layout -----

  type Word16 = n: int | 0 <= n < 0x1_0000

  /** The header fields of RFC 791, section 3.1; the fragment offset counts units of eight bytes. */
  datatype Header = Header(typeOfService: Byte, totalLength: Word16, identification: Word16, flags: nat,
                           fragmentOffset: nat, timeToLive: Byte, protocol: Byte, checksum: Word16, src: Address,
                           dest: Address, options: seq<Byte>)

  predicate IsHeader(h: Header) {
    && h.flags < 8 && h.fragmentOffset < 0x2000
    && |h.options| <= 40 && |h.options| % 4 == 0
  }

  function Network(n: Word16): (s: seq<Byte>)
    ensures |s| == 2
  {
    [n / 256, n % 256]
  }

  function Octets(o: Address): (s: seq<Byte>)
    ensures |s| == 4
  {
    [o.a, o.b, o.c, o.d]
  }

  /** The twenty bytes every header has. */
  function FixedHeader(h: Header): (b: seq<Byte>)
    requires IsHeader(h)
    ensures |b| == 20
    ensures b[0] == 64 + 5 + |h.options| / 4 && b[9] == h.protocol
    ensures b[2] == h.totalLength / 256 && b[3] == h.totalLength % 256
    ensures Address(b[12], b[13], b[14], b[15]) == h.src && Address(b[16], b[17], b[18], b[19]) == h.dest
  {
    [64 + 5 + |h.options| / 4, h.typeOfService] + Network(h.totalLength) + Network(h.identification)
    + Network(h.flags * 0x2000 + h.fragmentOffset) + [h.timeToLive, h.protocol] + Network(h.checksum)
    + Octets(h.src) + Octets(h.dest)
  }

  /** A header and everything behind it. */
  function Encode(h: Header, rest: seq<Byte>): seq<Byte>
    requires IsHeader(h)
  {
    FixedHeader(h) + (h.options + rest)
  }

  /** The total length counts the header and the payload. */
  predicate IsDatagram(h: Header, payload: seq<Byte>) {
    IsHeader(h) && h.totalLength == 20 + |h.options| + |payload|
  }

  predicate HasPorts(protocol: Byte) {
    protocol == TCP || protocol == UDP
  }

  function FirstPorts(data: seq<Byte>): (nat, nat)
    requires |data| >= 4
  {
    (Network16(data[0], data[1]), Network16(data[2], data[3]))
  }

  /**
    The ports a datagram really has: only the first fragment carries the transport header, at the front of its
    payload.
  */
  function TruePorts(h: Header, payload: seq<Byte>): Option<(nat, nat)> {
    if HasPorts(h.protocol) && h.fragmentOffset == 0 && |payload| >= 4 then Some(FirstPorts(payload)) else None
  }

  lemma BehindHeader(b: seq<Byte>, options: seq<Byte>, rest: seq<Byte>)
    requires |b| == 20
    ensures var e := b + (options + rest);
            && |e| == 20 + |options| + |rest|
            && (forall i :: 0 <= i < 20 ==> e[i] == b[i])
            && (forall i {:trigger rest[i]} :: 0 <= i < |rest| ==> e[20 + |options| + i] == rest[i])
  {}

  /** What the parser makes of any header, with options of any length, and any bytes behind them. */
  lemma HeaderParsed(h: Header, rest: seq<Byte>, timestamp: real, frameLength: Option<nat>)
    requires IsHeader(h)
    ensures ParseIpv4Packet(Encode(h, rest), timestamp, frameLength)
            == Some(Packet(timestamp, Dotted(h.src), Dotted(h.dest),
                           if HasPorts(h.protocol) && |rest| >= 4 then Some(FirstPorts(rest)) else None,
                           ProtocolName(h.protocol), if frameLength.Some? then frameLength.value else h.totalLength))
  {
    var words := 5 + |h.options| / 4;
    BehindHeader(FixedHeader(h), h.options, rest);
    QuotientIs(64 + words, 16, 4, words);
    assert words * 4 == 20 + |h.options|;
  }

  /** The condition under which the reported ports are the datagram's own. */
  predicate PortsTrusted(h: Header, payload: seq<Byte>, trailer: seq<Byte>) {
    || !HasPorts(h.protocol)
    || (h.fragmentOffset == 0 && |payload| >= 4)
    || |payload| + |trailer| < 4
  }

  /**
    A datagram of RFC 791, with any trailer behind it, is parsed to its own addresses, protocol and length; its ports
    are its own exactly if it needs none, or is a first fragment that holds them, or there are too few bytes to misread.
  */
  lemma DatagramParsed(h: Header, payload: seq<Byte>, trailer: seq<Byte>, timestamp: real)
    requires IsDatagram(h, payload)
    ensures var packet := ParseIpv4Packet(Encode(h, payload + trailer), timestamp, None);
            && packet.Some?
            && packet.value.srcIp == Dotted(h.src) && packet.value.destIp == Dotted(h.dest)
            && packet.value.protocol == ProtocolName(h.protocol)
            && packet.value.length == 20 + |h.options| + |payload|
            && (packet.value.ports == TruePorts(h, payload) <==> PortsTrusted(h, payload, trailer))
  {
    HeaderParsed(h, payload + trailer, timestamp, None);
    if |payload| >= 4 {
      assert FirstPorts(payload + trailer) == FirstPorts(payload);
    }
  }

  const PLAIN: Header := Header(0, 24, 0, 0, 0, 64, UDP, 0, Address(10, 0, 0, 1), Address(10, 0, 0, 2), [])

  /**
    A later fragment, and a datagram too short for ports in front of a trailer: both are given ports they do not have.
  */
  lemma InventedPorts(timestamp: real)
    ensures var later := PLAIN.(fragmentOffset := 1);
            var packet := ParseIpv4Packet(Encode(later, [0, 1, 0, 2]), timestamp, None);
            IsDatagram(later, [0, 1, 0, 2]) && packet.Some? && packet.value.ports == Some((1, 2))
            && TruePorts(later, [0, 1, 0, 2]) == None
    ensures var short := PLAIN.(totalLength := 20);
            var packet := ParseIpv4Packet(Encode(short, [] + [0, 1, 0, 2]), timestamp, None);
            IsDatagram(short, []) && packet.Some? && packet.value.ports == Some((1, 2)) && TruePorts(short, []) == None
  {
    hide Encode, ParseIpv4Packet;
    HeaderParsed(PLAIN.(fragmentOffset := 1), [0, 1, 0, 2], timestamp, None);
    HeaderParsed(PLAIN.(totalLength := 20), [] + [0, 1, 0, 2], timestamp, None);
  }

  // ----- which bytes are accepted -----

  predicate Acceptable(data: seq<Byte>) {
    |data| >= 20 && data[0] / 16 == 4 && 20 <= data[0] % 16 * 4 <= |data|
  }

  /** The header that accepted bytes begin with. */
  function HeaderOf(data: seq<Byte>): (h: Header)
    requires Acceptable(data)
    ensures IsHeader(h)
  {
    var flagged := Network16(data[6], data[7]);
    Header(data[1], Network16(data[2], data[3]), Network16(data[4], data[5]), flagged / 0x2000, flagged % 0x2000,
           data[8], data[9], Network16(data[10], data[11]), Address(data[12], data[13], data[14], data[15]),
           Address(data[16], data[17], data[18], data[19]), data[20..data[0] % 16 * 4])
  }

  lemma NetworkBack(high: Byte, low: Byte)
    ensures Network(Network16(high, low)) == [high, low]
  {
    QuotientIs(high * 256 + low, 256, high, low);
  }

  lemma HeaderBack(data: seq<Byte>)
    requires Acceptable(data)
    ensures FixedHeader(HeaderOf(data)) == data[..20]
  {
    NetworkBack(data[2], data[3]);
    NetworkBack(data[4], data[5]);
    NetworkBack(data[6], data[7]);
    NetworkBack(data[10], data[11]);
    var flagged := Network16(data[6], data[7]);
    assert flagged / 0x2000 * 0x2000 + flagged % 0x2000 == flagged;
    var words := data[0] % 16;
    assert (words * 4 - 20) / 4 == words - 5;
    TwentyBytes(data, [data[2], data[3]], [data[4], data[5]], [data[6], data[7]], [data[10], data[11]]);
  }

  lemma TwentyBytes(data: seq<Byte>, total: seq<Byte>, id: seq<Byte>, flagged: seq<Byte>, sum: seq<Byte>)
    requires |data| >= 20 && total == [data[2], data[3]] && id == [data[4], data[5]]
    requires flagged == [data[6], data[7]] && sum == [data[10], data[11]]
    ensures [data[0], data[1]] + total + id + flagged + [data[8], data[9]] + sum
            + [data[12], data[13], data[14], data[15]] + [data[16], data[17], data[18], data[19]] == data[..20]
  {}

  lemma DataIs(data: seq<Byte>)
    requires Acceptable(data)
    ensures Encode(HeaderOf(data), data[data[0] % 16 * 4..]) == data
  {
    hide FixedHeader;
    var ihl := data[0] % 16 * 4;
    HeaderBack(data);
    assert data[20..ihl] + data[ihl..] == data[20..];
    assert data[..20] + data[20..] == data;
  }

  /** The parser accepts the bytes that begin with a header and nothing else; it does not look at the total length. */
  lemma AcceptedIff(data: seq<Byte>, timestamp: real, frameLength: Option<nat>)
    ensures ParseIpv4Packet(data, timestamp, frameLength).Some?
            <==> exists h, rest :: IsHeader(h) && Encode(h, rest) == data
  {
    if ParseIpv4Packet(data, timestamp, frameLength).Some? {
      DataIs(data);
    }
    if h, rest :| IsHeader(h) && Encode(h, rest) == data {
      HeaderParsed(h, rest, timestamp, frameLength);
    }
  }

  /**
    What it accepts is a datagram with a trailer exactly if the total length lies between the header's and the data's.
  */
  lemma AcceptedDatagramIff(data: seq<Byte>)
    requires Acceptable(data)
    ensures data[0] % 16 * 4 <= Network16(data[2], data[3]) <= |data| <==>
            exists h, payload, trailer: seq<Byte> :: IsDatagram(h, payload) && Encode(h, payload + trailer) == data
  {
    var ihl, total := data[0] % 16 * 4, Network16(data[2], data[3]);
    DataIs(data);
    if ihl <= total <= |data| {
      var h, payload, trailer := HeaderOf(data), data[ihl..total], data[total..];
      assert payload + trailer == data[ihl..];
      assert IsDatagram(h, payload) && Encode(h, payload + trailer) == data;
    }
    if h, payload, trailer: seq<Byte> :| IsDatagram(h, payload) && Encode(h, payload + trailer) == data {
      DatagramLengths(h, payload, trailer, data);
    }
  }

  lemma DatagramLengths(h: Header, payload: seq<Byte>, trailer: seq<Byte>, data: seq<Byte>)
    requires IsDatagram(h, payload) && Encode(h, payload + trailer) == data
    ensures data[0] % 16 * 4 <= Network16(data[2], data[3]) <= |data|
  {
    var words := 5 + |h.options| / 4;
    BehindHeader(FixedHeader(h), h.options, payload + trailer);
    QuotientIs(64 + words, 16, 4, words);
  }

  // ----- frames -----

  /** An Ethernet frame around a datagram, with whatever pads it behind. */
  function FrameOf(stations: seq<Byte>, h: Header, rest: seq<Byte>): seq<Byte>
    requires IsHeader(h)
  {
    stations + [8, 0] + Encode(h, rest)
  }

  /** What the reader of a frame sees of it. */
  function Observed(stations: seq<Byte>, h: Header, rest: seq<Byte>, timestamp: real): Packet
    requires IsHeader(h)
  {
    Packet(timestamp, Dotted(h.src), Dotted(h.dest),
           if HasPorts(h.protocol) && |rest| >= 4 then Some(FirstPorts(rest)) else None,
           ProtocolName(h.protocol), |FrameOf(stations, h, rest)|)
  }

  /** A frame that carries a datagram is read with the frame's own length. */
  lemma FrameParsed(stations: seq<Byte>, h: Header, rest: seq<Byte>, timestamp: real)
    requires |stations| == 12 && IsHeader(h)
    ensures ParseEthernetFrame(FrameOf(stations, h, rest), timestamp) == Some(Observed(stations, h, rest, timestamp))
  {
    var frame := FrameOf(stations, h, rest);
    assert frame[14..] == Encode(h, rest);
    HeaderParsed(h, rest, timestamp, Some(|frame|));
  }

  /** Padding behind a short datagram counts: a frame's ports are the datagram's own under the same condition. */
  lemma FramePortsRightIff(stations: seq<Byte>, h: Header, payload: seq<Byte>, trailer: seq<Byte>,
                           timestamp: real)
    requires |stations| == 12 && IsDatagram(h, payload)
    ensures var packet := ParseEthernetFrame(FrameOf(stations, h, payload + trailer), timestamp);
            packet.Some? && (packet.value.ports == TruePorts(h, payload) <==> PortsTrusted(h, payload, trailer))
  {
    FrameParsed(stations, h, payload + trailer, timestamp);
    if |payload| >= 4 {
      assert FirstPorts(payload + trailer) == FirstPorts(payload);
    }
  }

  /**
    The protocols by their assigned numbers: three by name, every other by its number, which the name gives back; and
    ports are those of TCP and UDP.
  */
  lemma ProtocolMeans(x: Byte)
    ensures ProtocolName(1) == TextBytes("icmp") && ProtocolName(6) == TextBytes("tcp")
    ensures ProtocolName(17) == TextBytes("udp")
    ensures x !in {1, 6, 17} ==>
              && |ProtocolName(x)| > 3 && ProtocolName(x)[..3] == TextBytes("ip-")
              && ProtocolName(x)[3..] == Decimal(x) && ParseFrom(Decimal(x), None) == Some([x as nat])
    ensures HasPorts(x) <==> x in {6, 17}
  {
    ParseDecimal(x, []);
    assert Decimal(x) + [] == Decimal(x);
  }

  /** Protocols keep distinct names. */
  lemma ProtocolNameInjective(x: Byte, y: Byte)
    requires ProtocolName(x) == ProtocolName(y)
    ensures x == y
  {
    NamedApart(x);
    NamedApart(y);
    if x !in {TCP, UDP, ICMP} && y !in {TCP, UDP, ICMP} {
      var prefix := TextBytes("ip-");
      assert Decimal(x) == (prefix + Decimal(x))[3..] == (prefix + Decimal(y))[3..] == Decimal(y);
      DecimalInjective(x, y);
    }
  }

  lemma NamedApart(x: Byte)
    ensures ProtocolName(x)[0] == (if x == TCP then 't' else if x == UDP then 'u' else 'i') as int
    ensures ProtocolName(x)[1] == (if x == UDP then 'd' else if x == TCP || x == ICMP then 'c' else 'p') as int
  {}
}
