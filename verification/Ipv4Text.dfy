/**
  Address texts in fixed buffers: the kernel's dotted-decimal writer, the sensor's string buffers,
  and the sensor's textual test for public addresses.
*/
module Ipv4Text {
  import opened Bytes
  import opened Common
  import opened TextBuffers

  const DOT: Byte := 46

  /** Decimal digits without leading zeros. */
  function Decimal(v: Byte): (s: seq<Byte>)
    ensures 1 <= |s| <= 3 && forall d <- s :: 48 <= d <= 57
  {
    if v >= 100 then [48 + v / 100, 48 + v / 10 % 10, 48 + v % 10]
    else if v >= 10 then [48 + v / 10, 48 + v % 10]
    else [48 + v]
  }

  datatype Address = Address(a: Byte, b: Byte, c: Byte, d: Byte)

  function Dotted(o: Address): (s: seq<Byte>)
    ensures 7 <= |s| <= 15
  {
    Decimal(o.a) + [DOT] + Decimal(o.b) + [DOT] + Decimal(o.c) + [DOT] + Decimal(o.d)
  }

  // ----- writing into a fixed buffer -----

  /** The last byte of a buffer is kept for the terminator. */
  function Room(buffer: seq<Byte>): nat {
    Max(|buffer| - 1, 0)
  }

  /** How many bytes of `text` still fit behind `index`. */
  function Fits(buffer: seq<Byte>, index: nat, text: seq<Byte>): (k: nat)
    ensures k <= |text|
  {
    if index + |text| <= Room(buffer) then |text| else Max(Room(buffer) - index, 0)
  }

  /** `text` written at `index`, clipped to the buffer's room. */
  function Put(buffer: seq<Byte>, index: nat, text: seq<Byte>): (b: seq<Byte>)
    ensures |b| == |buffer|
  {
    var k := Fits(buffer, index, text);
    seq(|buffer|, j requires 0 <= j < |buffer| => if index <= j < index + k then text[j - index] else buffer[j])
  }

  lemma PutTwice(buffer: seq<Byte>, index: nat, s: seq<Byte>, t: seq<Byte>)
    requires index <= Room(buffer)
    ensures var k := Fits(buffer, index, s);
            && index + k <= Room(buffer)
            && Put(Put(buffer, index, s), index + k, t) == Put(buffer, index, s + t)
            && index + k + Fits(buffer, index + k, t) == index + Fits(buffer, index, s + t)
  {
    var k := Fits(buffer, index, s);
    var once, both := Put(buffer, index, s), Put(buffer, index, s + t);
    forall j | 0 <= j < |buffer|
      ensures Put(once, index + k, t)[j] == both[j]
    {}
  }

  method WriteByte(destination: array<Byte>, index: nat, value: Byte) returns (next: nat)
    requires index <= Room(destination[..])
    modifies destination
    ensures destination[..] == Put(old(destination[..]), index, [value])
    ensures next == index + Fits(old(destination[..]), index, [value])
  {
    if index < Max(destination.Length - 1, 0) {
      destination[index] := value;
      next := index + 1;
    } else {
      next := index;
    }
  }

  method WriteTwo(destination: array<Byte>, index: nat, x: Byte, y: Byte) returns (next: nat)
    requires index <= Room(destination[..])
    modifies destination
    ensures destination[..] == Put(old(destination[..]), index, [x, y])
    ensures next == index + Fits(old(destination[..]), index, [x, y]) <= Room(destination[..])
  {
    PutTwice(destination[..], index, [x], [y]);
    assert [x] + [y] == [x, y];
    next := WriteByte(destination, index, x);
    next := WriteByte(destination, next, y);
  }

  method WriteU8Decimal(destination: array<Byte>, index: nat, value: Byte) returns (next: nat)
    requires index <= Room(destination[..])
    modifies destination
    ensures destination[..] == Put(old(destination[..]), index, Decimal(value))
    ensures next == index + Fits(old(destination[..]), index, Decimal(value))
  {
    if value >= 100 {
      var x, y, z := 48 + value / 100, 48 + value / 10 % 10, 48 + value % 10;
      PutTwice(destination[..], index, [x, y], [z]);
      assert [x, y] + [z] == Decimal(value);
      next := WriteTwo(destination, index, x, y);
      next := WriteByte(destination, next, z);
    } else if value >= 10 {
      next := WriteTwo(destination, index, 48 + value / 10, 48 + value % 10);
    } else {
      next := WriteByte(destination, index, 48 + value);
    }
  }

  /** Writes one octet and the dot behind it. */
  method WriteOctet(destination: array<Byte>, index: nat, value: Byte) returns (next: nat)
    requires index <= Room(destination[..])
    modifies destination
    ensures destination[..] == Put(old(destination[..]), index, Decimal(value) + [DOT])
    ensures next == index + Fits(old(destination[..]), index, Decimal(value) + [DOT])
    ensures next <= Room(destination[..])
  {
    PutTwice(destination[..], index, Decimal(value), [DOT]);
    next := WriteU8Decimal(destination, index, value);
    next := WriteByte(destination, next, DOT);
  }

  /** Four texts written one behind the other are their concatenation, written at once. */
  lemma PutFour(b: seq<seq<Byte>>, i: seq<nat>, texts: seq<seq<Byte>>)
    requires |b| == 5 && |i| == 5 && |texts| == 4 && i[0] == 0
    requires forall k {:trigger texts[k]} :: 0 <= k < 4 ==>
               b[k + 1] == Put(b[k], i[k], texts[k]) && i[k + 1] == i[k] + Fits(b[k], i[k], texts[k])
    ensures b[4] == Put(b[0], 0, texts[0] + texts[1] + texts[2] + texts[3])
  {
    PutTwice(b[0], 0, texts[0], texts[1]);
    PutTwice(b[0], 0, texts[0] + texts[1], texts[2]);
    PutTwice(b[0], 0, texts[0] + texts[1] + texts[2], texts[3]);
  }

  lemma DottedParts(o: Address)
    ensures Dotted(o) == (Decimal(o.a) + [DOT]) + (Decimal(o.b) + [DOT]) + (Decimal(o.c) + [DOT]) + Decimal(o.d)
  {
    Regroup(Decimal(o.a), Decimal(o.b), Decimal(o.c), Decimal(o.d));
  }

  lemma Regroup(a: seq<Byte>, b: seq<Byte>, c: seq<Byte>, d: seq<Byte>)
    ensures a + [DOT] + b + [DOT] + c + [DOT] + d == (a + [DOT]) + (b + [DOT]) + (c + [DOT]) + d
  {}

  /** Whatever the buffer's size, exactly the dotted text clipped to its room is written. */
  method WriteIpv4Addr(destination: array<Byte>, octets: Address)
    modifies destination
    ensures destination[..] == Put(old(destination[..]), 0, Dotted(octets))
  {
    ghost var b0 := destination[..];
    var index := WriteOctet(destination, 0, octets.a);
    ghost var b1, i1 := destination[..], index;
    index := WriteOctet(destination, index, octets.b);
    ghost var b2, i2 := destination[..], index;
    index := WriteOctet(destination, index, octets.c);
    ghost var b3, i3 := destination[..], index;
    index := WriteU8Decimal(destination, index, octets.d);
    DottedParts(octets);
    PutFour([b0, b1, b2, b3, destination[..]], [0, i1, i2, i3, index],
            [Decimal(octets.a) + [DOT], Decimal(octets.b) + [DOT], Decimal(octets.c) + [DOT], Decimal(octets.d)]);
  }

  // ----- an address in a buffer -----

  /** Sixteen zero bytes are room enough for any address: the text is unclipped, terminated, and read back whole. */
  lemma AddressUnclipped(size: nat, o: Address)
    requires size >= 16
    ensures var buffer := Put(seq(size, _ => 0), 0, Dotted(o));
            && buffer[..|Dotted(o)|] == Dotted(o)
            && (forall j :: |Dotted(o)| <= j < size ==> buffer[j] == 0)
            && FixedString(buffer) == Some(Dotted(o))
  {
    hide FixedString;
    PutIsCopied(size, Dotted(o));
    AddressKept(size, o);
  }

  lemma PutIsCopied(size: nat, text: seq<Byte>)
    requires |text| < size
    ensures Put(seq(size, _ => 0), 0, text) == Copied(text, size)
    ensures Copied(text, size)[..|text|] == text && forall j :: |text| <= j < size ==> Copied(text, size)[j] == 0
  {}

  lemma AddressKept(size: nat, o: Address)
    requires size >= 16
    ensures FixedString(Copied(Dotted(o), size)) == Some(Dotted(o))
  {
    hide FixedString, Copied, Utf8.Encode;
    DottedBytes(o);
    Utf8.AsciiIsItself(Dotted(o));
    BufferRoundTripIff(Dotted(o), size);
  }

  lemma DottedBytes(o: Address)
    ensures forall b <- Dotted(o) :: b == DOT || 48 <= b <= 57
  {}

  // ----- reading an address back -----

  /** Decimal numbers between dots; `current` is the number being read. */
  function ParseFrom(text: seq<int>, current: Option<nat>): Option<seq<nat>> {
    if text == [] then if current.Some? then Some([current.value]) else None
    else if text[0] == DOT then
      if current.None? then None
      else
        var rest := ParseFrom(text[1..], None);
        if rest.None? then None else Some([current.value] + rest.value)
    else if 48 <= text[0] <= 57 then
      ParseFrom(text[1..], Some((if current.Some? then current.value * 10 else 0) + (text[0] - 48)))
    else None
  }

  lemma ParseDigit(d: nat, rest: seq<Byte>, current: Option<nat>)
    requires d < 10
    ensures ParseFrom([48 + d] + rest, current)
            == ParseFrom(rest, Some((if current.Some? then current.value * 10 else 0) + d))
  {
    assert ([48 + d] + rest)[1..] == rest;
  }

  lemma ParseDigits(x: nat, y: nat, z: nat, rest: seq<Byte>)
    requires x < 10 && y < 10 && z < 10
    ensures ParseFrom([48 + x] + rest, None) == ParseFrom(rest, Some(x))
    ensures ParseFrom([48 + x, 48 + y] + rest, None) == ParseFrom(rest, Some(x * 10 + y))
    ensures ParseFrom([48 + x, 48 + y, 48 + z] + rest, None) == ParseFrom(rest, Some((x * 10 + y) * 10 + z))
  {
    var last := [48 + z] + rest;
    assert [48 + x, 48 + y, 48 + z] + rest == [48 + x] + ([48 + y] + last);
    assert [48 + x, 48 + y] + rest == [48 + x] + ([48 + y] + rest);
    ParseDigit(x, rest, None);
    ParseDigit(x, [48 + y] + rest, None);
    ParseDigit(y, rest, Some(x));
    ParseDigit(x, [48 + y] + last, None);
    ParseDigit(y, last, Some(x));
    ParseDigit(z, rest, Some(x * 10 + y));
  }

  lemma DecimalDigits(v: Byte)
    ensures (v / 100 * 10 + v / 10 % 10) * 10 + v % 10 == v
    ensures v < 100 ==> v / 10 < 10
    ensures v / 100 < 10
  {}

  lemma ParseDecimal(v: Byte, rest: seq<Byte>)
    ensures ParseFrom(Decimal(v) + rest, None) == ParseFrom(rest, Some(v))
  {
    DecimalDigits(v);
    if v >= 100 {
      ParseDigits(v / 100, v / 10 % 10, v % 10, rest);
    } else if v >= 10 {
      ParseDigits(v / 10, v % 10, 0, rest);
    } else {
      ParseDigits(v, 0, 0, rest);
    }
  }

  lemma ParseOctet(v: Byte, rest: seq<Byte>)
    ensures var tail := ParseFrom(rest, None);
            ParseFrom(Decimal(v) + [DOT] + rest, None) == if tail.None? then None else Some([v as nat] + tail.value)
  {
    assert Decimal(v) + [DOT] + rest == Decimal(v) + ([DOT] + rest);
    ParseDecimal(v, [DOT] + rest);
    assert ([DOT] + rest)[1..] == rest;
  }

  /** The dotted text parses back to the same four octets. */
  lemma AddressRoundTrip(o: Address)
    ensures ParseFrom(Dotted(o), None) == Some([o.a, o.b, o.c, o.d])
  {
    var d := Decimal(o.d);
    var c := Decimal(o.c) + [DOT] + d;
    var b := Decimal(o.b) + [DOT] + c;
    assert Dotted(o) == Decimal(o.a) + [DOT] + b by {
      RegroupRight(Decimal(o.a), Decimal(o.b), Decimal(o.c), d);
    }
    ParseDecimal(o.d, []);
    assert d + [] == d;
    ParseOctet(o.c, d);
    ParseOctet(o.b, c);
    ParseOctet(o.a, b);
    assert [o.a as nat] + ([o.b as nat] + ([o.c as nat] + [o.d as nat])) == [o.a, o.b, o.c, o.d];
  }

  lemma RegroupRight(a: seq<Byte>, b: seq<Byte>, c: seq<Byte>, d: seq<Byte>)
    ensures a + [DOT] + b + [DOT] + c + [DOT] + d == a + [DOT] + (b + [DOT] + (c + [DOT] + d))
  {}

  // ----- ports -----

  /** The two bytes of a 16-bit word exchanged: shifts by eight, with the high part dropped. */
  function SwapU16(value: nat): nat
    requires value < 0x1_0000
  {
    value / 256 + value * 256 % 0x1_0000
  }

  /** A port that lies in memory in network order and is loaded little-endian is put right by the exchange. */
  lemma SwapReadsNetworkOrder(port: nat)
    requires port < 0x1_0000
    ensures FromLittleEndian([port / 256, port % 256]) < 0x1_0000
    ensures SwapU16(FromLittleEndian([port / 256, port % 256])) == port
  {
    var high, low := port / 256, port % 256;
    var loaded := high + 256 * low;
    assert FromLittleEndian([high, low]) == loaded by {
      assert [high, low][1..] == [low] && [low][1..] == [];
    }
    QuotientIs(loaded, 256, low, high);
    QuotientIs(loaded * 256, 0x1_0000, low, high * 256);
  }

  // ----- public or private -----

  const PRIVATE_PREFIXES: seq<string> := [
    "10.", "172.16.", "172.17.", "172.18.", "172.19.", "172.20.", "172.21.", "172.22.", "172.23.", "172.24.", "172.25.",
    "172.26.", "172.27.", "172.28.", "172.29.", "172.30.", "172.31.", "192.168.", "127."]

  predicate StartsWithText(value: seq<int>, prefix: string) {
    |prefix| <= |value| && forall i :: 0 <= i < |prefix| ==> value[i] == prefix[i] as int
  }

  /** The sensor's hint: no private prefix, and not the IPv6 loopback. */
  predicate IsPublicIpHint(value: seq<int>) {
    !(exists i :: 0 <= i < |PRIVATE_PREFIXES| && StartsWithText(value, PRIVATE_PREFIXES[i]))
    && !(|value| == 3 && StartsWithText(value, "::1"))
  }

  /** The private blocks of RFC 1918, section 3, and the loopback block. */
  predicate IsPrivate(o: Address) {
    || o.a == 10
    || (o.a == 172 && 16 <= o.b <= 31)
    || (o.a == 192 && o.b == 168)
    || o.a == 127
  }

  // ----- the textual hint is the numeric test -----

  predicate Starts(value: seq<Byte>, prefix: seq<int>) {
    |prefix| <= |value| && forall i :: 0 <= i < |prefix| ==> value[i] == prefix[i]
  }

  lemma DecimalInjective(x: Byte, k: Byte)
    ensures Decimal(x) == Decimal(k) ==> x == k
  {
    ParseDecimal(x, []);
    ParseDecimal(k, []);
    assert ParseFrom([], Some(x)) == Some([x as nat]) && ParseFrom([], Some(k)) == Some([k as nat]);
  }

  /** A dot ends a number, so a numeric prefix ending in a dot matches that number only. */
  lemma FirstOctet(x: Byte, k: Byte, rest: seq<Byte>)
    ensures Starts(Decimal(x) + [DOT] + rest, Decimal(k) + [DOT]) <==> x == k
  {
    StartsNumber(Decimal(x), Decimal(k), rest);
    DecimalInjective(x, k);
  }

  lemma StartsNumber(s: seq<Byte>, t: seq<Byte>, rest: seq<Byte>)
    requires DOT !in s && DOT !in t
    ensures Starts(s + [DOT] + rest, t + [DOT]) <==> s == t
  {
    var value := s + [DOT] + rest;
    if Starts(value, t + [DOT]) {
      assert value[|t|] == DOT && forall i :: 0 <= i < |t| ==> value[i] == t[i];
      assert forall i :: 0 <= i < |s| ==> value[i] == s[i];
      assert value[|s|] == DOT;
    }
  }

  lemma StartsTwice(s: seq<Byte>, rest: seq<Byte>, t: seq<int>)
    ensures Starts(s + rest, s + t) <==> Starts(rest, t)
  {
    if Starts(s + rest, s + t) {
      forall i | 0 <= i < |t| ensures rest[i] == t[i] {
        assert (s + rest)[|s| + i] == (s + t)[|s| + i];
      }
    }
  }

  lemma TwoOctets(x: Byte, y: Byte, k: Byte, l: Byte, rest: seq<Byte>)
    ensures Starts(Decimal(x) + [DOT] + (Decimal(y) + [DOT] + rest), (Decimal(k) + [DOT]) + (Decimal(l) + [DOT]))
            <==> x == k && y == l
  {
    var value, second := Decimal(x) + [DOT] + (Decimal(y) + [DOT] + rest), Decimal(l) + [DOT];
    FirstOctet(x, k, Decimal(y) + [DOT] + rest);
    if x == k {
      StartsTwice(Decimal(k) + [DOT], Decimal(y) + [DOT] + rest, second);
      FirstOctet(y, l, rest);
    } else if Starts(value, (Decimal(k) + [DOT]) + second) {
      StartsPart(value, Decimal(k) + [DOT], second);
      assert false;
    }
  }

  lemma StartsPart(value: seq<Byte>, s: seq<int>, t: seq<int>)
    requires Starts(value, s + t)
    ensures Starts(value, s)
  {
    forall i | 0 <= i < |s| ensures value[i] == s[i] {
      assert (s + t)[i] == s[i];
    }
  }

  /** The prefixes, as octets: one octet, or two. */
  function PrefixOctets(i: nat): (Byte, Option<Byte>)
    requires i < 19
  {
    if i == 0 then (10, None)
    else if i <= 16 then (172, Some(15 + i))
    else if i == 17 then (192, Some(168))
    else (127, None)
  }

  predicate PrefixReads(i: nat)
    requires i < 19
  {
    var (k, l) := PrefixOctets(i);
    TextBytes(PRIVATE_PREFIXES[i])
    == if l.None? then Decimal(k) + [DOT] else (Decimal(k) + [DOT]) + (Decimal(l.value) + [DOT])
  }

  lemma PrefixTextLow(i: nat)
    requires i < 10
    ensures PrefixReads(i)
  {}

  lemma PrefixTextHigh(i: nat)
    requires 10 <= i < 19
    ensures PrefixReads(i)
  {}

  lemma MatchesPrefix(o: Address, i: nat)
    requires i < 19
    ensures var (k, l) := PrefixOctets(i);
            StartsWithText(Dotted(o), PRIVATE_PREFIXES[i]) <==> o.a == k && (l.Some? ==> o.b == l.value)
  {
    if i < 10 {
      PrefixTextLow(i);
    } else {
      PrefixTextHigh(i);
    }
    var (k, l) := PrefixOctets(i);
    var d := Decimal(o.d);
    var c := Decimal(o.c) + [DOT] + d;
    var b := Decimal(o.b) + [DOT] + c;
    RegroupRight(Decimal(o.a), Decimal(o.b), Decimal(o.c), d);
    StartsBytes(Dotted(o), PRIVATE_PREFIXES[i]);
    if l.None? {
      FirstOctet(o.a, k, b);
    } else {
      TwoOctets(o.a, o.b, k, l.value, c);
    }
  }

  lemma StartsBytes(value: seq<Byte>, text: string)
    ensures StartsWithText(value, text) <==> Starts(value, TextBytes(text))
  {}

  /** On the text of an address, the prefix test is membership in the private blocks and nothing else. */
  lemma PublicHintIff(o: Address)
    ensures IsPublicIpHint(Dotted(o)) <==> !IsPrivate(o)
  {
    assert |PRIVATE_PREFIXES| == 19;
    forall i | 0 <= i < 19
      ensures StartsWithText(Dotted(o), PRIVATE_PREFIXES[i])
              <==> var (k, l) := PrefixOctets(i); o.a == k && (l.Some? ==> o.b == l.value)
    {
      MatchesPrefix(o, i);
    }
    if o.a == 10 {
      assert StartsWithText(Dotted(o), PRIVATE_PREFIXES[0]);
    } else if o.a == 172 && 16 <= o.b <= 31 {
      assert StartsWithText(Dotted(o), PRIVATE_PREFIXES[o.b - 15]);
    } else if o.a == 192 && o.b == 168 {
      assert StartsWithText(Dotted(o), PRIVATE_PREFIXES[17]);
    } else if o.a == 127 {
      assert StartsWithText(Dotted(o), PRIVATE_PREFIXES[18]);
    }
  }

  /** From the kernel's octets to the sensor's verdict: written, read back, parsed and judged, nothing is lost. */
  lemma AddressJudged(size: nat, o: Address)
    requires size >= 16
    ensures var text := FixedString(Put(seq(size, _ => 0), 0, Dotted(o)));
            && text.Some?
            && ParseFrom(text.value, None) == Some([o.a, o.b, o.c, o.d])
            && (IsPublicIpHint(text.value) <==> !IsPrivate(o))
  {
    AddressUnclipped(size, o);
    AddressRoundTrip(o);
    PublicHintIff(o);
  }
}
