/**
  Capture files: the pcap reader, the file layout of draft-ietf-opsawg-pcap, sections 4 and 5, and what survives
  when a file is written, cut and read.
*/
module Pcap {
  import opened Bytes
  import opened Common
  import opened Ipv4Packet

  datatype Order = Little | Big

  type U32 = n: int | 0 <= n < 0x1_0000_0000

  datatype Failure = TooShort | UnsupportedMagic | TruncatedHeader | TruncatedPayload

  /** One capture record. */
  datatype Frame = Frame(seconds: U32, fraction: U32, originalLength: U32, data: seq<Byte>)

  predicate Writable(f: Frame) {
    |f.data| < 0x1_0000_0000
  }

  // ----- reading -----

  function Reversed4(b: seq<Byte>): (r: seq<Byte>)
    requires |b| == 4
    ensures |r| == 4
  {
    [b[3], b[2], b[1], b[0]]
  }

  /** A word from its bytes, least significant first. */
  function Word(b0: nat, b1: nat, b2: nat, b3: nat): nat {
    b0 + 256 * b1 + 0x1_0000 * b2 + 0x100_0000 * b3
  }

  function ReadWord(order: Order, b: seq<Byte>): (n: U32)
    requires |b| == 4
  {
    if order.Little? then Word(b[0], b[1], b[2], b[3]) else Word(b[3], b[2], b[1], b[0])
  }

  lemma FourBytes(b: seq<Byte>)
    requires |b| == 4
    ensures FromLittleEndian(b) == Word(b[0], b[1], b[2], b[3])
  {
    assert b[1..][1..] == b[2..] && b[2..][1..] == b[3..] && b[3..][1..] == [];
    assert FromLittleEndian(b[3..]) == b[3];
    assert FromLittleEndian(b[2..]) == b[2] as int + 256 * b[3] as int;
    assert FromLittleEndian(b[1..]) == b[1] as int + 256 * FromLittleEndian(b[2..]);
  }

  /** The order a file's first four bytes announce: microsecond and nanosecond magic alike. */
  function OrderOf(magic: seq<Byte>): Option<Order> {
    if magic == [0xd4, 0xc3, 0xb2, 0xa1] then Some(Little)
    else if magic == [0xa1, 0xb2, 0xc3, 0xd4] then Some(Big)
    else if magic == [0x4d, 0x3c, 0xb2, 0xa1] then Some(Little)
    else if magic == [0xa1, 0xb2, 0x3c, 0x4d] then Some(Big)
    else None
  }

  /** Up to `n` bytes from `at`, as a file read returns them. */
  function ReadAt(file: seq<Byte>, at: nat, n: nat): seq<Byte>
    requires at <= |file|
  {
    file[at..Min(at + n, |file|)]
  }

  /** The frame a 16-byte record header and its payload make up. */
  function HeadedFrame(order: Order, header: seq<Byte>, payload: seq<Byte>): Frame
    requires |header| == 16
  {
    Frame(ReadWord(order, header[..4]), ReadWord(order, header[4..8]), ReadWord(order, header[12..16]), payload)
  }

  function PayloadLength(order: Order, header: seq<Byte>): (n: nat)
    requires |header| == 16
    ensures n < 0x1_0000_0000
  {
    ReadWord(order, header[8..12])
  }

  /** The records of a capture, and how reading them ends. */
  function ReadFrames(order: Order, bytes: seq<Byte>): (r: (seq<Frame>, Option<Failure>))
    ensures forall f <- r.0 :: Writable(f)
    decreases |bytes|
  {
    if bytes == [] then ([], None)
    else if |bytes| < 16 then ([], Some(TruncatedHeader))
    else
      var header := bytes[..16];
      var n := PayloadLength(order, header);
      if |bytes| < 16 + n then ([], Some(TruncatedPayload))
      else Joined([HeadedFrame(order, header, bytes[16..16 + n])], ReadFrames(order, bytes[16 + n..]))
  }

  function Joined(frames: seq<Frame>, rest: (seq<Frame>, Option<Failure>)): (seq<Frame>, Option<Failure>) {
    (frames + rest.0, rest.1)
  }

  function ReadFile(file: seq<Byte>): (seq<Frame>, Option<Failure>) {
    if |file| < 24 then ([], Some(TooShort))
    else
      var order := OrderOf(file[..4]);
      if order.None? then ([], Some(UnsupportedMagic)) else ReadFrames(order.value, file[24..])
  }

  function Timestamp(f: Frame): real {
    f.seconds as real + f.fraction as real / 1000000.0
  }

  /** The packets of the frames that are IPv4, in order. */
  function Packets(frames: seq<Frame>): seq<Packet> {
    if frames == [] then []
    else Packets(frames[..|frames| - 1]) + PacketOf(frames[|frames| - 1])
  }

  function PacketOf(f: Frame): (p: seq<Packet>)
    ensures |p| <= 1
  {
    var packet := ParseEthernetFrame(f.data, Timestamp(f));
    if packet.Some? then [packet.value] else []
  }

  lemma JoinedStep(frames: seq<Frame>, frame: Frame, rest: (seq<Frame>, Option<Failure>))
    ensures Joined(frames + [frame], rest) == Joined(frames, Joined([frame], rest))
    ensures Packets(frames + [frame]) == Packets(frames) + PacketOf(frame)
  {
    assert frames + [frame] + rest.0 == frames + ([frame] + rest.0);
    assert (frames + [frame])[..|frames|] == frames;
  }

  lemma JoinedEnds(frames: seq<Frame>, rest: (seq<Frame>, Option<Failure>))
    ensures Joined([], rest) == rest
    ensures rest.0 == [] ==> Joined(frames, rest) == (frames, rest.1)
  {
    assert [] + rest.0 == rest.0;
    assert rest.0 == [] ==> frames + rest.0 == frames;
  }

  /** Less than a record header is left. */
  lemma ShortRest(order: Order, file: seq<Byte>, at: nat)
    requires at <= |file| < at + 16
    ensures ReadFrames(order, file[at..]) == ([], if at == |file| then None else Some(TruncatedHeader))
  {}

  /** A record header and what it announces, in terms of the file cursor. */
  lemma NextFrame(order: Order, file: seq<Byte>, at: nat, header: seq<Byte>, n: nat)
    requires at + 16 <= |file| && header == file[at..at + 16] && n == PayloadLength(order, header)
    ensures ReadFrames(order, file[at..])
            == if |file| < at + 16 + n then ([], Some(TruncatedPayload))
               else Joined([HeadedFrame(order, header, file[at + 16..at + 16 + n])],
                           ReadFrames(order, file[at + 16 + n..]))
  {
    var bytes := file[at..];
    assert bytes[..16] == header;
    if |file| >= at + 16 + n {
      SlicesOfRest(file, at, n);
    }
  }

  lemma SlicesOfRest(file: seq<Byte>, at: nat, n: nat)
    requires at + 16 + n <= |file|
    ensures file[at..][16..16 + n] == file[at + 16..at + 16 + n]
    ensures file[at..][16 + n..] == file[at + 16 + n..]
  {}

  datatype Step = End | Raise(failure: Failure) | Next(frame: Frame, at: nat)

  /** What a step leaves to be read, with what it read in front. */
  ghost function AfterStep(order: Order, file: seq<Byte>, step: Step): (seq<Frame>, Option<Failure>)
    requires step.Next? ==> step.at <= |file|
  {
    match step
    case End => ([], None)
    case Raise(failure) => ([], Some(failure))
    case Next(frame, at) => Joined([frame], ReadFrames(order, file[at..]))
  }

  /** One turn of the reader's loop: a record header, then its payload, from the file's cursor. */
  method ReadRecord(order: Order, file: seq<Byte>, at: nat) returns (step: Step)
    requires at <= |file|
    ensures step.Next? ==> at < step.at <= |file|
    ensures ReadFrames(order, file[at..]) == AfterStep(order, file, step)
  {
    var packetHeader := ReadAt(file, at, 16);
    if packetHeader == [] {
      ShortRest(order, file, at);
      return End;
    }
    if |packetHeader| != 16 {
      ShortRest(order, file, at);
      return Raise(TruncatedHeader);
    }
    var inclLen := PayloadLength(order, packetHeader);
    NextFrame(order, file, at, packetHeader, inclLen);
    var payload := ReadAt(file, at + 16, inclLen);
    if |payload| != inclLen {
      return Raise(TruncatedPayload);
    }
    return Next(HeadedFrame(order, packetHeader, payload), at + 16 + inclLen);
  }

  /** What the reader yields before it returns or raises. */
  method IterPcap(file: seq<Byte>) returns (packets: seq<Packet>, failure: Option<Failure>)
    ensures packets == Packets(ReadFile(file).0)
    ensures failure == ReadFile(file).1
  {
    packets := [];
    var header := ReadAt(file, 0, 24);
    if |header| != 24 {
      return packets, Some(TooShort);
    }
    var order := OrderOf(header[..4]);
    assert header[..4] == file[..4];
    if order.None? {
      return packets, Some(UnsupportedMagic);
    }
    var at := 24;
    ghost var frames, rest := [], ReadFrames(order.value, file[at..]);
    JoinedEnds([], rest);
    while true
      invariant at <= |file|
      invariant packets == Packets(frames)
      invariant rest == ReadFrames(order.value, file[at..])
      invariant ReadFile(file) == Joined(frames, rest)
      decreases |file| - at
    {
      JoinedEnds(frames, rest);
      var step := ReadRecord(order.value, file, at);
      match step {
        case End => return packets, None;
        case Raise(raised) => return packets, Some(raised);
        case Next(frame, next) =>
          at := next;
          rest := ReadFrames(order.value, file[at..]);
          JoinedStep(frames, frame, rest);
          var packet := ParseEthernetFrame(frame.data, Timestamp(frame));
          if packet.Some? {
            packets := packets + [packet.value];
          }
          frames := frames + [frame];
      }
    }
  }

  // ----- writing -----

  function WriteWord(order: Order, n: U32): (b: seq<Byte>)
    ensures |b| == 4
  {
    if order.Little? then LittleEndian(n, 4) else Reversed4(LittleEndian(n, 4))
  }

  lemma WordRoundTrip(order: Order, n: U32)
    ensures ReadWord(order, WriteWord(order, n)) == n
  {
    var b := LittleEndian(n, 4);
    assert Pow(256, 4) == 0x1_0000_0000;
    LittleEndianRoundTrip(n, 4);
    FourBytes(b);
  }

  lemma WordBack(order: Order, b: seq<Byte>)
    requires |b| == 4
    ensures WriteWord(order, ReadWord(order, b)) == b
  {
    var little := if order.Little? then b else Reversed4(b);
    FourBytes(little);
    FromLittleEndianRoundTrip(little);
    assert Reversed4(Reversed4(b)) == b;
  }

  function RecordHeader(order: Order, f: Frame): (h: seq<Byte>)
    requires Writable(f)
    ensures |h| == 16
  {
    WriteWord(order, f.seconds) + WriteWord(order, f.fraction) + WriteWord(order, |f.data|)
    + WriteWord(order, f.originalLength)
  }

  function WriteFrames(order: Order, frames: seq<Frame>): seq<Byte>
    requires forall f <- frames :: Writable(f)
  {
    if frames == [] then []
    else RecordHeader(order, frames[0]) + (frames[0].data + WriteFrames(order, frames[1..]))
  }

  /** Either magic of an order. */
  function Magic(order: Order, nanoseconds: bool): (m: seq<Byte>)
    ensures |m| == 4
  {
    var low := if nanoseconds then [0x4d, 0x3c] else [0xd4, 0xc3];
    if order.Little? then low + [0xb2, 0xa1] else [0xa1, 0xb2, low[1], low[0]]
  }

  /** A capture file; `rest` is the header behind its magic. */
  function WriteFile(order: Order, nanoseconds: bool, rest: seq<Byte>, frames: seq<Frame>): (file: seq<Byte>)
    requires |rest| == 20 && forall f <- frames :: Writable(f)
    ensures |file| >= 24
  {
    Magic(order, nanoseconds) + rest + WriteFrames(order, frames)
  }

  // ----- written, cut and read -----

  lemma HeaderRead(order: Order, f: Frame)
    requires Writable(f)
    ensures HeadedFrame(order, RecordHeader(order, f), f.data) == f
    ensures PayloadLength(order, RecordHeader(order, f)) == |f.data|
  {
    var h := RecordHeader(order, f);
    assert h[..4] == WriteWord(order, f.seconds) && h[4..8] == WriteWord(order, f.fraction);
    assert h[8..12] == WriteWord(order, |f.data|) && h[12..16] == WriteWord(order, f.originalLength);
    WordRoundTrip(order, f.seconds);
    WordRoundTrip(order, f.fraction);
    WordRoundTrip(order, |f.data|);
    WordRoundTrip(order, f.originalLength);
  }

  lemma HeaderWritten(order: Order, header: seq<Byte>, payload: seq<Byte>)
    requires |header| == 16 && |payload| == PayloadLength(order, header)
    ensures RecordHeader(order, HeadedFrame(order, header, payload)) == header
  {
    WordBack(order, header[..4]);
    WordBack(order, header[4..8]);
    WordBack(order, header[8..12]);
    WordBack(order, header[12..16]);
    assert header[..4] + header[4..8] + header[8..12] + header[12..16] == header;
  }

  /** A whole record is read, and reading goes on behind it. */
  lemma ReadOne(order: Order, f: Frame, rest: seq<Byte>)
    requires Writable(f)
    ensures ReadFrames(order, RecordHeader(order, f) + (f.data + rest)) == Joined([f], ReadFrames(order, rest))
  {
    HeaderRead(order, f);
    Behind(RecordHeader(order, f), f.data, rest);
  }

  lemma Behind(header: seq<Byte>, data: seq<Byte>, rest: seq<Byte>)
    requires |header| == 16
    ensures var bytes := header + (data + rest);
            bytes[..16] == header && bytes[16..16 + |data|] == data && bytes[16 + |data|..] == rest
  {}

  /** How many records lie whole before a cut. */
  function WholeFrames(frames: seq<Frame>, cut: nat): (k: nat)
    ensures k <= |frames|
  {
    if frames == [] || cut < 16 + |frames[0].data| then 0
    else 1 + WholeFrames(frames[1..], cut - 16 - |frames[0].data|)
  }

  /** How far a cut reaches into the record after those. */
  function PartOfFrame(frames: seq<Frame>, cut: nat): nat {
    if frames == [] || cut < 16 + |frames[0].data| then cut
    else PartOfFrame(frames[1..], cut - 16 - |frames[0].data|)
  }

  /** A header or payload cut short ends a reading with an error; a cut between records does not. */
  function CutEnding(part: nat): Option<Failure> {
    if part == 0 then None else if part < 16 then Some(TruncatedHeader) else Some(TruncatedPayload)
  }

  /** The whole records before a cut are read, and reading ends as the cut decides. */
  ghost predicate CutReads(order: Order, frames: seq<Frame>, cut: nat)
    requires (forall f <- frames :: Writable(f)) && cut <= |WriteFrames(order, frames)|
  {
    ReadFrames(order, WriteFrames(order, frames)[..cut])
    == (frames[..WholeFrames(frames, cut)], CutEnding(PartOfFrame(frames, cut)))
  }

  /** This is so however a written capture is cut. */
  lemma {:induction false} ReadCut(order: Order, frames: seq<Frame>, cut: nat)
    requires (forall f <- frames :: Writable(f)) && cut <= |WriteFrames(order, frames)|
    ensures CutReads(order, frames, cut)
    decreases |frames|
  {
    if frames != [] {
      assert forall g <- frames[1..] :: g in frames;
      var size := 16 + |frames[0].data|;
      if cut < size {
        ReadCutLess(order, frames, cut);
      } else {
        ReadCut(order, frames[1..], cut - size);
        ReadCutMore(order, frames, cut);
      }
    }
  }

  lemma ReadCutLess(order: Order, frames: seq<Frame>, cut: nat)
    requires frames != [] && (forall f <- frames :: Writable(f)) && forall f <- frames[1..] :: Writable(f)
    requires cut < 16 + |frames[0].data| && cut <= |WriteFrames(order, frames)|
    ensures CutReads(order, frames, cut)
  {
    PartialRecord(order, frames[0], WriteFrames(order, frames[1..]), cut);
  }

  lemma ReadCutMore(order: Order, frames: seq<Frame>, cut: nat)
    requires frames != [] && (forall f <- frames :: Writable(f)) && forall f <- frames[1..] :: Writable(f)
    requires 16 + |frames[0].data| <= cut <= |WriteFrames(order, frames)|
    requires CutReads(order, frames[1..], cut - 16 - |frames[0].data|)
    ensures CutReads(order, frames, cut)
  {
    hide ReadFrames, RecordHeader;
    ReadCutFirst(order, frames[0], WriteFrames(order, frames[1..]), cut);
    FirstOf(frames, WholeFrames(frames[1..], cut - 16 - |frames[0].data|));
  }

  lemma ReadCutFirst(order: Order, f: Frame, tail: seq<Byte>, cut: nat)
    requires Writable(f) && 16 + |f.data| <= cut <= 16 + |f.data| + |tail|
    ensures ReadFrames(order, (RecordHeader(order, f) + (f.data + tail))[..cut])
            == Joined([f], ReadFrames(order, tail[..cut - 16 - |f.data|]))
  {
    CutBehind(RecordHeader(order, f), f.data, tail, cut);
    ReadOne(order, f, tail[..cut - 16 - |f.data|]);
  }

  lemma FirstOf(frames: seq<Frame>, k: nat)
    requires k < |frames|
    ensures [frames[0]] + frames[1..][..k] == frames[..1 + k]
  {}

  lemma CutBehind(header: seq<Byte>, data: seq<Byte>, tail: seq<Byte>, cut: nat)
    requires |header| == 16 && 16 + |data| <= cut <= 16 + |data| + |tail|
    ensures (header + (data + tail))[..cut] == header + (data + tail[..cut - 16 - |data|])
  {}

  lemma PartialRecord(order: Order, f: Frame, tail: seq<Byte>, cut: nat)
    requires Writable(f) && cut < 16 + |f.data|
    ensures ReadFrames(order, (RecordHeader(order, f) + (f.data + tail))[..cut]) == ([], CutEnding(cut))
  {
    if cut >= 16 {
      assert (RecordHeader(order, f) + (f.data + tail))[..cut][..16] == RecordHeader(order, f);
      HeaderRead(order, f);
    }
  }

  lemma {:induction false} NoCut(order: Order, frames: seq<Frame>)
    requires forall f <- frames :: Writable(f)
    ensures WholeFrames(frames, |WriteFrames(order, frames)|) == |frames|
    ensures PartOfFrame(frames, |WriteFrames(order, frames)|) == 0
  {
    if frames != [] {
      assert forall g <- frames[1..] :: g in frames;
      NoCut(order, frames[1..]);
    }
  }

  lemma MagicAnnounces(order: Order, nanoseconds: bool)
    ensures OrderOf(Magic(order, nanoseconds)) == Some(order)
  {}

  lemma FileParts(order: Order, nanoseconds: bool, rest: seq<Byte>, frames: seq<Frame>, cut: nat)
    requires |rest| == 20 && forall f <- frames :: Writable(f)
    requires 24 <= cut <= |WriteFile(order, nanoseconds, rest, frames)|
    ensures var file := WriteFile(order, nanoseconds, rest, frames)[..cut];
            file[..4] == Magic(order, nanoseconds) && file[24..] == WriteFrames(order, frames)[..cut - 24]
  {}

  /**
    Any list of records, written in either order and cut anywhere: the reader reports exactly the records before the
    cut, and raises exactly if the cut falls inside the file header or inside a record.
  */
  lemma FileCut(order: Order, nanoseconds: bool, rest: seq<Byte>, frames: seq<Frame>, cut: nat)
    requires |rest| == 20 && forall f <- frames :: Writable(f)
    requires cut <= |WriteFile(order, nanoseconds, rest, frames)|
    ensures ReadFile(WriteFile(order, nanoseconds, rest, frames)[..cut])
            == if cut < 24 then ([], Some(TooShort))
               else (frames[..WholeFrames(frames, cut - 24)], CutEnding(PartOfFrame(frames, cut - 24)))
  {
    if cut >= 24 {
      FileParts(order, nanoseconds, rest, frames, cut);
      MagicAnnounces(order, nanoseconds);
      ReadCut(order, frames, cut - 24);
    }
  }

  /** An uncut file gives back every record. */
  lemma FileRoundTrip(order: Order, nanoseconds: bool, rest: seq<Byte>, frames: seq<Frame>)
    requires |rest| == 20 && forall f <- frames :: Writable(f)
    ensures ReadFile(WriteFile(order, nanoseconds, rest, frames)) == (frames, None)
  {
    var file := WriteFile(order, nanoseconds, rest, frames);
    FileCut(order, nanoseconds, rest, frames, |file|);
    NoCut(order, frames);
    assert file[..|file|] == file && frames[..|frames|] == frames;
  }

  lemma WriteFirst(order: Order, f: Frame, frames: seq<Frame>)
    requires Writable(f) && forall g <- frames :: Writable(g)
    ensures WriteFrames(order, [f] + frames) == RecordHeader(order, f) + (f.data + WriteFrames(order, frames))
  {
    assert ([f] + frames)[1..] == frames;
  }

  /** The records read, written again, are the bytes up to where reading stopped. */
  ghost predicate WritesBack(order: Order, bytes: seq<Byte>) {
    var (frames, failure) := ReadFrames(order, bytes);
    var written := WriteFrames(order, frames);
    && |written| <= |bytes| && bytes[..|written|] == written
    && (failure.None? <==> written == bytes)
  }

  /** Reading loses nothing, whatever the bytes. */
  lemma {:induction false} WrittenBack(order: Order, bytes: seq<Byte>)
    ensures WritesBack(order, bytes)
    decreases |bytes|
  {
    if |bytes| >= 16 {
      var n := PayloadLength(order, bytes[..16]);
      if |bytes| >= 16 + n {
        WrittenBack(order, bytes[16 + n..]);
        WrittenBackStep(order, bytes, n);
      }
    }
  }

  lemma WrittenBackStep(order: Order, bytes: seq<Byte>, n: nat)
    requires |bytes| >= 16 + n && n == PayloadLength(order, bytes[..16])
    requires WritesBack(order, bytes[16 + n..])
    ensures WritesBack(order, bytes)
  {
    var header, rest := bytes[..16], ReadFrames(order, bytes[16 + n..]);
    HeaderWritten(order, header, bytes[16..16 + n]);
    WriteFirst(order, HeadedFrame(order, header, bytes[16..16 + n]), rest.0);
    Rejoined(bytes, n, WriteFrames(order, rest.0));
  }

  lemma Rejoined(bytes: seq<Byte>, n: nat, tail: seq<Byte>)
    requires 16 + n <= |bytes|
    requires |tail| <= |bytes| - 16 - n && bytes[16 + n..][..|tail|] == tail
    ensures var written := bytes[..16] + (bytes[16..16 + n] + tail);
            && |written| == 16 + n + |tail| && bytes[..|written|] == written
            && (written == bytes <==> tail == bytes[16 + n..])
  {
    var written := bytes[..16] + (bytes[16..16 + n] + tail);
    assert forall i :: 16 + n <= i < 16 + n + |tail| ==> bytes[i] == bytes[16 + n..][..|tail|][i - 16 - n];
    if written == bytes {
      assert tail == written[16 + n..];
    }
  }

  lemma WriterOf(file: seq<Byte>)
    returns (order: Order, nanoseconds: bool, rest: seq<Byte>, frames: seq<Frame>)
    requires ReadFile(file).1.None?
    ensures |rest| == 20 && forall f <- frames :: Writable(f)
    ensures WriteFile(order, nanoseconds, rest, frames) == file
  {
    hide ReadFrames, WriteFrames;
    order := OrderOf(file[..4]).value;
    frames := ReadFrames(order, file[24..]).0;
    rest := file[4..24];
    nanoseconds := file[..4] != Magic(order, false);
    WrittenBack(order, file[24..]);
    assert file == file[..4] + rest + file[24..];
  }

  /** A file is read to its end without an error exactly if it is some capture written out. */
  lemma AcceptedIff(file: seq<Byte>)
    ensures ReadFile(file).1.None? <==>
            exists order, nanoseconds, rest: seq<Byte>, frames ::
              |rest| == 20 && (forall f <- frames :: Writable(f)) && WriteFile(order, nanoseconds, rest, frames) == file
  {
    if ReadFile(file).1.None? {
      var order, nanoseconds, rest, frames := WriterOf(file);
    }
    if order, nanoseconds, rest: seq<Byte>, frames :|
      |rest| == 20 && (forall f <- frames :: Writable(f)) && WriteFile(order, nanoseconds, rest, frames) == file
    {
      FileRoundTrip(order, nanoseconds, rest, frames);
    }
  }

  /** The magic is one of two numbers, written in the file's byte order; the reader tells the order from it. */
  lemma MagicIs(order: Order, nanoseconds: bool)
    ensures ReadWord(order, Magic(order, nanoseconds)) == if nanoseconds then 0xA1B2_3C4D else 0xA1B2_C3D4
    ensures OrderOf(Magic(order, nanoseconds)) == Some(order)
  {}

  /** The instant a record stands for. */
  function TrueTime(nanoseconds: bool, f: Frame): real {
    f.seconds as real + f.fraction as real / (if nanoseconds then 1000000000.0 else 1000000.0)
  }

  /** Timestamps are right with microsecond magic; with nanosecond magic only when the fraction is zero. */
  lemma TimestampRightIff(nanoseconds: bool, f: Frame)
    ensures Timestamp(f) == TrueTime(nanoseconds, f) <==> !nanoseconds || f.fraction == 0
    ensures (TrueTime(nanoseconds, f) - f.seconds as real) * (if nanoseconds then 1000000000.0 else 1000000.0)
            == f.fraction as real
  {
    var x := f.fraction as real;
    assert x / 1000000.0 == 1000.0 * (x / 1000000000.0);
  }

  // ----- captures of datagrams -----

  /** One captured datagram: when, how long it was on the wire, and the parts of its frame. */
  datatype Captured = Captured(seconds: U32, fraction: U32, originalLength: U32, stations: seq<Byte>, header: Header,
                               rest: seq<Byte>)
  {
    predicate Fits() {
      |stations| == 12 && IsHeader(header) && |FrameOf(stations, header, rest)| < 0x1_0000_0000
    }

    function Record(): Frame
      requires Fits()
    {
      Frame(seconds, fraction, originalLength, FrameOf(stations, header, rest))
    }

    function Seen(): Packet
      requires Fits()
    {
      Observed(stations, header, rest, Timestamp(Record()))
    }
  }

  predicate AllFit(captured: seq<Captured>) {
    forall i :: 0 <= i < |captured| ==> captured[i].Fits()
  }

  function Records(captured: seq<Captured>): (frames: seq<Frame>)
    requires AllFit(captured)
    ensures |frames| == |captured| && forall f <- frames :: Writable(f)
  {
    seq(|captured|, i requires 0 <= i < |captured| => captured[i].Record())
  }

  /** The packets that a reader of the captured datagrams sees. */
  function AllSeen(captured: seq<Captured>): (packets: seq<Packet>)
    requires AllFit(captured)
    ensures |packets| == |captured|
  {
    seq(|captured|, i requires 0 <= i < |captured| => captured[i].Seen())
  }

  lemma RecordSeen(c: Captured)
    requires c.Fits()
    ensures PacketOf(c.Record()) == [c.Seen()]
  {
    FrameParsed(c.stations, c.header, c.rest, Timestamp(c.Record()));
  }

  lemma OneMoreCaptured(captured: seq<Captured>, n: nat)
    requires AllFit(captured) && n + 1 == |captured|
    ensures Records(captured)[..n] == Records(captured[..n]) && Records(captured)[n] == captured[n].Record()
    ensures AllSeen(captured) == AllSeen(captured[..n]) + [captured[n].Seen()]
  {}

  lemma {:induction false} PacketsSeen(captured: seq<Captured>)
    requires AllFit(captured)
    ensures Packets(Records(captured)) == AllSeen(captured)
  {
    if captured != [] {
      var n := |captured| - 1;
      PacketsSeen(captured[..n]);
      OneMoreCaptured(captured, n);
      RecordSeen(captured[n]);
    }
  }

  /** A capture of datagrams, written and read: exactly their packets, in order, and no error. */
  lemma CaptureRoundTrip(order: Order, nanoseconds: bool, rest: seq<Byte>, captured: seq<Captured>)
    requires |rest| == 20 && AllFit(captured)
    ensures var (frames, failure) := ReadFile(WriteFile(order, nanoseconds, rest, Records(captured)));
            failure == None && Packets(frames) == AllSeen(captured)
  {
    FileRoundTrip(order, nanoseconds, rest, Records(captured));
    PacketsSeen(captured);
  }

  /** A nanosecond capture of one datagram whose packet carries the wrong time. */
  lemma NanosecondCapture() returns (file: seq<Byte>, captured: Captured)
    ensures captured.Fits() && file == WriteFile(Little, true, Zeros(20), [captured.Record()])
    ensures var packets := Packets(ReadFile(file).0);
            |packets| == 1 && packets[0].timestamp != TrueTime(true, captured.Record())
  {
    captured := Captured(0, 1, 38, Zeros(12), PLAIN, [0, 1, 0, 2]);
    assert Records([captured]) == [captured.Record()];
    file := WriteFile(Little, true, Zeros(20), [captured.Record()]);
    CaptureRoundTrip(Little, true, Zeros(20), [captured]);
    TimestampRightIff(true, captured.Record());
  }
}
