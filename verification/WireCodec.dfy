/**
  The sensor's encoder and decoder as they run: buffers filled and read through a moving offset.
  Both are proved against the piecewise format of `WireFormat`.
*/
module WireCodec {
  import opened Common
  import opened Bytes
  import opened WireFormat

  /** The first `k` pieces are written, and everything behind them is still zero. */
  ghost predicate Written(buffer: seq<Byte>, pieces: seq<seq<Byte>>, k: nat) {
    && |buffer| == RECORD_SIZE
    && k <= |pieces|
    && |Flatten(pieces[..k])| <= |buffer|
    && buffer[..|Flatten(pieces[..k])|] == Flatten(pieces[..k])
    && forall j :: |Flatten(pieces[..k])| <= j < |buffer| ==> buffer[j] == 0
  }

  /** Copies `source` to the place of piece `k`. */
  method WriteFixed(bytes: array<Byte>, offset: nat, source: seq<Byte>, ghost pieces: seq<seq<Byte>>, ghost k: nat)
    returns (next: nat)
    requires |pieces| == 22 && Lengths(pieces) == LENGTHS && k < 22
    requires Written(bytes[..], pieces, k) && source == pieces[k] && offset == OFFSETS[k]
    modifies bytes
    ensures Written(bytes[..], pieces, k + 1) && next == offset + |source|
  {
    PieceFits(pieces, k);
    ghost var before := bytes[..];
    forall j | 0 <= j < |source| {
      bytes[offset + j] := source[j];
    }
    next := offset + |source|;
    assert bytes[..next] == before[..offset] + source;
  }

  lemma PieceFits(pieces: seq<seq<Byte>>, k: nat)
    requires |pieces| == 22 && Lengths(pieces) == LENGTHS && k < 22
    ensures |Flatten(pieces[..k])| == OFFSETS[k] && OFFSETS[k] + |pieces[k]| == OFFSETS[k + 1] <= RECORD_SIZE
    ensures Flatten(pieces[..k + 1]) == Flatten(pieces[..k]) + pieces[k]
  {
    FlattenedLength(pieces, k);
    FlattenOneMore(pieces, k);
    assert Lengths(pieces)[k] == |pieces[k]|;
    OffsetsTo(k);
    OffsetsTo(k + 1);
    Offsets();
    OffsetMonotone(LENGTHS, k + 1, 22);
  }

  /** Padding is written by not writing. */
  lemma PaddingWritten(buffer: seq<Byte>, pieces: seq<seq<Byte>>, k: nat)
    requires |pieces| == 22 && Lengths(pieces) == LENGTHS && k < 22
    requires Written(buffer, pieces, k) && pieces[k] == Zeros(|pieces[k]|)
    ensures Written(buffer, pieces, k + 1)
  {
    PieceFits(pieces, k);
    var at, n := OFFSETS[k], |pieces[k]|;
    assert buffer[..at + n] == buffer[..at] + pieces[k];
  }

  lemma NothingWritten(buffer: seq<Byte>, pieces: seq<seq<Byte>>)
    requires |buffer| == RECORD_SIZE && forall j :: 0 <= j < |buffer| ==> buffer[j] == 0
    ensures Written(buffer, pieces, 0)
  {
    assert pieces[..0] == [];
  }

  method ToBytes(r: WireRecord) returns (bytes: array<Byte>)
    requires Sized(r)
    ensures fresh(bytes) && bytes[..] == Encode(r)
  {
    hide Written, Flatten, Lengths;
    ghost var p := ToPieces(r);
    ToPiecesLengths(r);
    bytes := new Byte[RECORD_SIZE](_ => 0);
    NothingWritten(bytes[..], p);
    WriteHeader(bytes, r, p);
    var offset := WriteTexts(bytes, HEADER_LEN, r, p);
    offset := WriteNames(bytes, offset, r, p);
    PaddingWritten(bytes[..], p, 21);
    AllWritten(bytes[..], p);
  }

  method WriteTexts(bytes: array<Byte>, offset: nat, r: WireRecord, ghost p: seq<seq<Byte>>) returns (next: nat)
    requires Sized(r) && p == ToPieces(r) && Lengths(p) == LENGTHS
    requires Written(bytes[..], p, 11) && offset == HEADER_LEN
    modifies bytes
    ensures Written(bytes[..], p, 16) && next == OFFSETS[16]
  {
    hide Written, Flatten, Lengths;
    next := WriteFixed(bytes, offset, r.comm, p, 11);
    next := WriteFixed(bytes, next, r.binary, p, 12);
    next := WriteFixed(bytes, next, r.argumentSample, p, 13);
    next := WriteFixed(bytes, next, r.filename, p, 14);
    next := WriteFixed(bytes, next, r.accessType, p, 15);
  }

  method WriteNames(bytes: array<Byte>, offset: nat, r: WireRecord, ghost p: seq<seq<Byte>>) returns (next: nat)
    requires Sized(r) && p == ToPieces(r) && Lengths(p) == LENGTHS
    requires Written(bytes[..], p, 16) && offset == OFFSETS[16]
    modifies bytes
    ensures Written(bytes[..], p, 21) && next == OFFSETS[21]
  {
    hide Written, Flatten, Lengths;
    next := WriteFixed(bytes, offset, r.srcIp, p, 16);
    next := WriteFixed(bytes, next, r.destIp, p, 17);
    next := WriteFixed(bytes, next, r.protocol, p, 18);
    next := WriteFixed(bytes, next, r.cgroupId, p, 19);
    next := WriteFixed(bytes, next, r.containerId, p, 20);
  }

  method WriteHeader(bytes: array<Byte>, r: WireRecord, ghost p: seq<seq<Byte>>)
    requires Sized(r) && p == ToPieces(r) && Lengths(p) == LENGTHS
    requires Written(bytes[..], p, 0)
    modifies bytes
    ensures Written(bytes[..], p, 11)
  {
    hide Written, Flatten, Lengths;
    var offset := WriteFixed(bytes, 0, LittleEndian(r.schemaVersion, 2), p, 0);
    offset := WriteFixed(bytes, 2, [r.kind], p, 1);
    offset := WriteFixed(bytes, 3, [r.flags], p, 2);
    PaddingWritten(bytes[..], p, 3);
    WriteIds(bytes, r, p);
    WritePorts(bytes, r, p);
  }

  method WritePorts(bytes: array<Byte>, r: WireRecord, ghost p: seq<seq<Byte>>)
    requires Sized(r) && p == ToPieces(r) && Lengths(p) == LENGTHS
    requires Written(bytes[..], p, 8)
    modifies bytes
    ensures Written(bytes[..], p, 11)
  {
    hide Written, Flatten, Lengths;
    var offset := WriteFixed(bytes, 40, LittleEndian(r.srcPort, 2), p, 8);
    offset := WriteFixed(bytes, 42, LittleEndian(r.destPort, 2), p, 9);
    PaddingWritten(bytes[..], p, 10);
  }

  method WriteIds(bytes: array<Byte>, r: WireRecord, ghost p: seq<seq<Byte>>)
    requires Sized(r) && p == ToPieces(r) && Lengths(p) == LENGTHS
    requires Written(bytes[..], p, 4)
    modifies bytes
    ensures Written(bytes[..], p, 8)
  {
    hide Written, Flatten, Lengths;
    var offset := WriteFixed(bytes, 8, SignedBytes(r.pid), p, 4);
    offset := WriteFixed(bytes, 16, SignedBytes(r.ppid), p, 5);
    WriteOwner(bytes, r, p);
  }

  method WriteOwner(bytes: array<Byte>, r: WireRecord, ghost p: seq<seq<Byte>>)
    requires Sized(r) && p == ToPieces(r) && Lengths(p) == LENGTHS
    requires Written(bytes[..], p, 6)
    modifies bytes
    ensures Written(bytes[..], p, 8)
  {
    hide Written, Flatten, Lengths;
    var offset := WriteFixed(bytes, 24, SignedBytes(r.uid), p, 6);
    offset := WriteFixed(bytes, 32, SignedBytes(r.gid), p, 7);
  }

  lemma AllWritten(buffer: seq<Byte>, pieces: seq<seq<Byte>>)
    requires |pieces| == 22 && Lengths(pieces) == LENGTHS && Written(buffer, pieces, 22)
    ensures buffer == Flatten(pieces)
  {
    PieceFits(pieces, 21);
    assert pieces[..22] == pieces;
    assert OFFSETS[22] == RECORD_SIZE;
    assert buffer[..RECORD_SIZE] == buffer;
  }

  /** Reads the bytes of piece `k`. */
  method ReadFixed(bytes: seq<Byte>, offset: nat, length: nat, ghost k: nat) returns (piece: seq<Byte>, next: nat)
    requires |bytes| == RECORD_SIZE == Offset(LENGTHS, 22) && |LENGTHS| == 22 && k < 22
    requires offset == OFFSETS[k] && length == LENGTHS[k]
    ensures piece == Cut(bytes, LENGTHS)[k] && next == offset + length
  {
    OffsetsTo(k);
    OffsetMonotone(LENGTHS, k + 1, 22);
    piece, next := bytes[offset..offset + length], offset + length;
  }

  method FromBytes(bytes: seq<Byte>) returns (r: Result<WireRecord, WireError>)
    ensures r == Decode(bytes)
  {
    if |bytes| != RECORD_SIZE {
      return Err(WrongSize(|bytes|));
    }
    var schemaVersion := Unsigned(bytes[0..2]);
    if schemaVersion != SCHEMA_VERSION {
      return Err(WrongSchema(schemaVersion));
    }
    Offsets();
    var header := ReadHeader(bytes, schemaVersion);
    var record := ReadTexts(bytes, header);
    return Ok(record);
  }

  method ReadTexts(bytes: seq<Byte>, header: WireRecord) returns (r: WireRecord)
    requires |bytes| == RECORD_SIZE == Offset(LENGTHS, 22) && |LENGTHS| == 22
    ensures var p := Cut(bytes, LENGTHS);
            r == header.(comm := p[11], binary := p[12], argumentSample := p[13], filename := p[14],
                         accessType := p[15], srcIp := p[16], destIp := p[17], protocol := p[18],
                         cgroupId := p[19], containerId := p[20])
  {
    var offset := HEADER_LEN;
    var comm, binary, argumentSample, filename, accessType, srcIp, destIp, protocol, cgroupId, containerId;
    comm, offset := ReadFixed(bytes, offset, 16, 11);
    binary, offset := ReadFixed(bytes, offset, 256, 12);
    argumentSample, offset := ReadFixed(bytes, offset, 256, 13);
    filename, offset := ReadFixed(bytes, offset, 256, 14);
    accessType, offset := ReadFixed(bytes, offset, 16, 15);
    srcIp, offset := ReadFixed(bytes, offset, 46, 16);
    destIp, offset := ReadFixed(bytes, offset, 46, 17);
    protocol, offset := ReadFixed(bytes, offset, 8, 18);
    cgroupId, offset := ReadFixed(bytes, offset, 32, 19);
    containerId, offset := ReadFixed(bytes, offset, 64, 20);
    return header.(comm := comm, binary := binary, argumentSample := argumentSample, filename := filename,
                   accessType := accessType, srcIp := srcIp, destIp := destIp, protocol := protocol,
                   cgroupId := cgroupId, containerId := containerId);
  }

  /** The header fields, each at its own constant offset; the text fields are still empty. */
  method ReadHeader(bytes: seq<Byte>, schemaVersion: U16) returns (r: WireRecord)
    requires |bytes| == RECORD_SIZE == Offset(LENGTHS, 22) && |LENGTHS| == 22
    requires schemaVersion == Unsigned(bytes[0..2])
    ensures r == FromPieces(Cut(bytes, LENGTHS)).(comm := [], binary := [], argumentSample := [], filename := [],
                   accessType := [], srcIp := [], destIp := [], protocol := [], cgroupId := [], containerId := [])
  {
    Offsets();
    ghost var p := Cut(bytes, LENGTHS);
    assert p[0] == bytes[0..2] && p[1] == bytes[2..3] && p[2] == bytes[3..4];
    assert p[4] == bytes[8..16] && p[5] == bytes[16..24] && p[6] == bytes[24..32] && p[7] == bytes[32..40];
    assert p[8] == bytes[40..42] && p[9] == bytes[42..44];
    return WireRecord(schemaVersion, bytes[2], bytes[3], Signed(bytes[8..16]), Signed(bytes[16..24]),
                      Signed(bytes[24..32]), Signed(bytes[32..40]), Unsigned(bytes[40..42]), Unsigned(bytes[42..44]),
                      [], [], [], [], [], [], [], [], [], []);
  }
}
