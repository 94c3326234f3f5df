/**
  The fixed-size event record that the kernel probe and the user-space sensor share: its encoder and
  decoder undo each other, and the kernel's C layout puts every field where the decoder reads it.
*/
module WireFormat {
  import opened Common
  import opened Bytes

  type U16 = n: int | 0 <= n < 0x1_0000

  const SCHEMA_VERSION: U16 := 1
  const HEADER_LEN: nat := 48
  const RECORD_SIZE: nat := 1048

  datatype WireRecord = WireRecord(
    schemaVersion: U16, kind: Byte, flags: Byte, pid: I64, ppid: I64, uid: I64, gid: I64, srcPort: U16, destPort: U16,
    comm: seq<Byte>, binary: seq<Byte>, argumentSample: seq<Byte>, filename: seq<Byte>, accessType: seq<Byte>,
    srcIp: seq<Byte>, destIp: seq<Byte>, protocol: seq<Byte>, cgroupId: seq<Byte>, containerId: seq<Byte>)

  /** The text fields are fixed-size buffers. */
  predicate Sized(r: WireRecord) {
    && |r.comm| == 16 && |r.binary| == 256 && |r.argumentSample| == 256 && |r.filename| == 256
    && |r.accessType| == 16 && |r.srcIp| == 46 && |r.destIp| == 46 && |r.protocol| == 8
    && |r.cgroupId| == 32 && |r.containerId| == 64
  }

  /** The lengths of the record's consecutive pieces; pieces 3, 10 and 21 are padding. */
  const LENGTHS: seq<nat> := [2, 1, 1, 4, 8, 8, 8, 8, 2, 2, 4, 16, 256, 256, 256, 16, 46, 46, 8, 32, 64, 4]

  const OFFSETS: seq<nat> := [0, 2, 3, 4, 8, 16, 24, 32, 40, 42, 44, 48, 64, 320, 576, 832, 848, 894, 940, 948, 980,
                              1044, 1048]

  /** Where every piece begins. */
  lemma Offsets()
    ensures |LENGTHS| == 22
    ensures Offset(LENGTHS, 0) == 0 && Offset(LENGTHS, 1) == 2 && Offset(LENGTHS, 2) == 3 && Offset(LENGTHS, 3) == 4
    ensures Offset(LENGTHS, 4) == 8 && Offset(LENGTHS, 5) == 16 && Offset(LENGTHS, 6) == 24 && Offset(LENGTHS, 7) == 32
    ensures Offset(LENGTHS, 8) == 40 && Offset(LENGTHS, 9) == 42 && Offset(LENGTHS, 10) == 44
    ensures Offset(LENGTHS, 11) == HEADER_LEN && Offset(LENGTHS, 12) == 64 && Offset(LENGTHS, 13) == 320
    ensures Offset(LENGTHS, 14) == 576 && Offset(LENGTHS, 15) == 832 && Offset(LENGTHS, 16) == 848
    ensures Offset(LENGTHS, 17) == 894 && Offset(LENGTHS, 18) == 940 && Offset(LENGTHS, 19) == 948
    ensures Offset(LENGTHS, 20) == 980 && Offset(LENGTHS, 21) == 1044 && Offset(LENGTHS, 22) == RECORD_SIZE
  {
    OffsetsTo(11);
    OffsetsTo(16);
    OffsetsTo(22);
  }

  lemma {:induction false} OffsetsTo(n: nat)
    requires n <= 22
    ensures Offset(LENGTHS, n) == OFFSETS[n]
  {
    if n > 0 {
      OffsetsTo(n - 1);
    }
  }

  // ----- a record as pieces -----

  function SignedBytes(n: I64): seq<Byte> {
    LittleEndian(TwosComplement(n), 8)
  }

  function Signed(bytes: seq<Byte>): I64
    requires |bytes| == 8
  {
    assert Pow(256, 8) == TWO64 by { Pow256Of2And8(); }
    FromTwosComplement(FromLittleEndian(bytes))
  }

  function Unsigned(bytes: seq<Byte>): U16
    requires |bytes| == 2
  {
    assert Pow(256, 2) == 0x1_0000 by { Pow256Of2And8(); }
    FromLittleEndian(bytes)
  }

  function ToPieces(r: WireRecord): (p: seq<seq<Byte>>)
    ensures |p| == 22
  {
    [LittleEndian(r.schemaVersion, 2), [r.kind], [r.flags], Zeros(4),
     SignedBytes(r.pid), SignedBytes(r.ppid), SignedBytes(r.uid), SignedBytes(r.gid),
     LittleEndian(r.srcPort, 2), LittleEndian(r.destPort, 2), Zeros(4),
     r.comm, r.binary, r.argumentSample, r.filename, r.accessType, r.srcIp, r.destIp, r.protocol, r.cgroupId,
     r.containerId, Zeros(4)]
  }

  /** Pieces of the right lengths. */
  predicate RightLengths(p: seq<seq<Byte>>) {
    |p| == 22 && forall i :: 0 <= i < 22 ==> |p[i]| == LENGTHS[i]
  }

  function FromPieces(p: seq<seq<Byte>>): WireRecord
    requires RightLengths(p)
  {
    WireRecord(Unsigned(p[0]), p[1][0], p[2][0], Signed(p[4]), Signed(p[5]), Signed(p[6]), Signed(p[7]),
               Unsigned(p[8]), Unsigned(p[9]), p[11], p[12], p[13], p[14], p[15], p[16], p[17], p[18], p[19], p[20])
  }

  function Encode(r: WireRecord): seq<Byte> {
    Flatten(ToPieces(r))
  }

  datatype WireError = WrongSize(size: nat) | WrongSchema(version: U16)

  function Decode(bytes: seq<Byte>): Result<WireRecord, WireError> {
    if |bytes| != RECORD_SIZE then Err(WrongSize(|bytes|))
    else if Unsigned(bytes[0..2]) != SCHEMA_VERSION then Err(WrongSchema(Unsigned(bytes[0..2])))
    else
      Offsets();
      Ok(FromPieces(Cut(bytes, LENGTHS)))
  }

  lemma SignedRoundTrip(n: I64)
    ensures Signed(SignedBytes(n)) == n
  {
    Pow256Of2And8();
    LittleEndianRoundTrip(TwosComplement(n), 8);
  }

  lemma UnsignedRoundTrip(n: U16)
    ensures Unsigned(LittleEndian(n, 2)) == n
  {
    Pow256Of2And8();
    LittleEndianRoundTrip(n, 2);
  }

  lemma SignedBytesRoundTrip(bytes: seq<Byte>)
    requires |bytes| == 8
    ensures SignedBytes(Signed(bytes)) == bytes
  {
    Pow256Of2And8();
    FromLittleEndianRoundTrip(bytes);
  }

  lemma ToPiecesLengths(r: WireRecord)
    requires Sized(r)
    ensures RightLengths(ToPieces(r)) && Lengths(ToPieces(r)) == LENGTHS
  {
    var p := ToPieces(r);
    assert RightLengths(p);
  }

  lemma FromToPieces(r: WireRecord)
    requires Sized(r)
    ensures RightLengths(ToPieces(r)) && FromPieces(ToPieces(r)) == r
  {
    ToPiecesLengths(r);
    SignedRoundTrip(r.pid);
    SignedRoundTrip(r.ppid);
    SignedRoundTrip(r.uid);
    SignedRoundTrip(r.gid);
    UnsignedRoundTrip(r.schemaVersion);
    UnsignedRoundTrip(r.srcPort);
    UnsignedRoundTrip(r.destPort);
  }

  /** Decoding an encoded record gives it back exactly if it carries the known schema version. */
  lemma WireRoundTrip(r: WireRecord)
    requires Sized(r)
    ensures Decode(Encode(r)) == if r.schemaVersion == SCHEMA_VERSION then Ok(r) else Err(WrongSchema(r.schemaVersion))
  {
    var p := ToPieces(r);
    var bytes := Encode(r);
    ToPiecesLengths(r);
    FromToPieces(r);
    CutFlatten(p);
    Offsets();
    assert bytes[0..2] == Piece(bytes, LENGTHS, 0) == Cut(bytes, LENGTHS)[0] == p[0];
    UnsignedRoundTrip(r.schemaVersion);
  }

  predicate InPadding(k: int) {
    4 <= k < 8 || 44 <= k < 48 || 1044 <= k
  }

  /** The bytes with the three padding runs zeroed. */
  function PaddingZeroed(bytes: seq<Byte>): (z: seq<Byte>)
    ensures |z| == |bytes|
  {
    seq(|bytes|, k requires 0 <= k < |bytes| => if InPadding(k) then 0 else bytes[k])
  }

  lemma ToFromPieces(p: seq<seq<Byte>>)
    requires RightLengths(p)
    ensures ToPieces(FromPieces(p)) == p[3 := Zeros(4)][10 := Zeros(4)][21 := Zeros(4)]
  {
    hide Signed, FromLittleEndian;
    var r := FromPieces(p);
    assert [p[1][0]] == p[1] && [p[2][0]] == p[2];
    FromLittleEndianRoundTrip(p[0]);
    FromLittleEndianRoundTrip(p[8]);
    FromLittleEndianRoundTrip(p[9]);
    SignedBytesRoundTrip(p[4]);
    SignedBytesRoundTrip(p[5]);
    SignedBytesRoundTrip(p[6]);
    SignedBytesRoundTrip(p[7]);
  }

  predicate IsPad(i: nat) {
    i == 3 || i == 10 || i == 21
  }

  /** Each piece lies in the padding or outside it. */
  lemma PieceRange(i: nat)
    requires i < 22
    ensures |LENGTHS| == 22 && |OFFSETS| == 23
    ensures IsPad(i) ==> LENGTHS[i] == 4 && OFFSETS[i] in {4, 44, 1044}
    ensures !IsPad(i) ==> OFFSETS[i] >= 48 || 8 <= OFFSETS[i] <= 44 || OFFSETS[i] < 4
    ensures !IsPad(i) ==> OFFSETS[i] + LENGTHS[i] <= if OFFSETS[i] < 4 then 4 else if OFFSETS[i] < 48 then 44 else 1044
  {}

  lemma PaddingPiece(bytes: seq<Byte>, i: nat)
    requires |bytes| == RECORD_SIZE == Offset(LENGTHS, 22) && |LENGTHS| == 22 && i < 22
    ensures Piece(PaddingZeroed(bytes), LENGTHS, i) == if IsPad(i) then Zeros(4) else Piece(bytes, LENGTHS, i)
  {
    hide Offset;
    PieceRange(i);
    OffsetsTo(i);
    OffsetsTo(i + 1);
    OffsetMonotone(LENGTHS, i + 1, 22);
    ZeroedSlice(bytes, OFFSETS[i], LENGTHS[i], IsPad(i));
  }

  lemma ZeroedSlice(bytes: seq<Byte>, at: nat, n: nat, padding: bool)
    requires at + n <= |bytes| && forall k :: at <= k < at + n ==> InPadding(k) == padding
    ensures PaddingZeroed(bytes)[at..at + n] == if padding then Zeros(n) else bytes[at..at + n]
  {}

  /** Encoding a decoded record gives the bytes back with their padding zeroed. */
  lemma BytesRoundTrip(bytes: seq<Byte>)
    requires Decode(bytes).Ok?
    ensures Sized(Decode(bytes).value)
    ensures Encode(Decode(bytes).value) == PaddingZeroed(bytes)
  {
    Offsets();
    EncodePieces(bytes);
    SizedPieces(Cut(bytes, LENGTHS));
  }

  lemma EncodePieces(bytes: seq<Byte>)
    requires |bytes| == RECORD_SIZE == Offset(LENGTHS, 22) && |LENGTHS| == 22
    ensures Encode(FromPieces(Cut(bytes, LENGTHS))) == PaddingZeroed(bytes)
  {
    hide Cut, FromPieces, Offset;
    PaddedPieces(bytes);
    ToFromPieces(Cut(bytes, LENGTHS));
    var z := PaddingZeroed(bytes);
    FlattenCut(z, LENGTHS, 22);
    assert Cut(z, LENGTHS)[..22] == Cut(z, LENGTHS);
    assert z[..RECORD_SIZE] == z;
  }

  lemma PaddedPieces(bytes: seq<Byte>)
    requires |bytes| == RECORD_SIZE == Offset(LENGTHS, 22) && |LENGTHS| == 22
    ensures Cut(PaddingZeroed(bytes), LENGTHS)
            == Cut(bytes, LENGTHS)[3 := Zeros(4)][10 := Zeros(4)][21 := Zeros(4)]
  {
    forall i | 0 <= i < 22
      ensures Piece(PaddingZeroed(bytes), LENGTHS, i) == if IsPad(i) then Zeros(4) else Piece(bytes, LENGTHS, i)
    {
      PaddingPiece(bytes, i);
    }
  }

  lemma SizedPieces(p: seq<seq<Byte>>)
    requires RightLengths(p)
    ensures Sized(FromPieces(p))
  {}

  // ----- the kernel's layout -----

  /** Size and alignment of each field of the kernel's struct, in declaration order. */
  const KERNEL_FIELDS: seq<(nat, nat)> := [(2, 2), (1, 1), (1, 1), (4, 4), (8, 8), (8, 8), (8, 8), (8, 8), (2, 2),
                                           (2, 2), (4, 4), (16, 1), (256, 1), (256, 1), (256, 1), (16, 1), (46, 1),
                                           (46, 1), (8, 1), (32, 1), (64, 1)]

  const KERNEL_ALIGNMENT: nat := 8

  function AlignUp(n: nat, alignment: nat): nat {
    if alignment == 0 then n else (n + alignment - 1) / alignment * alignment
  }

  /** The C rule: a field goes at the next offset that its alignment divides. */
  function COffset(fields: seq<(nat, nat)>, i: nat): nat
    requires i < |fields|
  {
    if i == 0 then 0 else AlignUp(COffset(fields, i - 1) + fields[i - 1].0, fields[i].1)
  }

  function CSize(fields: seq<(nat, nat)>, alignment: nat): nat
    requires fields != []
  {
    AlignUp(COffset(fields, |fields| - 1) + fields[|fields| - 1].0, alignment)
  }

  lemma AlreadyAligned(n: nat, alignment: nat)
    requires alignment > 0 && n % alignment == 0
    ensures AlignUp(n, alignment) == n
  {
    var q := n / alignment;
    assert n == q * alignment;
    assert (n + alignment - 1) / alignment == q by {
      QuotientIs(n + alignment - 1, alignment, q, alignment - 1);
    }
  }

  lemma FieldTable(i: nat)
    requires i < 21
    ensures |KERNEL_FIELDS| == 21 && |LENGTHS| == 22
    ensures KERNEL_FIELDS[i].0 == LENGTHS[i]
    ensures KERNEL_FIELDS[i].1 > 0 && OFFSETS[i] % KERNEL_FIELDS[i].1 == 0
  {}

  lemma {:induction false} KernelOffset(i: nat)
    requires i < 21
    ensures |KERNEL_FIELDS| == 21 && |LENGTHS| == 22
    ensures COffset(KERNEL_FIELDS, i) == Offset(LENGTHS, i)
    ensures KERNEL_FIELDS[i].0 == LENGTHS[i]
  {
    FieldTable(i);
    OffsetsTo(i);
    if i > 0 {
      FieldTable(i - 1);
      KernelOffset(i - 1);
      AlreadyAligned(Offset(LENGTHS, i), KERNEL_FIELDS[i].1);
    }
  }

  lemma KernelSize()
    ensures CSize(KERNEL_FIELDS, KERNEL_ALIGNMENT) == RECORD_SIZE
  {
    hide COffset;
    FieldTable(20);
    KernelOffset(20);
    OffsetsTo(20);
  }

  /** The field bytes stand in the image where the C rule puts them; padding is arbitrary. */
  ghost predicate KernelImage(image: seq<Byte>, fields: seq<seq<Byte>>) {
    && |fields| == |KERNEL_FIELDS|
    && |image| == CSize(KERNEL_FIELDS, KERNEL_ALIGNMENT)
    && forall i :: 0 <= i < |fields| ==>
         && |fields[i]| == KERNEL_FIELDS[i].0
         && COffset(KERNEL_FIELDS, i) + |fields[i]| <= |image|
         && image[COffset(KERNEL_FIELDS, i)..COffset(KERNEL_FIELDS, i) + |fields[i]|] == fields[i]
  }

  /** What the kernel stores for a record, field by field, with any bytes in its two padding fields. */
  function KernelFields(r: WireRecord, pad0: seq<Byte>, pad1: seq<Byte>): seq<seq<Byte>>
    requires |pad0| == 4 && |pad1| == 4
  {
    ToPieces(r)[3 := pad0][10 := pad1][..21]
  }

  /** The decoder reads back every field of a record from the kernel's memory image of it. */
  lemma KernelImageDecodes(image: seq<Byte>, r: WireRecord, pad0: seq<Byte>, pad1: seq<Byte>)
    requires Sized(r) && r.schemaVersion == SCHEMA_VERSION && |pad0| == 4 && |pad1| == 4
    requires KernelImage(image, KernelFields(r, pad0, pad1))
    ensures Decode(image) == Ok(r)
  {
    hide COffset, AlignUp, Offset;
    KernelSize();
    Offsets();
    var p, fields := Cut(image, LENGTHS), KernelFields(r, pad0, pad1);
    forall i | 0 <= i < 21
      ensures p[i] == fields[i]
    {
      KernelOffset(i);
    }
    assert image[0..2] == p[0];
    UnsignedRoundTrip(r.schemaVersion);
    SamePieces(p, r);
  }

  lemma {:induction false} FieldStands(pieces: seq<seq<Byte>>, i: nat)
    requires |pieces| == 22 && Lengths(pieces) == LENGTHS && i < 21
    ensures |KERNEL_FIELDS| == 21 && |Flatten(pieces)| == RECORD_SIZE
    ensures var at := COffset(KERNEL_FIELDS, i);
            && |pieces[i]| == KERNEL_FIELDS[i].0 && at + |pieces[i]| <= RECORD_SIZE
            && Flatten(pieces)[at..at + |pieces[i]|] == pieces[i]
  {
    KernelOffset(i);
    Offsets();
    assert pieces[..22] == pieces;
    FlattenedLength(pieces, 22);
    FlattenedPiece(pieces, 22, i);
    assert Lengths(pieces)[i] == |pieces[i]|;
  }

  lemma ZeroPads(r: WireRecord)
    ensures KernelFields(r, Zeros(4), Zeros(4)) == ToPieces(r)[..21]
  {
    var p := ToPieces(r);
    assert p[3] == Zeros(4) && p[10] == Zeros(4);
    assert p[3 := Zeros(4)] == p && p[10 := Zeros(4)] == p;
  }

  /** The encoder's own bytes are such an image, with zeros for padding. */
  lemma EncodeIsKernelImage(r: WireRecord)
    requires Sized(r)
    ensures KernelImage(Encode(r), KernelFields(r, Zeros(4), Zeros(4)))
  {
    ToPiecesLengths(r);
    ZeroPads(r);
    PiecesAreImage(ToPieces(r));
  }

  lemma {:induction false} PiecesAreImage(pieces: seq<seq<Byte>>)
    requires |pieces| == 22 && Lengths(pieces) == LENGTHS
    ensures KernelImage(Flatten(pieces), pieces[..21])
  {
    KernelSize();
    FieldStands(pieces, 0);
    forall i | 0 <= i < 21
      ensures |pieces[..21][i]| == KERNEL_FIELDS[i].0
      ensures COffset(KERNEL_FIELDS, i) + |pieces[i]| <= |Flatten(pieces)|
      ensures Flatten(pieces)[COffset(KERNEL_FIELDS, i)..COffset(KERNEL_FIELDS, i) + |pieces[i]|] == pieces[i]
    {
      FieldStands(pieces, i);
    }
  }

  lemma SamePieces(p: seq<seq<Byte>>, r: WireRecord)
    requires RightLengths(p) && Sized(r)
    requires forall i :: 0 <= i < 21 && !IsPad(i) ==> p[i] == ToPieces(r)[i]
    ensures FromPieces(p) == r
  {
    FromToPieces(r);
  }
}
