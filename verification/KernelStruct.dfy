/**
  The kernel's record as its C struct declares it: every field by name at its offset. Both the decoder and the encoder
  are held against this list, which mentions neither.
*/
module KernelStruct {
  import opened Common
  import opened Bytes
  import opened WireFormat

  /** A number stands in memory with its lowest byte first. */
  predicate HoldsNumber(image: seq<Byte>, at: nat, width: nat, n: nat) {
    at + width <= |image| && LittleEndian(n, width) == image[at..at + width]
  }

  /** A signed 64-bit number stands as the unsigned one with the same bits. */
  predicate HoldsSigned(image: seq<Byte>, at: nat, n: I64) {
    HoldsNumber(image, at, 8, if n >= 0 then n else n + 0x1_0000_0000_0000_0000)
  }

  predicate HoldsText(image: seq<Byte>, at: nat, text: seq<Byte>) {
    at + |text| <= |image| && image[at..at + |text|] == text
  }

  predicate HoldsHeader(image: seq<Byte>, r: WireRecord) {
    && |image| == 1048
    && HoldsNumber(image, 0, 2, r.schemaVersion) && image[2] == r.kind && image[3] == r.flags
    && HoldsSigned(image, 8, r.pid) && HoldsSigned(image, 16, r.ppid)
    && HoldsSigned(image, 24, r.uid) && HoldsSigned(image, 32, r.gid)
    && HoldsNumber(image, 40, 2, r.srcPort) && HoldsNumber(image, 42, 2, r.destPort)
  }

  predicate HoldsTexts(image: seq<Byte>, r: WireRecord) {
    && HoldsText(image, 48, r.comm) && HoldsText(image, 64, r.binary) && HoldsText(image, 320, r.argumentSample)
    && HoldsText(image, 576, r.filename) && HoldsText(image, 832, r.accessType) && HoldsText(image, 848, r.srcIp)
    && HoldsText(image, 894, r.destIp) && HoldsText(image, 940, r.protocol) && HoldsText(image, 948, r.cgroupId)
    && HoldsText(image, 980, r.containerId)
  }

  /** The memory of the struct; its padding may hold anything. */
  predicate HoldsStruct(image: seq<Byte>, r: WireRecord) {
    HoldsHeader(image, r) && HoldsTexts(image, r)
  }

  // ----- numbers -----

  /** Byte `k` of a number is its digit of weight 256 to the `k`. */
  lemma {:induction false} LittleEndianDigits(n: nat, width: nat, k: nat)
    requires k < width
    ensures Pow(256, k) > 0 && LittleEndian(n, width)[k] == n / Pow(256, k) % 256
    decreases width
  {
    if k > 0 {
      LittleEndianDigits(n / 256, width - 1, k - 1);
      DivideTwice(n, 256, Pow(256, k - 1));
    }
  }

  // ----- the decoder -----

  lemma PieceStands(image: seq<Byte>, k: nat)
    requires |image| == RECORD_SIZE && k < 22
    ensures Offset(LENGTHS, |LENGTHS|) == |image| && |LENGTHS| == 22
    ensures OFFSETS[k] + LENGTHS[k] <= |image|
    ensures Cut(image, LENGTHS)[k] == image[OFFSETS[k]..OFFSETS[k] + LENGTHS[k]]
  {
    Offsets();
    OffsetsTo(k);
    OffsetMonotone(LENGTHS, k + 1, 22);
  }

  lemma NumberRead(image: seq<Byte>, at: nat, n: U16)
    requires HoldsNumber(image, at, 2, n)
    ensures Unsigned(image[at..at + 2]) == n
  {
    Pow256Of2And8();
    LittleEndianRoundTrip(n, 2);
  }

  lemma SignedRead(image: seq<Byte>, at: nat, n: I64)
    requires HoldsSigned(image, at, n)
    ensures at + 8 <= |image| && Signed(image[at..at + 8]) == n
  {
    Pow256Of2And8();
    LittleEndianRoundTrip(if n >= 0 then n else n + 0x1_0000_0000_0000_0000, 8);
  }

  lemma HeaderPieces(image: seq<Byte>)
    requires |image| == RECORD_SIZE
    ensures Offset(LENGTHS, |LENGTHS|) == |image| && |LENGTHS| == 22
    ensures var p := Cut(image, LENGTHS);
            && p[0] == image[0..2] && p[1] == image[2..3] && p[2] == image[3..4]
            && p[4] == image[8..16] && p[5] == image[16..24] && p[6] == image[24..32] && p[7] == image[32..40]
            && p[8] == image[40..42] && p[9] == image[42..44]
  {
    hide Cut, Offset;
    PieceStands(image, 0);
    PieceStands(image, 1);
    PieceStands(image, 2);
    PieceStands(image, 4);
    PieceStands(image, 5);
    PieceStands(image, 6);
    PieceStands(image, 7);
    PieceStands(image, 8);
    PieceStands(image, 9);
  }

  lemma TextPieces(image: seq<Byte>)
    requires |image| == RECORD_SIZE
    ensures Offset(LENGTHS, |LENGTHS|) == |image| && |LENGTHS| == 22
    ensures var p := Cut(image, LENGTHS);
            && p[11] == image[48..64] && p[12] == image[64..320] && p[13] == image[320..576]
            && p[14] == image[576..832] && p[15] == image[832..848] && p[16] == image[848..894]
            && p[17] == image[894..940] && p[18] == image[940..948] && p[19] == image[948..980]
            && p[20] == image[980..1044]
  {
    hide Cut, Offset;
    PieceStands(image, 11);
    PieceStands(image, 12);
    PieceStands(image, 13);
    PieceStands(image, 14);
    PieceStands(image, 15);
    PieceStands(image, 16);
    PieceStands(image, 17);
    PieceStands(image, 18);
    PieceStands(image, 19);
    PieceStands(image, 20);
  }

  /** The sensor decodes the kernel's memory of a record, field by field, whatever its padding holds. */
  lemma StructDecodes(image: seq<Byte>, r: WireRecord)
    requires Sized(r) && r.schemaVersion == 1 && HoldsStruct(image, r)
    ensures Decode(image) == Ok(r)
  {
    hide Cut, Offset, Unsigned, Signed, HoldsNumber, HoldsSigned;
    HeaderPieces(image);
    TextPieces(image);
    NumberRead(image, 0, r.schemaVersion);
    SignedRead(image, 8, r.pid);
    SignedRead(image, 16, r.ppid);
    SignedRead(image, 24, r.uid);
    SignedRead(image, 32, r.gid);
    NumberRead(image, 40, r.srcPort);
    NumberRead(image, 42, r.destPort);
  }

  // ----- the encoder -----

  lemma EncodedPiece(r: WireRecord, k: nat)
    requires Sized(r) && k < 22
    ensures |Encode(r)| == RECORD_SIZE && OFFSETS[k] + LENGTHS[k] <= RECORD_SIZE
    ensures Encode(r)[OFFSETS[k]..OFFSETS[k] + LENGTHS[k]] == ToPieces(r)[k]
  {
    var p := ToPieces(r);
    ToPiecesLengths(r);
    CutFlatten(p);
    Offsets();
    PieceStands(Encode(r), k);
  }

  lemma EncodedHeader(r: WireRecord)
    requires Sized(r)
    ensures HoldsHeader(Encode(r), r)
  {
    hide Encode, Cut, Offset, LittleEndian;
    EncodedPiece(r, 0);
    EncodedPiece(r, 1);
    EncodedPiece(r, 2);
    EncodedPiece(r, 4);
    EncodedPiece(r, 5);
    EncodedPiece(r, 6);
    EncodedPiece(r, 7);
    EncodedPiece(r, 8);
    EncodedPiece(r, 9);
    assert Encode(r)[2..3][0] == Encode(r)[2] && Encode(r)[3..4][0] == Encode(r)[3];
  }

  lemma EncodedTexts(r: WireRecord)
    requires Sized(r)
    ensures HoldsTexts(Encode(r), r)
  {
    hide Encode, Cut, Offset;
    EncodedPiece(r, 11);
    EncodedPiece(r, 12);
    EncodedPiece(r, 13);
    EncodedPiece(r, 14);
    EncodedPiece(r, 15);
    EncodedPiece(r, 16);
    EncodedPiece(r, 17);
    EncodedPiece(r, 18);
    EncodedPiece(r, 19);
    EncodedPiece(r, 20);
  }

  lemma EncodedZeros(r: WireRecord)
    requires Sized(r)
    ensures |Encode(r)| == RECORD_SIZE
    ensures Encode(r)[4..8] == [0, 0, 0, 0] && Encode(r)[44..48] == [0, 0, 0, 0]
    ensures Encode(r)[1044..1048] == [0, 0, 0, 0]
  {
    hide Encode, Cut, Offset;
    EncodedPiece(r, 3);
    EncodedPiece(r, 10);
    EncodedPiece(r, 21);
  }

  /** The encoder writes that memory, with zeros for padding. */
  lemma EncodedIsStruct(r: WireRecord)
    requires Sized(r)
    ensures HoldsStruct(Encode(r), r)
    ensures Encode(r)[4..8] == [0, 0, 0, 0] && Encode(r)[44..48] == [0, 0, 0, 0]
    ensures Encode(r)[1044..1048] == [0, 0, 0, 0]
  {
    hide Encode, HoldsHeader, HoldsTexts;
    EncodedHeader(r);
    EncodedTexts(r);
    EncodedZeros(r);
  }

  // ----- the C layout -----

  /** The C rule puts the named fields at these offsets and gives the struct this size. */
  lemma StructLayout()
    ensures |KERNEL_FIELDS| == 21 && CSize(KERNEL_FIELDS, 8) == 1048
    ensures COffset(KERNEL_FIELDS, 4) == 8 && COffset(KERNEL_FIELDS, 5) == 16 && COffset(KERNEL_FIELDS, 6) == 24
    ensures COffset(KERNEL_FIELDS, 7) == 32 && COffset(KERNEL_FIELDS, 8) == 40 && COffset(KERNEL_FIELDS, 9) == 42
    ensures COffset(KERNEL_FIELDS, 11) == 48 && COffset(KERNEL_FIELDS, 12) == 64 && COffset(KERNEL_FIELDS, 13) == 320
    ensures COffset(KERNEL_FIELDS, 14) == 576 && COffset(KERNEL_FIELDS, 15) == 832 && COffset(KERNEL_FIELDS, 16) == 848
    ensures COffset(KERNEL_FIELDS, 17) == 894 && COffset(KERNEL_FIELDS, 18) == 940 && COffset(KERNEL_FIELDS, 19) == 948
    ensures COffset(KERNEL_FIELDS, 20) == 980
  {
    hide COffset, Offset;
    KernelSize();
    Offsets();
    KernelOffset(4);
    KernelOffset(5);
    KernelOffset(6);
    KernelOffset(7);
    KernelOffset(8);
    KernelOffset(9);
    KernelOffset(11);
    KernelOffset(12);
    KernelOffset(13);
    KernelOffset(14);
    KernelOffset(15);
    KernelOffset(16);
    KernelOffset(17);
    KernelOffset(18);
    KernelOffset(19);
    KernelOffset(20);
  }
}
