/**
  Byte strings made of consecutive pieces of known lengths, little-endian and big-endian numbers,
  and two's complement.
*/
module Bytes {
  import opened Common

  // ----- pieces -----

  function Flatten(pieces: seq<seq<Byte>>): seq<Byte> {
    if pieces == [] then [] else Flatten(pieces[..|pieces| - 1]) + pieces[|pieces| - 1]
  }

  function Lengths(pieces: seq<seq<Byte>>): seq<nat> {
    seq(|pieces|, i requires 0 <= i < |pieces| => |pieces[i]|)
  }

  /** Where piece `i` begins. */
  function Offset(lengths: seq<nat>, i: nat): nat
    requires i <= |lengths|
  {
    if i == 0 then 0 else Offset(lengths, i - 1) + lengths[i - 1]
  }

  lemma {:induction false} OffsetMonotone(lengths: seq<nat>, i: nat, j: nat)
    requires i <= j <= |lengths|
    ensures Offset(lengths, i) <= Offset(lengths, j)
    decreases j
  {
    if i < j {
      OffsetMonotone(lengths, i, j - 1);
    }
  }

  /** Piece `i` of a byte string. */
  function Piece(bytes: seq<Byte>, lengths: seq<nat>, i: nat): (p: seq<Byte>)
    requires i < |lengths| && Offset(lengths, |lengths|) == |bytes|
    ensures |p| == lengths[i]
  {
    OffsetMonotone(lengths, i + 1, |lengths|);
    bytes[Offset(lengths, i)..Offset(lengths, i) + lengths[i]]
  }

  function Cut(bytes: seq<Byte>, lengths: seq<nat>): (pieces: seq<seq<Byte>>)
    requires Offset(lengths, |lengths|) == |bytes|
    ensures |pieces| == |lengths| && forall i {:trigger pieces[i]} :: 0 <= i < |lengths| ==> |pieces[i]| == lengths[i]
  {
    seq(|lengths|, i requires 0 <= i < |lengths| => Piece(bytes, lengths, i))
  }

  lemma {:induction false} FlattenedPiece(pieces: seq<seq<Byte>>, n: nat, i: nat)
    requires i < n <= |pieces|
    ensures |Flatten(pieces[..n])| == Offset(Lengths(pieces), n)
    ensures Offset(Lengths(pieces), i) + |pieces[i]| <= Offset(Lengths(pieces), n)
    ensures Flatten(pieces[..n])[Offset(Lengths(pieces), i)..Offset(Lengths(pieces), i) + |pieces[i]|] == pieces[i]
    decreases n
  {
    assert pieces[..n][..n - 1] == pieces[..n - 1];
    FlattenedLength(pieces, n - 1);
    if i < n - 1 {
      FlattenedPiece(pieces, n - 1, i);
    }
  }

  lemma {:induction false} FlattenedLength(pieces: seq<seq<Byte>>, n: nat)
    requires n <= |pieces|
    ensures |Flatten(pieces[..n])| == Offset(Lengths(pieces), n)
  {
    if n > 0 {
      assert pieces[..n][..n - 1] == pieces[..n - 1];
      FlattenedLength(pieces, n - 1);
    }
  }

  /** Cutting undoes flattening. */
  lemma CutFlatten(pieces: seq<seq<Byte>>)
    ensures Offset(Lengths(pieces), |pieces|) == |Flatten(pieces)|
    ensures Cut(Flatten(pieces), Lengths(pieces)) == pieces
  {
    assert pieces[..|pieces|] == pieces;
    FlattenedLength(pieces, |pieces|);
    forall i | 0 <= i < |pieces|
      ensures Piece(Flatten(pieces), Lengths(pieces), i) == pieces[i]
    {
      FlattenedPiece(pieces, |pieces|, i);
    }
  }

  /** Flattening undoes cutting. */
  lemma {:induction false} FlattenCut(bytes: seq<Byte>, lengths: seq<nat>, n: nat)
    requires Offset(lengths, |lengths|) == |bytes| && n <= |lengths|
    ensures Offset(lengths, n) <= |bytes|
    ensures Flatten(Cut(bytes, lengths)[..n]) == bytes[..Offset(lengths, n)]
  {
    if n > 0 {
      FlattenCut(bytes, lengths, n - 1);
      CutPiece(bytes, lengths, n - 1);
      FlattenStep(Cut(bytes, lengths), bytes, Offset(lengths, n - 1), n - 1);
    }
  }

  lemma CutPiece(bytes: seq<Byte>, lengths: seq<nat>, n: nat)
    requires Offset(lengths, |lengths|) == |bytes| && n < |lengths|
    ensures var at, piece := Offset(lengths, n), Cut(bytes, lengths)[n];
            && |piece| == lengths[n] && Offset(lengths, n + 1) == at + |piece| <= |bytes|
            && piece == bytes[at..at + |piece|]
  {
    OffsetMonotone(lengths, n + 1, |lengths|);
  }

  lemma FlattenStep(pieces: seq<seq<Byte>>, bytes: seq<Byte>, at: nat, n: nat)
    requires n < |pieces| && at + |pieces[n]| <= |bytes| && pieces[n] == bytes[at..at + |pieces[n]|]
    requires Flatten(pieces[..n]) == bytes[..at]
    ensures Flatten(pieces[..n + 1]) == bytes[..at + |pieces[n]|]
  {
    FlattenOneMore(pieces, n);
    JoinSlices(bytes, at, |pieces[n]|);
  }

  lemma FlattenOneMore(pieces: seq<seq<Byte>>, n: nat)
    requires n < |pieces|
    ensures Flatten(pieces[..n + 1]) == Flatten(pieces[..n]) + pieces[n]
  {
    assert pieces[..n + 1][..n] == pieces[..n];
  }

  lemma JoinSlices(bytes: seq<Byte>, at: nat, n: nat)
    requires at + n <= |bytes|
    ensures bytes[..at] + bytes[at..at + n] == bytes[..at + n]
  {}

  // ----- numbers -----

  /** The `width` little-endian bytes of `n`. */
  function LittleEndian(n: nat, width: nat): (bytes: seq<Byte>)
    ensures |bytes| == width
  {
    if width == 0 then [] else [n % 256] + LittleEndian(n / 256, width - 1)
  }

  function FromLittleEndian(bytes: seq<Byte>): (n: nat)
    ensures n < Pow(256, |bytes|)
  {
    if bytes == [] then 0 else bytes[0] + 256 * FromLittleEndian(bytes[1..])
  }

  lemma {:induction false} LittleEndianRoundTrip(n: nat, width: nat)
    requires n < Pow(256, width)
    ensures FromLittleEndian(LittleEndian(n, width)) == n
    decreases width
  {
    if width > 0 {
      assert n / 256 < Pow(256, width - 1);
      LittleEndianRoundTrip(n / 256, width - 1);
      assert LittleEndian(n, width)[1..] == LittleEndian(n / 256, width - 1);
      assert n == n % 256 + 256 * (n / 256);
    }
  }

  lemma {:induction false} FromLittleEndianRoundTrip(bytes: seq<Byte>)
    ensures LittleEndian(FromLittleEndian(bytes), |bytes|) == bytes
  {
    if bytes != [] {
      var m := FromLittleEndian(bytes[1..]);
      FromLittleEndianRoundTrip(bytes[1..]);
      QuotientIs(bytes[0] + 256 * m, 256, m, bytes[0]);
      assert bytes == [bytes[0]] + bytes[1..];
    }
  }

  const TWO63: int := 0x8000_0000_0000_0000
  const TWO64: int := 0x1_0000_0000_0000_0000

  type I64 = n: int | -TWO63 <= n < TWO63

  function TwosComplement(n: I64): (u: nat)
    ensures u < TWO64
  {
    if n < 0 then n + TWO64 else n
  }

  function FromTwosComplement(u: nat): (n: I64)
    requires u < TWO64
    ensures TwosComplement(n) == u
  {
    if u >= TWO63 then u - TWO64 else u
  }

  lemma Pow256Of2And8()
    ensures Pow(256, 2) == 0x1_0000 && Pow(256, 8) == TWO64
  {
    assert Pow(256, 2) == 0x1_0000;
    assert Pow(256, 4) == 0x1_0000_0000;
    assert Pow(256, 6) == 0x1_0000_0000_0000;
  }

  function Zeros(n: nat): (z: seq<Byte>)
    ensures |z| == n
  {
    seq(n, _ => 0)
  }
}
