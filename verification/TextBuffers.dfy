/**
  Texts in fixed buffers: how the sensor and the kernel put a string into one, how the sensor reads it back, and exactly
  which texts survive the way, for all of Unicode.
*/
module TextBuffers {
  import opened Common
  import opened Utf8

  /** The characters with the White_Space property. */
  predicate IsSpace(c: Scalar) {
    || c == 32 || 9 <= c <= 13 || c == 0x85 || c == 0xA0 || c == 0x1680 || 0x2000 <= c <= 0x200A
    || c == 0x2028 || c == 0x2029 || c == 0x202F || c == 0x205F || c == 0x3000
  }

  /** The 25 characters with the property White_Space. */
  lemma WhiteSpace(c: Scalar)
    ensures var spaces := {9, 10, 11, 12, 13, 32, 0x85, 0xA0, 0x1680, 0x2000, 0x2001, 0x2002, 0x2003, 0x2004, 0x2005,
                           0x2006, 0x2007, 0x2008, 0x2009, 0x200A, 0x2028, 0x2029, 0x202F, 0x205F, 0x3000};
            IsSpace(c) <==> c in spaces
  {}

  function TrimLeft(s: seq<Scalar>): seq<Scalar> {
    if s != [] && IsSpace(s[0]) then TrimLeft(s[1..]) else s
  }

  function TrimRight(s: seq<Scalar>): seq<Scalar> {
    if s != [] && IsSpace(s[|s| - 1]) then TrimRight(s[..|s| - 1]) else s
  }

  function UpToNul(s: seq<Byte>): seq<Byte> {
    if s == [] || s[0] == 0 then [] else [s[0]] + UpToNul(s[1..])
  }

  /** The text held in a buffer: decoded up to the first NUL, trimmed, and nothing when that is empty. */
  function FixedString(source: seq<Byte>): Option<seq<Scalar>> {
    var text := TrimLeft(TrimRight(Lossy(UpToNul(source))));
    if text == [] then None else Some(text)
  }

  // ----- putting a string into a buffer -----

  /** The buffer after a string is copied into it. */
  function Copied(value: seq<Byte>, size: nat): (b: seq<Byte>)
    ensures |b| == size
  {
    var limit := Min(|value|, Max(size - 1, 0));
    value[..limit] + seq(size - limit, _ => 0)
  }

  method CopyString(value: seq<Byte>, destination: array<Byte>)
    modifies destination
    ensures destination[..] == Copied(value, destination.Length)
  {
    forall i | 0 <= i < destination.Length {
      destination[i] := 0;
    }
    if destination.Length == 0 {
      return;
    }
    var limit := Min(|value|, Max(destination.Length - 1, 0));
    forall i | 0 <= i < limit {
      destination[i] := value[i];
    }
    assert destination[..limit] == value[..limit];
  }

  /** The buffer after the kernel lays `value` over its front, without keeping room for a terminator. */
  function Overlaid(buffer: seq<Byte>, value: seq<Byte>): (b: seq<Byte>)
    ensures |b| == |buffer|
  {
    var k := Min(|buffer|, |value|);
    value[..k] + buffer[k..]
  }

  method SetStr(destination: array<Byte>, value: seq<Byte>)
    modifies destination
    ensures destination[..] == Overlaid(old(destination[..]), value)
  {
    var index := 0;
    while index < destination.Length && index < |value|
      invariant index <= destination.Length && index <= |value|
      invariant forall j :: 0 <= j < index ==> destination[j] == value[j]
      invariant forall j :: index <= j < destination.Length ==> destination[j] == old(destination[j])
    {
      destination[index] := value[index];
      index := index + 1;
    }
  }

  // ----- reading it back -----

  lemma {:induction false} TrimLeftSame(s: seq<Scalar>)
    ensures |TrimLeft(s)| <= |s|
    ensures |TrimLeft(s)| == |s| ==> TrimLeft(s) == s
    ensures TrimLeft(s) == s <==> s == [] || !IsSpace(s[0])
  {
    if s != [] {
      TrimLeftSame(s[1..]);
    }
  }

  lemma {:induction false} TrimRightSame(s: seq<Scalar>)
    ensures |TrimRight(s)| <= |s|
    ensures |TrimRight(s)| == |s| ==> TrimRight(s) == s
    ensures TrimRight(s) == s <==> s == [] || !IsSpace(s[|s| - 1])
  {
    if s != [] {
      TrimRightSame(s[..|s| - 1]);
    }
  }

  /** Trimming at most `|text|` characters gives `text` only if they are `text` and nothing was trimmed. */
  lemma TrimmedIs(held: seq<Scalar>, text: seq<Scalar>)
    requires |held| <= |text| && text != []
    ensures TrimLeft(TrimRight(held)) == text
            <==> held == text && !IsSpace(text[0]) && !IsSpace(text[|text| - 1])
  {
    TrimRightSame(held);
    TrimLeftSame(TrimRight(held));
  }

  /** What is read up to the first NUL is a front of the bytes, and all of them if there is none. */
  lemma {:induction false} UpToNulIs(s: seq<Byte>, zeros: seq<Byte>)
    requires forall b <- zeros :: b == 0
    ensures var n := |UpToNul(s + zeros)|;
            n <= |s| && UpToNul(s + zeros) == s[..n] && (n < |s| ==> s[n] == 0) && 0 !in s[..n]
  {
    if s == [] {
      assert s + zeros == zeros;
      assert zeros != [] ==> zeros[0] in zeros;
    } else if s[0] == 0 {
      assert (s + zeros)[0] == 0;
    } else {
      assert (s + zeros)[1..] == s[1..] + zeros;
      UpToNulIs(s[1..], zeros);
      var n := |UpToNul(s[1..] + zeros)|;
      assert s[..n + 1] == [s[0]] + s[1..][..n];
    }
  }

  /** A NUL stands before the bytes that may be missing. */
  lemma NulBeforeSpare(text: seq<Scalar>, z: nat)
    requires z < |Encode(text)| && Encode(text)[z] == 0
    ensures z + Spare(text) < |Encode(text)|
  {
    EncodeLast(text);
  }

  /** What is not in front is behind. */
  lemma NulBehind(bytes: seq<Byte>, k: nat) returns (z: nat)
    requires k <= |bytes| && 0 in bytes && 0 !in bytes[..k]
    ensures k <= z < |bytes| && bytes[z] == 0
  {
    assert bytes == bytes[..k] + bytes[k..];
    var y :| 0 <= y < |bytes[k..]| && bytes[k..][y] == 0;
    z := k + y;
  }

  /** A text whose first `k` bytes are in a buffer with zeros behind them. */
  lemma HeldSurvivesIff(text: seq<Scalar>, k: nat, zeros: seq<Byte>)
    requires k <= |Encode(text)| && forall b <- zeros :: b == 0
    ensures FixedString(Encode(text)[..k] + zeros) == Some(text)
            <==> Keepable(text) && |Encode(text)| <= k + Spare(text)
  {
    hide Encode, Spare;
    var bytes := Encode(text);
    var held := UpToNul(bytes[..k] + zeros);
    var n := |held|;
    UpToNulIs(bytes[..k], zeros);
    assert held == bytes[..n];
    CutDecodesIff(text, n);
    NulInText(text);
    if text != [] {
      TrimmedIs(Lossy(held), text);
      if n < k {
        NulBeforeSpare(text, n);
      } else if 0 in text {
        var z := NulBehind(bytes, k);
        NulBeforeSpare(text, z);
      }
    }
  }

  /** Not empty, no NUL, and no whitespace at either end. */
  predicate Keepable(text: seq<Scalar>) {
    text != [] && 0 !in text && !IsSpace(text[0]) && !IsSpace(text[|text| - 1])
  }

  /**
    A text survives the sensor's buffer exactly if it is keepable and its encoding fits in front of the terminator,
    where a replacement character at its end may itself be cut.
  */
  lemma BufferRoundTripIff(text: seq<Scalar>, size: nat)
    ensures FixedString(Copied(Encode(text), size)) == Some(text)
            <==> Keepable(text) && |Encode(text)| < size + Spare(text)
  {
    var bytes := Encode(text);
    var limit := Min(|bytes|, Max(size - 1, 0));
    HeldSurvivesIff(text, limit, seq(size - limit, _ => 0));
    if text != [] {
      LastWidth(text);
    }
  }

  /** The kernel's strings, laid over a zeroed buffer, may fill the last byte as well. */
  lemma KernelStringRoundTripIff(text: seq<Scalar>, size: nat)
    ensures FixedString(Overlaid(seq(size, _ => 0), Encode(text))) == Some(text)
            <==> Keepable(text) && |Encode(text)| <= size + Spare(text)
  {
    var k := Min(size, |Encode(text)|);
    HeldSurvivesIff(text, k, seq(size, _ => 0)[k..]);
    if text != [] {
      LastWidth(text);
    }
  }

  /** A replacement character that is cut in two is still read as one, and one more byte cut off loses it. */
  lemma CutReplacement()
    ensures FixedString(Copied(Encode([97, REPLACEMENT]), 3)) == Some([97, REPLACEMENT])
    ensures FixedString(Copied(Encode([97, REPLACEMENT]), 2)) != Some([97, REPLACEMENT])
  {
    EncodeLast([97, REPLACEMENT]);
    assert [97, REPLACEMENT][..1] == [97] && [97][1..] == [];
    BufferRoundTripIff([97, REPLACEMENT], 3);
    BufferRoundTripIff([97, REPLACEMENT], 2);
  }
}
