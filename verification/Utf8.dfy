/**
  UTF-8 (section 3 of RFC 3629) and its lossy decoding: what is not well formed becomes replacement characters, one for
  each longest beginning of a well-formed sequence, and one for each byte that begins none.
*/
module Utf8 {
  import opened Common

  type Scalar = c: int | 0 <= c < 0xD800 || 0xE000 <= c < 0x11_0000

  const REPLACEMENT: Scalar := 0xFFFD

  function EncodeChar(c: Scalar): (b: seq<Byte>)
    ensures 1 <= |b| <= 4
  {
    if c < 0x80 then [c]
    else if c < 0x800 then [0xC0 + c / 64, 0x80 + c % 64]
    else if c < 0x1_0000 then [0xE0 + c / 4096, 0x80 + c / 64 % 64, 0x80 + c % 64]
    else [0xF0 + c / 0x4_0000, 0x80 + c / 4096 % 64, 0x80 + c / 64 % 64, 0x80 + c % 64]
  }

  function Encode(text: seq<Scalar>): seq<Byte> {
    if text == [] then [] else EncodeChar(text[0]) + Encode(text[1..])
  }

  // ----- decoding -----

  /** The length of the sequences that begin with this byte, and 0 if none does. */
  function Width(lead: Byte): nat {
    if lead < 0x80 then 1
    else if 0xC2 <= lead < 0xE0 then 2
    else if 0xE0 <= lead < 0xF0 then 3
    else if 0xF0 <= lead < 0xF5 then 4
    else 0
  }

  predicate Continues(b: Byte) {
    0x80 <= b < 0xC0
  }

  /** Which bytes may come second: overlong forms, surrogates and too large numbers are no characters. */
  predicate Second(lead: Byte, b: Byte) {
    && Continues(b)
    && (lead == 0xE0 ==> b >= 0xA0) && (lead == 0xED ==> b < 0xA0)
    && (lead == 0xF0 ==> b >= 0x90) && (lead == 0xF4 ==> b < 0x90)
  }

  /**
    How many bytes from the front are a well-formed sequence or the longest beginning of one, and one if they are
    neither.
  */
  function Subpart(bytes: seq<Byte>): (n: nat)
    requires bytes != []
    ensures 1 <= n <= |bytes|
  {
    var w := Width(bytes[0]);
    if w <= 1 || |bytes| < 2 || !Second(bytes[0], bytes[1]) then 1
    else if w == 2 || |bytes| < 3 || !Continues(bytes[2]) then 2
    else if w == 3 || |bytes| < 4 || !Continues(bytes[3]) then 3
    else 4
  }

  /** The bits of a byte below its mark. */
  function Above(b: Byte, mark: int): int {
    b - mark
  }

  function DecodeChar(bytes: seq<Byte>): Scalar
    requires bytes != []
  {
    var n := Subpart(bytes);
    if n != Width(bytes[0]) then REPLACEMENT
    else if n == 1 then bytes[0]
    else if n == 2 then Above(bytes[0], 0xC0) * 64 + Above(bytes[1], 0x80)
    else if n == 3 then Above(bytes[0], 0xE0) * 4096 + Above(bytes[1], 0x80) * 64 + Above(bytes[2], 0x80)
    else
      Above(bytes[0], 0xF0) * 0x4_0000 + Above(bytes[1], 0x80) * 4096
      + Above(bytes[2], 0x80) * 64 + Above(bytes[3], 0x80)
  }

  function Lossy(bytes: seq<Byte>): seq<Scalar> {
    if bytes == [] then [] else [DecodeChar(bytes)] + Lossy(bytes[Subpart(bytes)..])
  }

  // ----- one character -----

  lemma Digits(c: nat)
    ensures c / 4096 * 64 + c / 64 % 64 == c / 64
    ensures c / 0x4_0000 * 64 + c / 4096 % 64 == c / 4096
  {
    DivideTwice(c, 64, 64);
    DivideTwice(c, 4096, 64);
  }

  /** An encoded character is decoded to itself, whatever follows. */
  lemma CharDecoded(c: Scalar, rest: seq<Byte>)
    ensures var bytes := EncodeChar(c) + rest;
            && Subpart(bytes) == |EncodeChar(c)| && DecodeChar(bytes) == c
            && bytes[Subpart(bytes)..] == rest
  {
    Digits(c);
    var e := EncodeChar(c);
    assert forall i :: 0 <= i < |e| ==> (e + rest)[i] == e[i];
  }

  /** One that is cut short becomes one replacement character. */
  lemma CharCut(c: Scalar, n: nat)
    requires 0 < n < |EncodeChar(c)|
    ensures Lossy(EncodeChar(c)[..n]) == [REPLACEMENT]
  {
    Digits(c);
    var cut := EncodeChar(c)[..n];
    assert Subpart(cut) == n && Width(cut[0]) != n;
    assert cut[n..] == [];
  }

  lemma NulInChar(c: Scalar)
    ensures 0 in EncodeChar(c) <==> c == 0
  {}

  // ----- all bytes -----

  /** The first `n` bytes begin the encoding of `c`. */
  predicate BeginsChar(bytes: seq<Byte>, n: nat, c: Scalar) {
    n <= |bytes| && n <= |EncodeChar(c)| && EncodeChar(c)[..n] == bytes[..n]
  }

  /** Characters from the bits that their bytes carry. */
  lemma FromBits(x: nat, a: nat, b: nat, c: nat)
    requires a < 64 && b < 64 && c < 64
    ensures var n := x * 64 + a; n / 64 == x && n % 64 == a
    ensures var n := x * 4096 + a * 64 + b; n / 4096 == x && n / 64 % 64 == a && n % 64 == b
    ensures var n := x * 0x4_0000 + a * 4096 + b * 64 + c;
            n / 0x4_0000 == x && n / 4096 % 64 == a && n / 64 % 64 == b && n % 64 == c
  {
    QuotientIs(x * 64 + a, 64, x, a);
    var m := x * 4096 + a * 64 + b;
    QuotientIs(m, 4096, x, a * 64 + b);
    QuotientIs(m, 64, x * 64 + a, b);
    QuotientIs(x * 64 + a, 64, x, a);
    var n := x * 0x4_0000 + a * 4096 + b * 64 + c;
    QuotientIs(n, 0x4_0000, x, a * 4096 + b * 64 + c);
    QuotientIs(n, 4096, x * 64 + a, b * 64 + c);
    QuotientIs(n, 64, x * 4096 + a * 64 + b, c);
    QuotientIs(x * 4096 + a * 64 + b, 64, x * 64 + a, b);
  }

  lemma FromBitsChar(x: nat, a: nat, b: nat, c: nat)
    requires a < 64 && b < 64 && c < 64
    ensures 2 <= x < 32 ==> EncodeChar(x * 64 + a) == [0xC0 + x, 0x80 + a]
    ensures x < 16 && (x == 0 ==> a >= 32) && (x == 13 ==> a < 32) ==>
              EncodeChar(x * 4096 + a * 64 + b) == [0xE0 + x, 0x80 + a, 0x80 + b]
    ensures x < 5 && (x == 0 ==> a >= 16) && (x == 4 ==> a < 16) ==>
              EncodeChar(x * 0x4_0000 + a * 4096 + b * 64 + c) == [0xF0 + x, 0x80 + a, 0x80 + b, 0x80 + c]
  {
    FromBits(x, a, b, c);
  }

  /** What is decoded without a replacement is the encoding of what it is decoded to. */
  lemma WellFormed(bytes: seq<Byte>)
    requires bytes != [] && Subpart(bytes) == Width(bytes[0])
    ensures EncodeChar(DecodeChar(bytes)) == bytes[..Subpart(bytes)]
  {
    hide EncodeChar;
    var n, lead := Subpart(bytes), bytes[0];
    if n == 1 {
      OneByte(lead);
    } else if n == 2 {
      FromBitsChar(Above(lead, 0xC0), Above(bytes[1], 0x80), 0, 0);
    } else if n == 3 {
      FromBitsChar(Above(lead, 0xE0), Above(bytes[1], 0x80), Above(bytes[2], 0x80), 0);
    } else {
      FromBitsChar(Above(lead, 0xF0), Above(bytes[1], 0x80), Above(bytes[2], 0x80), Above(bytes[3], 0x80));
    }
  }

  lemma OneByte(b: Byte)
    requires b < 0x80
    ensures EncodeChar(b) == [b]
  {}

  /** The second byte of some character that begins like the bytes do. */
  function SomeSecond(bytes: seq<Byte>): (b: Byte)
    requires bytes != [] && Width(bytes[0]) > 1
    ensures Second(bytes[0], b)
    ensures Subpart(bytes) > 1 ==> b == bytes[1]
  {
    if Subpart(bytes) > 1 then bytes[1] else if bytes[0] == 0xE0 then 0xA0 else if bytes[0] == 0xF0 then 0x90 else 0x80
  }

  /** A character whose encoding begins like the bytes do, as far as any does. */
  function Completed(bytes: seq<Byte>): (c: Scalar)
    requires bytes != [] && Width(bytes[0]) > 0
  {
    var n, w := Subpart(bytes), Width(bytes[0]);
    if n == w then DecodeChar(bytes)
    else if w == 2 then Above(bytes[0], 0xC0) * 64
    else if w == 3 then Above(bytes[0], 0xE0) * 4096 + Above(SomeSecond(bytes), 0x80) * 64
    else
      Above(bytes[0], 0xF0) * 0x4_0000 + Above(SomeSecond(bytes), 0x80) * 4096
      + if n == 3 then Above(bytes[2], 0x80) * 64 else 0
  }

  lemma CompletedBegins(bytes: seq<Byte>)
    requires bytes != [] && Width(bytes[0]) > 0
    ensures BeginsChar(bytes, Subpart(bytes), Completed(bytes))
  {
    hide EncodeChar;
    var n, w := Subpart(bytes), Width(bytes[0]);
    if n == w {
      WellFormed(bytes);
    } else if w == 2 {
      FromBitsChar(Above(bytes[0], 0xC0), 0, 0, 0);
    } else if w == 3 {
      FromBitsChar(Above(bytes[0], 0xE0), Above(SomeSecond(bytes), 0x80), 0, 0);
    } else {
      FromBitsChar(Above(bytes[0], 0xF0), Above(SomeSecond(bytes), 0x80), if n == 3 then Above(bytes[2], 0x80) else 0,
                   0);
    }
  }

  /** An encoding's length is told by its first byte, and its bytes are such as may follow. */
  lemma EncodingShape(c: Scalar)
    ensures var e := EncodeChar(c);
            && Width(e[0]) == |e|
            && (|e| > 1 ==> Second(e[0], e[1])) && (|e| > 2 ==> Continues(e[2])) && (|e| > 3 ==> Continues(e[3]))
  {
    Digits(c);
  }

  lemma NoLonger(bytes: seq<Byte>, c: Scalar)
    requires bytes != []
    ensures Subpart(bytes) < |bytes| ==> !BeginsChar(bytes, Subpart(bytes) + 1, c)
    ensures Width(bytes[0]) == 0 ==> Subpart(bytes) == 1 && !BeginsChar(bytes, 1, c)
  {
    hide EncodeChar;
    EncodingShape(c);
    var n, e := Subpart(bytes), EncodeChar(c);
    if n < |bytes| && BeginsChar(bytes, n + 1, c) {
      FirstBytes(bytes, n + 1, c);
    }
    if BeginsChar(bytes, 1, c) {
      FirstBytes(bytes, 1, c);
    }
  }

  lemma FirstBytes(bytes: seq<Byte>, n: nat, c: Scalar)
    requires BeginsChar(bytes, n, c)
    ensures forall k :: 0 <= k < n ==> EncodeChar(c)[k] == bytes[k]
  {
    hide EncodeChar;
    forall k | 0 <= k < n
      ensures EncodeChar(c)[k] == bytes[k]
    {
      assert EncodeChar(c)[..n][k] == bytes[..n][k];
    }
  }

  lemma WholeDecoded(bytes: seq<Byte>, c: Scalar)
    requires bytes != [] && BeginsChar(bytes, |EncodeChar(c)|, c)
    ensures DecodeChar(bytes) == c
  {
    hide EncodeChar, DecodeChar;
    var e := EncodeChar(c);
    assert e + bytes[|e|..] == bytes;
    CharDecoded(c, bytes[|e|..]);
  }

  /**
    The decoder steps over the longest beginning of any character's encoding, and over one byte that begins none; it
    gives the character that stands there whole, and otherwise U+FFFD.
  */
  lemma SubpartIs(bytes: seq<Byte>, c: Scalar)
    requires bytes != []
    ensures var n := Subpart(bytes);
            && (Width(bytes[0]) > 0 ==> BeginsChar(bytes, n, Completed(bytes)))
            && (Width(bytes[0]) == 0 ==> n == 1 && !BeginsChar(bytes, 1, c))
            && (n < |bytes| ==> !BeginsChar(bytes, n + 1, c))
            && (BeginsChar(bytes, |EncodeChar(c)|, c) ==> DecodeChar(bytes) == c)
            && (DecodeChar(bytes) == 0xFFFD || EncodeChar(DecodeChar(bytes)) == bytes[..n])
  {
    hide EncodeChar, Completed, BeginsChar;
    NoLonger(bytes, c);
    if Width(bytes[0]) > 0 {
      CompletedBegins(bytes);
    }
    if BeginsChar(bytes, |EncodeChar(c)|, c) {
      WholeDecoded(bytes, c);
    }
    if Subpart(bytes) == Width(bytes[0]) {
      WellFormed(bytes);
    }
  }

  /** The examples of section 7 of RFC 3629, character by character. */
  lemma TestVectors()
    ensures EncodeChar(0x41) == [0x41] && EncodeChar(0x2262) == [0xE2, 0x89, 0xA2] && EncodeChar(0x391) == [0xCE, 0x91]
    ensures EncodeChar(0xD55C) == [0xED, 0x95, 0x9C] && EncodeChar(0x65E5) == [0xE6, 0x97, 0xA5]
    ensures EncodeChar(0xFEFF) == [0xEF, 0xBB, 0xBF] && EncodeChar(0x2_33B4) == [0xF0, 0xA3, 0x8E, 0xB4]
  {}

  // ----- whole texts -----

  lemma {:induction false} EncodeLast(text: seq<Scalar>)
    requires text != []
    ensures Encode(text) == Encode(text[..|text| - 1]) + EncodeChar(text[|text| - 1])
  {
    if |text| > 1 {
      EncodeLast(text[1..]);
      assert text[1..][..|text| - 2] == text[..|text| - 1][1..];
    } else {
      assert text[1..] == [];
    }
  }

  lemma {:induction false} NulInText(text: seq<Scalar>)
    ensures 0 in Encode(text) <==> 0 in text
  {
    if text != [] {
      NulInText(text[1..]);
      NulInChar(text[0]);
      assert text == [text[0]] + text[1..];
    }
  }

  /** Lossy decoding undoes encoding. */
  lemma {:induction false} LossyEncode(text: seq<Scalar>)
    ensures Lossy(Encode(text)) == text
  {
    if text != [] {
      LossyEncode(text[1..]);
      CharDecoded(text[0], Encode(text[1..]));
      assert text == [text[0]] + text[1..];
    }
  }

  /**
    What a text lacks in bytes when its cut encoding still decodes to it: a last replacement character may be cut
    itself.
  */
  function Spare(text: seq<Scalar>): nat {
    if text != [] && text[|text| - 1] == REPLACEMENT then 2 else 0
  }

  /** An encoding cut after `n` bytes decodes to the whole text exactly if no more than that is lost. */
  lemma {:induction false} CutDecodesIff(text: seq<Scalar>, n: nat)
    requires n <= |Encode(text)|
    ensures |Lossy(Encode(text)[..n])| <= |text|
    ensures Lossy(Encode(text)[..n]) == text <==> |Encode(text)| <= n + Spare(text)
  {
    if text != [] {
      var e, tail := EncodeChar(text[0]), Encode(text[1..]);
      if n < |e| {
        CutInFirst(text, n);
      } else {
        CutDecodesIff(text[1..], n - |e|);
        assert Encode(text)[..n] == e + tail[..n - |e|];
        CharDecoded(text[0], tail[..n - |e|]);
        FirstAgrees(text, Lossy(tail[..n - |e|]));
      }
    }
  }

  lemma FirstAgrees(text: seq<Scalar>, rest: seq<Scalar>)
    requires text != []
    ensures [text[0]] + rest == text <==> rest == text[1..]
    ensures text[1..] != [] ==> Spare(text) == Spare(text[1..])
  {
    if [text[0]] + rest == text {
      assert rest == ([text[0]] + rest)[1..];
    }
  }

  lemma CutInFirst(text: seq<Scalar>, n: nat)
    requires text != [] && n < |EncodeChar(text[0])|
    ensures |Lossy(Encode(text)[..n])| <= |text|
    ensures Lossy(Encode(text)[..n]) == text <==> |Encode(text)| <= n + Spare(text)
  {
    var e, tail := EncodeChar(text[0]), Encode(text[1..]);
    assert Encode(text)[..n] == e[..n];
    if n > 0 {
      CharCut(text[0], n);
    }
    if |text| > 1 {
      assert tail == EncodeChar(text[1]) + Encode(text[1..][1..]);
      LastWidth(text[1..]);
    } else {
      assert text[1..] == [] && text == [text[0]];
    }
  }

  lemma LastWidth(text: seq<Scalar>)
    requires text != []
    ensures |Encode(text)| > Spare(text)
  {
    EncodeLast(text);
  }

  /** ASCII texts are their own encoding. */
  lemma {:induction false} AsciiIsItself(text: seq<Byte>)
    requires forall b <- text :: b < 0x80
    ensures Encode(text) == text
  {
    if text != [] {
      assert text[0] in text && forall b <- text[1..] :: b in text;
      AsciiIsItself(text[1..]);
      assert text == [text[0]] + text[1..];
    }
  }
}
