/**
  Event ids: the 64-bit FNV-1a hash in sixteen hexadecimal digits. Each step of the hash is a
  bijection on states, so ids of texts that differ in one byte, or in one state, stay different.
*/
module Fnv {
  import opened Common
  import opened Bytes

  const BASIS: nat := 14_695_981_039_346_656_037
  const PRIME: nat := 1_099_511_628_211
  /** The inverse of the prime modulo two to the 64, which exists because the prime is odd. */
  const INVERSE: nat := 14_886_173_955_864_302_971
  const INVERSE_QUOTIENT: nat := 887_285_111_055

  type State = n: int | 0 <= n < TWO64

  /** Bitwise exclusive or of the low `width` bits. */
  function Xor(a: nat, b: nat, width: nat): (x: nat)
    ensures x < Pow(2, width)
  {
    if width == 0 then 0
    else 2 * Xor(a / 2, b / 2, width - 1) + if a % 2 == b % 2 then 0 else 1
  }

  function Xor8(a: Byte, b: Byte): Byte {
    assert Pow(2, 8) == 256;
    Xor(a, b, 8)
  }

  /** Exclusive or of a state with one byte: only the low eight bits change. */
  function XorByte(h: State, b: Byte): State {
    h / 256 * 256 + Xor8(h % 256, b)
  }

  function Times(h: State, factor: nat): State {
    h * factor % TWO64
  }

  function Step(h: State, b: Byte): State {
    Times(XorByte(h, b), PRIME)
  }

  /** Undoes one step. */
  function Unstep(h: State, b: Byte): State {
    XorByte(Times(h, INVERSE), b)
  }

  function Run(h: State, bytes: seq<Byte>): State {
    if bytes == [] then h else Step(Run(h, bytes[..|bytes| - 1]), bytes[|bytes| - 1])
  }

  function HexDigit(d: nat): char
    requires d < 16
  {
    "0123456789abcdef"[d]
  }

  /** The last `width` hexadecimal digits of `n`, most significant first. */
  function Hex(n: nat, width: nat): (s: string)
    ensures |s| == width
  {
    if width == 0 then "" else Hex(n / 16, width - 1) + [HexDigit(n % 16)]
  }

  function Id(bytes: seq<Byte>): string {
    Hex(Run(BASIS, bytes), 16)
  }

  method StableHash(bytes: seq<Byte>) returns (id: string)
    ensures id == Id(bytes) && |id| == 16
  {
    var hash: State := BASIS;
    for n := 0 to |bytes|
      invariant hash == Run(BASIS, bytes[..n])
    {
      hash := XorByte(hash, bytes[n]);
      hash := Times(hash, PRIME);
      assert bytes[..n + 1][..n] == bytes[..n];
    }
    assert bytes[..|bytes|] == bytes;
    return Hex(hash, 16);
  }

  // ----- one step is a bijection -----

  lemma XorTwice(a: Byte, b: Byte)
    ensures Xor8(Xor8(a, b), b) == a
  {
    assert Pow(2, 8) == 256;
    XorInvolution(a, b, 8);
  }

  lemma {:induction false} XorInvolution(a: nat, b: nat, width: nat)
    requires a < Pow(2, width)
    ensures Xor(Xor(a, b, width), b, width) == a
    decreases width
  {
    if width > 0 {
      XorInvolution(a / 2, b / 2, width - 1);
      assert Xor(a, b, width) / 2 == Xor(a / 2, b / 2, width - 1);
    }
  }

  lemma {:induction false} XorCommutes(a: nat, b: nat, width: nat)
    ensures Xor(a, b, width) == Xor(b, a, width)
  {
    if width > 0 {
      XorCommutes(a / 2, b / 2, width - 1);
    }
  }

  lemma XorByteTwice(h: State, b: Byte)
    ensures XorByte(XorByte(h, b), b) == h
  {
    XorTwice(h % 256, b);
    QuotientIs(XorByte(h, b), 256, h / 256, Xor8(h % 256, b));
  }

  lemma TimesInverse(h: State, f: nat, g: nat)
    requires f * g == INVERSE_QUOTIENT * TWO64 + 1
    ensures Times(Times(h, f), g) == h
  {
    var k := h * f / TWO64;
    assert Times(h, f) == h * f - k * TWO64;
    TimesRegroup(h, f, g, k);
    QuotientIs(Times(h, f) * g, TWO64, h * INVERSE_QUOTIENT - k * g, h);
  }

  lemma TimesRegroup(h: int, f: int, g: int, k: int)
    requires f * g == INVERSE_QUOTIENT * TWO64 + 1
    ensures (h * f - k * TWO64) * g == (h * INVERSE_QUOTIENT - k * g) * TWO64 + h
  {
    assert (h * f - k * TWO64) * g == h * (f * g) - (k * g) * TWO64;
    assert h * (f * g) == h * INVERSE_QUOTIENT * TWO64 + h;
  }

  lemma StepBijective(h: State, b: Byte)
    ensures Unstep(Step(h, b), b) == h
    ensures Step(Unstep(h, b), b) == h
  {
    TimesInverse(XorByte(h, b), PRIME, INVERSE);
    XorByteTwice(h, b);
    XorByteTwice(Times(h, INVERSE), b);
    TimesInverse(h, INVERSE, PRIME);
  }

  lemma StepByte(h: State, x: Byte, y: Byte)
    requires x != y
    ensures Step(h, x) != Step(h, y)
  {
    if Step(h, x) == Step(h, y) {
      TimesInverse(XorByte(h, x), PRIME, INVERSE);
      TimesInverse(XorByte(h, y), PRIME, INVERSE);
      assert Xor8(h % 256, x) == Xor8(h % 256, y);
      XorCancels(h % 256, x, y);
    }
  }

  lemma XorCancels(a: Byte, x: Byte, y: Byte)
    requires Xor8(a, x) == Xor8(a, y)
    ensures x == y
  {
    assert Pow(2, 8) == 256;
    XorCommutes(a, x, 8);
    XorCommutes(a, y, 8);
    XorInvolution(x, a, 8);
    XorInvolution(y, a, 8);
  }

  // ----- whole texts -----

  /** A common suffix never merges two different states. */
  lemma {:induction false} SuffixKeepsApart(h: State, k: State, suffix: seq<Byte>)
    requires h != k
    ensures Run(h, suffix) != Run(k, suffix)
  {
    if suffix != [] {
      var n := |suffix| - 1;
      SuffixKeepsApart(h, k, suffix[..n]);
      StepBijective(Run(h, suffix[..n]), suffix[n]);
      StepBijective(Run(k, suffix[..n]), suffix[n]);
    }
  }

  lemma {:induction false} RunConcat(h: State, a: seq<Byte>, b: seq<Byte>)
    ensures Run(h, a + b) == Run(Run(h, a), b)
  {
    if b == [] {
      assert a + b == a;
    } else {
      assert (a + b)[..|a + b| - 1] == a + b[..|b| - 1];
      RunConcat(h, a, b[..|b| - 1]);
    }
  }

  lemma {:induction false} HexInjective(n: nat, m: nat, width: nat)
    requires n < Pow(16, width) && m < Pow(16, width) && Hex(n, width) == Hex(m, width)
    ensures n == m
    decreases width
  {
    if width > 0 {
      var a, b := Hex(n / 16, width - 1), Hex(m / 16, width - 1);
      assert a == Hex(n, width)[..width - 1] && b == Hex(m, width)[..width - 1];
      HexInjective(n / 16, m / 16, width - 1);
      assert HexDigit(n % 16) == Hex(n, width)[width - 1] == Hex(m, width)[width - 1] == HexDigit(m % 16);
      HexDigitInjective(n % 16, m % 16);
    }
  }

  lemma HexDigitInjective(d: nat, e: nat)
    requires d < 16 && e < 16 && HexDigit(d) == HexDigit(e)
    ensures d == e
  {}

  lemma Pow16Of16()
    ensures Pow(16, 16) == TWO64
  {
    assert Pow(16, 4) == 0x1_0000;
    assert Pow(16, 8) == 0x1_0000_0000;
    assert Pow(16, 12) == 0x1_0000_0000_0000;
  }

  /** Equal ids mean equal states: the hexadecimal form loses nothing. */
  lemma IdIsState(a: seq<Byte>, b: seq<Byte>)
    ensures Id(a) == Id(b) <==> Run(BASIS, a) == Run(BASIS, b)
  {
    Pow16Of16();
    if Id(a) == Id(b) {
      HexInjective(Run(BASIS, a), Run(BASIS, b), 16);
    }
  }

  /** Texts of equal length that differ in exactly one byte never share an id. */
  lemma OneByteApart(prefix: seq<Byte>, x: Byte, y: Byte, suffix: seq<Byte>)
    requires x != y
    ensures Id(prefix + [x] + suffix) != Id(prefix + [y] + suffix)
  {
    var h := Run(BASIS, prefix);
    RunConcat(BASIS, prefix + [x], suffix);
    RunConcat(BASIS, prefix + [y], suffix);
    RunConcat(BASIS, prefix, [x]);
    RunConcat(BASIS, prefix, [y]);
    assert Run(h, [x]) == Step(h, x) && Run(h, [y]) == Step(h, y) by {
      assert [x][..0] == [] && [y][..0] == [];
    }
    StepByte(h, x, y);
    SuffixKeepsApart(Step(h, x), Step(h, y), suffix);
    IdIsState(prefix + [x] + suffix, prefix + [y] + suffix);
  }

  /** Appending the same text to two texts with different ids gives different ids. */
  lemma SuffixKeepsIdsApart(a: seq<Byte>, b: seq<Byte>, suffix: seq<Byte>)
    ensures Id(a + suffix) == Id(b + suffix) <==> Id(a) == Id(b)
  {
    RunConcat(BASIS, a, suffix);
    RunConcat(BASIS, b, suffix);
    IdIsState(a, b);
    IdIsState(a + suffix, b + suffix);
    if Run(BASIS, a) != Run(BASIS, b) {
      SuffixKeepsApart(Run(BASIS, a), Run(BASIS, b), suffix);
    }
  }

  // ----- the numbers themselves -----

  /** Each bit of an exclusive or is set exactly if the bits of the two numbers differ. */
  lemma {:induction false} XorBits(a: nat, b: nat, width: nat, k: nat)
    requires k < width
    ensures Xor(a, b, width) / Pow(2, k) % 2 == if a / Pow(2, k) % 2 == b / Pow(2, k) % 2 then 0 else 1
  {
    var x := Xor(a, b, width);
    if k > 0 {
      XorBits(a / 2, b / 2, width - 1, k - 1);
      DivideTwice(x, 2, Pow(2, k - 1));
      DivideTwice(a, 2, Pow(2, k - 1));
      DivideTwice(b, 2, Pow(2, k - 1));
      assert x / 2 == Xor(a / 2, b / 2, width - 1);
    }
  }

  /** One step, worked out. */
  lemma StepIs(h: State, b: Byte, low: Byte, q: nat, r: State)
    requires Xor8(h % 256, b) == low && (h / 256 * 256 + low) * PRIME == q * TWO64 + r
    ensures Step(h, b) == r
  {
    QuotientIs((h / 256 * 256 + low) * PRIME, TWO64, q, r);
  }

  lemma RunMore(bytes: seq<Byte>, b: Byte)
    ensures Run(BASIS, bytes + [b]) == Step(Run(BASIS, bytes), b)
  {
    assert (bytes + [b])[..|bytes|] == bytes;
  }

  /** The hashes of the empty text, of "a" and of "foobar" are those that the draft lists. */
  lemma TestVectors()
    ensures Run(BASIS, []) == 0xcbf29ce484222325
    ensures Run(BASIS, [97]) == 0xaf63dc4c8601ec8c
    ensures Run(BASIS, [102, 111, 111, 98, 97, 114]) == 0x85944171f73967e8
  {
    assert [] + [97] == [97];
    RunMore([], 97);
    AfterA();
    assert [102, 111, 111] + [98] + [97] + [114] == [102, 111, 111, 98, 97, 114];
    AfterFoo();
    RunMore([102, 111, 111], 98);
    RunMore([102, 111, 111] + [98], 97);
    RunMore([102, 111, 111] + [98] + [97], 114);
    AfterFoobar();
  }

  lemma AfterA()
    ensures Step(BASIS, 97) == 0xaf63dc4c8601ec8c
  {
    assert Xor8(0x25, 97) == 0x44;
    StepIs(BASIS, 97, 0x44, 875948729822, 0xaf63dc4c8601ec8c);
  }

  lemma FirstSteps()
    ensures Step(Step(Step(BASIS, 102), 111), 111) == 0xdcb27518fed9d577
  {
    assert Xor8(0x25, 102) == 0x43;
    StepIs(BASIS, 102, 0x43, 875948729822, 0xaf63db4c8601ead9);
    assert Xor8(0xd9, 111) == 0xb6;
    StepIs(0xaf63db4c8601ead9, 111, 0xb6, 753294593456, 0x08985907b541d342);
    assert Xor8(0x42, 111) == 0x2d;
    StepIs(0x08985907b541d342, 111, 0x2d, 36915709891, 0xdcb27518fed9d577);
  }

  lemma AfterFoo()
    ensures Run(BASIS, [102, 111, 111]) == 0xdcb27518fed9d577
  {
    hide Step;
    assert [] + [102] + [111] + [111] == [102, 111, 111];
    RunMore([], 102);
    RunMore([] + [102], 111);
    RunMore([] + [102] + [111], 111);
    FirstSteps();
  }

  lemma AfterFoobar()
    ensures Step(Step(Step(0xdcb27518fed9d577, 98), 97), 114) == 0x85944171f73967e8
  {
    assert Xor8(0x77, 98) == 0x15;
    StepIs(0xdcb27518fed9d577, 98, 0x15, 947886824053, 0xdd120e790c2512af);
    assert Xor8(0xaf, 97) == 0xce;
    StepIs(0xdd120e790c2512af, 97, 0xce, 949490711171, 0xcac165afa2fef40a);
    assert Xor8(0x0a, 114) == 0x78;
    StepIs(0xcac165afa2fef40a, 114, 0x78, 870828060923, 0x85944171f73967e8);
  }

  /** The value of a lower-case hexadecimal digit. */
  function DigitValue(c: char): int {
    if '0' <= c <= '9' then c as int - '0' as int else if 'a' <= c <= 'f' then c as int - 'a' as int + 10 else -1
  }

  function FromHex(s: string): int {
    if s == "" then 0 else FromHex(s[..|s| - 1]) * 16 + DigitValue(s[|s| - 1])
  }

  /** An id is the hash in lower-case hexadecimal digits, leading zeros included. */
  lemma {:induction false} HexMeans(n: nat, width: nat)
    requires n < Pow(16, width)
    ensures |Hex(n, width)| == width && FromHex(Hex(n, width)) == n
    ensures forall c <- Hex(n, width) :: 0 <= DigitValue(c) < 16
    decreases width
  {
    if width > 0 {
      HexMeans(n / 16, width - 1);
      DigitMeans(n % 16);
      assert Hex(n, width)[..width - 1] == Hex(n / 16, width - 1);
    }
  }

  lemma DigitMeans(d: nat)
    requires d < 16
    ensures DigitValue(HexDigit(d)) == d
  {}
}
