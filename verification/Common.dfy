/** Small datatypes and arithmetic shared by the other modules. */
module Common {

  datatype Option<+T> = None | Some(value: T)

  datatype Result<+T, +E> = Ok(value: T) | Err(error: E)

  /** One octet of a file, a wire record or a UTF-8 text. */
  type Byte = b: int | 0 <= b < 256

  function Max(x: int, y: int): int {
    if x >= y then x else y
  }

  function Min(x: int, y: int): int {
    if x <= y then x else y
  }

  /** The codes of a text's characters. */
  function TextBytes(text: string): (s: seq<int>)
    ensures |s| == |text| && forall i :: 0 <= i < |text| ==> s[i] == text[i] as int
  {
    seq(|text|, i requires 0 <= i < |text| => text[i] as int)
  }

  /** Truncation toward zero, as Python's `int()` does on a float. */
  function Trunc(x: real): int {
    if x >= 0.0 then x.Floor else -((-x).Floor)
  }

  /** The positions of a list that have a property. */
  function Positions<T>(s: seq<T>, p: T -> bool): set<int> {
    set i | 0 <= i < |s| && p(s[i])
  }

  lemma NoPositions<T>(s: seq<T>, p: T -> bool)
    requires s == []
    ensures Positions(s, p) == {}
  {}

  lemma OnePositionMore<T>(s: seq<T>, p: T -> bool)
    requires s != []
    ensures var n := |s| - 1;
            |Positions(s, p)| == |Positions(s[..n], p)| + if p(s[n]) then 1 else 0
  {
    var n := |s| - 1;
    var front := Positions(s[..n], p);
    assert n !in front;
    if p(s[n]) {
      assert Positions(s, p) == front + {n};
    } else {
      assert Positions(s, p) == front;
    }
  }

  lemma InLast<T>(s: seq<T>, x: T)
    requires s != []
    ensures x in s <==> x in s[..|s| - 1] || x == s[|s| - 1]
  {
    assert s == s[..|s| - 1] + [s[|s| - 1]];
  }

  function Pow(base: nat, n: nat): (p: nat)
    ensures base > 0 ==> p > 0
  {
    if n == 0 then 1 else base * Pow(base, n - 1)
  }

  lemma MulAtLeast(n: int, m: int)
    requires n >= 1 && m > 0
    ensures n * m >= m
  {}

  lemma MulDistributes(a: int, b: int, m: int)
    ensures (a - b) * m == a * m - b * m
    ensures (b - a) * m == b * m - a * m
  {}

  /** A quotient is determined by its remainder equation. */
  lemma QuotientIs(n: int, m: int, q: int, r: int)
    requires m > 0 && n == q * m + r && 0 <= r < m
    ensures n / m == q && n % m == r
  {
    var d := n / m;
    MulDistributes(d, q, m);
    if d > q {
      MulAtLeast(d - q, m);
    } else if d < q {
      MulAtLeast(q - d, m);
    }
  }

  lemma SumTimes(x: int, y: int, m: int)
    ensures (x + y) * m == x * m + y * m
  {}

  lemma Regroup(d: int, b: int, a: int)
    ensures d * b * a == d * (a * b)
  {}

  /** Dividing twice is dividing by the product. */
  lemma DivideTwice(n: nat, a: nat, b: nat)
    requires a > 0 && b > 0
    ensures a * b > 0 && n / a / b == n / (a * b)
  {
    var q, r := n / a, n % a;
    var d, e := q / b, q % b;
    SumTimes(d * b, e, a);
    Regroup(d, b, a);
    MulAtLeast(b - e, a);
    MulDistributes(b, e, a);
    QuotientIs(n, a * b, d, e * a + r);
  }
}
