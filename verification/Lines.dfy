/**
  Complete lines of an append-only byte file: where they end, how they split, and why a chunk
  that ends in a newline splits on its own exactly as it does inside the whole file.
*/
module Lines {
  import opened Common

  const NEWLINE: Byte := 10
  const RETURN: Byte := 13

  function ByteAt(bytes: seq<Byte>, i: nat): int {
    if i < |bytes| then bytes[i] else -1
  }

  /**
    Length of the line boundary at `i`, or 0: the boundaries of Python's `str.splitlines`, in UTF-8.
    (0x85, 0x2028 and 0x2029 are the two- and three-byte cases.)
  */
  function BoundaryLength(bytes: seq<Byte>, i: nat): (n: nat)
    ensures i + n <= |bytes| || n == 0
  {
    var b0, b1, b2 := ByteAt(bytes, i), ByteAt(bytes, i + 1), ByteAt(bytes, i + 2);
    if b0 == RETURN && b1 == NEWLINE then 2
    else if b0 in {10, 11, 12, 13, 28, 29, 30} then 1
    else if b0 == 0xC2 && b1 == 0x85 then 2
    else if b0 == 0xE2 && b1 == 0x80 && (b2 == 0xA8 || b2 == 0xA9) then 3
    else 0
  }

  /** The lines from `i` on, when the current line began at `from`. */
  function SplitFrom(bytes: seq<Byte>, from: nat, i: nat): seq<seq<Byte>>
    requires from <= i <= |bytes|
    decreases |bytes| - i
  {
    if i == |bytes| then if from < i then [bytes[from..i]] else []
    else
      var n := BoundaryLength(bytes, i);
      if n == 0 then SplitFrom(bytes, from, i + 1)
      else [bytes[from..i]] + SplitFrom(bytes, i + n, i + n)
  }

  /** One step of it. */
  lemma SplitStep(bytes: seq<Byte>, from: nat, i: nat)
    requires from <= i <= |bytes|
    ensures i == |bytes| ==> SplitFrom(bytes, from, i) == if from < i then [bytes[from..i]] else []
    ensures i < |bytes| && BoundaryLength(bytes, i) == 0 ==> SplitFrom(bytes, from, i) == SplitFrom(bytes, from, i + 1)
    ensures i < |bytes| && BoundaryLength(bytes, i) > 0 ==>
              var n := BoundaryLength(bytes, i);
              SplitFrom(bytes, from, i) == [bytes[from..i]] + SplitFrom(bytes, i + n, i + n)
  {}

  function SplitLines(bytes: seq<Byte>): seq<seq<Byte>> {
    SplitFrom(bytes, 0, 0)
  }

  /** Nothing read yet, or just past a newline. */
  predicate LineStart(bytes: seq<Byte>, offset: int) {
    0 <= offset <= |bytes| && (offset == 0 || bytes[offset - 1] == NEWLINE)
  }

  /** Length of the longest prefix that ends in a newline. */
  function CompleteLength(data: seq<Byte>): (n: nat)
    ensures LineStart(data, n)
  {
    if data == [] then 0
    else if data[|data| - 1] == NEWLINE then |data|
    else CompleteLength(data[..|data| - 1])
  }

  /** Behind it there is no newline. */
  lemma {:induction false} NothingComplete(data: seq<Byte>)
    ensures forall k :: CompleteLength(data) <= k < |data| ==> data[k] != NEWLINE
  {
    if data != [] && data[|data| - 1] != NEWLINE {
      NothingComplete(data[..|data| - 1]);
    }
  }

  /** So it is the only line start with none. */
  lemma LastLineStart(data: seq<Byte>, n: int)
    requires LineStart(data, n) && forall k :: n <= k < |data| ==> data[k] != NEWLINE
    ensures n == CompleteLength(data)
  {
    NothingComplete(data);
    var m := CompleteLength(data);
    assert m > 0 ==> data[m - 1] == NEWLINE;
    assert n > 0 ==> data[n - 1] == NEWLINE;
  }

  // ----- splitting is additive at a newline -----

  lemma BoundaryInPrefix(a: seq<Byte>, b: seq<Byte>, i: nat)
    requires a != [] && a[|a| - 1] == NEWLINE && i < |a|
    ensures BoundaryLength(a + b, i) == BoundaryLength(a, i)
    ensures i == |a| - 1 ==> BoundaryLength(a, i) == 1
  {
    assert (a + b)[i] == a[i];
    if i + 1 < |a| {
      assert (a + b)[i + 1] == a[i + 1];
    }
    if i + 2 < |a| {
      assert (a + b)[i + 2] == a[i + 2];
    }
  }

  /** Behind its first `k` bytes, `t` splits like the rest of it on its own. */
  lemma {:induction false} SplitShifted(t: seq<Byte>, k: nat, b: seq<Byte>, from: nat, i: nat)
    requires |t| == k + |b| && forall j {:trigger b[j]} :: 0 <= j < |b| ==> t[k + j] == b[j]
    requires from <= i <= |b|
    ensures SplitFrom(t, k + from, k + i) == SplitFrom(b, from, i)
    decreases |b| - i
  {
    hide *;
    SplitStep(t, k + from, k + i);
    SplitStep(b, from, i);
    SliceShifted(t, k, b, from, i);
    if i < |b| {
      BoundaryShifted(t, k, b, i);
      var n := BoundaryLength(b, i);
      var next := if n == 0 then i + 1 else i + n;
      SplitShifted(t, k, b, if n == 0 then from else next, next);
    }
  }

  lemma SliceShifted(t: seq<Byte>, k: nat, b: seq<Byte>, from: nat, i: nat)
    requires |t| == k + |b| && forall j {:trigger b[j]} :: 0 <= j < |b| ==> t[k + j] == b[j]
    requires from <= i <= |b|
    ensures t[k + from..k + i] == b[from..i]
  {}

  lemma BoundaryShifted(t: seq<Byte>, k: nat, b: seq<Byte>, i: nat)
    requires |t| == k + |b| && forall j {:trigger b[j]} :: 0 <= j < |b| ==> t[k + j] == b[j]
    ensures BoundaryLength(t, k + i) == BoundaryLength(b, i)
  {}

  lemma {:induction false} SplitAcross(a: seq<Byte>, b: seq<Byte>, from: nat, i: nat)
    requires a != [] && a[|a| - 1] == NEWLINE && from <= i <= |a|
    requires i == |a| ==> from == i
    ensures SplitFrom(a + b, from, i) == SplitFrom(a, from, i) + SplitFrom(b, 0, 0)
    decreases |a| - i
  {
    hide *;
    SplitStep(a + b, from, i);
    SplitStep(a, from, i);
    if i == |a| {
      SplitShifted(a + b, |a|, b, 0, 0);
    } else {
      BoundaryInPrefix(a, b, i);
      var n := BoundaryLength(a, i);
      if n == 0 {
        SplitAcross(a, b, from, i + 1);
      } else {
        SplitAcross(a, b, i + n, i + n);
        PrependLine(a, b, from, i, SplitFrom(a, i + n, i + n), SplitFrom(b, 0, 0));
      }
    }
  }

  lemma PrependLine(a: seq<Byte>, b: seq<Byte>, from: nat, i: nat, rest: seq<seq<Byte>>,
                    more: seq<seq<Byte>>)
    requires from <= i <= |a|
    ensures (a + b)[from..i] == a[from..i]
    ensures [a[from..i]] + (rest + more) == [a[from..i]] + rest + more
  {}

  /** A file read in two pieces, the first ending at a line start, has the lines of both pieces in order. */
  lemma SplitAdditive(a: seq<Byte>, b: seq<Byte>)
    requires LineStart(a, |a|)
    ensures SplitLines(a + b) == SplitLines(a) + SplitLines(b)
  {
    if a == [] {
      assert a + b == b;
    } else {
      SplitAcross(a, b, 0, 0);
    }
  }

  /** No line comes from nothing, and some line from any non-empty bytes. */
  lemma {:induction false} SplitNonEmpty(bytes: seq<Byte>, from: nat, i: nat)
    requires from <= i <= |bytes|
    ensures SplitFrom(bytes, from, i) == [] <==> from == |bytes|
    decreases |bytes| - i
  {
    if i < |bytes| && BoundaryLength(bytes, i) == 0 {
      SplitNonEmpty(bytes, from, i + 1);
    }
  }

  // ----- subsequences -----

  /** `a` can be had from `b` by leaving elements out, order and repetitions kept. */
  ghost predicate IsSubsequence<T>(a: seq<T>, b: seq<T>) {
    a == [] ||
    (b != [] &&
     ((a[|a| - 1] == b[|b| - 1] && IsSubsequence(a[..|a| - 1], b[..|b| - 1])) || IsSubsequence(a, b[..|b| - 1])))
  }

  lemma {:induction false} SubsequenceExtends<T>(a: seq<T>, b: seq<T>, c: seq<T>)
    requires IsSubsequence(a, b)
    ensures IsSubsequence(a, b + c) && IsSubsequence(a + c, b + c)
  {
    if c == [] {
      assert a + c == a && b + c == b;
    } else {
      var n := |c| - 1;
      SubsequenceExtends(a, b, c[..n]);
      assert (b + c)[..|b + c| - 1] == b + c[..n];
      assert (a + c)[..|a + c| - 1] == a + c[..n];
    }
  }

  lemma {:induction false} SubsequenceElements<T>(a: seq<T>, b: seq<T>)
    requires IsSubsequence(a, b)
    ensures multiset(a) <= multiset(b)
  {
    if a != [] {
      var b0 := b[..|b| - 1];
      assert b == b0 + [b[|b| - 1]];
      if a[|a| - 1] == b[|b| - 1] && IsSubsequence(a[..|a| - 1], b0) {
        SubsequenceElements(a[..|a| - 1], b0);
        assert a == a[..|a| - 1] + [a[|a| - 1]];
      } else {
        SubsequenceElements(a, b0);
      }
    }
  }
}
