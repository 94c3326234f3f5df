/**
  The robust outlier score of sessions: per feature column, how far a session lies above the median in units of the
  median absolute deviation, capped and summed over the fifteen columns.
*/
module AnomalyScores {
  import opened Common
  import opened KeyedFold

  const COLUMNS: nat := 15

  type Vector = v: seq<real> | |v| == COLUMNS witness seq(COLUMNS, _ => 0.0)

  datatype Session = Session(key: string, vector: Vector)

  // ----- medians -----

  function Insert(x: real, s: seq<real>): (r: seq<real>)
    ensures |r| == |s| + 1
  {
    if s == [] || x <= s[0] then [x] + s else [s[0]] + Insert(x, s[1..])
  }

  function Sort(values: seq<real>): (s: seq<real>)
    ensures |s| == |values|
  {
    if values == [] then [] else Insert(values[|values| - 1], Sort(values[..|values| - 1]))
  }

  function Median(values: seq<real>): real
    requires values != []
  {
    var s, n := Sort(values), |values|;
    if n % 2 == 1 then s[n / 2] else (s[n / 2 - 1] + s[n / 2]) / 2.0
  }

  function Abs(x: real): (y: real)
    ensures y >= 0.0
  {
    if x < 0.0 then -x else x
  }

  function Deviations(values: seq<real>, med: real): (d: seq<real>)
    ensures |d| == |values|
  {
    seq(|values|, i requires 0 <= i < |values| => Abs(values[i] - med))
  }

  /** The median absolute deviation. */
  function Mad(values: seq<real>, med: real): real
    requires values != []
  {
    Median(Deviations(values, med))
  }

  // ----- scores -----

  function Capped(x: real): real {
    if x <= 10.0 then x else 10.0
  }

  /** What one column adds to a session's score. */
  function Part(value: real, med: real, mad: real): real {
    if mad == 0.0 then if value > med then Capped(value - med) else 0.0
    else
      var robustZ := 0.6745 * (value - med) / mad;
      if robustZ > 0.0 then Capped(robustZ) else 0.0
  }

  datatype Baseline = Baseline(medians: Vector, mads: Vector)

  function Column(sessions: seq<Session>, j: nat): (c: seq<real>)
    requires j < COLUMNS
    ensures |c| == |sessions|
  {
    seq(|sessions|, i requires 0 <= i < |sessions| => sessions[i].vector[j])
  }

  function BaselineOf(sessions: seq<Session>): Baseline
    requires sessions != []
  {
    var medians := seq(COLUMNS, j requires 0 <= j < COLUMNS => Median(Column(sessions, j)));
    Baseline(medians, seq(COLUMNS, j requires 0 <= j < COLUMNS => Mad(Column(sessions, j), medians[j])))
  }

  /** The score over the first `k` columns. */
  function Total(base: Baseline, vector: Vector, k: nat): real
    requires k <= COLUMNS
  {
    if k == 0 then 0.0
    else Total(base, vector, k - 1) + Part(vector[k - 1], base.medians[k - 1], base.mads[k - 1])
  }

  function Score(sessions: seq<Session>, session: Session): real {
    if |sessions| < 3 then 0.0 else Total(BaselineOf(sessions), session.vector, COLUMNS)
  }

  /** Values by key; of sessions with one key the last one counts. */
  function Keyed(sessions: seq<Session>, value: Session -> real): map<string, real> {
    if sessions == [] then map[]
    else
      var last := sessions[|sessions| - 1];
      Keyed(sessions[..|sessions| - 1], value)[last.key := value(last)]
  }

  function ScoreIn(all: seq<Session>): Session -> real {
    (s: Session) => Score(all, s)
  }

  method RobustAnomalyScores(sessions: seq<Session>) returns (scores: map<string, real>)
    ensures scores == Keyed(sessions, ScoreIn(sessions))
  {
    scores := map[];
    if |sessions| < 3 {
      for i := 0 to |sessions|
        invariant scores == Keyed(sessions[..i], ScoreIn(sessions))
      {
        assert sessions[..i + 1][..i] == sessions[..i];
        scores := scores[sessions[i].key := 0.0];
      }
      assert sessions[..|sessions|] == sessions;
      return;
    }
    var base := BaselineOf(sessions);
    for i := 0 to |sessions|
      invariant scores == Keyed(sessions[..i], ScoreIn(sessions))
    {
      var total := TotalScore(base, sessions[i].vector);
      assert sessions[..i + 1][..i] == sessions[..i];
      scores := scores[sessions[i].key := total];
    }
    assert sessions[..|sessions|] == sessions;
  }

  method TotalScore(base: Baseline, vector: Vector) returns (total: real)
    ensures total == Total(base, vector, COLUMNS)
  {
    total := 0.0;
    for j := 0 to COLUMNS
      invariant total == Total(base, vector, j)
    {
      var value, med, mad := vector[j], base.medians[j], base.mads[j];
      if mad == 0.0 {
        if value > med {
          total := total + Capped(value - med);
        }
        continue;
      }
      var robustZ := 0.6745 * (value - med) / mad;
      if robustZ > 0.0 {
        total := total + Capped(robustZ);
      }
    }
  }

  // ----- the median splits its column -----

  predicate Sorted(s: seq<real>) {
    forall i, j | 0 <= i < j < |s| :: s[i] <= s[j]
  }

  function CountAbove(values: seq<real>, m: real): (n: nat)
    ensures n <= |values|
  {
    if values == [] then 0 else (if values[0] > m then 1 else 0) + CountAbove(values[1..], m)
  }

  function CountBelow(values: seq<real>, m: real): (n: nat)
    ensures n <= |values|
  {
    if values == [] then 0 else (if values[0] < m then 1 else 0) + CountBelow(values[1..], m)
  }

  lemma {:induction false} CountJoined(a: seq<real>, b: seq<real>, m: real)
    ensures CountAbove(a + b, m) == CountAbove(a, m) + CountAbove(b, m)
    ensures CountBelow(a + b, m) == CountBelow(a, m) + CountBelow(b, m)
  {
    if a == [] {
      assert a + b == b;
    } else {
      assert (a + b)[1..] == a[1..] + b;
      CountJoined(a[1..], b, m);
    }
  }

  predicate AtLeast(s: seq<real>, low: real) {
    forall i :: 0 <= i < |s| ==> s[i] >= low
  }

  lemma {:induction false} InsertAtLeast(x: real, s: seq<real>, low: real)
    requires x >= low && AtLeast(s, low)
    ensures AtLeast(Insert(x, s), low)
  {
    if s != [] && x > s[0] {
      InsertAtLeast(x, s[1..], low);
    }
  }

  lemma {:induction false} InsertSorted(x: real, s: seq<real>)
    requires Sorted(s)
    ensures Sorted(Insert(x, s))
  {
    if s != [] && x > s[0] {
      InsertSorted(x, s[1..]);
      InsertAtLeast(x, s[1..], s[0]);
    }
  }

  lemma {:induction false} InsertCounts(x: real, s: seq<real>, m: real)
    ensures CountAbove(Insert(x, s), m) == CountAbove(s, m) + if x > m then 1 else 0
    ensures CountBelow(Insert(x, s), m) == CountBelow(s, m) + if x < m then 1 else 0
  {
    if s == [] || x <= s[0] {
      assert ([x] + s)[1..] == s;
    } else {
      InsertCounts(x, s[1..], m);
      assert ([s[0]] + Insert(x, s[1..]))[1..] == Insert(x, s[1..]);
    }
  }

  lemma {:induction false} SortSorted(values: seq<real>)
    ensures Sorted(Sort(values))
  {
    hide Insert;
    if values != [] {
      SortSorted(values[..|values| - 1]);
      InsertSorted(values[|values| - 1], Sort(values[..|values| - 1]));
    }
  }

  lemma {:induction false} SortAtLeast(values: seq<real>, low: real)
    requires AtLeast(values, low)
    ensures AtLeast(Sort(values), low)
  {
    hide Insert;
    if values != [] {
      SortAtLeast(values[..|values| - 1], low);
      InsertAtLeast(values[|values| - 1], Sort(values[..|values| - 1]), low);
    }
  }

  lemma {:induction false} SortCounts(values: seq<real>, m: real)
    ensures CountAbove(Sort(values), m) == CountAbove(values, m)
    ensures CountBelow(Sort(values), m) == CountBelow(values, m)
  {
    hide Insert;
    if values != [] {
      var front, last := values[..|values| - 1], values[|values| - 1];
      SortCounts(front, m);
      InsertCounts(last, Sort(front), m);
      CountJoined(front, [last], m);
      assert values == front + [last] && [last][1..] == [];
    }
  }

  lemma {:induction false} CountNone(values: seq<real>, m: real)
    ensures (forall i :: 0 <= i < |values| ==> values[i] <= m) ==> CountAbove(values, m) == 0
    ensures (forall i :: 0 <= i < |values| ==> values[i] >= m) ==> CountBelow(values, m) == 0
  {
    if values != [] {
      CountNone(values[1..], m);
    }
  }

  lemma MedianBetween(values: seq<real>)
    requires values != []
    ensures var s, n := Sort(values), |values|;
            s[n - n / 2 - 1] <= Median(values) <= s[n / 2]
  {
    hide Sort;
    SortSorted(values);
  }

  lemma SortedSplits(s: seq<real>, k: nat, m: real)
    requires Sorted(s) && k <= |s|
    ensures k > 0 && s[k - 1] <= m ==> CountAbove(s, m) <= |s| - k
    ensures k < |s| && m <= s[k] ==> CountBelow(s, m) <= k
  {
    hide CountAbove, CountBelow;
    assert s[..k] + s[k..] == s;
    CountJoined(s[..k], s[k..], m);
    CountNone(s[..k], m);
    CountNone(s[k..], m);
  }

  /** At most half of a column lies above its median, and at most half below. */
  lemma MedianSplits(values: seq<real>)
    requires values != []
    ensures CountAbove(values, Median(values)) <= |values| / 2
    ensures CountBelow(values, Median(values)) <= |values| / 2
  {
    hide *;
    var n, m := |values|, Median(values);
    SortCounts(values, m);
    SortSorted(values);
    MedianBetween(values);
    SortedSplits(Sort(values), n - n / 2, m);
    SortedSplits(Sort(values), n / 2, m);
  }

  lemma MedianWithin(values: seq<real>, low: real)
    requires values != [] && AtLeast(values, low)
    ensures Median(values) >= low
  {
    hide Sort;
    SortAtLeast(values, low);
  }

  // ----- bounds -----

  lemma QuotientPositive(x: real, y: real)
    requires y > 0.0
    ensures x / y > 0.0 <==> x > 0.0
  {}

  /** A column adds to a score exactly for the values above its median, and never more than ten. */
  lemma PartBounds(value: real, med: real, mad: real)
    requires mad >= 0.0
    ensures 0.0 <= Part(value, med, mad) <= 10.0
    ensures Part(value, med, mad) > 0.0 <==> value > med
  {
    if mad > 0.0 {
      QuotientPositive(0.6745 * (value - med), mad);
    }
  }

  /** What a baseline of `sessions` has: no negative deviation, and at most `half` of the sessions above each median. */
  ghost predicate IsBaseline(base: Baseline, sessions: seq<Session>, half: nat) {
    forall j {:trigger base.mads[j]} :: 0 <= j < COLUMNS ==>
      base.mads[j] >= 0.0 && CountAbove(Column(sessions, j), base.medians[j]) <= half
  }

  lemma BaselineHolds(sessions: seq<Session>)
    requires sessions != []
    ensures IsBaseline(BaselineOf(sessions), sessions, |sessions| / 2)
  {
    var base := BaselineOf(sessions);
    forall j | 0 <= j < COLUMNS
      ensures base.mads[j] >= 0.0 && CountAbove(Column(sessions, j), base.medians[j]) <= |sessions| / 2
    {
      ColumnHolds(Column(sessions, j), base.medians[j]);
    }
  }

  lemma {:induction false} ColumnHolds(values: seq<real>, med: real)
    requires values != [] && med == Median(values)
    ensures Mad(values, med) >= 0.0 && CountAbove(values, med) <= |values| / 2
  {
    MedianSplits(values);
    MedianWithin(Deviations(values, med), 0.0);
  }

  lemma {:induction false} TotalBounds(base: Baseline, sessions: seq<Session>, half: nat, vector: Vector, k: nat)
    requires IsBaseline(base, sessions, half) && k <= COLUMNS
    ensures 0.0 <= Total(base, vector, k) <= 10.0 * k as real
    ensures Total(base, vector, k) == 0.0 <==> forall j :: 0 <= j < k ==> vector[j] <= base.medians[j]
  {
    if k > 0 {
      TotalBounds(base, sessions, half, vector, k - 1);
      PartBounds(vector[k - 1], base.medians[k - 1], base.mads[k - 1]);
    }
  }

  /** Scores lie between 0 and 150, and with three sessions or more a score is 0 exactly at or below every median. */
  lemma ScoreBounds(sessions: seq<Session>, session: Session)
    ensures 0.0 <= Score(sessions, session) <= 150.0
    ensures |sessions| >= 3 ==>
              (Score(sessions, session) == 0.0
               <==> forall j :: 0 <= j < COLUMNS ==> session.vector[j] <= Median(Column(sessions, j)))
  {
    if |sessions| >= 3 {
      var base := BaselineOf(sessions);
      BaselineHolds(sessions);
      TotalBounds(base, sessions, |sessions| / 2, session.vector, COLUMNS);
      assert forall j :: 0 <= j < COLUMNS ==> base.medians[j] == Median(Column(sessions, j));
    }
  }

  // ----- the sum of all scores -----

  function SumTotals(base: Baseline, sessions: seq<Session>, k: nat): real
    requires k <= COLUMNS
  {
    if sessions == [] then 0.0
    else SumTotals(base, sessions[1..], k) + Total(base, sessions[0].vector, k)
  }

  function SumScores(all: seq<Session>, sessions: seq<Session>): real {
    if sessions == [] then 0.0 else SumScores(all, sessions[1..]) + Score(all, sessions[0])
  }

  /** One more column adds at most ten for each session above its median. */
  lemma {:induction false} SumStep(base: Baseline, sessions: seq<Session>, k: nat)
    requires k < COLUMNS && base.mads[k] >= 0.0
    ensures SumTotals(base, sessions, k + 1)
            <= SumTotals(base, sessions, k) + 10.0 * CountAbove(Column(sessions, k), base.medians[k]) as real
  {
    if sessions != [] {
      SumStep(base, sessions[1..], k);
      PartBounds(sessions[0].vector[k], base.medians[k], base.mads[k]);
      assert Column(sessions, k)[1..] == Column(sessions[1..], k);
    }
  }

  lemma {:induction false} SumBound(base: Baseline, sessions: seq<Session>, half: nat, k: nat)
    requires IsBaseline(base, sessions, half) && k <= COLUMNS
    ensures SumTotals(base, sessions, k) <= 10.0 * (k * half) as real
  {
    if k == 0 {
      SumNothing(base, sessions);
    } else {
      SumBound(base, sessions, half, k - 1);
      assert base.mads[k - 1] >= 0.0;
      SumStep(base, sessions, k - 1);
      MulDistributes(k, 1, half);
    }
  }

  lemma {:induction false} SumNothing(base: Baseline, sessions: seq<Session>)
    ensures SumTotals(base, sessions, 0) == 0.0
  {
    if sessions != [] {
      SumNothing(base, sessions[1..]);
    }
  }

  lemma {:induction false} SumScoresIs(all: seq<Session>, sessions: seq<Session>)
    requires |all| >= 3
    ensures SumScores(all, sessions) == SumTotals(BaselineOf(all), sessions, COLUMNS)
  {
    if sessions != [] {
      SumScoresIs(all, sessions[1..]);
    }
  }

  lemma {:induction false} SumFew(all: seq<Session>, sessions: seq<Session>)
    requires |all| < 3
    ensures SumScores(all, sessions) == 0.0
  {
    if sessions != [] {
      SumFew(all, sessions[1..]);
    }
  }

  /** All scores together are at most 150 for every second session. */
  lemma SumOfScores(sessions: seq<Session>)
    ensures SumScores(sessions, sessions) <= (150 * (|sessions| / 2)) as real
  {
    if |sessions| >= 3 {
      SumScoresIs(sessions, sessions);
      BaselineHolds(sessions);
      SumBound(BaselineOf(sessions), sessions, |sessions| / 2, COLUMNS);
    } else {
      SumFew(sessions, sessions);
    }
  }

  // ----- order -----

  lemma {:induction false} InsertCommutes(x: real, y: real, s: seq<real>)
    ensures Insert(x, Insert(y, s)) == Insert(y, Insert(x, s))
  {
    if s != [] && x > s[0] && y > s[0] {
      InsertCommutes(x, y, s[1..]);
      assert ([s[0]] + Insert(y, s[1..]))[1..] == Insert(y, s[1..]);
      assert ([s[0]] + Insert(x, s[1..]))[1..] == Insert(x, s[1..]);
    } else {
      assert ([x] + s)[1..] == s && ([y] + s)[1..] == s;
    }
  }

  lemma {:induction false} SortPull(a: seq<real>, x: real, b: seq<real>)
    ensures Sort(a + [x] + b) == Insert(x, Sort(a + b))
  {
    if b == [] {
      assert a + [x] + b == a + [x] && a + b == a;
      assert (a + [x])[..|a|] == a;
    } else {
      hide Insert;
      var n := |b| - 1;
      SortPull(a, x, b[..n]);
      SortLast(a + [x], b);
      SortLast(a, b);
      InsertCommutes(b[n], x, Sort(a + b[..n]));
    }
  }

  lemma {:induction false} SortLast(a: seq<real>, b: seq<real>)
    requires b != []
    ensures Sort(a + b) == Insert(b[|b| - 1], Sort(a + b[..|b| - 1]))
  {
    assert (a + b)[..|a + b| - 1] == a + b[..|b| - 1];
  }

  function Values(sessions: seq<Session>, value: Session -> real): (v: seq<real>)
    ensures |v| == |sessions|
  {
    seq(|sessions|, i requires 0 <= i < |sessions| => value(sessions[i]))
  }

  lemma ValuesAround(front: seq<Session>, s: Session, back: seq<Session>, value: Session -> real)
    ensures Values(front + [s] + back, value) == Values(front, value) + [value(s)] + Values(back, value)
    ensures Values(front + back, value) == Values(front, value) + Values(back, value)
  {}

  /** Columns of a permutation of the sessions sort alike, whatever is computed from each session. */
  lemma {:induction false} SortPermuted(a: seq<Session>, b: seq<Session>, value: Session -> real)
    requires multiset(a) == multiset(b)
    ensures Sort(Values(a, value)) == Sort(Values(b, value))
  {
    if a == [] {
      assert |multiset(b)| == 0;
    } else {
      var n := |a| - 1;
      var front, back := SplitAt(a, b);
      SortPermuted(a[..n], front + back, value);
      SortPull(Values(front, value), value(a[n]), Values(back, value));
      ValuesAround(front, a[n], back, value);
      assert Values(a, value)[..n] == Values(a[..n], value);
    }
  }

  lemma SameLength<T>(a: seq<T>, b: seq<T>)
    requires multiset(a) == multiset(b)
    ensures |a| == |b|
  {
    assert |multiset(a)| == |a| && |multiset(b)| == |b|;
  }

  lemma SameMedian(a: seq<Session>, b: seq<Session>, value: Session -> real)
    requires a != [] && multiset(a) == multiset(b)
    ensures b != [] && Median(Values(a, value)) == Median(Values(b, value))
  {
    SameLength(a, b);
    SortPermuted(a, b, value);
  }

  function Cell(j: nat): Session -> real
    requires j < COLUMNS
  {
    (s: Session) => s.vector[j]
  }

  function Deviation(j: nat, med: real): Session -> real
    requires j < COLUMNS
  {
    (s: Session) => Abs(s.vector[j] - med)
  }

  lemma ColumnValues(sessions: seq<Session>, j: nat, med: real)
    requires j < COLUMNS
    ensures Column(sessions, j) == Values(sessions, Cell(j))
    ensures Deviations(Column(sessions, j), med) == Values(sessions, Deviation(j, med))
  {}

  lemma SameColumn(a: seq<Session>, b: seq<Session>, j: nat)
    requires a != [] && b != [] && multiset(a) == multiset(b) && j < COLUMNS
    ensures var med := Median(Column(a, j));
            Median(Column(b, j)) == med && Mad(Column(b, j), med) == Mad(Column(a, j), med)
  {
    var med := Median(Column(a, j));
    ColumnValues(a, j, med);
    ColumnValues(b, j, med);
    SameMedian(a, b, Cell(j));
    SameMedian(a, b, Deviation(j, med));
  }

  /** A session's score does not depend on the order of the sessions. */
  lemma ScoreUnordered(a: seq<Session>, b: seq<Session>, session: Session)
    requires multiset(a) == multiset(b)
    ensures Score(a, session) == Score(b, session)
  {
    SameLength(a, b);
    if |a| >= 3 {
      forall j | 0 <= j < COLUMNS
        ensures BaselineOf(a).medians[j] == BaselineOf(b).medians[j] && BaselineOf(a).mads[j] == BaselineOf(b).mads[j]
      {
        SameColumn(a, b, j);
      }
      assert BaselineOf(a).medians == BaselineOf(b).medians && BaselineOf(a).mads == BaselineOf(b).mads;
    }
  }

  predicate KeysDistinct(sessions: seq<Session>) {
    forall i, j | 0 <= i < j < |sessions| :: sessions[i].key != sessions[j].key
  }

  predicate HasKey(sessions: seq<Session>, key: string) {
    exists i :: 0 <= i < |sessions| && sessions[i].key == key
  }

  /** With one session a key, the result holds each session's value under its key, and nothing else. */
  lemma {:induction false} KeyedIs(sessions: seq<Session>, value: Session -> real)
    requires KeysDistinct(sessions)
    ensures forall key :: key in Keyed(sessions, value) <==> HasKey(sessions, key)
    ensures forall i :: 0 <= i < |sessions| ==>
              HasKey(sessions, sessions[i].key) && Keyed(sessions, value)[sessions[i].key] == value(sessions[i])
  {
    if sessions != [] {
      var n := |sessions| - 1;
      KeyedIs(sessions[..n], value);
      forall key
        ensures HasKey(sessions, key) <==> key == sessions[n].key || HasKey(sessions[..n], key)
      {
        assert forall i :: 0 <= i < n ==> sessions[..n][i] == sessions[i];
      }
      forall i | 0 <= i < n
        ensures HasKey(sessions, sessions[i].key) && Keyed(sessions, value)[sessions[i].key] == value(sessions[i])
      {
        assert sessions[..n][i] == sessions[i];
      }
    }
  }

  /** Functions that agree on the sessions give permutations of them the same result. */
  lemma KeyedUnordered(a: seq<Session>, b: seq<Session>, f: Session -> real, g: Session -> real)
    requires multiset(a) == multiset(b) && KeysDistinct(a) && KeysDistinct(b)
    requires forall s :: f(s) == g(s)
    ensures Keyed(a, f) == Keyed(b, g)
  {
    KeyedIs(a, f);
    KeyedIs(b, g);
    forall key
      ensures HasKey(a, key) <==> HasKey(b, key)
      ensures HasKey(a, key) ==> Keyed(a, f)[key] == Keyed(b, g)[key]
    {
      if i :| 0 <= i < |a| && a[i].key == key {
        assert a[i] in multiset(b);
        var k :| 0 <= k < |b| && b[k] == a[i];
      }
      if k :| 0 <= k < |b| && b[k].key == key {
        assert b[k] in multiset(a);
        var i :| 0 <= i < |a| && a[i] == b[k];
      }
    }
  }

  /** The whole result is the same for the sessions in any order. */
  lemma ScoresUnordered(a: seq<Session>, b: seq<Session>)
    requires multiset(a) == multiset(b) && KeysDistinct(a) && KeysDistinct(b)
    ensures Keyed(a, ScoreIn(a)) == Keyed(b, ScoreIn(b))
  {
    forall s: Session
      ensures ScoreIn(a)(s) == ScoreIn(b)(s)
    {
      ScoreUnordered(a, b, s);
    }
    KeyedUnordered(a, b, ScoreIn(a), ScoreIn(b));
  }
}
