/**
  What the outlier score means, read off the values: medians and deviations as the middle of a column and of its
  distances, the part of a column in units of its deviation, and the score as the sum of the fifteen parts.
*/
module AnomalyMeaning {
  import opened Common
  import opened AnomalyScores

  // ----- the middle of a column -----

  /** `x` is a value with at most `k` values below it and more than `k` at or below it: the `k`-th from the bottom. */
  ghost predicate Ranks(values: seq<real>, x: real, k: nat) {
    && (exists i :: 0 <= i < |values| && values[i] == x)
    && |set i | 0 <= i < |values| && values[i] < x| <= k < |set i | 0 <= i < |values| && values[i] <= x|
  }

  /** The mean of the values with these ranks. */
  ghost predicate IsMeanOf(values: seq<real>, m: real, low: nat, high: nat) {
    exists a, b {:trigger Ranks(values, a, low), Ranks(values, b, high)} ::
      Ranks(values, a, low) && Ranks(values, b, high) && m == (a + b) / 2.0
  }

  /** The middle value, or the mean of the two middle ones. */
  ghost predicate HasMiddle(values: seq<real>, m: real)
    requires values != []
  {
    if |values| % 2 == 1 then Ranks(values, m, |values| / 2)
    else IsMeanOf(values, m, |values| / 2 - 1, |values| / 2)
  }

  lemma SubsetSize<T>(a: set<T>, b: set<T>)
    requires a <= b
    ensures |a| <= |b|
  {
    assert |b - a| + |a| == |b| by {
      assert (b - a) + a == b;
    }
  }

  lemma RankUnique(values: seq<real>, x: real, y: real, k: nat)
    requires Ranks(values, x, k) && Ranks(values, y, k)
    ensures x == y
  {
    var atX := set i | 0 <= i < |values| && values[i] <= x;
    var atY := set i | 0 <= i < |values| && values[i] <= y;
    var belowX := set i | 0 <= i < |values| && values[i] < x;
    var belowY := set i | 0 <= i < |values| && values[i] < y;
    if x < y {
      SubsetSize(atX, belowY);
    } else if y < x {
      SubsetSize(atY, belowX);
    }
  }

  /** There is only one middle. */
  lemma MiddleUnique(values: seq<real>, m: real, n: real)
    requires values != [] && HasMiddle(values, m) && HasMiddle(values, n)
    ensures m == n
  {
    hide Ranks;
    if |values| % 2 == 1 {
      RankUnique(values, m, n, |values| / 2);
    } else {
      var low, high := |values| / 2 - 1, |values| / 2;
      var a, b :| Ranks(values, a, low) && Ranks(values, b, high) && m == (a + b) / 2.0;
      var c, d :| Ranks(values, c, low) && Ranks(values, d, high) && n == (c + d) / 2.0;
      RankUnique(values, a, c, low);
      RankUnique(values, b, d, high);
    }
  }

  // ----- the counts are those of positions -----

  lemma {:induction false} CountsArePositions(values: seq<real>, m: real)
    ensures CountBelow(values, m) == |Positions(values, v => v < m)|
    ensures CountAbove(values, m) + |Positions(values, v => v <= m)| == |values|
  {
    if values == [] {
      NoPositions(values, v => v < m);
      NoPositions(values, v => v <= m);
    } else {
      var n := |values| - 1;
      CountsArePositions(values[..n], m);
      OnePositionMore(values, v => v < m);
      OnePositionMore(values, v => v <= m);
      CountJoined(values[..n], [values[n]], m);
      assert values == values[..n] + [values[n]] && [values[n]][1..] == [];
    }
  }

  // ----- medians -----

  lemma {:induction false} InsertElements(x: real, s: seq<real>)
    ensures multiset(Insert(x, s)) == multiset(s) + multiset{x}
  {
    if s != [] && x > s[0] {
      InsertElements(x, s[1..]);
      assert s == [s[0]] + s[1..];
    }
  }

  lemma {:induction false} SortElements(values: seq<real>)
    ensures multiset(Sort(values)) == multiset(values)
  {
    hide Insert;
    if values != [] {
      var n := |values| - 1;
      SortElements(values[..n]);
      InsertElements(values[n], Sort(values[..n]));
      assert values == values[..n] + [values[n]];
    }
  }

  lemma SortedRank(values: seq<real>, k: nat)
    requires k < |values|
    ensures Ranks(values, Sort(values)[k], k)
  {
    hide Sort;
    var s := Sort(values);
    var x := s[k];
    SortSorted(values);
    SortElements(values);
    SortCounts(values, x);
    SortedSplits(s, k, x);
    SortedSplits(s, k + 1, x);
    CountsArePositions(values, x);
    assert x in multiset(values);
    assert Positions(values, v => v < x) == set i | 0 <= i < |values| && values[i] < x;
    assert Positions(values, v => v <= x) == set i | 0 <= i < |values| && values[i] <= x;
  }

  /** The median is the middle of its column. */
  lemma MedianMeans(values: seq<real>)
    requires values != []
    ensures HasMiddle(values, Median(values))
  {
    hide Sort, Ranks;
    SortedRank(values, |values| / 2);
    if |values| % 2 == 0 {
      SortedRank(values, |values| / 2 - 1);
    }
  }

  /** The deviation is the middle of the distances from a point. */
  lemma MadMeans(values: seq<real>, med: real, distances: seq<real>)
    requires values != [] && |distances| == |values|
    requires forall i :: 0 <= i < |values| ==>
               distances[i] == if values[i] >= med then values[i] - med else med - values[i]
    ensures HasMiddle(distances, Mad(values, med))
  {
    assert distances == Deviations(values, med);
    MedianMeans(distances);
  }

  // ----- one part -----

  lemma QuotientOf(k: real, d: real)
    requires d > 0.0
    ensures 0.6745 * (k * d) / d == 0.6745 * k
  {
    assert 0.6745 * (k * d) == (0.6745 * k) * d;
  }

  /** A value `k` deviations above the median adds 0.6745 `k`, up to ten; below it adds nothing. */
  lemma PartInDeviations(med: real, mad: real, k: real)
    requires mad > 0.0
    ensures Part(med + k * mad, med, mad)
            == if k <= 0.0 then 0.0 else if 0.6745 * k <= 10.0 then 0.6745 * k else 10.0
  {
    QuotientOf(k, mad);
    assert (med + k * mad) - med == k * mad;
  }

  /** One whole deviation above the median adds 0.6745. */
  lemma PartOfOne(med: real, mad: real)
    requires mad > 0.0
    ensures Part(med + mad, med, mad) == 0.6745
  {
    PartInDeviations(med, mad, 1.0);
  }

  /** In a column without deviation, a value adds what it lies above the median, up to ten. */
  lemma PartWithoutDeviation(med: real, excess: real)
    ensures Part(med + excess, med, 0.0)
            == if excess <= 0.0 then 0.0 else if excess <= 10.0 then excess else 10.0
  {}

  // ----- other units -----

  /** A value in other units, with another origin. */
  function In(x: real, c: real, shift: real): real {
    c * x + shift
  }

  function Rescaled(values: seq<real>, c: real, shift: real): (r: seq<real>)
    ensures |r| == |values|
  {
    seq(|values|, i requires 0 <= i < |values| => In(values[i], c, shift))
  }

  lemma ScaledOrder(x: real, y: real, c: real, shift: real)
    requires c > 0.0
    ensures x <= y <==> In(x, c, shift) <= In(y, c, shift)
  {
    if x > y {
      Stretched(x, y, c);
    } else if x < y {
      Stretched(y, x, c);
    }
  }

  lemma Stretched(x: real, y: real, c: real)
    requires c > 0.0 && x > y
    ensures c * x > c * y
  {
    var d := x - y;
    assert c * d > 0.0;
    assert c * x == c * (y + d) == c * y + c * d;
  }

  lemma {:induction false} InsertRescaled(x: real, s: seq<real>, c: real, shift: real)
    requires c > 0.0
    ensures Insert(In(x, c, shift), Rescaled(s, c, shift)) == Rescaled(Insert(x, s), c, shift)
  {
    hide In;
    if s != [] {
      ScaledOrder(x, s[0], c, shift);
      if x > s[0] {
        InsertRescaled(x, s[1..], c, shift);
        assert Rescaled(s, c, shift)[1..] == Rescaled(s[1..], c, shift);
      }
    }
  }

  lemma {:induction false} SortRescaled(values: seq<real>, c: real, shift: real)
    requires c > 0.0
    ensures Sort(Rescaled(values, c, shift)) == Rescaled(Sort(values), c, shift)
  {
    hide In, Insert;
    if values != [] {
      var n := |values| - 1;
      SortRescaled(values[..n], c, shift);
      InsertRescaled(values[n], Sort(values[..n]), c, shift);
      assert Rescaled(values, c, shift)[..n] == Rescaled(values[..n], c, shift);
    }
  }

  lemma MedianRescaled(values: seq<real>, c: real, shift: real)
    requires values != [] && c > 0.0
    ensures Median(Rescaled(values, c, shift)) == In(Median(values), c, shift)
  {
    hide Sort, In;
    SortRescaled(values, c, shift);
    if |values| % 2 == 0 {
      MeanRescaled(Sort(values)[|values| / 2 - 1], Sort(values)[|values| / 2], c, shift);
    }
  }

  lemma MeanRescaled(a: real, b: real, c: real, shift: real)
    ensures (In(a, c, shift) + In(b, c, shift)) / 2.0 == In((a + b) / 2.0, c, shift)
  {
    var h := (a + b) / 2.0;
    assert c * a + c * b == c * (a + b) == c * (2.0 * h) == 2.0 * (c * h);
  }

  lemma AbsScaled(x: real, c: real)
    requires c > 0.0
    ensures Abs(c * x) == c * Abs(x)
  {
    if x < 0.0 {
      assert c * -x > 0.0;
    }
  }

  lemma DistanceRescaled(x: real, med: real, c: real, shift: real)
    requires c > 0.0
    ensures Abs(In(x, c, shift) - In(med, c, shift)) == In(Abs(x - med), c, 0.0)
  {
    assert c * x - c * med == c * (x - med);
    AbsScaled(x - med, c);
  }

  lemma MadRescaled(values: seq<real>, med: real, c: real, shift: real)
    requires values != [] && c > 0.0
    ensures Mad(Rescaled(values, c, shift), In(med, c, shift)) == In(Mad(values, med), c, 0.0)
  {
    hide Median, In, Abs;
    var scaled := Rescaled(values, c, shift);
    forall i | 0 <= i < |values|
      ensures Deviations(scaled, In(med, c, shift))[i] == In(Deviations(values, med)[i], c, 0.0)
    {
      DistanceRescaled(values[i], med, c, shift);
    }
    assert Deviations(scaled, In(med, c, shift)) == Rescaled(Deviations(values, med), c, 0.0);
    MedianRescaled(Deviations(values, med), c, 0.0);
  }

  /** A distance in units of the deviation, scaled as the score scales it. */
  function Units(x: real, mad: real): real
    requires mad != 0.0
  {
    0.6745 * x / mad
  }

  lemma ScaledUnits(x: real, y: real, c: real)
    requires c > 0.0 && y > 0.0
    ensures c * y > 0.0 && Units(c * x, c * y) == Units(x, y)
  {
    var q := 0.6745 * x / y;
    assert q * y == 0.6745 * x;
    assert q * (c * y) == c * (q * y) == 0.6745 * (c * x);
  }

  /** Other units and another origin leave a part as it is, where the deviation is not zero. */
  lemma PartRescaled(values: seq<real>, i: nat, c: real, shift: real)
    requires i < |values| && c > 0.0
    ensures var med, scaled := Median(values), Rescaled(values, c, shift);
            var mad := Mad(values, med);
            mad != 0.0 ==>
              Part(scaled[i], Median(scaled), Mad(scaled, Median(scaled))) == Part(values[i], med, mad)
  {
    hide Median, Mad, In, Part;
    var med := Median(values);
    MedianRescaled(values, c, shift);
    MadRescaled(values, med, c, shift);
    MadNatural(values, med);
    if Mad(values, med) != 0.0 {
      OnePartRescaled(values[i], med, Mad(values, med), c, shift);
    }
  }

  function Positive(q: real): real {
    if q > 0.0 then Capped(q) else 0.0
  }

  lemma PartIs(value: real, med: real, mad: real, x: real)
    requires mad > 0.0 && x == value - med
    ensures Part(value, med, mad) == Positive(Units(x, mad))
  {}

  lemma OnePartRescaled(value: real, med: real, mad: real, c: real, shift: real)
    requires c > 0.0 && mad > 0.0
    ensures Part(In(value, c, shift), In(med, c, shift), In(mad, c, 0.0)) == Part(value, med, mad)
  {
    hide Part, Positive, In, Units;
    var x, v, m, d := value - med, In(value, c, shift), In(med, c, shift), In(mad, c, 0.0);
    DifferenceRescaled(value, med, mad, c, shift);
    ScaledUnits(x, mad, c);
    PartIs(value, med, mad, x);
    PartIs(v, m, d, c * x);
    assert Units(c * x, d) == Units(x, mad);
  }

  lemma DifferenceRescaled(value: real, med: real, mad: real, c: real, shift: real)
    ensures In(value, c, shift) - In(med, c, shift) == c * (value - med) && In(mad, c, 0.0) == c * mad
  {}

  lemma MadNatural(values: seq<real>, med: real)
    requires values != []
    ensures Mad(values, med) >= 0.0
  {
    MedianWithin(Deviations(values, med), 0.0);
  }

  // ----- the whole score -----

  /** The score is the sum of the fifteen parts. */
  lemma ScoreMeans(sessions: seq<Session>, session: Session, p: seq<real>)
    requires |sessions| >= 3 && |p| == 15
    requires forall j :: 0 <= j < 15 ==>
               var column := Column(sessions, j);
               p[j] == Part(session.vector[j], Median(column), Mad(column, Median(column)))
    ensures Score(sessions, session)
            == p[0] + p[1] + p[2] + p[3] + p[4] + p[5] + p[6] + p[7] + p[8] + p[9]
               + p[10] + p[11] + p[12] + p[13] + p[14]
  {
    hide Part, Median, Mad, Column;
    PartsSum(BaselineOf(sessions), session.vector, p);
  }

  lemma PartsSum(base: Baseline, vector: Vector, p: seq<real>)
    requires |p| == 15
    requires forall j {:trigger p[j]} :: 0 <= j < 15 ==> p[j] == Part(vector[j], base.medians[j], base.mads[j])
    ensures Total(base, vector, 15)
            == p[0] + p[1] + p[2] + p[3] + p[4] + p[5] + p[6] + p[7] + p[8] + p[9]
               + p[10] + p[11] + p[12] + p[13] + p[14]
  {
    hide Part;
    FiveParts(base, vector, p, 0);
    FiveParts(base, vector, p, 5);
    FiveParts(base, vector, p, 10);
  }

  lemma FiveParts(base: Baseline, vector: Vector, p: seq<real>, k: nat)
    requires |p| == 15 && k <= 10
    requires forall j {:trigger p[j]} :: 0 <= j < 15 ==> p[j] == Part(vector[j], base.medians[j], base.mads[j])
    ensures Total(base, vector, k + 5) == Total(base, vector, k) + p[k] + p[k + 1] + p[k + 2] + p[k + 3] + p[k + 4]
  {
    hide Part;
    assert Total(base, vector, k + 1) == Total(base, vector, k) + p[k];
    assert Total(base, vector, k + 2) == Total(base, vector, k + 1) + p[k + 1];
    assert Total(base, vector, k + 3) == Total(base, vector, k + 2) + p[k + 2];
    assert Total(base, vector, k + 4) == Total(base, vector, k + 3) + p[k + 3];
  }

  /** Fewer than three sessions have no score. */
  lemma FewScoreNothing(sessions: seq<Session>, session: Session)
    requires |sessions| < 3
    ensures Score(sessions, session) == 0.0
  {}

  /** The result holds every key, with the value of the last session that has it. */
  lemma {:induction false} KeyedLast(sessions: seq<Session>, value: Session -> real, i: nat)
    requires i < |sessions| && forall k :: i < k < |sessions| ==> sessions[k].key != sessions[i].key
    ensures sessions[i].key in Keyed(sessions, value)
    ensures Keyed(sessions, value)[sessions[i].key] == value(sessions[i])
  {
    var n := |sessions| - 1;
    if i < n {
      KeyedLast(sessions[..n], value, i);
    }
  }
}
