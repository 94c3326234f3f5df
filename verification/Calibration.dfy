/**
  Threshold calibration: the tie-grouped sweep over candidate thresholds and the
  choice of one candidate under a false-positive or an alert budget.

  `Evaluate` is the naive reading of a threshold (an alert is a score at or above it);
  `ThresholdCandidates` is the one-pass sweep that the tuner runs instead.
*/
module Calibration {
  import opened Common
  import opened KeyedFold

  /** One calibration window: its score and its true class (1 malicious, 0 benign). */
  datatype Sample = Sample(score: real, truth: int)

  datatype Confusion = Confusion(alerts: int, truePositives: int, falsePositives: int,
                                 trueNegatives: int, falseNegatives: int)

  datatype Candidate = Candidate(threshold: real, counts: Confusion, alertsPerDay: Option<real>,
                                 falsePositiveRate: Option<real>, precision: Option<real>,
                                 recall: Option<real>, f1: Option<real>)

  // ----- counting -----

  function Count(samples: seq<Sample>, p: Sample -> bool): (n: nat)
    ensures n <= |samples|
  {
    if samples == [] then 0
    else Count(samples[..|samples| - 1], p) + if p(samples[|samples| - 1]) then 1 else 0
  }

  function AtLeast(t: real): Sample -> bool { (s: Sample) => s.score >= t }

  function WithLabel(l: int): Sample -> bool { (s: Sample) => s.truth == l }

  function AtLeastWithLabel(t: real, l: int): Sample -> bool { (s: Sample) => s.score >= t && s.truth == l }

  function BelowWithLabel(t: real, l: int): Sample -> bool { (s: Sample) => s.score < t && s.truth == l }

  /** The confusion counts of `scores >= t`, each counted on its own. */
  function Evaluate(samples: seq<Sample>, t: real): Confusion {
    Confusion(Count(samples, AtLeast(t)),
              Count(samples, AtLeastWithLabel(t, 1)),
              Count(samples, AtLeastWithLabel(t, 0)),
              Count(samples, BelowWithLabel(t, 0)),
              Count(samples, BelowWithLabel(t, 1)))
  }

  lemma {:induction false} CountConcat(a: seq<Sample>, b: seq<Sample>, p: Sample -> bool)
    ensures Count(a + b, p) == Count(a, p) + Count(b, p)
  {
    if b == [] {
      assert a + b == a;
    } else {
      assert (a + b)[..|a + b| - 1] == a + b[..|b| - 1];
      CountConcat(a, b[..|b| - 1], p);
    }
  }

  lemma {:induction false} CountPermuted(a: seq<Sample>, b: seq<Sample>, p: Sample -> bool)
    requires multiset(a) == multiset(b)
    ensures Count(a, p) == Count(b, p)
  {
    if a == [] {
      assert |multiset(b)| == 0;
    } else {
      var n, x := |a| - 1, a[|a| - 1];
      var front, back := SplitAt(a, b);
      CountPermuted(a[..n], front + back, p);
      CountConcat(front, back, p);
      CountConcat(front, [x], p);
      CountConcat(front + [x], back, p);
      assert Count([x], p) == if p(x) then 1 else 0;
    }
  }

  lemma {:induction false} CountAgrees(samples: seq<Sample>, p: Sample -> bool, q: Sample -> bool)
    requires forall s <- samples :: p(s) == q(s)
    ensures Count(samples, p) == Count(samples, q)
  {
    if samples != [] {
      CountAgrees(samples[..|samples| - 1], p, q);
    }
  }

  lemma {:induction false} CountWithin(samples: seq<Sample>, p: Sample -> bool, q: Sample -> bool)
    requires forall s <- samples :: p(s) ==> q(s)
    ensures Count(samples, p) <= Count(samples, q)
    ensures (exists s <- samples :: q(s) && !p(s)) ==> Count(samples, p) < Count(samples, q)
  {
    if samples != [] {
      var init := samples[..|samples| - 1];
      CountWithin(init, p, q);
      forall s | s in samples && q(s) && !p(s) && s !in init
        ensures s == samples[|samples| - 1]
      {}
    }
  }

  lemma {:induction false} CountSplit(samples: seq<Sample>, p: Sample -> bool, q: Sample -> bool, r: Sample -> bool)
    requires forall s <- samples :: r(s) == (p(s) || q(s)) && !(p(s) && q(s))
    ensures Count(samples, r) == Count(samples, p) + Count(samples, q)
  {
    if samples != [] {
      CountSplit(samples[..|samples| - 1], p, q, r);
    }
  }

  /** The counts of one threshold add up to the label totals. */
  lemma EvaluateTotals(samples: seq<Sample>, t: real)
    ensures var e := Evaluate(samples, t);
            && e.truePositives + e.falseNegatives == Count(samples, WithLabel(1))
            && e.falsePositives + e.trueNegatives == Count(samples, WithLabel(0))
            && e.truePositives + e.falsePositives <= e.alerts
    ensures Binary(samples) ==>
              var e := Evaluate(samples, t); e.truePositives + e.falsePositives == e.alerts
  {
    CountSplit(samples, AtLeastWithLabel(t, 1), BelowWithLabel(t, 1), WithLabel(1));
    CountSplit(samples, AtLeastWithLabel(t, 0), BelowWithLabel(t, 0), WithLabel(0));
    var labelled: Sample -> bool := (s: Sample) => s.score >= t && (s.truth == 0 || s.truth == 1);
    CountSplit(samples, AtLeastWithLabel(t, 1), AtLeastWithLabel(t, 0), labelled);
    CountWithin(samples, labelled, AtLeast(t));
    if Binary(samples) {
      CountAgrees(samples, labelled, AtLeast(t));
    }
  }

  /** Raising the threshold never adds an alert of either label. */
  lemma EvaluateMonotone(samples: seq<Sample>, t: real, u: real)
    requires t <= u
    ensures var low, high := Evaluate(samples, t), Evaluate(samples, u);
            && high.alerts <= low.alerts
            && high.truePositives <= low.truePositives
            && high.falsePositives <= low.falsePositives
  {
    CountWithin(samples, AtLeast(u), AtLeast(t));
    CountWithin(samples, AtLeastWithLabel(u, 1), AtLeastWithLabel(t, 1));
    CountWithin(samples, AtLeastWithLabel(u, 0), AtLeastWithLabel(t, 0));
  }

  /** The counted positions of a list. */
  lemma {:induction false} CountIs(samples: seq<Sample>, p: Sample -> bool)
    ensures Count(samples, p) == |Positions(samples, p)|
  {
    if samples == [] {
      NoPositions(samples, p);
    } else {
      CountIs(samples[..|samples| - 1], p);
      OnePositionMore(samples, p);
    }
  }

  /** The five counts of a threshold, read off the windows one by one. */
  lemma EvaluateMeans(samples: seq<Sample>, t: real)
    ensures var e := Evaluate(samples, t);
            && e.alerts == |set i | 0 <= i < |samples| && samples[i].score >= t|
            && e.truePositives == |set i | 0 <= i < |samples| && samples[i].score >= t && samples[i].truth == 1|
            && e.falsePositives == |set i | 0 <= i < |samples| && samples[i].score >= t && samples[i].truth == 0|
            && e.trueNegatives == |set i | 0 <= i < |samples| && samples[i].score < t && samples[i].truth == 0|
            && e.falseNegatives == |set i | 0 <= i < |samples| && samples[i].score < t && samples[i].truth == 1|
  {
    hide Count;
    CountIs(samples, AtLeast(t));
    CountIs(samples, AtLeastWithLabel(t, 1));
    CountIs(samples, AtLeastWithLabel(t, 0));
    CountIs(samples, BelowWithLabel(t, 0));
    CountIs(samples, BelowWithLabel(t, 1));
    assert Positions(samples, AtLeast(t)) == set i | 0 <= i < |samples| && samples[i].score >= t;
    assert Positions(samples, AtLeastWithLabel(t, 1))
        == set i | 0 <= i < |samples| && samples[i].score >= t && samples[i].truth == 1;
    assert Positions(samples, AtLeastWithLabel(t, 0))
        == set i | 0 <= i < |samples| && samples[i].score >= t && samples[i].truth == 0;
    assert Positions(samples, BelowWithLabel(t, 0))
        == set i | 0 <= i < |samples| && samples[i].score < t && samples[i].truth == 0;
    assert Positions(samples, BelowWithLabel(t, 1))
        == set i | 0 <= i < |samples| && samples[i].score < t && samples[i].truth == 1;
  }

  lemma EvaluateAgrees(samples: seq<Sample>, t: real, u: real)
    requires forall s <- samples :: s.score >= t <==> s.score >= u
    ensures Evaluate(samples, t) == Evaluate(samples, u)
  {
    CountAgrees(samples, AtLeast(t), AtLeast(u));
    CountAgrees(samples, AtLeastWithLabel(t, 1), AtLeastWithLabel(u, 1));
    CountAgrees(samples, AtLeastWithLabel(t, 0), AtLeastWithLabel(u, 0));
    CountAgrees(samples, BelowWithLabel(t, 0), BelowWithLabel(u, 0));
    CountAgrees(samples, BelowWithLabel(t, 1), BelowWithLabel(u, 1));
  }

  // ----- one candidate -----

  predicate Binary(samples: seq<Sample>) {
    forall s <- samples :: s.truth == 0 || s.truth == 1
  }

  function SafeDiv(numerator: int, denominator: int): Option<real> {
    if denominator == 0 then None else Some(numerator as real / denominator as real)
  }

  function MetricOrZero(value: Option<real>): real {
    if value.Some? then value.value else 0.0
  }

  function F1(precision: Option<real>, recall: Option<real>): Option<real> {
    if precision.Some? && recall.Some? && precision.value + recall.value > 0.0
    then Some(HarmonicMean(precision.value, recall.value))
    else None
  }

  function HarmonicMean(p: real, r: real): real
    requires p + r > 0.0
  {
    (2.0 * p * r) / (p + r)
  }

  predicate PositiveDuration(durationDays: Option<real>) {
    durationDays.Some? ==> durationDays.value > 0.0
  }

  function CandidateRecord(threshold: real, alerts: int, truePositives: int, falsePositives: int,
                           positiveTotal: int, negativeTotal: int, durationDays: Option<real>): Candidate
    requires PositiveDuration(durationDays)
  {
    var precision := SafeDiv(truePositives, alerts);
    var recall := SafeDiv(truePositives, positiveTotal);
    Candidate(threshold,
              Confusion(alerts, truePositives, falsePositives,
                        negativeTotal - falsePositives, positiveTotal - truePositives),
              if durationDays.None? then None else Some(alerts as real / durationDays.value),
              SafeDiv(falsePositives, negativeTotal), precision, recall, F1(precision, recall))
  }

  /** The candidate record that the naive counts of `t` give. */
  function CandidateAt(samples: seq<Sample>, t: real, durationDays: Option<real>): Candidate
    requires PositiveDuration(durationDays)
  {
    var e := Evaluate(samples, t);
    CandidateRecord(t, e.alerts, e.truePositives, e.falsePositives,
                    Count(samples, WithLabel(1)), Count(samples, WithLabel(0)), durationDays)
  }

  /** The longest time from a window's start to a window's end. */
  ghost predicate IsSpan(windows: seq<(real, real)>, span: real) {
    && (exists v, w | v in windows && w in windows :: span == w.1 - v.0)
    && (forall v, w | v in windows && w in windows :: w.1 - v.0 <= span)
  }

  /** The span of the windows in days; `windows` holds each window's start and end in seconds. */
  function DurationDays(windows: seq<(real, real)>): (d: Option<real>)
    ensures PositiveDuration(d)
    ensures d.None? <==> forall v, w | v in windows && w in windows :: w.1 <= v.0
    ensures d.Some? ==> IsSpan(windows, d.value * 86400.0)
  {
    if windows == [] then None
    else
      var seconds := LatestEnd(windows) - EarliestStart(windows);
      if seconds <= 0.0 then None else Some(seconds / 86400.0)
  }

  function EarliestStart(windows: seq<(real, real)>): (t: real)
    requires windows != []
    ensures (exists w <- windows :: w.0 == t) && forall w <- windows :: t <= w.0
  {
    if |windows| == 1 then windows[0].0
    else
      var rest := EarliestStart(windows[1..]);
      if windows[0].0 <= rest then windows[0].0 else rest
  }

  function LatestEnd(windows: seq<(real, real)>): (t: real)
    requires windows != []
    ensures (exists w <- windows :: w.1 == t) && forall w <- windows :: w.1 <= t
  {
    if |windows| == 1 then windows[0].1
    else
      var rest := LatestEnd(windows[1..]);
      if windows[0].1 >= rest then windows[0].1 else rest
  }

  // ----- the sweep -----

  /** The distinct scores in strictly descending order, behind one threshold above them all. */
  ghost predicate SweepsThresholds(candidates: seq<Candidate>, samples: seq<Sample>, above: real) {
    && candidates != []
    && candidates[0].threshold == above
    && (forall i, j :: 0 <= i < j < |candidates| ==> candidates[i].threshold > candidates[j].threshold)
    && (forall k :: 1 <= k < |candidates| ==> IsScore(samples, candidates[k].threshold))
    && (forall s <- samples :: HasThreshold(candidates, s.score))
  }

  predicate IsScore(samples: seq<Sample>, t: real) {
    exists s <- samples :: s.score == t
  }

  /** The candidate at the end of the list, past the first, whose threshold is `t`. */
  predicate HasThreshold(candidates: seq<Candidate>, t: real) {
    exists k :: 1 <= k < |candidates| && candidates[k].threshold == t
  }

  /** A record that holds the naive counts of its own threshold. */
  ghost predicate Faithful(c: Candidate, samples: seq<Sample>, durationDays: Option<real>)
    requires PositiveDuration(durationDays)
  {
    && c == CandidateAt(samples, c.threshold, durationDays)
    && c.counts == Evaluate(samples, c.threshold)
  }

  ghost predicate IsSweep(candidates: seq<Candidate>, samples: seq<Sample>, above: real, durationDays: Option<real>)
    requires PositiveDuration(durationDays)
  {
    if samples == [] then candidates == []
    else
      && SweepsThresholds(candidates, samples, above)
      && forall c <- candidates :: Faithful(c, samples, durationDays)
  }

  predicate Descending(samples: seq<Sample>) {
    forall i, j :: 0 <= i < j < |samples| ==> samples[i].score >= samples[j].score
  }

  /** Some descending arrangement of the samples; the order among ties is not promised. */
  function SortDescending(samples: seq<Sample>): (sorted: seq<Sample>)
    ensures multiset(sorted) == multiset(samples)
    ensures Descending(sorted)
  {
    if samples == [] then []
    else
      var n := |samples| - 1;
      assert samples == samples[..n] + [samples[n]];
      InsertDescending(SortDescending(samples[..n]), samples[n])
  }

  function InsertDescending(sorted: seq<Sample>, x: Sample): (r: seq<Sample>)
    requires Descending(sorted)
    ensures multiset(r) == multiset(sorted) + multiset{x}
    ensures Descending(r)
    ensures forall y <- r :: y in sorted || y == x
  {
    if sorted == [] || sorted[0].score < x.score then [x] + sorted
    else
      FirstIsGreatest(sorted);
      var rest := InsertDescending(sorted[1..], x);
      Prepended(sorted[0], sorted[1..], rest, x);
      [sorted[0]] + rest
  }

  lemma Prepended(first: Sample, tail: seq<Sample>, rest: seq<Sample>, x: Sample)
    requires first.score >= x.score && forall y <- tail :: y.score <= first.score
    requires Descending(rest) && multiset(rest) == multiset(tail) + multiset{x}
    requires forall y <- rest :: y in tail || y == x
    ensures Descending([first] + rest)
    ensures multiset([first] + rest) == multiset([first] + tail) + multiset{x}
    ensures forall y <- [first] + rest :: y in [first] + tail || y == x
  {
    assert forall i :: 0 <= i < |rest| ==> rest[i] in rest;
  }

  lemma FirstIsGreatest(sorted: seq<Sample>)
    requires Descending(sorted) && sorted != []
    ensures sorted == [sorted[0]] + sorted[1..]
    ensures forall y <- sorted[1..] :: y in sorted && y.score <= sorted[0].score
  {}

  /** A cut of a descending arrangement at `t` counts what `Evaluate` counts. */
  lemma PrefixCounts(samples: seq<Sample>, sorted: seq<Sample>, end: nat, t: real)
    requires multiset(sorted) == multiset(samples)
    requires end <= |sorted|
    requires forall k :: 0 <= k < end ==> sorted[k].score >= t
    requires forall k :: end <= k < |sorted| ==> sorted[k].score < t
    ensures Evaluate(samples, t).alerts == end
    ensures Evaluate(samples, t).truePositives == Count(sorted[..end], WithLabel(1))
    ensures Evaluate(samples, t).falsePositives == Count(sorted[..end], WithLabel(0))
  {
    var all: Sample -> bool := _ => true;
    CountAllOrNone(sorted[..end], all);
    CutCount(samples, sorted, end, AtLeast(t), all);
    CutCount(samples, sorted, end, AtLeastWithLabel(t, 1), WithLabel(1));
    CutCount(samples, sorted, end, AtLeastWithLabel(t, 0), WithLabel(0));
  }

  /** What holds of nothing behind the cut is counted in front of it. */
  lemma CutCount(samples: seq<Sample>, sorted: seq<Sample>, end: nat, p: Sample -> bool, q: Sample -> bool)
    requires multiset(sorted) == multiset(samples)
    requires end <= |sorted|
    requires forall k :: 0 <= k < end ==> p(sorted[k]) == q(sorted[k])
    requires forall k :: end <= k < |sorted| ==> !p(sorted[k])
    ensures Count(samples, p) == Count(sorted[..end], q)
  {
    var head, tail := sorted[..end], sorted[end..];
    assert sorted == head + tail;
    CountAgrees(head, p, q);
    CountAllOrNone(tail, p);
    CountConcat(head, tail, p);
    CountPermuted(samples, sorted, p);
  }

  lemma {:induction false} CountAllOrNone(samples: seq<Sample>, p: Sample -> bool)
    ensures (forall s <- samples :: p(s)) ==> Count(samples, p) == |samples|
    ensures (forall s <- samples :: !p(s)) ==> Count(samples, p) == 0
  {
    if samples != [] {
      CountAllOrNone(samples[..|samples| - 1], p);
    }
  }

  /** The record of a cut that ends a tie group (or of the empty cut) is faithful to its threshold. */
  lemma GroupRecord(samples: seq<Sample>, sorted: seq<Sample>, end: nat, t: real, durationDays: Option<real>)
    requires PositiveDuration(durationDays)
    requires multiset(sorted) == multiset(samples) && Descending(sorted)
    requires end <= |sorted|
    requires end > 0 ==> sorted[end - 1].score == t
    requires end < |sorted| ==> sorted[end].score < t
    ensures Faithful(CandidateRecord(t, end, Count(sorted[..end], WithLabel(1)), Count(sorted[..end], WithLabel(0)),
                                     Count(samples, WithLabel(1)), Count(samples, WithLabel(0)), durationDays),
                     samples, durationDays)
  {
    forall k | 0 <= k < |sorted|
      ensures if k < end then sorted[k].score >= t else sorted[k].score < t
    {
      if k < end - 1 {
        assert sorted[k].score >= sorted[end - 1].score;
      } else if k > end {
        assert sorted[end].score >= sorted[k].score;
      }
    }
    PrefixCounts(samples, sorted, end, t);
    EvaluateTotals(samples, t);
  }

  /** One past the last sample of the tie group that starts at `index`. */
  method GroupEnd(sorted: seq<Sample>, index: nat) returns (end: nat)
    requires index < |sorted|
    ensures index < end <= |sorted|
    ensures forall k :: index <= k < end ==> sorted[k].score == sorted[index].score
    ensures end < |sorted| ==> sorted[end].score != sorted[index].score
  {
    end := index + 1;
    while end < |sorted| && sorted[end].score == sorted[index].score
      invariant index < end <= |sorted|
      invariant forall k :: index <= k < end ==> sorted[k].score == sorted[index].score
    {
      end := end + 1;
    }
  }

  /** `above` stands for the float just past the largest score. */
  method ThresholdCandidates(samples: seq<Sample>, above: real, durationDays: Option<real>)
    returns (candidates: seq<Candidate>)
    requires PositiveDuration(durationDays)
    requires forall s <- samples :: s.score < above
    ensures IsSweep(candidates, samples, above, durationDays)
  {
    hide CandidateRecord, Evaluate;
    if |samples| == 0 {
      return [];
    }
    var sorted := SortDescending(samples);
    var positiveTotal := Count(samples, WithLabel(1));
    var negativeTotal := Count(samples, WithLabel(0));
    candidates := [CandidateRecord(above, 0, 0, 0, positiveTotal, negativeTotal, durationDays)];
    SweepStarts(samples, sorted, above, durationDays);

    var truePositives, falsePositives, index := 0, 0, 0;
    while index < |sorted|
      invariant 0 <= index <= |sorted|
      invariant truePositives == Count(sorted[..index], WithLabel(1))
      invariant falsePositives == Count(sorted[..index], WithLabel(0))
      invariant SweptTo(candidates, samples, sorted, index, above, durationDays)
    {
      var score := sorted[index].score;
      var end := GroupEnd(sorted, index);
      var group := sorted[index..end];
      GroupCounts(sorted, index, end);
      truePositives := truePositives + Count(group, WithLabel(1));
      falsePositives := falsePositives + Count(group, WithLabel(0));
      var record := CandidateRecord(score, end, truePositives, falsePositives,
                                    positiveTotal, negativeTotal, durationDays);
      SweepExtends(candidates, samples, sorted, index, end, above, durationDays);
      candidates := candidates + [record];
      index := end;
    }
    SweepEnds(candidates, samples, sorted, above, durationDays);
  }

  /** The sweep after the first `index` samples of the descending arrangement. */
  ghost predicate SweptTo(candidates: seq<Candidate>, samples: seq<Sample>, sorted: seq<Sample>, index: nat,
                          above: real, durationDays: Option<real>)
    requires PositiveDuration(durationDays) && index <= |sorted|
  {
    && multiset(sorted) == multiset(samples)
    && Descending(sorted)
    && SweepsThresholds(candidates, sorted[..index], above)
    && (index < |sorted| ==> sorted[index].score < candidates[|candidates| - 1].threshold)
    && (forall c <- candidates :: Faithful(c, samples, durationDays))
  }

  lemma SweepStarts(samples: seq<Sample>, sorted: seq<Sample>, above: real, durationDays: Option<real>)
    requires PositiveDuration(durationDays)
    requires multiset(sorted) == multiset(samples) && Descending(sorted)
    requires forall s <- samples :: s.score < above
    ensures SweptTo([CandidateRecord(above, 0, 0, 0, Count(samples, WithLabel(1)), Count(samples, WithLabel(0)),
                                     durationDays)], samples, sorted, 0, above, durationDays)
  {
    if sorted != [] {
      assert sorted[0] in multiset(samples);
    }
    GroupRecord(samples, sorted, 0, above, durationDays);
  }

  lemma GroupCounts(sorted: seq<Sample>, index: nat, end: nat)
    requires index <= end <= |sorted|
    ensures Count(sorted[..end], WithLabel(1))
            == Count(sorted[..index], WithLabel(1)) + Count(sorted[index..end], WithLabel(1))
    ensures Count(sorted[..end], WithLabel(0))
            == Count(sorted[..index], WithLabel(0)) + Count(sorted[index..end], WithLabel(0))
  {
    assert sorted[..end] == sorted[..index] + sorted[index..end];
    CountConcat(sorted[..index], sorted[index..end], WithLabel(1));
    CountConcat(sorted[..index], sorted[index..end], WithLabel(0));
  }

  lemma SweepExtends(candidates: seq<Candidate>, samples: seq<Sample>, sorted: seq<Sample>, index: nat, end: nat,
                     above: real, durationDays: Option<real>)
    requires PositiveDuration(durationDays) && index < end <= |sorted|
    requires SweptTo(candidates, samples, sorted, index, above, durationDays)
    requires sorted[end - 1].score == sorted[index].score
    requires end < |sorted| ==> sorted[end].score != sorted[index].score
    ensures SweptTo(candidates + [CandidateRecord(sorted[index].score, end, Count(sorted[..end], WithLabel(1)),
                                                  Count(sorted[..end], WithLabel(0)), Count(samples, WithLabel(1)),
                                                  Count(samples, WithLabel(0)), durationDays)],
                    samples, sorted, end, above, durationDays)
  {
    hide SweepsThresholds;
    var score := sorted[index].score;
    if end < |sorted| {
      assert sorted[index].score >= sorted[end].score;
    }
    GroupRecord(samples, sorted, end, score, durationDays);
    ThresholdsExtend(candidates, sorted, index, end, above,
                     CandidateRecord(score, end, Count(sorted[..end], WithLabel(1)), Count(sorted[..end], WithLabel(0)),
                                     Count(samples, WithLabel(1)), Count(samples, WithLabel(0)), durationDays));
  }

  lemma SweepEnds(candidates: seq<Candidate>, samples: seq<Sample>, sorted: seq<Sample>, above: real,
                  durationDays: Option<real>)
    requires PositiveDuration(durationDays) && samples != []
    requires SweptTo(candidates, samples, sorted, |sorted|, above, durationDays)
    ensures IsSweep(candidates, samples, above, durationDays)
  {
    assert sorted[..|sorted|] == sorted;
    forall s
      ensures s in sorted <==> s in samples
    {
      assert s in multiset(sorted) <==> s in multiset(samples);
    }
  }

  lemma ScoresExtend(candidates: seq<Candidate>, sorted: seq<Sample>, index: nat, end: nat,
                     above: real, record: Candidate)
    requires index < end <= |sorted|
    requires SweepsThresholds(candidates, sorted[..index], above)
    requires sorted[index].score == record.threshold
    ensures forall k :: 1 <= k < |candidates| + 1 ==> IsScore(sorted[..end], (candidates + [record])[k].threshold)
  {
    assert sorted[index] in sorted[..end];
    forall k | 1 <= k < |candidates|
      ensures IsScore(sorted[..end], candidates[k].threshold)
    {
      var s :| s in sorted[..index] && s.score == candidates[k].threshold;
      assert s in sorted[..end];
    }
  }

  lemma ThresholdsExtend(candidates: seq<Candidate>, sorted: seq<Sample>, index: nat, end: nat,
                         above: real, record: Candidate)
    requires Descending(sorted)
    requires index < end <= |sorted|
    requires SweepsThresholds(candidates, sorted[..index], above)
    requires record.threshold < candidates[|candidates| - 1].threshold
    requires sorted[index].score == record.threshold == sorted[end - 1].score
    ensures SweepsThresholds(candidates + [record], sorted[..end], above)
  {
    var more := candidates + [record];
    ScoresExtend(candidates, sorted, index, end, above, record);
    ThresholdsCover(candidates, sorted, index, end, above, record);
    assert forall k :: 0 <= k < |candidates| ==> more[k] == candidates[k];
  }

  lemma ThresholdsCover(candidates: seq<Candidate>, sorted: seq<Sample>, index: nat, end: nat,
                        above: real, record: Candidate)
    requires Descending(sorted)
    requires index < end <= |sorted|
    requires SweepsThresholds(candidates, sorted[..index], above)
    requires sorted[index].score == record.threshold == sorted[end - 1].score
    ensures forall s <- sorted[..end] :: HasThreshold(candidates + [record], s.score)
  {
    var more := candidates + [record];
    assert more[|candidates|] == record;
    forall s | s in sorted[..end]
      ensures HasThreshold(more, s.score)
    {
      var n :| 0 <= n < end && sorted[n] == s;
      if n < index {
        assert sorted[..index][n] == s;
        var k :| 1 <= k < |candidates| && candidates[k].threshold == s.score;
        assert more[k].threshold == s.score;
      }
    }
  }
}
