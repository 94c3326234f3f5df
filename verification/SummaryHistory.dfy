/**
  What the phases of a request mean in terms of the steps of the run: its fate is what its own query answered, its text
  what its own process ended with, and a page shows the text of the last generation that was completed.
*/
module SummaryHistory {
  import opened Common
  import opened SingleFlight

  // ----- runs, from their last step -----

  lemma {:induction false} RunToLast(s: State, steps: seq<Step>)
    requires CanRun(s, steps) && steps != []
    ensures var n := |steps| - 1;
            && CanRun(s, steps[..n])
            && Enabled(Execute(s, steps[..n]), steps[n])
            && Execute(s, steps) == Apply(Execute(s, steps[..n]), steps[n])
    decreases |steps|
  {
    hide Enabled, Apply;
    var n := |steps| - 1;
    if n == 0 {
      assert steps[..0] == [] && steps[1..] == [];
    } else {
      RunToLast(Apply(s, steps[0]), steps[1..]);
      assert steps[..n][1..] == steps[1..][..n - 1] && steps[1..][n - 1] == steps[n];
    }
  }

  // ----- the history of one request -----

  /** The generation has ended, with a text. */
  predicate HasText(p: Phase) {
    p.Finished? || p.Writing? || p.Written? || p.Clearing? || p.Completed?
  }

  /** What a generation is reported as. */
  function Report(outcome: Outcome): string {
    if outcome.Produced? then outcome.text else "Error generating summary: " + outcome.error
  }

  /** The request was told that there is nothing to summarize, or that this could not be found out. */
  predicate ToldNo(steps: seq<Step>, i: nat) {
    Query(i, QueryError) in steps || Query(i, NoEvents) in steps
  }

  ghost predicate Generated(steps: seq<Step>, i: nat, text: string) {
    exists outcome :: Finish(i, outcome) in steps && Report(outcome) == text
  }

  /** A phase, and what it says about the steps so far. */
  ghost predicate Tells(p: Phase, steps: seq<Step>, i: nat) {
    && (Swap(i) in steps <==> !p.Arrived?)
    && (ToldNo(steps, i) <==> p.GivingUp? || p.Refused?)
    && (Query(i, Events) in steps <==> p.Generating? || HasText(p))
    && (GiveUp(i) in steps <==> p.Refused?)
    && (HasText(p) ==> Generated(steps, i, p.text))
    && (forall outcome {:trigger Finish(i, outcome)} ::
          Finish(i, outcome) in steps ==> HasText(p) && p.text == Report(outcome))
    && (Write(i) in steps <==> p.Written? || p.Clearing? || p.Completed?)
    && (Clear(i) in steps <==> p.Completed?)
  }

  /** A request that has not arrived has taken no step. */
  predicate NotYet(steps: seq<Step>, i: nat) {
    forall step <- steps :: Taker(step) != Some(i)
  }

  ghost predicate History(s: State, steps: seq<Step>, i: nat) {
    if i < |s.requests| then Tells(s.requests[i], steps, i) else NotYet(steps, i)
  }

  /** A step that is not the request's own leaves its phase as it is. */
  lemma OtherStep(s: State, step: Step, i: nat)
    requires Enabled(s, step) && Taker(step) != Some(i)
    ensures |s.requests| <= |Apply(s, step).requests|
    ensures i < |s.requests| ==> Apply(s, step).requests[i] == s.requests[i]
    ensures |s.requests| <= i < |Apply(s, step).requests| ==> Apply(s, step).requests[i] == Arrived
  {}

  lemma TellsSame(p: Phase, before: seq<Step>, steps: seq<Step>, i: nat)
    requires steps != [] && before == steps[..|steps| - 1] && Taker(steps[|steps| - 1]) != Some(i)
    requires Tells(p, before, i)
    ensures Tells(p, steps, i)
  {
    OwnStepsSame(steps, i);
    if HasText(p) {
      var outcome :| Finish(i, outcome) in before && Report(outcome) == p.text;
      assert Finish(i, outcome) in steps;
    }
  }

  lemma OwnStepsSame(steps: seq<Step>, i: nat)
    requires steps != [] && Taker(steps[|steps| - 1]) != Some(i)
    ensures forall step {:trigger step in steps} :: Taker(step) == Some(i) ==>
              (step in steps <==> step in steps[..|steps| - 1])
  {
    forall step | Taker(step) == Some(i)
      ensures step in steps <==> step in steps[..|steps| - 1]
    {
      InLast(steps, step);
    }
  }

  lemma ArrivedTells(steps: seq<Step>, i: nat)
    requires NotYet(steps, i)
    ensures Tells(Arrived, steps, i)
  {
    forall step | step in steps
      ensures Taker(step) != Some(i)
    {}
    assert Taker(Swap(i)) == Taker(GiveUp(i)) == Taker(Write(i)) == Taker(Clear(i)) == Some(i);
    assert Taker(Query(i, Events)) == Taker(Query(i, NoEvents)) == Taker(Query(i, QueryError)) == Some(i);
    assert forall outcome {:trigger Finish(i, outcome)} :: Taker(Finish(i, outcome)) == Some(i);
  }

  /** The request's own step moves its phase on, and the history with it. */
  lemma OwnStep(s: State, before: seq<Step>, steps: seq<Step>, i: nat)
    requires steps != [] && before == steps[..|steps| - 1]
    requires Enabled(s, steps[|steps| - 1]) && Taker(steps[|steps| - 1]) == Some(i)
    requires i < |s.requests| && Tells(s.requests[i], before, i)
    ensures var s' := Apply(s, steps[|steps| - 1]);
            i < |s'.requests| && Tells(s'.requests[i], steps, i)
  {
    var step, p := steps[|steps| - 1], s.requests[i];
    OneStepMore(steps);
    if step.Finish? {
      FinishTells(p, before, steps, i);
    } else {
      MovedTells(p, before, steps, i, Apply(s, step).requests[i]);
    }
  }

  lemma OneStepMore(steps: seq<Step>)
    requires steps != []
    ensures forall x {:trigger x in steps} :: x in steps <==> x in steps[..|steps| - 1] || x == steps[|steps| - 1]
  {
    forall x: Step
      ensures x in steps <==> x in steps[..|steps| - 1] || x == steps[|steps| - 1]
    {
      InLast(steps, x);
    }
  }

  lemma FinishTells(p: Phase, before: seq<Step>, steps: seq<Step>, i: nat)
    requires Tells(p, before, i) && p.Generating? && steps != [] && before == steps[..|steps| - 1]
    requires steps[|steps| - 1].Finish? && steps[|steps| - 1].i == i
    requires forall x {:trigger x in steps} :: x in steps <==> x in before || x == steps[|steps| - 1]
    ensures Tells(Finished(Stored(steps[|steps| - 1].outcome)), steps, i)
  {
    assert Finish(i, steps[|steps| - 1].outcome) in steps;
  }

  /** The other steps of a request. */
  predicate Moves(p: Phase, step: Step, next: Phase) {
    || (step.Swap? && p.Arrived? && (next.Rejected? || next.Fetching?))
    || (step.Query? && p.Fetching? && next == if step.answer.Events? then Generating else GivingUp)
    || (step.GiveUp? && p.GivingUp? && next.Refused?)
    || (step.Acquire? && p.Finished? && next == Writing(p.text))
    || (step.Write? && p.Writing? && next == Written(p.text))
    || (step.Release? && p.Written? && next == Clearing(p.text))
    || (step.Clear? && p.Clearing? && next == Completed(p.text))
  }

  lemma MovedTells(p: Phase, before: seq<Step>, steps: seq<Step>, i: nat, next: Phase)
    requires Tells(p, before, i) && steps != [] && before == steps[..|steps| - 1]
    requires Taker(steps[|steps| - 1]) == Some(i) && Moves(p, steps[|steps| - 1], next)
    requires forall x {:trigger x in steps} :: x in steps <==> x in before || x == steps[|steps| - 1]
    ensures Tells(next, steps, i)
  {
    if HasText(next) {
      var outcome :| Finish(i, outcome) in before && Report(outcome) == p.text;
      assert Finish(i, outcome) in steps;
    }
  }

  /** Every phase of every reachable state tells its history. */
  lemma {:induction false} HistoryOf(steps: seq<Step>, i: nat)
    requires CanRun(INITIAL, steps)
    ensures History(Execute(INITIAL, steps), steps, i)
    decreases |steps|
  {
    hide Enabled, Apply, Tells;
    if steps != [] {
      var n := |steps| - 1;
      RunToLast(INITIAL, steps);
      var s := Execute(INITIAL, steps[..n]);
      HistoryOf(steps[..n], i);
      if Taker(steps[n]) == Some(i) {
        TakerIsThere(s, steps[n], i);
        OwnStep(s, steps[..n], steps, i);
      } else {
        OtherStep(s, steps[n], i);
        if i < |s.requests| {
          TellsSame(s.requests[i], steps[..n], steps, i);
        } else {
          StillNotYet(steps, i);
          if i < |Execute(INITIAL, steps).requests| {
            ArrivedTells(steps, i);
          }
        }
      }
    }
  }

  lemma TakerIsThere(s: State, step: Step, i: nat)
    requires Enabled(s, step) && Taker(step) == Some(i)
    ensures i < |s.requests|
  {}

  lemma StillNotYet(steps: seq<Step>, i: nat)
    requires steps != [] && NotYet(steps[..|steps| - 1], i) && Taker(steps[|steps| - 1]) != Some(i)
    ensures NotYet(steps, i)
  {
    forall step | step in steps
      ensures Taker(step) != Some(i)
    {
      InLast(steps, step);
    }
  }

  /**
    A request is giving up or refused exactly if its own query found no events or failed, and generates or has generated
    exactly if it found some; what it has generated is what its own process ended with.
  */
  lemma FateOfRequest(steps: seq<Step>, i: nat)
    requires CanRun(INITIAL, steps) && i < |Execute(INITIAL, steps).requests|
    ensures var p := Execute(INITIAL, steps).requests[i];
            && (p.GivingUp? || p.Refused? <==> Query(i, QueryError) in steps || Query(i, NoEvents) in steps)
            && (p.Generating? || HasText(p) <==> Query(i, Events) in steps)
            && (p.Refused? <==> GiveUp(i) in steps) && (p.Completed? <==> Clear(i) in steps)
            && (HasText(p) ==> Generated(steps, i, p.text))
            && forall outcome {:trigger Finish(i, outcome)} ::
                 Finish(i, outcome) in steps ==> HasText(p) && p.text == Report(outcome)
  {
    HistoryOf(steps, i);
  }

  // ----- the last completion -----

  /** Request `i` was the last to clear the flag after a generation. */
  ghost predicate LastClear(steps: seq<Step>, i: nat) {
    exists k :: 0 <= k < |steps| && steps[k] == Clear(i) && forall m :: k < m < |steps| ==> !steps[m].Clear?
  }

  /** The completions end with the text of that request, and there are none if no request did. */
  lemma {:induction false} LastCompletion(steps: seq<Step>, i: nat)
    requires CanRun(INITIAL, steps)
    ensures var s := Execute(INITIAL, steps);
            && (s.completed == [] <==> forall step <- steps :: !step.Clear?)
            && (LastClear(steps, i) ==>
                  i < |s.requests| && s.requests[i].Completed? && Last(s.completed) == Some(s.requests[i].text))
    decreases |steps|
  {
    if steps != [] {
      var n := |steps| - 1;
      RunToLast(INITIAL, steps);
      var s, step := Execute(INITIAL, steps[..n]), steps[n];
      LastCompletion(steps[..n], i);
      StepCompletes(s, step, i);
      if LastClear(steps, i) {
        ClearsSplit(steps, i);
      }
      assert step in steps && forall x <- steps[..n] :: x in steps;
    }
  }

  lemma ClearsSplit(steps: seq<Step>, i: nat)
    requires steps != [] && LastClear(steps, i)
    ensures var n := |steps| - 1;
            steps[n] == Clear(i) || (!steps[n].Clear? && LastClear(steps[..n], i))
  {
    var n := |steps| - 1;
    var k :| 0 <= k < |steps| && steps[k] == Clear(i) && forall m :: k < m < |steps| ==> !steps[m].Clear?;
    if k < n {
      assert steps[..n][k] == Clear(i);
    }
  }

  lemma StepCompletes(s: State, step: Step, i: nat)
    requires Enabled(s, step)
    ensures !step.Clear? ==> Apply(s, step).completed == s.completed
    ensures step.Clear? ==> Last(Apply(s, step).completed) == Some(s.requests[step.i].text)
    ensures step.Clear? ==> Apply(s, step).requests[step.i] == Completed(s.requests[step.i].text)
    ensures i < |s.requests| && s.requests[i].Completed? ==> Apply(s, step).requests[i] == s.requests[i]
  {}

  // ----- pages -----

  /** A page that looked at the flag after the first `k` steps carries what it saw. */
  lemma {:induction false} PageLooked(steps: seq<Step>, k: nat, j: nat)
    requires CanRun(INITIAL, steps) && k < |steps| && steps[k] == Load(j)
    ensures CanRun(INITIAL, steps[..k]) && j < |Execute(INITIAL, steps).pages|
    ensures Saw(Execute(INITIAL, steps).pages[j], Execute(INITIAL, steps[..k]).running)
    decreases |steps|
  {
    hide Enabled, Apply, Saw;
    var n := |steps| - 1;
    RunToLast(INITIAL, steps);
    if k < n {
      PageLooked(steps[..n], k, j);
      assert steps[..n][..k] == steps[..k];
      KeepsSeen(Execute(INITIAL, steps[..n]), steps[n], j, Execute(INITIAL, steps[..k]).running);
    } else {
      LooksNow(Execute(INITIAL, steps[..n]), j);
    }
  }

  /** The page has seen the flag like this, and shows that it is loading exactly if it was up. */
  predicate Saw(page: Page, running: bool) {
    || page == Loaded(running)
    || (page.Rendered? && (page.shown == Loading <==> running))
    || (page.Closed? && (page.shown == Loading <==> running))
  }

  lemma LooksNow(s: State, j: nat)
    requires Enabled(s, Load(j))
    ensures j < |Apply(s, Load(j)).pages| && Saw(Apply(s, Load(j)).pages[j], s.running)
  {}

  lemma KeepsSeen(s: State, step: Step, j: nat, running: bool)
    requires Enabled(s, step) && j < |s.pages| && Saw(s.pages[j], running)
    ensures j < |Apply(s, step).pages| && Saw(Apply(s, step).pages[j], running)
  {}

  /**
    A page that found the flag down shows the text with which the last completed request's own process ended, or its
    error, and nothing if none was completed.
  */
  lemma PageShows(steps: seq<Step>, j: nat, i: nat, outcome: Outcome)
    requires CanRun(INITIAL, steps) && Enabled(Execute(INITIAL, steps), Show(j))
    requires !Execute(INITIAL, steps).pages[j].running
    ensures var shown := Apply(Execute(INITIAL, steps), Show(j)).pages[j].shown;
            && (LastClear(steps, i) && Finish(i, outcome) in steps ==>
                  shown == Summary(if outcome.Produced? then outcome.text
                                   else "Error generating summary: " + outcome.error))
            && ((forall step <- steps :: !step.Clear?) ==> shown == Nothing)
  {
    PageShowsLastCompletion(steps, j);
    LastCompletion(steps, i);
    HistoryOf(steps, i);
  }
}
