/**
  What the stages of imports and sync runs mean in terms of the steps of the run, and that whoever holds the sync lock
  can go on to let go of it.
*/
module ImportHistory {
  import opened Common
  import opened ImportFlight

  lemma {:induction false} RunToLast(s: State, steps: seq<Step>)
    requires CanRun(s, steps) && steps != []
    ensures var n := |steps| - 1;
            && CanRun(s, steps[..n])
            && Enabled(Execute(s, steps[..n]), steps[n])
            && Execute(s, steps) == Apply(Execute(s, steps[..n]), steps[n])
    decreases |steps|
  {
    hide Enabled, Apply;
    var n := |steps| - 1;
    if n == 0 {
      assert steps[..0] == [] && steps[1..] == [];
    } else {
      RunToLast(Apply(s, steps[0]), steps[1..]);
      assert steps[..n][1..] == steps[1..][..n - 1] && steps[1..][n - 1] == steps[n];
    }
  }

  // ----- the histories -----

  datatype Actor = OfTask(i: nat) | OfSync(j: nat) | Newcomer

  /** Who takes a step. */
  function Taker(step: Step): Actor {
    match step
    case Refresh => Newcomer
    case Request => Newcomer
    case Look(i) => OfTask(i)
    case Swap(i) => OfTask(i)
    case Lock(i) => OfTask(i)
    case Unlock(i) => OfTask(i)
    case Clear(i) => OfTask(i)
    case StartSync => Newcomer
    case TrySync(j) => OfSync(j)
    case TakeSync(j) => OfSync(j)
    case SkipSync(j) => OfSync(j)
    case BeginSync(j) => OfSync(j)
    case EndSync(j) => OfSync(j)
    case LeaveSync(j) => OfSync(j)
  }

  /** The stage of a queued import, and what it says about the steps so far. */
  predicate TaskTells(p: Task, steps: seq<Step>, i: nat) {
    && (Look(i) in steps ==> !p.Looking?)
    && (Swap(i) in steps ==> !p.Looking? && !p.Asking?)
    && (p.Owns() || p.Done? ==> Swap(i) in steps)
    && (p.Refused? ==> Look(i) in steps || Swap(i) in steps)
    && (Lock(i) in steps <==> p.Importing? || p.Unlocked? || p.Done?)
    && (Unlock(i) in steps <==> p.Unlocked? || p.Done?)
    && (Clear(i) in steps <==> p.Done?)
  }

  /** The stage of a sync run, and what it says about the steps so far. */
  predicate SyncTells(p: SyncRun, steps: seq<Step>, j: nat) {
    && (TrySync(j) in steps <==> !p.Trying?)
    && (TakeSync(j) in steps <==> p.Holds() || p.Synced?)
    && (BeginSync(j) in steps ==> p.SyncImporting? || p.Leaving? || p.Synced?)
    && (p.SyncImporting? ==> BeginSync(j) in steps && EndSync(j) !in steps)
    && (p.Leaving? || p.Synced? <==> SkipSync(j) in steps || EndSync(j) in steps)
    && (EndSync(j) in steps ==> BeginSync(j) in steps)
    && !(SkipSync(j) in steps && BeginSync(j) in steps)
    && (LeaveSync(j) in steps <==> p.Synced?)
  }

  predicate NotYet(steps: seq<Step>, actor: Actor) {
    forall step <- steps :: Taker(step) != actor
  }

  predicate TaskHistory(s: State, steps: seq<Step>, i: nat) {
    if IsTask(s, i) then TaskTells(s.tasks[i], steps, i) else NotYet(steps, OfTask(i))
  }

  predicate SyncHistory(s: State, steps: seq<Step>, j: nat) {
    if IsSync(s, j) then SyncTells(s.syncs[j], steps, j) else NotYet(steps, OfSync(j))
  }

  ghost predicate OneMore(steps: seq<Step>, before: seq<Step>, last: Step) {
    forall x {:trigger x in steps} :: x in steps <==> x in before || x == last
  }

  lemma TaskStep(s: State, before: seq<Step>, steps: seq<Step>, last: Step, i: nat)
    requires Enabled(s, last) && OneMore(steps, before, last) && TaskHistory(s, before, i)
    ensures TaskHistory(Apply(s, last), steps, i)
  {}

  lemma SyncStep(s: State, before: seq<Step>, steps: seq<Step>, last: Step, j: nat)
    requires Enabled(s, last) && OneMore(steps, before, last) && SyncHistory(s, before, j)
    ensures SyncHistory(Apply(s, last), steps, j)
  {}

  lemma NothingYet(steps: seq<Step>, k: nat)
    requires steps == []
    ensures TaskHistory(INITIAL, steps, k) && SyncHistory(INITIAL, steps, k)
  {}

  /** Every stage of every reachable state tells its history. */
  lemma {:induction false} HistoryOf(steps: seq<Step>, k: nat)
    requires CanRun(INITIAL, steps)
    ensures TaskHistory(Execute(INITIAL, steps), steps, k) && SyncHistory(Execute(INITIAL, steps), steps, k)
    decreases |steps|
  {
    hide Enabled, Apply, TaskHistory, SyncHistory;
    if steps == [] {
      NothingYet(steps, k);
    } else {
      var n := |steps| - 1;
      RunToLast(INITIAL, steps);
      var s := Execute(INITIAL, steps[..n]);
      HistoryOf(steps[..n], k);
      forall x: Step
        ensures x in steps <==> x in steps[..n] || x == steps[n]
      {
        InLast(steps, x);
      }
      TaskStep(s, steps[..n], steps, steps[n], k);
      SyncStep(s, steps[..n], steps, steps[n], k);
    }
  }

  /**
    An import is done exactly if it took the lock, gave it back and cleared the flag; one that is refused takes none of
    these steps, and has looked at the flag or swapped it.
  */
  lemma FateOfImport(steps: seq<Step>, i: nat)
    requires CanRun(INITIAL, steps) && IsTask(Execute(INITIAL, steps), i)
    ensures var p := Execute(INITIAL, steps).tasks[i];
            && (UnderWay(Execute(INITIAL, steps), Queued(i)) <==> Lock(i) in steps && Unlock(i) !in steps)
            && (p.Unlocked? <==> Unlock(i) in steps && Clear(i) !in steps)
            && (p.Done? <==> Clear(i) in steps)
            && (Clear(i) in steps ==> Unlock(i) in steps) && (Unlock(i) in steps ==> Lock(i) in steps)
            && (p.Refused? ==> Lock(i) !in steps && (Look(i) in steps || Swap(i) in steps))
  {
    HistoryOf(steps, i);
  }

  /** A sync run imports between its own two steps, and lets go of its lock after it has done so or skipped it. */
  lemma FateOfSync(steps: seq<Step>, j: nat)
    requires CanRun(INITIAL, steps) && IsSync(Execute(INITIAL, steps), j)
    ensures var p := Execute(INITIAL, steps).syncs[j];
            && (UnderWay(Execute(INITIAL, steps), BySync(j)) <==> BeginSync(j) in steps && EndSync(j) !in steps)
            && (p.Holds() <==> TakeSync(j) in steps && LeaveSync(j) !in steps)
            && (p.Synced? <==> LeaveSync(j) in steps)
            && (LeaveSync(j) in steps ==> TakeSync(j) in steps && (SkipSync(j) in steps <==> EndSync(j) !in steps))
            && (p.Conflict? ==> TrySync(j) in steps && TakeSync(j) !in steps)
  {
    HistoryOf(steps, j);
  }

  // ----- answers stand -----

  /** An import that a refresh asked for looks at the flag first, one that an operator asked for never does. */
  predicate BegunBy(p: Task, steps: seq<Step>, refresh: bool, i: nat) {
    if refresh then p.Looking? || Look(i) in steps else !p.Looking? && Look(i) !in steps
  }

  lemma {:induction false} ImportBegins(steps: seq<Step>, k: nat)
    requires CanRun(INITIAL, steps) && k < |steps| && (steps[k].Refresh? || steps[k].Request?)
    ensures CanRun(INITIAL, steps[..k])
    ensures var i := |Execute(INITIAL, steps[..k]).tasks|;
            IsTask(Execute(INITIAL, steps), i)
            && BegunBy(Execute(INITIAL, steps).tasks[i], steps, steps[k].Refresh?, i)
    decreases |steps|
  {
    hide Enabled, Apply, BegunBy, TaskHistory, SyncHistory;
    var n := |steps| - 1;
    RunToLast(INITIAL, steps);
    var s := Execute(INITIAL, steps[..n]);
    assert steps == steps[..n] + [steps[n]];
    if k < n {
      ImportBegins(steps[..n], k);
      assert steps[..n][..k] == steps[..k];
      KeepsBegun(s, steps[..n], steps[n], steps[k].Refresh?, |Execute(INITIAL, steps[..k]).tasks|);
    } else {
      HistoryOf(steps[..n], |s.tasks|);
      BeginsNow(s, steps[..n], steps[n]);
    }
  }

  lemma KeepsBegun(s: State, before: seq<Step>, last: Step, refresh: bool, i: nat)
    requires Enabled(s, last) && IsTask(s, i) && BegunBy(s.tasks[i], before, refresh, i)
    ensures IsTask(Apply(s, last), i) && BegunBy(Apply(s, last).tasks[i], before + [last], refresh, i)
  {}

  lemma BeginsNow(s: State, before: seq<Step>, last: Step)
    requires Enabled(s, last) && (last.Refresh? || last.Request?) && TaskHistory(s, before, |s.tasks|)
    ensures var i := |s.tasks|;
            IsTask(Apply(s, last), i) && BegunBy(Apply(s, last).tasks[i], before + [last], last.Refresh?, i)
  {
    assert last.Request? ==> Taker(Look(|s.tasks|)) == OfTask(|s.tasks|);
  }

  /** What an import that looked at the flag, or swapped it, makes of a flag that was up or down. */
  predicate TaskSaw(p: Task, swapped: bool, up: bool) {
    if up then p.Refused?
    else if swapped then p.Owns() || p.Done?
    else !p.Looking?
  }

  predicate SyncSaw(p: SyncRun, locked: bool) {
    if locked then p.Conflict? else p.Waiting? || p.Holds() || p.Synced?
  }

  /**
    An import is refused for good if the flag was up when it looked or swapped, and owns the flag until it is done if
    its swap found the flag down.
  */
  lemma {:induction false} FlagAnswered(steps: seq<Step>, k: nat, i: nat)
    requires CanRun(INITIAL, steps) && k < |steps| && (steps[k] == Look(i) || steps[k] == Swap(i))
    ensures CanRun(INITIAL, steps[..k]) && IsTask(Execute(INITIAL, steps), i)
    ensures TaskSaw(Execute(INITIAL, steps).tasks[i], steps[k].Swap?, Execute(INITIAL, steps[..k]).running)
    decreases |steps|
  {
    hide Enabled, Apply, TaskSaw;
    var n := |steps| - 1;
    RunToLast(INITIAL, steps);
    if k < n {
      FlagAnswered(steps[..n], k, i);
      assert steps[..n][..k] == steps[..k];
      TaskKeepsSeen(Execute(INITIAL, steps[..n]), steps[n], i, steps[k].Swap?, Execute(INITIAL, steps[..k]).running);
    } else {
      TaskSees(Execute(INITIAL, steps[..n]), steps[n], i);
    }
  }

  lemma TaskSees(s: State, step: Step, i: nat)
    requires Enabled(s, step) && (step == Look(i) || step == Swap(i))
    ensures IsTask(Apply(s, step), i) && TaskSaw(Apply(s, step).tasks[i], step.Swap?, s.running)
  {}

  lemma TaskKeepsSeen(s: State, step: Step, i: nat, swapped: bool, up: bool)
    requires Enabled(s, step) && IsTask(s, i) && TaskSaw(s.tasks[i], swapped, up)
    ensures IsTask(Apply(s, step), i) && TaskSaw(Apply(s, step).tasks[i], swapped, up)
  {}

  /** A sync run is refused for good exactly if the sync lock was held when it tried it. */
  lemma {:induction false} SyncAnswered(steps: seq<Step>, k: nat, j: nat)
    requires CanRun(INITIAL, steps) && k < |steps| && steps[k] == TrySync(j)
    ensures CanRun(INITIAL, steps[..k]) && IsSync(Execute(INITIAL, steps), j)
    ensures SyncSaw(Execute(INITIAL, steps).syncs[j], Execute(INITIAL, steps[..k]).syncLock.Some?)
    decreases |steps|
  {
    hide Enabled, Apply, SyncSaw;
    var n := |steps| - 1;
    RunToLast(INITIAL, steps);
    if k < n {
      SyncAnswered(steps[..n], k, j);
      assert steps[..n][..k] == steps[..k];
      SyncKeepsSeen(Execute(INITIAL, steps[..n]), steps[n], j, Execute(INITIAL, steps[..k]).syncLock.Some?);
    } else {
      SyncSees(Execute(INITIAL, steps[..n]), j);
    }
  }

  lemma SyncSees(s: State, j: nat)
    requires Enabled(s, TrySync(j))
    ensures IsSync(Apply(s, TrySync(j)), j) && SyncSaw(Apply(s, TrySync(j)).syncs[j], s.syncLock.Some?)
  {}

  lemma SyncKeepsSeen(s: State, step: Step, j: nat, locked: bool)
    requires Enabled(s, step) && IsSync(s, j) && SyncSaw(s.syncs[j], locked)
    ensures IsSync(Apply(s, step), j) && SyncSaw(Apply(s, step).syncs[j], locked)
  {}

  // ----- the sync lock -----

  /** How many steps are left at most before the sync lock falls. */
  function Left(p: SyncRun): nat {
    if p.Collecting? then 3 else if p.SyncImporting? then 2 else if p.Leaving? then 1 else 0
  }

  /** The step a holder of the sync lock takes next; whether collection succeeded decides if it imports. */
  function NextSync(p: SyncRun, j: nat, collected: bool): Step {
    if p.Collecting? then if collected then BeginSync(j) else SkipSync(j)
    else if p.SyncImporting? then EndSync(j) else LeaveSync(j)
  }

  /**
    Whatever collecting gives, the holder of the sync lock can always go on, and is at most three steps from letting go
    of the lock; with the lock free, any waiting run can take it.
  */
  lemma SyncRunsDown(steps: seq<Step>, j: nat, collected: bool)
    requires CanRun(INITIAL, steps) && IsSync(Execute(INITIAL, steps), j)
    ensures var s := Execute(INITIAL, steps);
            var step := NextSync(s.syncs[j], j, collected);
            && (s.syncs[j].Holds() ==>
                  && Enabled(s, step)
                  && Left(Apply(s, step).syncs[j]) < Left(s.syncs[j]) <= 3
                  && (Left(Apply(s, step).syncs[j]) == 0 <==> Apply(s, step).syncLock.None?))
            && (s.syncs[j].Waiting? ==> (Enabled(s, TakeSync(j)) <==> s.syncLock.None?))
  {
    var owner := RunKeeps(INITIAL, None, steps);
    var s := Execute(INITIAL, steps);
    if s.syncs[j].Holds() {
      StepKeepsSync(s, NextSync(s.syncs[j], j, collected));
    }
  }
}
