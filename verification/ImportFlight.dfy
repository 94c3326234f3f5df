/**
  The single-flight flag and the lock around queued report imports, the refresh that looks at the flag first, and the
  sync runs, which import under a lock of their own. Every atomic action is one step; runs interleave them in any order.
*/
module ImportFlight {
  import opened Common

  /**
    Where a queued import stands. A refresh starts by looking at the flag, a request by an operator at the swap; from
    `Spawned` to `Unlocked` the import owns the flag.
  */
  datatype Task = Looking | Asking | Refused | Spawned | Importing | Unlocked | Done
  {
    predicate Owns() {
      Spawned? || Importing? || Unlocked?
    }

    function Rank(): nat {
      match this
      case Spawned => 3
      case Importing => 2
      case Unlocked => 1
      case _ => 0
    }
  }

  /**
    A sync run tries the sync lock and lets go of it at once; unless that fails, its task waits for the lock and holds
    it through collection and import. The import uses neither the flag nor the lock of the queued ones.
  */
  datatype SyncRun = Trying | Conflict | Waiting | Collecting | SyncImporting | Leaving | Synced
  {
    predicate Holds() {
      Collecting? || SyncImporting? || Leaving?
    }
  }

  datatype State = State(running: bool, lock: Option<nat>, tasks: seq<Task>, syncLock: Option<nat>, syncs: seq<SyncRun>)

  const INITIAL := State(false, None, [], None, [])

  datatype Step =
    | Refresh
    | Request
    | Look(i: nat)
    | Swap(i: nat)
    | Lock(i: nat)
    | Unlock(i: nat)
    | Clear(i: nat)
    | StartSync
    | TrySync(j: nat)
    | TakeSync(j: nat)
    | SkipSync(j: nat)
    | BeginSync(j: nat)
    | EndSync(j: nat)
    | LeaveSync(j: nat)

  predicate IsTask(s: State, i: nat) {
    i < |s.tasks|
  }

  predicate IsSync(s: State, j: nat) {
    j < |s.syncs|
  }

  predicate Enabled(s: State, step: Step) {
    match step
    case Refresh => true
    case Request => true
    case Look(i) => IsTask(s, i) && s.tasks[i].Looking?
    case Swap(i) => IsTask(s, i) && s.tasks[i].Asking?
    case Lock(i) => IsTask(s, i) && s.tasks[i].Spawned? && s.lock.None?
    case Unlock(i) => IsTask(s, i) && s.tasks[i].Importing?
    case Clear(i) => IsTask(s, i) && s.tasks[i].Unlocked?
    case StartSync => true
    case TrySync(j) => IsSync(s, j) && s.syncs[j].Trying?
    case TakeSync(j) => IsSync(s, j) && s.syncs[j].Waiting? && s.syncLock.None?
    case SkipSync(j) => IsSync(s, j) && s.syncs[j].Collecting?
    case BeginSync(j) => IsSync(s, j) && s.syncs[j].Collecting?
    case EndSync(j) => IsSync(s, j) && s.syncs[j].SyncImporting?
    case LeaveSync(j) => IsSync(s, j) && s.syncs[j].Leaving?
  }

  function Apply(s: State, step: Step): State
    requires Enabled(s, step)
  {
    match step
    case Refresh => s.(tasks := s.tasks + [Looking])
    case Request => s.(tasks := s.tasks + [Asking])
    case Look(i) => s.(tasks := s.tasks[i := if s.running then Refused else Asking])
    case Swap(i) => s.(running := true, tasks := s.tasks[i := if s.running then Refused else Spawned])
    case Lock(i) => s.(lock := Some(i), tasks := s.tasks[i := Importing])
    case Unlock(i) => s.(lock := None, tasks := s.tasks[i := Unlocked])
    case Clear(i) => s.(running := false, tasks := s.tasks[i := Done])
    case StartSync => s.(syncs := s.syncs + [Trying])
    case TrySync(j) => s.(syncs := s.syncs[j := if s.syncLock.Some? then Conflict else Waiting])
    case TakeSync(j) => s.(syncLock := Some(j), syncs := s.syncs[j := Collecting])
    case SkipSync(j) => s.(syncs := s.syncs[j := Leaving])
    case BeginSync(j) => s.(syncs := s.syncs[j := SyncImporting])
    case EndSync(j) => s.(syncs := s.syncs[j := Leaving])
    case LeaveSync(j) => s.(syncLock := None, syncs := s.syncs[j := Synced])
  }

  predicate CanRun(s: State, steps: seq<Step>)
    decreases |steps|
  {
    steps == [] || (Enabled(s, steps[0]) && CanRun(Apply(s, steps[0]), steps[1..]))
  }

  function Execute(s: State, steps: seq<Step>): State
    requires CanRun(s, steps)
    decreases |steps|
  {
    if steps == [] then s else Execute(Apply(s, steps[0]), steps[1..])
  }

  // ----- the invariant -----

  /** Exactly the sync run that holds the sync lock is between taking and leaving it. */
  predicate SyncIsHeld(s: State) {
    && (s.syncLock.Some? ==> IsSync(s, s.syncLock.value))
    && (forall j :: 0 <= j < |s.syncs| ==> (s.syncs[j].Holds() <==> s.syncLock == Some(j)))
  }

  /** `owner` alone owns the flag, which is up exactly if there is one, and holds the lock exactly while it imports. */
  predicate FlagIsOwned(s: State, owner: Option<nat>) {
    && s.running == owner.Some?
    && (owner.Some? ==> IsTask(s, owner.value))
    && (forall i :: 0 <= i < |s.tasks| ==> (s.tasks[i].Owns() <==> owner == Some(i)))
    && s.lock == if owner.Some? && s.tasks[owner.value].Importing? then owner else None
  }

  predicate Inv(s: State, owner: Option<nat>) {
    FlagIsOwned(s, owner) && SyncIsHeld(s)
  }

  function NextOwner(s: State, owner: Option<nat>, step: Step): Option<nat> {
    match step
    case Swap(i) => if s.running then owner else Some(i)
    case Clear(_) => None
    case _ => owner
  }

  lemma StepKeepsFlag(s: State, owner: Option<nat>, step: Step)
    requires FlagIsOwned(s, owner) && Enabled(s, step)
    ensures FlagIsOwned(Apply(s, step), NextOwner(s, owner, step))
  {}

  lemma StepKeepsSync(s: State, step: Step)
    requires SyncIsHeld(s) && Enabled(s, step)
    ensures SyncIsHeld(Apply(s, step))
  {}

  lemma StepKeeps(s: State, owner: Option<nat>, step: Step)
    requires Inv(s, owner) && Enabled(s, step)
    ensures Inv(Apply(s, step), NextOwner(s, owner, step))
  {
    hide FlagIsOwned, SyncIsHeld, Apply, NextOwner;
    StepKeepsFlag(s, owner, step);
    StepKeepsSync(s, step);
  }

  lemma {:induction false} RunKeeps(s: State, owner: Option<nat>, steps: seq<Step>) returns (last: Option<nat>)
    requires Inv(s, owner) && CanRun(s, steps)
    ensures Inv(Execute(s, steps), last)
    decreases |steps|
  {
    if steps == [] {
      last := owner;
    } else {
      StepKeeps(s, owner, steps[0]);
      last := RunKeeps(Apply(s, steps[0]), NextOwner(s, owner, steps[0]), steps[1..]);
    }
  }

  // ----- over all runs -----

  /**
    The import flag is up exactly if a queued import exists, there is never a second, and none ever waits for the
    lock.
  */
  lemma FlagMeansOneImport(steps: seq<Step>)
    requires CanRun(INITIAL, steps)
    ensures var s := Execute(INITIAL, steps);
            && (s.running <==> exists i :: 0 <= i < |s.tasks| && s.tasks[i].Owns())
            && (forall i, k | 0 <= i < |s.tasks| && 0 <= k < |s.tasks| ::
                  s.tasks[i].Owns() && s.tasks[k].Owns() ==> i == k)
            && (forall i | 0 <= i < |s.tasks| && s.tasks[i].Spawned? :: Enabled(s, Lock(i)))
  {
    var owner := RunKeeps(INITIAL, None, steps);
    var s := Execute(INITIAL, steps);
    if s.running {
      assert s.tasks[owner.value].Owns();
    }
  }

  /** A queued import is refused exactly if another one owns the flag, at the refresh's look or at the swap. */
  lemma RefusedIff(steps: seq<Step>, step: Step, i: nat)
    requires CanRun(INITIAL, steps) && Enabled(Execute(INITIAL, steps), step) && (step == Look(i) || step == Swap(i))
    ensures var s := Execute(INITIAL, steps);
            Apply(s, step).tasks[i].Refused? <==> exists k :: 0 <= k < |s.tasks| && k != i && s.tasks[k].Owns()
  {
    var owner := RunKeeps(INITIAL, None, steps);
    var s := Execute(INITIAL, steps);
    if s.running {
      assert s.tasks[owner.value].Owns() && owner.value != i;
    }
  }

  /**
    A request for a sync run is refused exactly if another run holds the sync lock; one that only waits for the lock
    refuses nobody.
  */
  lemma ConflictIff(steps: seq<Step>, j: nat)
    requires CanRun(INITIAL, steps) && Enabled(Execute(INITIAL, steps), TrySync(j))
    ensures var s := Execute(INITIAL, steps);
            Apply(s, TrySync(j)).syncs[j].Conflict? <==> exists k :: 0 <= k < |s.syncs| && k != j && s.syncs[k].Holds()
  {
    var owner := RunKeeps(INITIAL, None, steps);
    var s := Execute(INITIAL, steps);
    if s.syncLock.Some? {
      assert s.syncs[s.syncLock.value].Holds() && s.syncLock.value != j;
    }
  }

  /** The step a task that owns the flag takes next. */
  function NextStep(task: Task, i: nat): Step {
    if task.Spawned? then Lock(i) else if task.Importing? then Unlock(i) else Clear(i)
  }

  /**
    Its owner can always go on, whether its import succeeds or fails, and is at most three steps from clearing the
    flag.
  */
  lemma OwnerRunsDown(steps: seq<Step>, i: nat)
    requires CanRun(INITIAL, steps) && IsTask(Execute(INITIAL, steps), i) && Execute(INITIAL, steps).tasks[i].Owns()
    ensures var s := Execute(INITIAL, steps);
            var step := NextStep(s.tasks[i], i);
            && Enabled(s, step)
            && Apply(s, step).tasks[i].Rank() < s.tasks[i].Rank() <= 3
            && (Apply(s, step).tasks[i].Rank() == 0 <==> !Apply(s, step).running)
  {
    var owner := RunKeeps(INITIAL, None, steps);
    StepKeeps(Execute(INITIAL, steps), owner, NextStep(Execute(INITIAL, steps).tasks[i], i));
  }

  // ----- imports under way at the same time -----

  datatype Import = Queued(i: nat) | BySync(j: nat)

  predicate UnderWay(s: State, m: Import) {
    match m
    case Queued(i) => IsTask(s, i) && s.tasks[i].Importing?
    case BySync(j) => IsSync(s, j) && s.syncs[j].SyncImporting?
  }

  predicate Overlapping(s: State, i: nat, j: nat) {
    UnderWay(s, Queued(i)) && UnderWay(s, BySync(j))
  }

  /** Of two imports under way at once, one is queued and the other a sync run's. */
  lemma OneOfEach(steps: seq<Step>, m: Import, n: Import)
    requires CanRun(INITIAL, steps) && m != n
    requires UnderWay(Execute(INITIAL, steps), m) && UnderWay(Execute(INITIAL, steps), n)
    ensures m.BySync? <==> n.Queued?
  {
    var owner := RunKeeps(INITIAL, None, steps);
  }

  /** Two imports are under way at once exactly if the import lock is held while the holder of the sync lock imports. */
  lemma OverlapIff(steps: seq<Step>)
    requires CanRun(INITIAL, steps)
    ensures var s := Execute(INITIAL, steps);
            (exists m, n :: m != n && UnderWay(s, m) && UnderWay(s, n))
            <==> s.lock.Some? && s.syncLock.Some? && UnderWay(s, BySync(s.syncLock.value))
  {
    var owner := RunKeeps(INITIAL, None, steps);
    var s := Execute(INITIAL, steps);
    if m, n :| m != n && UnderWay(s, m) && UnderWay(s, n) {
      OneOfEach(steps, m, n);
    }
    if s.lock.Some? && s.syncLock.Some? && UnderWay(s, BySync(s.syncLock.value)) {
      assert UnderWay(s, Queued(s.lock.value));
    }
  }

  predicate NoneImports(s: State) {
    forall j :: 0 <= j < |s.syncs| ==> !s.syncs[j].SyncImporting?
  }

  lemma {:induction false} NoSyncImports(s: State, steps: seq<Step>)
    requires CanRun(s, steps) && NoneImports(s) && forall step <- steps :: !step.BeginSync?
    ensures NoneImports(Execute(s, steps))
    decreases |steps|
  {
    if steps != [] {
      assert steps[0] in steps && forall step <- steps[1..] :: step in steps;
      NoSyncImports(Apply(s, steps[0]), steps[1..]);
    }
  }

  /** In a run without an import by a sync run, imports are serial. */
  lemma SerialWithoutSyncs(steps: seq<Step>, m: Import, n: Import)
    requires CanRun(INITIAL, steps) && forall step <- steps :: !step.BeginSync?
    requires UnderWay(Execute(INITIAL, steps), m) && UnderWay(Execute(INITIAL, steps), n)
    ensures m == n
  {
    NoSyncImports(INITIAL, steps);
    if m != n {
      OneOfEach(steps, m, n);
    }
  }

  // ----- an overlap is always ahead -----

  lemma {:induction false} RunOn(s: State, first: seq<Step>, rest: seq<Step>)
    requires CanRun(s, first) && CanRun(Execute(s, first), rest)
    ensures CanRun(s, first + rest) && Execute(s, first + rest) == Execute(Execute(s, first), rest)
    decreases |first|
  {
    if first == [] {
      assert first + rest == rest;
    } else {
      assert (first + rest)[1..] == first[1..] + rest;
      RunOn(Apply(s, first[0]), first[1..], rest);
    }
  }

  lemma OneStep(s: State, step: Step, rest: seq<Step>)
    requires Enabled(s, step) && CanRun(Apply(s, step), rest)
    ensures CanRun(s, [step] + rest) && Execute(s, [step] + rest) == Execute(Apply(s, step), rest)
  {
    assert ([step] + rest)[1..] == rest;
  }

  /** A run that ends with the new state of its three steps. */
  lemma ThreeSteps(s: State, a: Step, b: Step, c: Step)
    requires Enabled(s, a) && Enabled(Apply(s, a), b) && Enabled(Apply(Apply(s, a), b), c)
    ensures CanRun(s, [a] + ([b] + ([c] + [])))
    ensures Execute(s, [a] + ([b] + ([c] + []))) == Apply(Apply(Apply(s, a), b), c)
  {
    OneStep(Apply(Apply(s, a), b), c, []);
    OneStep(Apply(s, a), b, [c] + []);
    OneStep(s, a, [b] + ([c] + []));
  }

  /** With the flag down, a request gets an import under way. */
  lemma FreshImport(s: State) returns (rest: seq<Step>, i: nat)
    requires Inv(s, None)
    ensures CanRun(s, rest) && UnderWay(Execute(s, rest), Queued(i)) && Inv(Execute(s, rest), Some(i))
    ensures Execute(s, rest).syncs == s.syncs
  {
    i := |s.tasks|;
    rest := [Request] + ([Swap(i)] + ([Lock(i)] + []));
    ThreeSteps(s, Request, Swap(i), Lock(i));
    StepKeeps(s, None, Request);
    StepKeeps(Apply(s, Request), None, Swap(i));
    StepKeeps(Apply(Apply(s, Request), Swap(i)), Some(i), Lock(i));
  }

  /** Whatever the flag's owner is doing, a queued import can get under way without touching the sync runs. */
  lemma ReachQueued(s: State, owner: Option<nat>) returns (rest: seq<Step>, i: nat)
    requires Inv(s, owner)
    ensures CanRun(s, rest) && UnderWay(Execute(s, rest), Queued(i)) && Inv(Execute(s, rest), Some(i))
    ensures Execute(s, rest).syncs == s.syncs
  {
    if owner.None? {
      rest, i := FreshImport(s);
    } else if s.tasks[owner.value].Importing? {
      rest, i := [], owner.value;
    } else if s.tasks[owner.value].Spawned? {
      rest, i := [Lock(owner.value)] + [], owner.value;
      OneStep(s, Lock(i), []);
      StepKeeps(s, owner, Lock(i));
    } else {
      var clear := Clear(owner.value);
      StepKeeps(s, owner, clear);
      rest, i := FreshImport(Apply(s, clear));
      OneStep(s, clear, rest);
      rest := [clear] + rest;
    }
  }

  /** With the sync lock free, a sync run gets to its import. */
  lemma FreshSync(s: State) returns (rest: seq<Step>, j: nat)
    requires SyncIsHeld(s) && s.syncLock.None?
    ensures CanRun(s, rest) && UnderWay(Execute(s, rest), BySync(j)) && Execute(s, rest).tasks == s.tasks
  {
    j := |s.syncs|;
    var begun := Apply(s, StartSync);
    ThreeSteps(begun, TrySync(j), TakeSync(j), BeginSync(j));
    OneStep(s, StartSync, [TrySync(j)] + ([TakeSync(j)] + ([BeginSync(j)] + [])));
    rest := [StartSync] + ([TrySync(j)] + ([TakeSync(j)] + ([BeginSync(j)] + [])));
  }

  /** Whatever the sync runs are doing, one can get to its import without touching the queued ones. */
  lemma ReachSync(s: State) returns (rest: seq<Step>, j: nat)
    requires SyncIsHeld(s)
    ensures CanRun(s, rest) && UnderWay(Execute(s, rest), BySync(j)) && Execute(s, rest).tasks == s.tasks
  {
    if s.syncLock.None? {
      rest, j := FreshSync(s);
    } else {
      j := s.syncLock.value;
      if s.syncs[j].SyncImporting? {
        rest := [];
      } else if s.syncs[j].Collecting? {
        OneStep(s, BeginSync(j), []);
        rest := [BeginSync(j)] + [];
      } else {
        var leave := LeaveSync(j);
        rest, j := FreshSync(Apply(s, leave));
        OneStep(s, leave, rest);
        rest := [leave] + rest;
      }
    }
  }

  /** From every reachable state some continuation has a queued import and a sync run's under way at once. */
  lemma OverlapAhead(steps: seq<Step>) returns (rest: seq<Step>, i: nat, j: nat)
    requires CanRun(INITIAL, steps)
    ensures CanRun(Execute(INITIAL, steps), rest) && Overlapping(Execute(Execute(INITIAL, steps), rest), i, j)
  {
    var s := Execute(INITIAL, steps);
    var owner := RunKeeps(INITIAL, None, steps);
    var queue, sync;
    queue, i := ReachQueued(s, owner);
    sync, j := ReachSync(Execute(s, queue));
    RunOn(s, queue, sync);
    rest := queue + sync;
  }

  /** From the start: a run in which two imports are under way at once. */
  lemma SyncOverlaps() returns (steps: seq<Step>)
    ensures CanRun(INITIAL, steps) && Overlapping(Execute(INITIAL, steps), 0, 0)
  {
    var queued := [Request] + ([Swap(0)] + ([Lock(0)] + []));
    var synced := [StartSync] + ([TrySync(0)] + ([TakeSync(0)] + ([BeginSync(0)] + [])));
    ThreeSteps(INITIAL, Request, Swap(0), Lock(0));
    var s := Execute(INITIAL, queued);
    ThreeSteps(Apply(s, StartSync), TrySync(0), TakeSync(0), BeginSync(0));
    OneStep(s, StartSync, [TrySync(0)] + ([TakeSync(0)] + ([BeginSync(0)] + [])));
    RunOn(INITIAL, queued, synced);
    steps := queued + synced;
  }
}
