/**
  The single-flight flag of the live summary: any number of requests race for one atomic flag, the winner's task
  writes its result under a mutex and then clears the flag, and any number of page loads read flag and result under
  the same mutex. Every atomic action is one step; runs interleave them in any order.
*/
module SingleFlight {
  import opened Common

  datatype Outcome = Produced(text: string) | Failed(error: string)

  /** What a generation stores for its outcome. */
  function Stored(outcome: Outcome): string {
    match outcome
    case Produced(text) => text
    case Failed(error) => "Error generating summary: " + error
  }

  datatype Answer = QueryError | NoEvents | Events

  /** Where a generate request stands; from `Fetching` on, until `Refused` or `Completed`, it owns the flag. */
  datatype Phase =
    | Arrived
    | Rejected
    | Fetching
    | GivingUp
    | Refused
    | Generating
    | Finished(text: string)
    | Writing(text: string)
    | Written(text: string)
    | Clearing(text: string)
    | Completed(text: string)
  {
    predicate Owns() {
      Fetching? || GivingUp? || Generating? || Finished? || Writing? || Written? || Clearing?
    }

    predicate HoldsLock() {
      Writing? || Written?
    }

    /** The result is stored, the flag not yet cleared. */
    predicate HasWritten() {
      Written? || Clearing?
    }

    function Rank(): nat {
      match this
      case Fetching => 6
      case Generating => 5
      case Finished(_) => 4
      case Writing(_) => 3
      case Written(_) => 2
      case Clearing(_) => 1
      case GivingUp => 1
      case _ => 0
    }
  }

  datatype Shown = Loading | Summary(text: string) | Nothing

  datatype Page = Opened | Locked | Loaded(running: bool) | Rendered(shown: Shown) | Closed(shown: Shown)
  {
    predicate HoldsLock() {
      Locked? || Loaded? || Rendered?
    }

    function Rank(): nat {
      match this
      case Locked => 3
      case Loaded(_) => 2
      case Rendered(_) => 1
      case _ => 0
    }
  }

  datatype Holder = Request(i: nat) | Reader(j: nat)

  /** `completed` lists the stored texts of the generations whose task has cleared the flag, oldest first. */
  datatype State = State(
    running: bool,
    summary: Option<string>,
    lock: Option<Holder>,
    requests: seq<Phase>,
    pages: seq<Page>,
    completed: seq<string>
  )

  const INITIAL := State(false, None, None, [], [], [])

  function Last(completed: seq<string>): Option<string> {
    if completed == [] then None else Some(completed[|completed| - 1])
  }

  /** The summary page for a loaded flag and the guarded summary. */
  function Render(running: bool, summary: Option<string>): Shown {
    if running then Loading else if summary.Some? then Summary(summary.value) else Nothing
  }

  datatype Step =
    | Arrive
    | Swap(i: nat)
    | Query(i: nat, answer: Answer)
    | GiveUp(i: nat)
    | Finish(i: nat, outcome: Outcome)
    | Acquire(i: nat)
    | Write(i: nat)
    | Release(i: nat)
    | Clear(i: nat)
    | Open
    | Lock(j: nat)
    | Load(j: nat)
    | Show(j: nat)
    | Unlock(j: nat)

  predicate HasRequest(s: State, i: nat) {
    i < |s.requests|
  }

  predicate HasPage(s: State, j: nat) {
    j < |s.pages|
  }

  predicate Enabled(s: State, step: Step) {
    match step
    case Arrive => true
    case Swap(i) => HasRequest(s, i) && s.requests[i].Arrived?
    case Query(i, _) => HasRequest(s, i) && s.requests[i].Fetching?
    case GiveUp(i) => HasRequest(s, i) && s.requests[i].GivingUp?
    case Finish(i, _) => HasRequest(s, i) && s.requests[i].Generating?
    case Acquire(i) => HasRequest(s, i) && s.requests[i].Finished? && s.lock.None?
    case Write(i) => HasRequest(s, i) && s.requests[i].Writing?
    case Release(i) => HasRequest(s, i) && s.requests[i].Written?
    case Clear(i) => HasRequest(s, i) && s.requests[i].Clearing?
    case Open => true
    case Lock(j) => HasPage(s, j) && s.pages[j].Opened? && s.lock.None?
    case Load(j) => HasPage(s, j) && s.pages[j].Locked?
    case Show(j) => HasPage(s, j) && s.pages[j].Loaded?
    case Unlock(j) => HasPage(s, j) && s.pages[j].Rendered?
  }

  function Apply(s: State, step: Step): State
    requires Enabled(s, step)
  {
    match step
    case Arrive => s.(requests := s.requests + [Arrived])
    case Swap(i) =>
      s.(running := true, requests := s.requests[i := if s.running then Rejected else Fetching])
    case Query(i, answer) => s.(requests := s.requests[i := if answer.Events? then Generating else GivingUp])
    case GiveUp(i) => s.(running := false, requests := s.requests[i := Refused])
    case Finish(i, outcome) => s.(requests := s.requests[i := Finished(Stored(outcome))])
    case Acquire(i) => s.(lock := Some(Request(i)), requests := s.requests[i := Writing(s.requests[i].text)])
    case Write(i) =>
      s.(summary := Some(s.requests[i].text), requests := s.requests[i := Written(s.requests[i].text)])
    case Release(i) => s.(lock := None, requests := s.requests[i := Clearing(s.requests[i].text)])
    case Clear(i) =>
      s.(running := false, requests := s.requests[i := Completed(s.requests[i].text)],
         completed := s.completed + [s.requests[i].text])
    case Open => s.(pages := s.pages + [Opened])
    case Lock(j) => s.(lock := Some(Reader(j)), pages := s.pages[j := Locked])
    case Load(j) => s.(pages := s.pages[j := Loaded(s.running)])
    case Show(j) => s.(pages := s.pages[j := Rendered(Render(s.pages[j].running, s.summary))])
    case Unlock(j) => s.(lock := None, pages := s.pages[j := Closed(s.pages[j].shown)])
  }

  predicate CanRun(s: State, steps: seq<Step>)
    decreases |steps|
  {
    steps == [] || (Enabled(s, steps[0]) && CanRun(Apply(s, steps[0]), steps[1..]))
  }

  function Execute(s: State, steps: seq<Step>): State
    requires CanRun(s, steps)
    decreases |steps|
  {
    if steps == [] then s else Execute(Apply(s, steps[0]), steps[1..])
  }

  // ----- the invariant -----

  /** The flag is up exactly if there is an owner, and `owner` is the only one. */
  predicate OwnerIs(s: State, owner: Option<nat>) {
    && s.running == owner.Some?
    && (owner.Some? ==> HasRequest(s, owner.value))
    && forall i :: 0 <= i < |s.requests| ==> (s.requests[i].Owns() <==> owner == Some(i))
  }

  predicate RequestsHold(s: State) {
    && (s.lock.Some? && s.lock.value.Request? ==> HasRequest(s, s.lock.value.i))
    && (forall i :: 0 <= i < |s.requests| ==> (s.requests[i].HoldsLock() <==> s.lock == Some(Request(i))))
  }

  predicate PagesHold(s: State) {
    && (s.lock.Some? && s.lock.value.Reader? ==> HasPage(s, s.lock.value.j))
    && (forall j :: 0 <= j < |s.pages| ==> (s.pages[j].HoldsLock() <==> s.lock == Some(Reader(j))))
  }

  /** Exactly the holder of the lock is at a point where it holds it. */
  predicate LockIsHeld(s: State) {
    RequestsHold(s) && PagesHold(s)
  }

  predicate Unreleased(s: State, owner: Option<nat>)
    requires OwnerIs(s, owner)
  {
    owner.Some? && s.requests[owner.value].HasWritten()
  }

  /** The stored summary is the owner's once it has written, and the last completed one until then. */
  predicate SummaryIs(s: State, owner: Option<nat>)
    requires OwnerIs(s, owner)
  {
    s.summary == if Unreleased(s, owner) then Some(s.requests[owner.value].text) else Last(s.completed)
  }

  /** A reader that saw the flag down keeps every owner from writing. */
  predicate ReadersSafe(s: State, owner: Option<nat>)
    requires OwnerIs(s, owner)
  {
    forall j :: 0 <= j < |s.pages| && s.pages[j] == Loaded(false) ==> !Unreleased(s, owner)
  }

  predicate Inv(s: State, owner: Option<nat>) {
    OwnerIs(s, owner) && LockIsHeld(s) && SummaryIs(s, owner) && ReadersSafe(s, owner)
  }

  function NextOwner(s: State, owner: Option<nat>, step: Step): Option<nat> {
    match step
    case Swap(i) => if s.running then owner else Some(i)
    case GiveUp(_) => None
    case Clear(_) => None
    case _ => owner
  }

  lemma StepKeepsOwner(s: State, owner: Option<nat>, step: Step)
    requires OwnerIs(s, owner) && Enabled(s, step)
    ensures OwnerIs(Apply(s, step), NextOwner(s, owner, step))
  {}

  lemma StepKeepsRequests(s: State, step: Step)
    requires LockIsHeld(s) && Enabled(s, step)
    ensures RequestsHold(Apply(s, step))
  {}

  lemma StepKeepsPages(s: State, step: Step)
    requires LockIsHeld(s) && Enabled(s, step)
    ensures PagesHold(Apply(s, step))
  {}

  lemma StepKeepsLock(s: State, step: Step)
    requires LockIsHeld(s) && Enabled(s, step)
    ensures LockIsHeld(Apply(s, step))
  {
    StepKeepsRequests(s, step);
    StepKeepsPages(s, step);
  }

  lemma StepKeepsSummary(s: State, owner: Option<nat>, step: Step)
    requires Inv(s, owner) && Enabled(s, step) && OwnerIs(Apply(s, step), NextOwner(s, owner, step))
    ensures SummaryIs(Apply(s, step), NextOwner(s, owner, step))
  {}

  lemma StepKeepsReaders(s: State, owner: Option<nat>, step: Step)
    requires Inv(s, owner) && Enabled(s, step) && OwnerIs(Apply(s, step), NextOwner(s, owner, step))
    ensures ReadersSafe(Apply(s, step), NextOwner(s, owner, step))
  {}

  lemma StepKeeps(s: State, owner: Option<nat>, step: Step)
    requires Inv(s, owner) && Enabled(s, step)
    ensures Inv(Apply(s, step), NextOwner(s, owner, step))
  {
    StepKeepsOwner(s, owner, step);
    StepKeepsLock(s, step);
    StepKeepsSummary(s, owner, step);
    StepKeepsReaders(s, owner, step);
  }

  lemma {:induction false} RunKeeps(s: State, owner: Option<nat>, steps: seq<Step>) returns (last: Option<nat>)
    requires Inv(s, owner) && CanRun(s, steps)
    ensures Inv(Execute(s, steps), last)
    decreases |steps|
  {
    if steps == [] {
      last := owner;
    } else {
      StepKeeps(s, owner, steps[0]);
      last := RunKeeps(Apply(s, steps[0]), NextOwner(s, owner, steps[0]), steps[1..]);
    }
  }

  // ----- over all runs -----

  /** At every moment of every run the flag is up exactly if someone owns it, and never do two own it. */
  lemma FlagMeansOneOwner(steps: seq<Step>)
    requires CanRun(INITIAL, steps)
    ensures var s := Execute(INITIAL, steps);
            && (s.running <==> exists i :: 0 <= i < |s.requests| && s.requests[i].Owns())
            && (forall i, k | 0 <= i < |s.requests| && 0 <= k < |s.requests| ::
                  s.requests[i].Owns() && s.requests[k].Owns() ==> i == k)
  {
    var owner := RunKeeps(INITIAL, None, steps);
    var s := Execute(INITIAL, steps);
    if s.running {
      assert s.requests[owner.value].Owns();
    }
  }

  /**
    The flag falls in exactly the steps in which the owner stops owning, and rises only for a request that begins to.
  */
  lemma FlagFollowsOwner(steps: seq<Step>, step: Step)
    requires CanRun(INITIAL, steps) && Enabled(Execute(INITIAL, steps), step)
    ensures var s := Execute(INITIAL, steps);
            var t := Apply(s, step);
            && (s.running && !t.running <==>
                exists i :: 0 <= i < |s.requests| && s.requests[i].Owns() && !t.requests[i].Owns())
            && (!s.running && t.running <==>
                exists i :: 0 <= i < |s.requests| && !s.requests[i].Owns() && t.requests[i].Owns())
  {
    var owner := RunKeeps(INITIAL, None, steps);
    var s := Execute(INITIAL, steps);
    StepKeepsOwner(s, owner, step);
    var t := Apply(s, step);
    var next := NextOwner(s, owner, step);
    if s.running && !t.running {
      assert s.requests[owner.value].Owns() && !t.requests[owner.value].Owns();
    }
    if !s.running && t.running {
      assert !s.requests[next.value].Owns() && t.requests[next.value].Owns();
    }
  }

  /**
    A page that does not say it is loading shows the summary of the last completed generation, or that there is none.
  */
  lemma PageShowsLastCompletion(steps: seq<Step>, j: nat)
    requires CanRun(INITIAL, steps) && Enabled(Execute(INITIAL, steps), Show(j))
    ensures var s := Execute(INITIAL, steps);
            var shown := Apply(s, Show(j)).pages[j].shown;
            shown == if s.pages[j].running then Loading else Render(false, Last(s.completed))
  {
    var owner := RunKeeps(INITIAL, None, steps);
    var s := Execute(INITIAL, steps);
    assert s.pages[j] == Loaded(s.pages[j].running);
  }

  /** A request is turned away exactly if another one owns the flag at that moment. */
  lemma RejectedIff(steps: seq<Step>, i: nat)
    requires CanRun(INITIAL, steps) && Enabled(Execute(INITIAL, steps), Swap(i))
    ensures var s := Execute(INITIAL, steps);
            Apply(s, Swap(i)).requests[i].Rejected?
            <==> exists k :: 0 <= k < |s.requests| && k != i && s.requests[k].Owns()
  {
    var owner := RunKeeps(INITIAL, None, steps);
    var s := Execute(INITIAL, steps);
    if s.running {
      assert s.requests[owner.value].Owns() && owner.value != i;
    }
  }

  // ----- the flag never sticks -----

  /** What is left to do before the flag falls: the owner's steps, and those of a reader in the owner's way. */
  function Remaining(s: State, owner: Option<nat>): nat
    requires Inv(s, owner)
  {
    (if owner.Some? then 4 * s.requests[owner.value].Rank() else 0) + ReaderRank(s)
  }

  function ReaderRank(s: State): nat
    requires LockIsHeld(s)
  {
    if s.lock.Some? && s.lock.value.Reader? then s.pages[s.lock.value.j].Rank() else 0
  }

  /** The request that takes a step, if it is a request's. */
  function Taker(step: Step): Option<nat> {
    match step
    case Swap(i) => Some(i)
    case Query(i, _) => Some(i)
    case GiveUp(i) => Some(i)
    case Finish(i, _) => Some(i)
    case Acquire(i) => Some(i)
    case Write(i) => Some(i)
    case Release(i) => Some(i)
    case Clear(i) => Some(i)
    case _ => None
  }

  /**
    Whatever the database and the process answer, each step of the owner brings it nearer to its end, and no other
    does.
  */
  lemma OwnerRunsDown(s: State, owner: nat, step: Step)
    requires Inv(s, Some(owner)) && Enabled(s, step)
    ensures Apply(s, step).requests[owner].Rank() <= s.requests[owner].Rank() <= 6
    ensures Apply(s, step).requests[owner].Rank() < s.requests[owner].Rank() <==> Taker(step) == Some(owner)
    ensures Apply(s, step).requests[owner].Rank() == 0 <==> !Apply(s, step).running
  {
    StepKeepsOwner(s, Some(owner), step);
    assert s.requests[owner].Owns();
  }

  /** The steps in which the world outside answers give these answers. */
  predicate Answers(steps: seq<Step>, answer: Answer, outcome: Outcome) {
    forall step <- steps :: (step.Query? ==> step.answer == answer) && (step.Finish? ==> step.outcome == outcome)
  }

  /** A next step of the owner, or of the reader it waits for. */
  function NextStep(s: State, owner: nat, answer: Answer, outcome: Outcome): Step
    requires Inv(s, Some(owner))
  {
    match s.requests[owner]
    case Fetching => Query(owner, answer)
    case Generating => Finish(owner, outcome)
    case Finished(_) =>
      if s.lock.None? then Acquire(owner)
      else if s.lock.value.Request? then Write(s.lock.value.i)
      else ReaderStep(s.pages[s.lock.value.j], s.lock.value.j)
    case Writing(_) => Write(owner)
    case Written(_) => Release(owner)
    case Clearing(_) => Clear(owner)
    case _ => GiveUp(owner)
  }

  function ReaderStep(page: Page, j: nat): Step {
    if page.Locked? then Load(j) else if page.Loaded? then Show(j) else Unlock(j)
  }

  lemma NextStepEnabled(s: State, owner: nat, answer: Answer, outcome: Outcome)
    requires Inv(s, Some(owner))
    ensures Enabled(s, NextStep(s, owner, answer, outcome))
  {}

  lemma ReaderRunsDown(s: State, owner: nat, step: Step)
    requires Inv(s, Some(owner)) && Enabled(s, step) && LockIsHeld(Apply(s, step))
    ensures Taker(step).Some? ==> ReaderRank(Apply(s, step)) == ReaderRank(s)
    ensures step.Load? || step.Show? || step.Unlock? ==> ReaderRank(Apply(s, step)) < ReaderRank(s)
  {}

  lemma NextTaker(s: State, owner: nat, answer: Answer, outcome: Outcome)
    requires Inv(s, Some(owner))
    ensures var step := NextStep(s, owner, answer, outcome);
            Taker(step) == Some(owner) || step.Load? || step.Show? || step.Unlock?
  {}

  lemma NextStepGoesOn(s: State, owner: nat, answer: Answer, outcome: Outcome)
    requires Inv(s, Some(owner)) && Enabled(s, NextStep(s, owner, answer, outcome))
    ensures var step := NextStep(s, owner, answer, outcome);
            && Inv(Apply(s, step), NextOwner(s, Some(owner), step))
            && Remaining(Apply(s, step), NextOwner(s, Some(owner), step)) < Remaining(s, Some(owner))
  {
    var step := NextStep(s, owner, answer, outcome);
    NextTaker(s, owner, answer, outcome);
    RemainingFalls(s, owner, step);
  }

  lemma RemainingFalls(s: State, owner: nat, step: Step)
    requires Inv(s, Some(owner)) && Enabled(s, step)
    requires Taker(step) == Some(owner) || step.Load? || step.Show? || step.Unlock?
    ensures Inv(Apply(s, step), NextOwner(s, Some(owner), step))
    ensures Remaining(Apply(s, step), NextOwner(s, Some(owner), step)) < Remaining(s, Some(owner))
  {
    StepKeeps(s, Some(owner), step);
    OwnerRunsDown(s, owner, step);
    ReaderRunsDown(s, owner, step);
    assert NextOwner(s, Some(owner), step) in {None, Some(owner)};
  }

  lemma {:induction false} CanFinish(s: State, owner: Option<nat>, answer: Answer, outcome: Outcome)
    returns (rest: seq<Step>)
    requires Inv(s, owner)
    ensures CanRun(s, rest) && Answers(rest, answer, outcome) && !Execute(s, rest).running
    decreases Remaining(s, owner)
  {
    if owner.None? {
      rest := [];
    } else {
      var step := NextStep(s, owner.value, answer, outcome);
      NextStepEnabled(s, owner.value, answer, outcome);
      NextStepGoesOn(s, owner.value, answer, outcome);
      var more := CanFinish(Apply(s, step), NextOwner(s, owner, step), answer, outcome);
      rest := [step] + more;
      assert rest[1..] == more;
    }
  }

  /** No run leaves the flag stuck: from every state it reaches, whatever the answers, the flag can still fall. */
  lemma FlagNeverSticks(steps: seq<Step>, answer: Answer, outcome: Outcome)
    requires CanRun(INITIAL, steps)
    ensures exists rest ::
              CanRun(Execute(INITIAL, steps), rest) && Answers(rest, answer, outcome)
              && !Execute(Execute(INITIAL, steps), rest).running
  {
    var owner := RunKeeps(INITIAL, None, steps);
    var rest := CanFinish(Execute(INITIAL, steps), owner, answer, outcome);
  }
}
