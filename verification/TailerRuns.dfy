/**
  Whole runs of the tailer: files that only grow, polls that may fail or die at any point, and a
  checkpoint that may be lost or damaged. What has been delivered, in every reachable state.
*/
module TailerRuns {
  import opened Common
  import opened Lines
  import opened Tailer

  datatype Step = Grow(path: Path, bytes: seq<Byte>)
                | Poll(paths: seq<Path>, outcome: Outcome)
                | Damage(state: StateFile)

  /** Damage loses entries (or all of them) but invents no offset. */
  predicate Enabled(w: World, step: Step) {
    step.Damage? ==>
      var left, had := Offsets(step.state), Offsets(w.state);
      forall p <- left :: p in had && left[p] == had[p]
  }

  function Apply(w: World, step: Step, sinks: seq<Sink>): World {
    match step
    case Grow(path, bytes) => w.(files := w.files[path := Content(w, path) + bytes])
    case Poll(paths, outcome) => PollWorld(w, paths, sinks, outcome)
    case Damage(state) => w.(state := state)
  }

  function Content(w: World, path: Path): seq<Byte> {
    if path in w.files then w.files[path] else []
  }

  const START: World := World(map[], Absent, [], [])

  ghost predicate Run(steps: seq<Step>, sinks: seq<Sink>, w: World)
    decreases |steps|
  {
    if steps == [] then w == START
    else
      var n := |steps| - 1;
      exists before: World {:trigger Run(steps[..n], sinks, before)} ::
        Run(steps[..n], sinks, before) && Enabled(before, steps[n]) && w == Apply(before, steps[n], sinks)
  }

  /** What a sink has received. */
  function Received(w: World, sink: Sink): seq<Line> {
    match sink case OutputFile => w.output case HttpCollector => w.collected
  }

  /** The texts among `lines` that came from `path`. */
  function TextsOf(lines: seq<Line>, path: Path): seq<seq<Byte>> {
    if lines == [] then []
    else
      var last := lines[|lines| - 1];
      TextsOf(lines[..|lines| - 1], path) + if last.path == path then [last.text] else []
  }

  function SavedOffset(w: World, path: Path): int {
    OffsetOf(Offsets(w.state), path)
  }

  /** The lines of the part of a file that the checkpoint covers. */
  function CoveredLines(w: World, path: Path): seq<seq<Byte>>
    requires 0 <= SavedOffset(w, path) <= |Content(w, path)|
  {
    SplitLines(Content(w, path)[..SavedOffset(w, path)])
  }

  /** The checkpoint of `path` is at a line start of the file as it is now. */
  predicate Sound(w: World, path: Path) {
    LineStart(Content(w, path), SavedOffset(w, path))
  }

  /** Every line before the checkpoint is in the sink, in order and as often as in the file. */
  ghost predicate AtLeastOnce(w: World, path: Path, sink: Sink) {
    Sound(w, path) && IsSubsequence(CoveredLines(w, path), TextsOf(Received(w, sink), path))
  }

  /** What the sink has from `path` is exactly the lines before the checkpoint. */
  ghost predicate ExactlyOnce(w: World, path: Path, sink: Sink) {
    Sound(w, path) && TextsOf(Received(w, sink), path) == CoveredLines(w, path)
  }

  // ----- what a batch holds -----

  function Repeat(texts: seq<seq<Byte>>, n: nat): seq<seq<Byte>> {
    if n == 0 then [] else Repeat(texts, n - 1) + texts
  }

  lemma {:induction false} TextsOfConcat(a: seq<Line>, b: seq<Line>, path: Path)
    ensures TextsOf(a + b, path) == TextsOf(a, path) + TextsOf(b, path)
  {
    if b == [] {
      assert a + b == a;
    } else {
      assert (a + b)[..|a + b| - 1] == a + b[..|b| - 1];
      TextsOfConcat(a, b[..|b| - 1], path);
    }
  }

  lemma {:induction false} TextsOfTagged(from: Path, texts: seq<seq<Byte>>, path: Path)
    ensures TextsOf(Tagged(from, texts), path) == if from == path then texts else []
  {
    if texts != [] {
      var n := |texts| - 1;
      assert Tagged(from, texts)[..n] == Tagged(from, texts[..n]);
      TextsOfTagged(from, texts[..n], path);
      assert texts == texts[..n] + [texts[n]];
    }
  }

  /** How often a poll names a path. */
  function Mentions(paths: seq<Path>, path: Path): (n: nat)
    ensures n > 0 <==> path in paths
  {
    if paths == [] then 0
    else Mentions(paths[..|paths| - 1], path) + if paths[|paths| - 1] == path then 1 else 0
  }

  /** The batch holds each path's new lines once per mention of the path. */
  lemma {:induction false} BatchOf(files: map<Path, seq<Byte>>, offsets: map<Path, int>, paths: seq<Path>, path: Path)
    ensures TextsOf(Batch(files, offsets, paths), path)
            == Repeat(NewLines(FileAt(files, path), OffsetOf(offsets, path)), Mentions(paths, path))
  {
    hide NewLines, Tagged;
    if paths != [] {
      var front, last := paths[..|paths| - 1], paths[|paths| - 1];
      BatchOf(files, offsets, front, path);
      BatchMore(Batch(files, offsets, front), last, NewLines(FileAt(files, last), OffsetOf(offsets, last)), path,
                NewLines(FileAt(files, path), OffsetOf(offsets, path)), Mentions(front, path));
    }
  }

  lemma BatchMore(batch: seq<Line>, from: Path, texts: seq<seq<Byte>>, path: Path,
                  own: seq<seq<Byte>>, n: nat)
    requires TextsOf(batch, path) == Repeat(own, n) && (from == path ==> texts == own)
    ensures TextsOf(batch + Tagged(from, texts), path) == Repeat(own, n + if from == path then 1 else 0)
  {
    BatchStep(batch, from, texts, path);
  }

  lemma BatchStep(batch: seq<Line>, from: Path, texts: seq<seq<Byte>>, path: Path)
    ensures TextsOf(batch + Tagged(from, texts), path) == TextsOf(batch, path) + if from == path then texts else []
  {
    TextsOfConcat(batch, Tagged(from, texts), path);
    TextsOfTagged(from, texts, path);
  }

  /** The saved offset moves past what was read, for the paths of the poll only. */
  lemma {:induction false} NextOffsetOf(files: map<Path, seq<Byte>>, offsets: map<Path, int>, paths: seq<Path>,
                                        path: Path)
    ensures OffsetOf(NextOffsets(files, offsets, paths), path)
            == if path in paths then NewOffset(FileAt(files, path), OffsetOf(offsets, path))
               else OffsetOf(offsets, path)
  {
    if paths != [] {
      var n := |paths| - 1;
      NextOffsetOf(files, offsets, paths[..n], path);
      assert paths == paths[..n] + [paths[n]];
    }
  }

  lemma SavedRoundTrip(offsets: map<Path, int>)
    ensures LoadOffsets(SaveOffsets(offsets)) == Some(offsets)
  {
    var saved := SaveOffsets(offsets).entries;
    assert forall p <- saved :: saved[p] == At(offsets[p]);
    assert (map p | p in saved && saved[p].At? :: saved[p].offset) == offsets;
  }

  /** From a sound offset, a read takes exactly the complete lines behind it and stops at a line start. */
  lemma ReadAdvances(content: seq<Byte>, offset: int)
    requires LineStart(content, offset)
    ensures var next := NewOffset(Some(content), offset);
            && offset <= next && LineStart(content, next)
            && NewLines(Some(content), offset) == SplitLines(content[offset..next])
            && SplitLines(content[..next]) == SplitLines(content[..offset]) + SplitLines(content[offset..next])
            && forall k :: next <= k < |content| ==> content[k] != NEWLINE
  {
    ReadStops(content, offset, content[offset..]);
    var next := NewOffset(Some(content), offset);
    assert content[..next] == content[..offset] + content[offset..next];
    SplitAdditive(content[..offset], content[offset..next]);
  }

  lemma ReadStops(content: seq<Byte>, offset: nat, data: seq<Byte>)
    requires LineStart(content, offset) && data == content[offset..]
    ensures var next := offset + CompleteLength(data);
            next <= |content| && LineStart(content, next) && forall k :: next <= k < |content| ==> content[k] != NEWLINE
  {
    var n := CompleteLength(data);
    NothingComplete(data);
    if n > 0 {
      assert content[offset + n - 1] == data[n - 1];
    }
    forall k | offset + n <= k < |content|
      ensures content[k] != NEWLINE
    {
      assert data[k - offset] == content[k];
    }
  }

  predicate Distinct<T(==)>(s: seq<T>) {
    forall i, j :: 0 <= i < j < |s| ==> s[i] != s[j]
  }

  lemma {:induction false} DeliverReceived(w: World, sinks: seq<Sink>, batch: seq<Line>, sink: Sink)
    requires Distinct(sinks)
    ensures var w' := Deliver(w, sinks, batch);
            && w'.files == w.files && w'.state == w.state
            && Received(w', sink) == Received(w, sink) + if sink in sinks then batch else []
  {
    if sinks != [] {
      var n := |sinks| - 1;
      DeliverReceived(w, sinks[..n], batch, sink);
      DeliverLast(w, sinks, batch, sink);
      assert sinks == sinks[..n] + [sinks[n]];
    }
  }

  lemma DeliverLast(w: World, sinks: seq<Sink>, batch: seq<Line>, sink: Sink)
    requires sinks != []
    ensures var w1 := Deliver(w, sinks[..|sinks| - 1], batch);
            var w2 := Deliver(w, sinks, batch);
            && w2.files == w1.files && w2.state == w1.state
            && Received(w2, sink) == Received(w1, sink) + if sink == sinks[|sinks| - 1] then batch else []
  {}

  /** What a sink gets of a batch. */
  function Got(sinks: seq<Sink>, outcome: Outcome, batch: seq<Line>, sink: Sink): seq<Line> {
    if outcome.Completed? || outcome.reached >= |sinks| then if sink in sinks then batch else []
    else
      (if sink in sinks[..outcome.reached] then batch else [])
      + if sink == sinks[outcome.reached] then batch[..Min(outcome.partly, |batch|)] else []
  }

  lemma PartReceived(w: World, sinks: seq<Sink>, batch: seq<Line>, reached: nat, partly: nat, sink: Sink)
    requires Distinct(sinks)
    ensures var w' := DeliverPart(w, sinks, batch, reached, partly);
            && w'.files == w.files && w'.state == w.state
            && Received(w', sink) == Received(w, sink) + Got(sinks, Interrupted(reached, partly), batch, sink)
  {
    if reached >= |sinks| {
      DeliverReceived(w, sinks, batch, sink);
    } else {
      var part := batch[..Min(partly, |batch|)];
      var first := if sink in sinks[..reached] then batch else [];
      var second := if sink == sinks[reached] then part else [];
      DeliverReceived(w, sinks[..reached], batch, sink);
      DeliverReceived(Deliver(w, sinks[..reached], batch), [sinks[reached]], part, sink);
      assert Received(w, sink) + first + second == Received(w, sink) + (first + second);
    }
  }

  lemma PollDelivers(w: World, paths: seq<Path>, sinks: seq<Sink>, outcome: Outcome, sink: Sink)
    requires Distinct(sinks)
    ensures var w' := PollWorld(w, paths, sinks, outcome);
            && w'.files == w.files
            && Received(w', sink) == Received(w, sink) +
                 if CanPoll(w, paths) then Got(sinks, outcome, Batch(w.files, Offsets(w.state), paths), sink) else []
  {
    var batch := Batch(w.files, Offsets(w.state), paths);
    if outcome.Completed? {
      DeliverReceived(w, sinks, batch, sink);
    } else {
      PartReceived(w, sinks, batch, outcome.reached, outcome.partly, sink);
    }
    assert Received(w, sink) + [] == Received(w, sink);
    if batch == [] {
      assert Got(sinks, outcome, batch, sink) == [];
    }
  }

  lemma {:induction false} DeliverLeaves(w: World, sinks: seq<Sink>, batch: seq<Line>)
    ensures Deliver(w, sinks, batch).files == w.files && Deliver(w, sinks, batch).state == w.state
  {
    if sinks != [] {
      DeliverLeaves(w, sinks[..|sinks| - 1], batch);
    }
  }

  lemma PartLeaves(w: World, sinks: seq<Sink>, batch: seq<Line>, reached: nat, partly: nat)
    ensures DeliverPart(w, sinks, batch, reached, partly).files == w.files
    ensures DeliverPart(w, sinks, batch, reached, partly).state == w.state
  {
    if reached >= |sinks| {
      DeliverLeaves(w, sinks, batch);
    } else {
      DeliverLeaves(w, sinks[..reached], batch);
      DeliverLeaves(Deliver(w, sinks[..reached], batch), [sinks[reached]], batch[..Min(partly, |batch|)]);
    }
  }

  /** The checkpoint after a poll: moved on for the polled paths if the poll ran to its end, else unchanged. */
  lemma PollOffset(w: World, paths: seq<Path>, sinks: seq<Sink>, outcome: Outcome, path: Path)
    ensures var w' := PollWorld(w, paths, sinks, outcome);
            && w'.files == w.files
            && (CanPoll(w, paths) && outcome.Completed? ==> LoadOffsets(w'.state).Some?)
            && (!(CanPoll(w, paths) && outcome.Completed?) ==> w'.state == w.state)
            && SavedOffset(w', path)
               == if CanPoll(w, paths) && outcome.Completed? && path in paths
                  then NewOffset(FileAt(w.files, path), SavedOffset(w, path))
                  else SavedOffset(w, path)
  {
    var offsets := Offsets(w.state);
    var batch := Batch(w.files, offsets, paths);
    if outcome.Completed? {
      DeliverLeaves(w, sinks, batch);
    } else {
      PartLeaves(w, sinks, batch, outcome.reached, outcome.partly);
    }
    NextOffsetOf(w.files, offsets, paths, path);
    SavedRoundTrip(NextOffsets(w.files, offsets, paths));
  }

  /** What a whole poll adds to what a sink has received from one path. */
  lemma PollReceived(w: World, paths: seq<Path>, sinks: seq<Sink>, sink: Sink, path: Path)
    requires Distinct(sinks) && sink in sinks && CanPoll(w, paths)
    ensures TextsOf(Received(PollWorld(w, paths, sinks, Completed), sink), path)
            == TextsOf(Received(w, sink), path)
               + Repeat(NewLines(FileAt(w.files, path), SavedOffset(w, path)), Mentions(paths, path))
  {
    PollDelivers(w, paths, sinks, Completed, sink);
    BatchOf(w.files, Offsets(w.state), paths, path);
    TextsOfConcat(Received(w, sink), Batch(w.files, Offsets(w.state), paths), path);
  }

  // ----- one step -----

  /** A read in a sound state, whether or not the file exists. */
  lemma SoundRead(w: World, path: Path)
    requires Sound(w, path)
    ensures var content, offset := Content(w, path), SavedOffset(w, path);
            var next := NewOffset(FileAt(w.files, path), offset);
            && LineStart(content, next)
            && SplitLines(content[..next]) == SplitLines(content[..offset]) + NewLines(FileAt(w.files, path), offset)
            && forall k :: next <= k < |content| ==> content[k] != NEWLINE
  {
    if path in w.files {
      ReadAdvances(w.files[path], SavedOffset(w, path));
    }
  }

  lemma GrowKeeps(w: World, path: Path, bytes: seq<Byte>, sinks: seq<Sink>, p: Path)
    requires Sound(w, p)
    ensures var w' := Apply(w, Grow(path, bytes), sinks);
            && Sound(w', p) && CoveredLines(w', p) == CoveredLines(w, p)
            && forall sink :: Received(w', sink) == Received(w, sink)
  {
    var w' := Apply(w, Grow(path, bytes), sinks);
    var o := SavedOffset(w, p);
    assert Content(w', p)[..o] == Content(w, p)[..o];
    if o > 0 {
      assert Content(w', p)[o - 1] == Content(w, p)[o - 1];
    }
  }

  lemma PollKeepsSound(w: World, paths: seq<Path>, sinks: seq<Sink>, outcome: Outcome, path: Path)
    requires Distinct(sinks) && Sound(w, path)
    ensures var w' := PollWorld(w, paths, sinks, outcome);
            var texts := NewLines(FileAt(w.files, path), SavedOffset(w, path));
            && w'.files == w.files && Sound(w', path)
            && CoveredLines(w', path)
               == CoveredLines(w, path)
                  + if CanPoll(w, paths) && outcome.Completed? && path in paths then texts else []
  {
    PollDelivers(w, paths, sinks, outcome, OutputFile);
    PollOffset(w, paths, sinks, outcome, path);
    SoundRead(w, path);
  }

  lemma RepeatOnce(texts: seq<seq<Byte>>)
    ensures Repeat(texts, 1) == texts
  {
    assert Repeat(texts, 1) == Repeat(texts, 0) + texts;
  }

  lemma {:induction false} RepeatAtLeastOnce(texts: seq<seq<Byte>>, n: nat) returns (more: seq<seq<Byte>>)
    requires n > 0
    ensures Repeat(texts, n) == texts + more
    decreases n
  {
    if n == 1 {
      RepeatOnce(texts);
      more := [];
    } else {
      var rest := RepeatAtLeastOnce(texts, n - 1);
      more := rest + texts;
      assert texts + rest + texts == texts + (rest + texts);
    }
  }

  /** A poll, however it ends, keeps delivery at least once. */
  lemma PollKeepsAtLeastOnce(w: World, paths: seq<Path>, sinks: seq<Sink>, outcome: Outcome,
                             path: Path, sink: Sink)
    requires Distinct(sinks) && sink in sinks && AtLeastOnce(w, path, sink)
    ensures AtLeastOnce(PollWorld(w, paths, sinks, outcome), path, sink)
  {
    var covered, had := CoveredLines(w, path), TextsOf(Received(w, sink), path);
    var texts := NewLines(FileAt(w.files, path), SavedOffset(w, path));
    PollKeepsSound(w, paths, sinks, outcome, path);
    if CanPoll(w, paths) && outcome.Completed? {
      PollReceived(w, paths, sinks, sink, path);
      CoverExtends(covered, had, texts, Mentions(paths, path), path in paths);
    } else {
      var batch := Batch(w.files, Offsets(w.state), paths);
      var more := if CanPoll(w, paths) then Got(sinks, outcome, batch, sink) else [];
      PollDelivers(w, paths, sinks, outcome, sink);
      TextsOfConcat(Received(w, sink), more, path);
      SubsequenceExtends(covered, had, TextsOf(more, path));
      NothingMore(covered);
    }
  }

  lemma {:induction false} CoverExtends(covered: seq<seq<Byte>>, had: seq<seq<Byte>>, texts: seq<seq<Byte>>,
                                        copies: nat, took: bool)
    requires IsSubsequence(covered, had) && (took ==> copies > 0)
    ensures IsSubsequence(covered + if took then texts else [], had + Repeat(texts, copies))
  {
    if took {
      var more := RepeatAtLeastOnce(texts, copies);
      SubsequenceExtends(covered, had, texts);
      SubsequenceExtends(covered + texts, had + texts, more);
      assert had + texts + more == had + (texts + more);
    } else {
      SubsequenceExtends(covered, had, Repeat(texts, copies));
      assert covered + [] == covered;
    }
  }

  lemma StepKeepsAtLeastOnce(w: World, step: Step, sinks: seq<Sink>, path: Path, sink: Sink)
    requires Distinct(sinks) && sink in sinks && Enabled(w, step) && AtLeastOnce(w, path, sink)
    ensures AtLeastOnce(Apply(w, step, sinks), path, sink)
  {
    match step
    case Grow(grown, bytes) => GrowKeeps(w, grown, bytes, sinks, path);
    case Poll(paths, outcome) => PollKeepsAtLeastOnce(w, paths, sinks, outcome, path, sink);
    case Damage(_) =>
  }

  /**
    At least once, over every run: whatever fails or is lost, in every reachable state each line
    before a file's checkpoint has reached every sink, in order.
  */
  lemma {:induction false} NothingSkipped(steps: seq<Step>, sinks: seq<Sink>, w: World, path: Path, sink: Sink)
    requires Distinct(sinks) && sink in sinks && Run(steps, sinks, w)
    ensures AtLeastOnce(w, path, sink)
    decreases |steps|
  {
    if steps != [] {
      var n := |steps| - 1;
      var before: World :|
        Run(steps[..n], sinks, before) && Enabled(before, steps[n]) && w == Apply(before, steps[n], sinks);
      NothingSkipped(steps[..n], sinks, before, path, sink);
      StepKeepsAtLeastOnce(before, steps[n], sinks, path, sink);
    }
  }

  // ----- which checkpoints let a poll complete -----

  /** Exactly these checkpoints let a poll of these paths run to its end. */
  lemma CanPollIff(w: World, paths: seq<Path>)
    ensures CanPoll(w, paths) <==>
            && !w.state.Undecodable?
            && (w.state.Entries? ==>
                  && (forall p <- w.state.entries :: !w.state.entries[p].Infinite?)
                  && (forall p <- paths :: p in w.files && p in w.state.entries && w.state.entries[p].At? ==>
                                             w.state.entries[p].offset >= 0))
  {
    if LoadOffsets(w.state).Some? {
      forall p | p in paths
        ensures Seekable(FileAt(w.files, p), OffsetOf(Offsets(w.state), p)) <==>
                !(w.state.Entries? && p in w.files && p in w.state.entries && w.state.entries[p].At?
                  && w.state.entries[p].offset < 0)
      {}
    }
  }

  /** In a run no offset is negative, so a poll can complete exactly if the checkpoint loads. */
  lemma CanPollInRun(steps: seq<Step>, sinks: seq<Sink>, w: World, paths: seq<Path>)
    requires Distinct(sinks) && sinks != [] && Run(steps, sinks, w)
    ensures CanPoll(w, paths) <==> LoadOffsets(w.state).Some?
  {
    forall p | p in paths
      ensures SavedOffset(w, p) >= 0
    {
      NothingSkipped(steps, sinks, w, p, sinks[0]);
    }
  }

  /** The world after more steps. */
  function After(w: World, steps: seq<Step>, sinks: seq<Sink>): World {
    if steps == [] then w else Apply(After(w, steps[..|steps| - 1], sinks), steps[|steps| - 1], sinks)
  }

  /**
    One undisturbed poll after any history that left a checkpoint which loads brings everything: all complete lines of
    a polled file have then reached every sink, in order and with their multiplicities.
  */
  lemma OnePollCatchesUp(steps: seq<Step>, sinks: seq<Sink>, w: World, paths: seq<Path>, path: Path,
                         sink: Sink)
    requires Distinct(sinks) && sink in sinks && Run(steps, sinks, w) && path in paths
    requires LoadOffsets(w.state).Some?
    ensures var w' := PollWorld(w, paths, sinks, Completed);
            var content := Content(w', path);
            && IsSubsequence(SplitLines(content[..CompleteLength(content)]), TextsOf(Received(w', sink), path))
            && multiset(SplitLines(content[..CompleteLength(content)])) <= multiset(TextsOf(Received(w', sink), path))
  {
    var w' := PollWorld(w, paths, sinks, Completed);
    CanPollInRun(steps, sinks, w, paths);
    NothingSkipped(steps, sinks, w, path, sink);
    PollKeepsAtLeastOnce(w, paths, sinks, Completed, path, sink);
    PollReachesEnd(w, paths, sinks, path);
    SubsequenceElements(CoveredLines(w', path), TextsOf(Received(w', sink), path));
  }

  /** After a poll that ran to its end, a polled file's checkpoint is past its last newline. */
  lemma PollReachesEnd(w: World, paths: seq<Path>, sinks: seq<Sink>, path: Path)
    requires Distinct(sinks) && path in paths && Sound(w, path) && CanPoll(w, paths)
    ensures var w' := PollWorld(w, paths, sinks, Completed);
            w'.files == w.files && SavedOffset(w', path) == CompleteLength(Content(w', path))
  {
    PollDelivers(w, paths, sinks, Completed, OutputFile);
    PollOffset(w, paths, sinks, Completed, path);
    SoundRead(w, path);
    LastLineStart(Content(w, path), NewOffset(FileAt(w.files, path), SavedOffset(w, path)));
  }

  // ----- undisturbed runs -----

  /** Growth, whole polls of distinct paths, and polls that fail before anything is delivered. */
  predicate Undisturbed(step: Step) {
    match step
    case Grow(_, _) => true
    case Poll(paths, outcome) => (outcome.Completed? && Distinct(paths)) || outcome == Interrupted(0, 0)
    case Damage(_) => false
  }

  lemma {:induction false} DistinctOnce(paths: seq<Path>, path: Path)
    requires Distinct(paths)
    ensures Mentions(paths, path) == if path in paths then 1 else 0
  {
    if paths != [] {
      var n := |paths| - 1;
      DistinctOnce(paths[..n], path);
      if path in paths[..n] {
        var j :| 0 <= j < n && paths[j] == path;
      }
    }
  }

  /** An undisturbed poll hands over the new lines and moves the offset behind them, or does neither. */
  lemma UndisturbedPoll(w: World, paths: seq<Path>, sinks: seq<Sink>, outcome: Outcome, path: Path, sink: Sink)
    requires Distinct(sinks) && sink in sinks && Undisturbed(Poll(paths, outcome))
    ensures var w' := PollWorld(w, paths, sinks, outcome);
            var had, got := TextsOf(Received(w, sink), path), TextsOf(Received(w', sink), path);
            && w'.files == w.files
            && if CanPoll(w, paths) && outcome.Completed? && path in paths
               then
                 && SavedOffset(w', path) == NewOffset(FileAt(w.files, path), SavedOffset(w, path))
                 && got == had + NewLines(FileAt(w.files, path), SavedOffset(w, path))
               else SavedOffset(w', path) == SavedOffset(w, path) && got == had
  {
    PollDelivers(w, paths, sinks, outcome, sink);
    PollOffset(w, paths, sinks, outcome, path);
    if CanPoll(w, paths) && outcome.Completed? {
      PollReceived(w, paths, sinks, sink, path);
      DistinctOnce(paths, path);
      RepeatOnce(NewLines(FileAt(w.files, path), SavedOffset(w, path)));
      NothingMore(TextsOf(Received(w, sink), path));
    } else {
      GotNothing(sinks, Batch(w.files, Offsets(w.state), paths), sink);
      NothingMore(Received(w, sink));
    }
  }

  lemma NothingMore<T>(s: seq<T>)
    ensures s + [] == s
  {}

  lemma GotNothing(sinks: seq<Sink>, batch: seq<Line>, sink: Sink)
    requires sink in sinks
    ensures Got(sinks, Interrupted(0, 0), batch, sink) == []
  {
    assert batch[..0] == [] && sinks[..0] == [];
  }

  lemma StepKeepsExactlyOnce(w: World, step: Step, sinks: seq<Sink>, path: Path, sink: Sink)
    requires Distinct(sinks) && sink in sinks && Undisturbed(step) && ExactlyOnce(w, path, sink)
    ensures ExactlyOnce(Apply(w, step, sinks), path, sink)
  {
    match step
    case Grow(grown, bytes) => GrowKeeps(w, grown, bytes, sinks, path);
    case Poll(paths, outcome) =>
      PollKeepsSound(w, paths, sinks, outcome, path);
      UndisturbedPoll(w, paths, sinks, outcome, path, sink);
      NothingMore(CoveredLines(w, path));
  }

  /** Exactly once: in an undisturbed run each sink holds precisely the lines before the checkpoint. */
  lemma {:induction false} NothingTwice(steps: seq<Step>, sinks: seq<Sink>, w: World, path: Path, sink: Sink)
    requires Distinct(sinks) && sink in sinks && Run(steps, sinks, w)
    requires forall step <- steps :: Undisturbed(step)
    ensures ExactlyOnce(w, path, sink)
    decreases |steps|
  {
    if steps != [] {
      var n := |steps| - 1;
      var before: World :|
        Run(steps[..n], sinks, before) && Enabled(before, steps[n]) && w == Apply(before, steps[n], sinks);
      assert forall step <- steps[..n] :: step in steps;
      NothingTwice(steps[..n], sinks, before, path, sink);
      StepKeepsExactlyOnce(before, steps[n], sinks, path, sink);
    }
  }

  /** An undisturbed run never meets a checkpoint that does not load. */
  lemma {:induction false} AlwaysLoads(steps: seq<Step>, sinks: seq<Sink>, w: World)
    requires Distinct(sinks) && Run(steps, sinks, w) && forall step <- steps :: Undisturbed(step)
    ensures LoadOffsets(w.state).Some?
    decreases |steps|
  {
    if steps != [] {
      var n := |steps| - 1;
      var before: World :|
        Run(steps[..n], sinks, before) && Enabled(before, steps[n]) && w == Apply(before, steps[n], sinks);
      assert forall step <- steps[..n] :: step in steps;
      AlwaysLoads(steps[..n], sinks, before);
      assert Undisturbed(steps[n]);
      match steps[n]
      case Grow(_, _) =>
      case Poll(paths, outcome) => PollOffset(before, paths, sinks, outcome, "");
    }
  }

  /** After any undisturbed run that ends in a whole poll, a polled file's complete lines are all there, once each. */
  lemma UndisturbedPollComplete(steps: seq<Step>, sinks: seq<Sink>, w: World, paths: seq<Path>, path: Path,
                                sink: Sink)
    requires Distinct(sinks) && sink in sinks && Run(steps, sinks, w) && path in paths && Distinct(paths)
    requires forall step <- steps :: Undisturbed(step)
    ensures var w' := PollWorld(w, paths, sinks, Completed);
            var content := Content(w', path);
            TextsOf(Received(w', sink), path) == SplitLines(content[..CompleteLength(content)])
  {
    AlwaysLoads(steps, sinks, w);
    CanPollInRun(steps, sinks, w, paths);
    NothingTwice(steps, sinks, w, path, sink);
    StepKeepsExactlyOnce(w, Poll(paths, Completed), sinks, path, sink);
    PollReachesEnd(w, paths, sinks, path);
  }
}
