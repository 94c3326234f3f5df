/**
  What stops the tailer for good: a checkpoint from which no poll of its files can complete, and one line that cannot be
  parsed.
*/
module TailerBlocked {
  import opened Common
  import opened Lines
  import opened Tailer
  import opened TailerRuns

  // ----- checkpoints -----

  lemma StepStaysStuck(w: World, step: Step, sinks: seq<Sink>, paths: seq<Path>, sink: Sink)
    requires !CanPoll(w, paths) && !step.Damage?
    ensures var w' := Apply(w, step, sinks);
            && !CanPoll(w', paths)
            && (LoadOffsets(w.state).None? || step.Grow? || step.paths == paths ==>
                  w'.state == w.state && Received(w', sink) == Received(w, sink))
  {
    if LoadOffsets(w.state).Some? {
      var path := Unseekable(w, paths);
      if step.Poll? {
        PollOffset(w, step.paths, sinks, step.outcome, path);
      }
      var w' := Apply(w, step, sinks);
      assert FileAt(w'.files, path).Some? && OffsetOf(Offsets(w'.state), path) < 0;
    }
  }

  lemma Unseekable(w: World, paths: seq<Path>) returns (path: Path)
    requires LoadOffsets(w.state).Some? && !CanPoll(w, paths)
    ensures path in paths && FileAt(w.files, path).Some? && SavedOffset(w, path) < 0
  {
    path :| path in paths && !Seekable(FileAt(w.files, path), OffsetOf(Offsets(w.state), path));
  }

  /**
    From a checkpoint from which a poll of some files cannot complete, because it does not load or has a negative offset
    for one of them, no later poll of these files can, however the run goes on, until the checkpoint is touched. If it
    does not load or nothing else is polled, nothing is delivered or saved any more.
  */
  lemma {:induction false} StuckForever(w: World, steps: seq<Step>, sinks: seq<Sink>, paths: seq<Path>, sink: Sink)
    requires !CanPoll(w, paths) && forall step <- steps :: !step.Damage?
    ensures !CanPoll(After(w, steps, sinks), paths)
    ensures LoadOffsets(w.state).None? || (forall step <- steps :: step.Poll? ==> step.paths == paths) ==>
              && After(w, steps, sinks).state == w.state
              && Received(After(w, steps, sinks), sink) == Received(w, sink)
  {
    if steps != [] {
      var n := |steps| - 1;
      assert steps[n] in steps && forall step <- steps[..n] :: step in steps;
      StuckForever(w, steps[..n], sinks, paths, sink);
      StepStaysStuck(After(w, steps[..n], sinks), steps[n], sinks, paths, sink);
    }
  }

  // ----- lines -----

  /** Some complete line of this file that the checkpoint does not cover cannot be parsed. */
  predicate BadLine(w: World, path: Path, valid: seq<Byte> -> bool) {
    exists text <- NewLines(FileAt(w.files, path), SavedOffset(w, path)) :: !valid(text)
  }

  predicate NoBadLine(w: World, paths: seq<Path>, valid: seq<Byte> -> bool) {
    forall path <- paths :: !BadLine(w, path, valid)
  }

  lemma TaggedValid(path: Path, texts: seq<seq<Byte>>, valid: seq<Byte> -> bool)
    ensures AllValid(Tagged(path, texts), valid) <==> forall text <- texts :: valid(text)
  {
    var lines := Tagged(path, texts);
    assert forall i :: 0 <= i < |texts| ==> lines[i].text == texts[i];
    if AllValid(lines, valid) {
      forall text | text in texts
        ensures valid(text)
      {
        var i :| 0 <= i < |texts| && texts[i] == text;
        assert lines[i] in lines;
      }
    }
  }

  lemma JoinValid(a: seq<Line>, b: seq<Line>, valid: seq<Byte> -> bool)
    ensures AllValid(a + b, valid) <==> AllValid(a, valid) && AllValid(b, valid)
  {
    assert forall line :: line in a + b <==> line in a || line in b;
  }

  /** A batch can be parsed exactly if no file of the poll has such a line. */
  lemma {:induction false} BatchValidIff(w: World, paths: seq<Path>, valid: seq<Byte> -> bool)
    ensures AllValid(Batch(w.files, Offsets(w.state), paths), valid) <==> NoBadLine(w, paths, valid)
  {
    hide BadLine, AllValid, NoBadLine, NewLines, Tagged;
    if paths == [] {
      NothingBad(w, valid);
    } else {
      var front, last := paths[..|paths| - 1], paths[|paths| - 1];
      BatchValidIff(w, front, valid);
      JoinValid(Batch(w.files, Offsets(w.state), front),
                Tagged(last, NewLines(FileAt(w.files, last), SavedOffset(w, last))), valid);
      FileValidIff(w, last, valid);
      OnePathMore(w, front, last, valid);
      assert paths == front + [last];
    }
  }

  lemma NothingBad(w: World, valid: seq<Byte> -> bool)
    ensures AllValid([], valid) && NoBadLine(w, [], valid)
  {}

  lemma FileValidIff(w: World, path: Path, valid: seq<Byte> -> bool)
    ensures AllValid(Tagged(path, NewLines(FileAt(w.files, path), SavedOffset(w, path))), valid)
            <==> !BadLine(w, path, valid)
  {
    hide AllValid, Tagged, NewLines;
    TaggedValid(path, NewLines(FileAt(w.files, path), SavedOffset(w, path)), valid);
  }

  lemma OnePathMore(w: World, front: seq<Path>, last: Path, valid: seq<Byte> -> bool)
    ensures NoBadLine(w, front + [last], valid) <==> NoBadLine(w, front, valid) && !BadLine(w, last, valid)
  {
    hide BadLine;
    assert forall path :: path in front + [last] <==> path in front || path == last;
  }

  /** A Wazuh poll runs to its end exactly if the checkpoint permits it and no file of the poll has such a line. */
  lemma CompletesIff(w: World, paths: seq<Path>, valid: seq<Byte> -> bool)
    ensures CanPoll(w, paths) && WazuhOutcome(Batch(w.files, Offsets(w.state), paths), valid).Completed?
            <==> CanPoll(w, paths) && NoBadLine(w, paths, valid)
  {
    BatchValidIff(w, paths, valid);
  }

  /**
    Every poll of the run names `path`, and fails before it delivers anything if a line of its batch cannot be parsed.
  */
  predicate Parsing(w: World, steps: seq<Step>, sinks: seq<Sink>, valid: seq<Byte> -> bool, path: Path) {
    steps == [] ||
    (var before, step := After(w, steps[..|steps| - 1], sinks), steps[|steps| - 1];
     && Parsing(w, steps[..|steps| - 1], sinks, valid, path)
     && !step.Damage?
     && (step.Poll? ==>
           && path in step.paths
           && (|| AllValid(Batch(before.files, Offsets(before.state), step.paths), valid)
               || step.outcome == Interrupted(0, 0))))
  }

  /** New lines stay new when the file grows. */
  lemma GrownLines(content: seq<Byte>, more: seq<Byte>, offset: int, text: seq<Byte>)
    requires LineStart(content, offset) && text in NewLines(Some(content), offset)
    ensures text in NewLines(Some(content + more), offset)
  {
    var grown := content + more;
    var next, next' := NewOffset(Some(content), offset), NewOffset(Some(grown), offset);
    GrownStart(content, more, offset);
    ReadAdvances(content, offset);
    ReadAdvances(grown, offset);
    NextGrows(content, more, offset);
    GrownStart(content, more, next);
    assert grown[offset..next] == content[offset..next];
    assert grown[offset..next'] == content[offset..next] + grown[next..next'];
    SliceStart(content, offset, next);
    SplitAdditive(content[offset..next], grown[next..next']);
  }

  lemma GrownStart(content: seq<Byte>, more: seq<Byte>, offset: int)
    requires LineStart(content, offset)
    ensures LineStart(content + more, offset)
  {
    if offset > 0 {
      assert (content + more)[offset - 1] == content[offset - 1];
    }
  }

  lemma SliceStart(content: seq<Byte>, from: nat, to: nat)
    requires from <= to && LineStart(content, to)
    ensures LineStart(content[from..to], to - from)
  {
    if from < to {
      assert content[from..to][to - from - 1] == content[to - 1];
    }
  }

  lemma NextGrows(content: seq<Byte>, more: seq<Byte>, offset: int)
    requires LineStart(content, offset) && LineStart(content + more, offset)
    ensures NewOffset(Some(content), offset) <= NewOffset(Some(content + more), offset)
  {
    var next, next' := NewOffset(Some(content), offset), NewOffset(Some(content + more), offset);
    ReadAdvances(content, offset);
    ReadAdvances(content + more, offset);
    if next > 0 {
      assert (content + more)[next - 1] == content[next - 1];
    }
  }

  lemma StepStaysBlocked(w: World, step: Step, sinks: seq<Sink>, valid: seq<Byte> -> bool, path: Path, sink: Sink)
    requires Sound(w, path) && BadLine(w, path, valid) && !step.Damage?
    requires step.Poll? ==> path in step.paths
    requires step.Poll? ==>
               AllValid(Batch(w.files, Offsets(w.state), step.paths), valid) || step.outcome == Interrupted(0, 0)
    ensures var w' := Apply(w, step, sinks);
            && Sound(w', path) && BadLine(w', path, valid)
            && w'.state == w.state && Received(w', sink) == Received(w, sink)
  {
    match step
    case Grow(grown, bytes) =>
      GrowKeeps(w, grown, bytes, sinks, path);
      if grown == path {
        var text :| text in NewLines(FileAt(w.files, path), SavedOffset(w, path)) && !valid(text);
        GrownLines(w.files[path], bytes, SavedOffset(w, path), text);
      }
    case Poll(paths, outcome) =>
      BatchValidIff(w, paths, valid);
      DeliverNothing(w, sinks, Batch(w.files, Offsets(w.state), paths));
  }

  /**
    One complete line that cannot be parsed blocks its file and every file polled with it: as long as the checkpoint is
    not touched, no poll delivers or saves anything again, whatever is appended to the files.
  */
  lemma {:induction false} BlockedForever(w: World, steps: seq<Step>, sinks: seq<Sink>, valid: seq<Byte> -> bool,
                                          path: Path, sink: Sink)
    requires Sound(w, path) && BadLine(w, path, valid) && Parsing(w, steps, sinks, valid, path)
    ensures var w' := After(w, steps, sinks);
            && Sound(w', path) && BadLine(w', path, valid)
            && w'.state == w.state && Received(w', sink) == Received(w, sink)
  {
    if steps != [] {
      var n := |steps| - 1;
      BlockedForever(w, steps[..n], sinks, valid, path, sink);
      StepStaysBlocked(After(w, steps[..n], sinks), steps[n], sinks, valid, path, sink);
    }
  }

  /** In particular after any history, where the checkpoint is always sound. */
  lemma BlockedInRun(history: seq<Step>, w: World, steps: seq<Step>, sinks: seq<Sink>, valid: seq<Byte> -> bool,
                     path: Path, sink: Sink)
    requires Distinct(sinks) && sink in sinks && Run(history, sinks, w)
    requires BadLine(w, path, valid) && Parsing(w, steps, sinks, valid, path)
    ensures After(w, steps, sinks).state == w.state
    ensures Received(After(w, steps, sinks), sink) == Received(w, sink)
  {
    NothingSkipped(history, sinks, w, path, sink);
    BlockedForever(w, steps, sinks, valid, path, sink);
  }
}
