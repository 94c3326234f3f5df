/** What becomes of a file that is replaced between two polls. */
module TailerRotation {
  import opened Common
  import opened Lines
  import opened Tailer
  import opened TailerRuns

  /** The bytes that one read takes. */
  function BytesRead(content: seq<Byte>, offset: nat): seq<Byte> {
    content[ReadStart(content, offset)..NewOffset(Some(content), offset)]
  }

  /**
    A read behind a replacement takes all complete lines of the new content exactly if the new content is shorter than
    the checkpoint, or nothing had been read, or there is no complete line.
  */
  lemma RotationReadIff(content: seq<Byte>, offset: nat)
    ensures BytesRead(content, offset) == content[..CompleteLength(content)]
            <==> |content| < offset || offset == 0 || CompleteLength(content) == 0
  {
    var start, all := ReadStart(content, offset), CompleteLength(content);
    if start == 0 {
      assert content[0..] == content;
    } else {
      NoLaterNewline(content, start);
    }
  }

  /**
    Behind the last newline there is no other: a read from the middle ends where a read of the whole ends, or at once.
  */
  lemma NoLaterNewline(content: seq<Byte>, start: nat)
    requires start <= |content|
    ensures var all, rest := CompleteLength(content), CompleteLength(content[start..]);
            start + rest == all || (rest == 0 && all <= start)
  {
    var all, rest := CompleteLength(content), CompleteLength(content[start..]);
    NothingComplete(content);
    NothingComplete(content[start..]);
    if rest > 0 {
      assert content[start..][rest - 1] == content[start + rest - 1];
    }
    if all > start {
      assert content[start..][all - 1 - start] == content[all - 1];
    }
  }

  /** A replacement whose first line is never read. */
  lemma UnseenRotation() returns (content: seq<Byte>, offset: nat)
    ensures |content| >= offset > 0 && CompleteLength(content) > 0
    ensures SplitLines(content[..CompleteLength(content)]) == [[120], [121]]
    ensures NewLines(Some(content), offset) == [[121]]
  {
    content, offset := [120, 10, 121, 10], 2;
    OneLine(120);
    OneLine(121);
    SplitAdditive([120, 10], [121, 10]);
    assert content == [120, 10] + [121, 10];
    assert content[2..] == [121, 10] && content[2..4] == [121, 10] && content[..4] == content;
  }

  lemma OneLine(b: Byte)
    requires b == 120 || b == 121
    ensures SplitLines([b, NEWLINE]) == [[b]]
  {
    var line := [b, NEWLINE];
    assert BoundaryLength(line, 0) == 0 && BoundaryLength(line, 1) == 1;
    assert line[0..1] == [b];
    assert SplitFrom(line, 2, 2) == [];
    assert SplitFrom(line, 0, 1) == [line[0..1]] + SplitFrom(line, 2, 2);
    assert SplitFrom(line, 0, 0) == SplitFrom(line, 0, 1);
  }

  // ----- what a run loses -----

  function Replaced(w: World, path: Path, content: seq<Byte>): World {
    w.(files := w.files[path := content])
  }

  /**
    Since the sink had `had`, it has got exactly the lines of the file from `base` up to the checkpoint, and nothing of
    what stands before `base`.
  */
  predicate Reads(content: seq<Byte>, saved: int, got: seq<seq<Byte>>, base: nat, had: seq<seq<Byte>>) {
    && base <= saved <= |content|
    && LineStart(content[base..], saved - base)
    && got == had + SplitLines(content[base..saved])
  }

  predicate ReadsFrom(w: World, path: Path, sink: Sink, base: nat, had: seq<seq<Byte>>) {
    path in w.files && Reads(w.files[path], SavedOffset(w, path), TextsOf(Received(w, sink), path), base, had)
  }

  /** A read from behind `base` sees the rest of the file only. */
  lemma ReadOfRest(content: seq<Byte>, base: nat, offset: nat)
    requires base <= offset <= |content|
    ensures NewOffset(Some(content), offset) == base + NewOffset(Some(content[base..]), offset - base)
    ensures NewLines(Some(content), offset) == NewLines(Some(content[base..]), offset - base)
  {
    hide CompleteLength, SplitLines;
    RestOfRest(content, base, offset, CompleteLength(content[offset..]));
  }

  lemma RestOfRest(content: seq<Byte>, base: nat, offset: nat, n: nat)
    requires base <= offset && offset + n <= |content|
    ensures content[base..][offset - base..] == content[offset..]
    ensures content[base..][offset - base..offset - base + n] == content[offset..offset + n]
  {}

  lemma ReadKeepsFrom(content: seq<Byte>, base: nat, offset: nat)
    requires base <= offset <= |content| && LineStart(content[base..], offset - base)
    ensures var next := NewOffset(Some(content), offset);
            && offset <= next <= |content| && LineStart(content[base..], next - base)
            && SplitLines(content[base..next])
               == SplitLines(content[base..offset]) + NewLines(Some(content), offset)
  {
    hide *;
    var rest := content[base..];
    ReadOfRest(content, base, offset);
    ReadAdvances(rest, offset - base);
    var next := NewOffset(Some(content), offset);
    assert rest[..next - base] == content[base..next] && rest[..offset - base] == content[base..offset];
  }

  /** The file grows. */
  lemma ReadsGrown(content: seq<Byte>, grown: seq<Byte>, saved: int, got: seq<seq<Byte>>, base: nat,
                   had: seq<seq<Byte>>)
    requires Reads(content, saved, got, base, had) && content <= grown
    ensures Reads(grown, saved, got, base, had)
  {
    assert grown[base..saved] == content[base..saved];
    if saved > base {
      assert grown[base..][saved - base - 1] == content[base..][saved - base - 1];
    }
  }

  /** One more batch is read. */
  lemma ReadsMore(content: seq<Byte>, saved: int, got: seq<seq<Byte>>, base: nat, had: seq<seq<Byte>>)
    requires Reads(content, saved, got, base, had)
    ensures Reads(content, NewOffset(Some(content), saved), got + NewLines(Some(content), saved), base, had)
  {
    ReadKeepsFrom(content, base, saved);
    Reassociate(had, SplitLines(content[base..saved]), NewLines(Some(content), saved));
  }

  lemma Reassociate(had: seq<seq<Byte>>, covered: seq<seq<Byte>>, texts: seq<seq<Byte>>)
    ensures had + (covered + texts) == had + covered + texts
  {}

  lemma GrowKeepsFrom(w: World, grown: Path, bytes: seq<Byte>, sinks: seq<Sink>, path: Path, sink: Sink,
                      base: nat, had: seq<seq<Byte>>)
    requires ReadsFrom(w, path, sink, base, had)
    ensures ReadsFrom(Apply(w, Grow(grown, bytes), sinks), path, sink, base, had)
    ensures Content(w, path) <= Content(Apply(w, Grow(grown, bytes), sinks), path)
  {
    ReadsGrown(Content(w, path), Content(Apply(w, Grow(grown, bytes), sinks), path), SavedOffset(w, path),
               TextsOf(Received(w, sink), path), base, had);
  }

  lemma PollKeepsFrom(w: World, paths: seq<Path>, outcome: Outcome, sinks: seq<Sink>, path: Path,
                      sink: Sink, base: nat, had: seq<seq<Byte>>)
    requires Distinct(sinks) && sink in sinks && Undisturbed(Poll(paths, outcome))
    requires ReadsFrom(w, path, sink, base, had)
    ensures ReadsFrom(PollWorld(w, paths, sinks, outcome), path, sink, base, had)
    ensures Content(PollWorld(w, paths, sinks, outcome), path) == Content(w, path)
  {
    UndisturbedPoll(w, paths, sinks, outcome, path, sink);
    ReadsMore(w.files[path], SavedOffset(w, path), TextsOf(Received(w, sink), path), base, had);
  }

  lemma StepKeepsFrom(w: World, step: Step, sinks: seq<Sink>, path: Path, sink: Sink, base: nat,
                      had: seq<seq<Byte>>)
    requires Distinct(sinks) && sink in sinks && Undisturbed(step) && ReadsFrom(w, path, sink, base, had)
    ensures ReadsFrom(Apply(w, step, sinks), path, sink, base, had)
    ensures Content(w, path) <= Content(Apply(w, step, sinks), path)
  {
    match step
    case Grow(grown, bytes) => GrowKeepsFrom(w, grown, bytes, sinks, path, sink, base, had);
    case Poll(paths, outcome) => PollKeepsFrom(w, paths, outcome, sinks, path, sink, base, had);
  }

  lemma {:induction false} RunKeepsFrom(w: World, steps: seq<Step>, sinks: seq<Sink>, path: Path, sink: Sink, base: nat,
                                        had: seq<seq<Byte>>)
    requires Distinct(sinks) && sink in sinks && (forall step <- steps :: Undisturbed(step))
    requires ReadsFrom(w, path, sink, base, had)
    ensures ReadsFrom(After(w, steps, sinks), path, sink, base, had)
    ensures Content(w, path) <= Content(After(w, steps, sinks), path)
  {
    if steps != [] {
      var n := |steps| - 1;
      assert forall step <- steps[..n] :: step in steps;
      RunKeepsFrom(w, steps[..n], sinks, path, sink, base, had);
      StepKeepsFrom(After(w, steps[..n], sinks), steps[n], sinks, path, sink, base, had);
    }
  }

  /**
    What a replacement costs that is at least as long as the checkpoint: however the undisturbed run goes on, each sink
    gets the new file's lines from the old offset on and never a byte before it. If the old offset happens to be a line
    start of the new file, exactly its lines up to there are lost; otherwise the first line delivered is a fragment.
  */
  lemma RotationLoses(w: World, path: Path, content: seq<Byte>, steps: seq<Step>, sinks: seq<Sink>, sink: Sink)
    requires Distinct(sinks) && sink in sinks && (forall step <- steps :: Undisturbed(step))
    requires 0 <= SavedOffset(w, path) <= |content|
    ensures var base, w' := SavedOffset(w, path), After(Replaced(w, path, content), steps, sinks);
            var saved, now := SavedOffset(w', path), Content(w', path);
            && content <= now && base <= saved <= |now|
            && TextsOf(Received(w', sink), path) == TextsOf(Received(w, sink), path) + SplitLines(now[base..saved])
            && (LineStart(content, base) ==>
                  SplitLines(now[..saved]) == SplitLines(content[..base]) + SplitLines(now[base..saved]))
  {
    var base, had := SavedOffset(w, path), TextsOf(Received(w, sink), path);
    StartsFrom(w, path, content, sink);
    RunKeepsFrom(Replaced(w, path, content), steps, sinks, path, sink, base, had);
    var w' := After(Replaced(w, path, content), steps, sinks);
    if LineStart(content, base) {
      LostLines(content, Content(w', path), base, SavedOffset(w', path));
    }
  }

  lemma StartsFrom(w: World, path: Path, content: seq<Byte>, sink: Sink)
    requires 0 <= SavedOffset(w, path) <= |content|
    ensures ReadsFrom(Replaced(w, path, content), path, sink, SavedOffset(w, path), TextsOf(Received(w, sink), path))
  {
    var base := SavedOffset(w, path);
    assert content[base..base] == [];
    NothingMore(TextsOf(Received(w, sink), path));
  }

  lemma LostLines(content: seq<Byte>, now: seq<Byte>, base: nat, saved: nat)
    requires content <= now && base <= |content| && base <= saved <= |now| && LineStart(content, base)
    ensures SplitLines(now[..saved]) == SplitLines(content[..base]) + SplitLines(now[base..saved])
  {
    assert now[..base] == content[..base] && now[..saved] == content[..base] + now[base..saved];
    SplitAdditive(content[..base], now[base..saved]);
  }

  /** A shorter replacement costs nothing: the first whole poll takes the new file from its first byte. */
  lemma RotationSeen(w: World, path: Path, content: seq<Byte>, paths: seq<Path>, sinks: seq<Sink>, sink: Sink)
    requires Distinct(sinks) && sink in sinks && Distinct(paths) && path in paths
    requires CanPoll(Replaced(w, path, content), paths) && |content| < SavedOffset(w, path)
    ensures var w' := PollWorld(Replaced(w, path, content), paths, sinks, Completed);
            && SavedOffset(w', path) == CompleteLength(content)
            && TextsOf(Received(w', sink), path)
               == TextsOf(Received(w, sink), path) + SplitLines(content[..CompleteLength(content)])
  {
    assert content[0..] == content;
    UndisturbedPoll(Replaced(w, path, content), paths, sinks, Completed, path, sink);
  }
}
