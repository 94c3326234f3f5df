/**
  The offset-checkpointed log tailer: a poll reads the complete new lines of each file, hands the
  batch to its sinks and only then rewrites the checkpoint. Modelled as a state machine over file
  growth, polls, failures at any point of a poll, and damage to the checkpoint.
*/
module Tailer {
  import opened Common
  import opened Lines

  type Path = string

  /** A delivered line, with the file that it was read from. */
  datatype Line = Line(path: Path, text: seq<Byte>)

  /** A checkpoint's value for a path: an offset, a value that is not a number, or an infinite one. */
  datatype Entry = At(offset: int) | NoNumber | Infinite

  /** The checkpoint file; `Undecodable` stands for content on which decoding fails other than as bad JSON. */
  datatype StateFile = Absent | Unreadable | NotAnObject | Undecodable | Entries(entries: map<Path, Entry>)

  datatype Sink = OutputFile | HttpCollector

  /** Everything that outlives a poll. */
  datatype World = World(files: map<Path, seq<Byte>>, state: StateFile, output: seq<Line>, collected: seq<Line>)

  /** A poll runs to its end, or ends after `reached` sinks took the batch and the next one `partly` lines of it. */
  datatype Outcome = Completed | Interrupted(reached: nat, partly: nat)

  // ----- the checkpoint -----

  /** Bad JSON and values that are no numbers are passed over; text that is not UTF-8 and infinite values raise. */
  function LoadOffsets(state: StateFile): Option<map<Path, int>> {
    match state
    case Undecodable => None
    case Entries(entries) =>
      if exists p <- entries :: entries[p].Infinite? then None
      else Some(map p | p in entries && entries[p].At? :: entries[p].offset)
    case _ => Some(map[])
  }

  function SaveOffsets(offsets: map<Path, int>): StateFile {
    Entries(map p | p in offsets :: At(offsets[p]))
  }

  function OffsetOf(offsets: map<Path, int>, path: Path): int {
    if path in offsets then offsets[path] else 0
  }

  /** The offsets of a checkpoint, none if it cannot be loaded. */
  function Offsets(state: StateFile): map<Path, int> {
    var offsets := LoadOffsets(state);
    if offsets.Some? then offsets.value else map[]
  }

  // ----- one poll -----

  /** Seeking to a negative offset raises; a missing file is not opened. */
  predicate Seekable(content: Option<seq<Byte>>, offset: int) {
    content.Some? ==> offset >= 0
  }

  /** The offset a read starts from: a file shorter than its offset is read from the beginning. */
  function ReadStart(content: seq<Byte>, offset: nat): (start: nat)
    ensures start <= |content|
  {
    if |content| < offset then 0 else offset
  }

  function NewOffset(content: Option<seq<Byte>>, offset: int): int {
    if content.None? || offset < 0 then offset
    else
      var start := ReadStart(content.value, offset);
      start + CompleteLength(content.value[start..])
  }

  function NewLines(content: Option<seq<Byte>>, offset: int): seq<seq<Byte>> {
    if content.None? || offset < 0 then []
    else
      var start := ReadStart(content.value, offset);
      SplitLines(content.value[start..NewOffset(content, offset)])
  }

  function FileAt(files: map<Path, seq<Byte>>, path: Path): Option<seq<Byte>> {
    if path in files then Some(files[path]) else None
  }

  function Tagged(path: Path, texts: seq<seq<Byte>>): seq<Line> {
    seq(|texts|, i requires 0 <= i < |texts| => Line(path, texts[i]))
  }

  /** The batch of a poll: every path in turn, each from its checkpointed offset. */
  function Batch(files: map<Path, seq<Byte>>, offsets: map<Path, int>, paths: seq<Path>): seq<Line> {
    if paths == [] then []
    else
      var path := paths[|paths| - 1];
      Batch(files, offsets, paths[..|paths| - 1]) +
      Tagged(path, NewLines(FileAt(files, path), OffsetOf(offsets, path)))
  }

  function NextOffsets(files: map<Path, seq<Byte>>, offsets: map<Path, int>, paths: seq<Path>): map<Path, int> {
    if paths == [] then offsets
    else
      var path := paths[|paths| - 1];
      NextOffsets(files, offsets, paths[..|paths| - 1])
        [path := NewOffset(FileAt(files, path), OffsetOf(offsets, path))]
  }

  /** One line that cannot be parsed fails the whole batch. */
  predicate AllValid(batch: seq<Line>, valid: seq<Byte> -> bool) {
    forall line <- batch :: valid(line.text)
  }

  function Deliver(w: World, sinks: seq<Sink>, batch: seq<Line>): World {
    if sinks == [] then w
    else
      var w' := Deliver(w, sinks[..|sinks| - 1], batch);
      match sinks[|sinks| - 1]
      case OutputFile => w'.(output := w'.output + batch)
      case HttpCollector => w'.(collected := w'.collected + batch)
  }

  /** `reached` sinks take the batch, and the next one its first `partly` lines. */
  function DeliverPart(w: World, sinks: seq<Sink>, batch: seq<Line>, reached: nat, partly: nat): World {
    if reached >= |sinks| then Deliver(w, sinks, batch)
    else Deliver(Deliver(w, sinks[..reached], batch), [sinks[reached]], batch[..Min(partly, |batch|)])
  }

  /** The checkpoint loads, and no file of the poll has a negative offset in it. */
  predicate CanPoll(w: World, paths: seq<Path>) {
    && LoadOffsets(w.state).Some?
    && forall path <- paths :: Seekable(FileAt(w.files, path), OffsetOf(Offsets(w.state), path))
  }

  function PollWorld(w: World, paths: seq<Path>, sinks: seq<Sink>, outcome: Outcome): World {
    var batch := Batch(w.files, Offsets(w.state), paths);
    var saved := SaveOffsets(NextOffsets(w.files, Offsets(w.state), paths));
    if !CanPoll(w, paths) then w
    else
      match outcome
      case Completed => (if batch == [] then w else Deliver(w, sinks, batch)).(state := saved)
      case Interrupted(reached, partly) => if batch == [] then w else DeliverPart(w, sinks, batch, reached, partly)
  }

  lemma DeliverOne(w: World, batch: seq<Line>)
    ensures Deliver(w, [OutputFile], batch) == w.(output := w.output + batch)
    ensures Deliver(w, [HttpCollector], batch) == w.(collected := w.collected + batch)
  {
    assert [OutputFile][..0] == [] && [HttpCollector][..0] == [];
  }

  lemma DeliverCases(w: World, batch: seq<Line>, partly: nat)
    ensures Deliver(w, [OutputFile], batch) == w.(output := w.output + batch)
    ensures Deliver(w, [HttpCollector], batch) == w.(collected := w.collected + batch)
    ensures Deliver(w, [OutputFile, HttpCollector], batch)
            == w.(output := w.output + batch, collected := w.collected + batch)
    ensures DeliverPart(w, [HttpCollector], batch, 0, partly)
            == w.(collected := w.collected + batch[..Min(partly, |batch|)])
    ensures DeliverPart(w, [OutputFile, HttpCollector], batch, 1, partly)
            == w.(output := w.output + batch, collected := w.collected + batch[..Min(partly, |batch|)])
  {
    var part := batch[..Min(partly, |batch|)];
    DeliverOne(w, batch);
    DeliverOne(w, part);
    DeliverOne(w.(output := w.output + batch), part);
    assert [HttpCollector][..0] == [] && [OutputFile, HttpCollector][..1] == [OutputFile];
  }

  lemma DeliverNothing(w: World, sinks: seq<Sink>, batch: seq<Line>)
    ensures DeliverPart(w, sinks, batch, 0, 0) == w
  {
    assert batch[..0] == [];
    assert w.output + [] == w.output && w.collected + [] == w.collected;
    if sinks != [] {
      var last := [sinks[0]];
      assert last[..0] == [] && sinks[..0] == [];
      assert Deliver(w, last, []) == w;
    }
  }

  // ----- the program -----

  /** The new complete lines of a file and the offset behind them, or nothing when the read raises. */
  method ReadNewCompleteLines(content: Option<seq<Byte>>, offset: int) returns (r: Option<(seq<seq<Byte>>, int)>)
    ensures r.Some? <==> Seekable(content, offset)
    ensures r.Some? ==> r.value == (NewLines(content, offset), NewOffset(content, offset))
  {
    if content.None? {
      return Some(([], offset));
    }
    var file := content.value;
    var start := offset;
    if |file| < start {
      start := 0;
    }
    if |file| == start {
      assert file[start..] == [] && file[start..start] == [];
      return Some(([], start));
    }
    if start < 0 {
      return None;
    }
    var data := file[start..];
    var complete := CompleteLength(data);
    if complete == 0 {
      assert file[start..start] == [];
      return Some(([], start));
    }
    assert data[..complete] == file[start..start + complete];
    return Some((SplitLines(data[..complete]), start + complete));
  }

  class Host {
    var files: map<Path, seq<Byte>>
    var state: StateFile
    var output: seq<Line>
    var collected: seq<Line>

    function Now(): World
      reads this
    {
      World(files, state, output, collected)
    }

    /** What the next poll of these paths would deliver. */
    function Pending(paths: seq<Path>): seq<Line>
      reads this
    {
      Batch(files, Offsets(state), paths)
    }

    /** The read loop of a poll: the batch and the offsets to save after it, or nothing when it raises. */
    method ReadAll(paths: seq<Path>) returns (r: Option<(seq<Line>, map<Path, int>)>)
      ensures r.Some? <==> CanPoll(Now(), paths)
      ensures r.Some? ==> r.value == (Pending(paths), NextOffsets(files, Offsets(state), paths))
    {
      var loaded := LoadOffsets(state);
      if loaded.None? {
        return None;
      }
      var offsets := loaded.value;
      var rawLines, nextOffsets := [], offsets;
      var n := 0;
      while n < |paths|
        invariant 0 <= n <= |paths|
        invariant forall i :: 0 <= i < n ==> Seekable(FileAt(files, paths[i]), OffsetOf(offsets, paths[i]))
        invariant rawLines == Batch(files, offsets, paths[..n])
        invariant nextOffsets == NextOffsets(files, offsets, paths[..n])
      {
        var path := paths[n];
        var lines := ReadNewCompleteLines(FileAt(files, path), OffsetOf(offsets, path));
        if lines.None? {
          return None;
        }
        assert paths[..n + 1][..n] == paths[..n];
        rawLines := rawLines + Tagged(path, lines.value.0);
        nextOffsets := nextOffsets[path := lines.value.1];
        n := n + 1;
      }
      assert paths[..n] == paths;
      return Some((rawLines, nextOffsets));
    }

    /** One Wazuh poll, which raises or counts its raw lines; `valid` says which lines can be parsed. */
    method StreamOnce(paths: seq<Path>, valid: seq<Byte> -> bool) returns (rawLines: Option<nat>)
      modifies this
      ensures var outcome := WazuhOutcome(old(Pending(paths)), valid);
              && Now() == PollWorld(old(Now()), paths, [OutputFile], outcome)
              && (rawLines.Some? <==> outcome.Completed? && old(CanPoll(Now(), paths)))
      ensures rawLines.Some? ==> rawLines.value == |old(Pending(paths))|
    {
      var read := ReadAll(paths);
      if read.None? {
        return None;
      }
      var (batch, nextOffsets) := read.value;
      if |batch| == 0 {
        state := SaveOffsets(nextOffsets);
        return Some(0);
      }
      DeliverCases(Now(), batch, 0);
      DeliverNothing(Now(), [OutputFile], batch);
      if !AllValid(batch, valid) {
        return None;
      }
      output := output + batch;
      state := SaveOffsets(nextOffsets);
      return Some(|batch|);
    }

    /**
      One Splunk poll; `accepted` is how many lines the collector takes before it fails, if it does. The code raises at
      once when it has neither an output file nor a collector, which `toFile || toCollector` says.
    */
    method SplunkStreamOnce(paths: seq<Path>, toFile: bool, toCollector: bool, valid: seq<Byte> -> bool,
                            accepted: Option<nat>)
      returns (rawLines: Option<nat>)
      requires toFile || toCollector
      modifies this
      ensures var outcome := SplunkOutcome(old(Pending(paths)), toFile, toCollector, valid, accepted);
              && Now() == PollWorld(old(Now()), paths, SplunkSinks(toFile, toCollector), outcome)
              && (rawLines.Some? <==> outcome.Completed? && old(CanPoll(Now(), paths)))
      ensures rawLines.Some? ==> rawLines.value == |old(Pending(paths))|
    {
      var read := ReadAll(paths);
      if read.None? {
        return None;
      }
      var (batch, nextOffsets) := read.value;
      if |batch| == 0 {
        state := SaveOffsets(nextOffsets);
        return Some(0);
      }
      DeliverNothing(Now(), SplunkSinks(toFile, toCollector), batch);
      if !AllValid(batch, valid) {
        return None;
      }
      DeliverCases(Now(), batch, if accepted.Some? then accepted.value else 0);
      assert SplunkSinks(true, true) == [OutputFile, HttpCollector];
      if toFile {
        output := output + batch;
      }
      if toCollector {
        if accepted.Some? {
          collected := collected + batch[..Min(accepted.value, |batch|)];
          return None;
        }
        collected := collected + batch;
      }
      state := SaveOffsets(nextOffsets);
      return Some(|batch|);
    }
  }

  function SplunkSinks(toFile: bool, toCollector: bool): seq<Sink> {
    (if toFile then [OutputFile] else []) + if toCollector then [HttpCollector] else []
  }

  function WazuhOutcome(batch: seq<Line>, valid: seq<Byte> -> bool): Outcome {
    if AllValid(batch, valid) then Completed else Interrupted(0, 0)
  }

  function SplunkOutcome(batch: seq<Line>, toFile: bool, toCollector: bool, valid: seq<Byte> -> bool,
                         accepted: Option<nat>): Outcome {
    if batch == [] then Completed
    else if !AllValid(batch, valid) then Interrupted(0, 0)
    else if toCollector && accepted.Some? then Interrupted(if toFile then 1 else 0, accepted.value)
    else Completed
  }
}
