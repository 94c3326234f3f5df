/**
  What splitting a file into lines means, without the splitter: any bytes are plain texts, each with a line terminator
  behind it, and a plain rest, and the lines are those texts. So a log of plain lines is delivered line by line.
*/
module LogLines {
  import opened Common
  import opened Lines
  import opened Tailer
  import opened TailerRuns

  /** A text and the terminator behind it. */
  datatype Ended = Ended(text: seq<Byte>, end: seq<Byte>)

  /** LF, VT, FF, CR, FS, GS and RS, CR LF, and U+0085, U+2028 and U+2029 in UTF-8. */
  predicate IsTerminator(end: seq<Byte>) {
    || (|end| == 1 && (10 <= end[0] <= 13 || 28 <= end[0] <= 30))
    || end == [13, 10] || end == [0xC2, 0x85] || end == [0xE2, 0x80, 0xA8] || end == [0xE2, 0x80, 0xA9]
  }

  /** No terminator inside. */
  predicate PlainText(text: seq<Byte>) {
    forall i {:trigger text[i]} :: 0 <= i < |text| ==> !TerminatorAt(text, i)
  }

  predicate TerminatorAt(text: seq<Byte>, i: nat)
    requires i < |text|
  {
    || 10 <= text[i] <= 13
    || 28 <= text[i] <= 30
    || (text[i] == 0xC2 && i + 1 < |text| && text[i + 1] == 0x85)
    || (text[i] == 0xE2 && i + 2 < |text| && text[i + 1] == 0x80 && 0xA8 <= text[i + 2] <= 0xA9)
  }

  function Joined(pieces: seq<Ended>): seq<Byte> {
    if pieces == [] then [] else pieces[0].text + (pieces[0].end + Joined(pieces[1..]))
  }

  function Texts(pieces: seq<Ended>): (texts: seq<seq<Byte>>)
    ensures |texts| == |pieces|
  {
    seq(|pieces|, i requires 0 <= i < |pieces| => pieces[i].text)
  }

  /** Plain texts with terminators, where a CR is not followed by what would make it CR LF. */
  predicate WellEnded(pieces: seq<Ended>) {
    pieces != [] ==>
      && PlainText(pieces[0].text) && IsTerminator(pieces[0].end)
      && (pieces[0].end == [13] ==> !StartsWithLf(Joined(pieces[1..])))
      && WellEnded(pieces[1..])
  }

  predicate StartsWithLf(bytes: seq<Byte>) {
    bytes != [] && bytes[0] == NEWLINE
  }

  // ----- one line -----

  lemma NoBoundaryInPlain(text: seq<Byte>, end: seq<Byte>, tail: seq<Byte>, i: nat)
    requires PlainText(text) && (IsTerminator(end) || (end == [] && tail == [])) && i < |text|
    ensures BoundaryLength(text + (end + tail), i) == 0
  {
    var bytes := text + (end + tail);
    assert !TerminatorAt(text, i) && bytes[i] == text[i];
    assert i + 1 < |text| ==> bytes[i + 1] == text[i + 1];
    assert i + 2 < |text| ==> bytes[i + 2] == text[i + 2];
    if i + 1 >= |text| && IsTerminator(end) {
      assert bytes[i + 1] == end[0];
    } else if i + 2 >= |text| && IsTerminator(end) {
      assert bytes[i + 2] == end[0];
    }
  }

  lemma BoundaryAtEnd(text: seq<Byte>, end: seq<Byte>, tail: seq<Byte>)
    requires IsTerminator(end) && (end == [13] ==> !StartsWithLf(tail))
    ensures BoundaryLength(text + (end + tail), |text|) == |end|
  {
    var bytes, n := text + (end + tail), |text|;
    assert bytes[n] == end[0];
    assert |end| > 1 ==> bytes[n + 1] == end[1];
    assert |end| > 2 ==> bytes[n + 2] == end[2];
    assert |end| == 1 && tail != [] ==> bytes[n + 1] == tail[0];
  }

  lemma {:induction false} WalkText(bytes: seq<Byte>, n: nat, i: nat)
    requires i <= n <= |bytes|
    requires forall k {:trigger BoundaryLength(bytes, k)} :: 0 <= k < n ==> BoundaryLength(bytes, k) == 0
    ensures SplitFrom(bytes, 0, i) == SplitFrom(bytes, 0, n)
    decreases n - i
  {
    hide BoundaryLength;
    if i < n {
      WalkText(bytes, n, i + 1);
    }
  }

  lemma FirstLine(text: seq<Byte>, end: seq<Byte>, tail: seq<Byte>)
    requires PlainText(text) && IsTerminator(end) && (end == [13] ==> !StartsWithLf(tail))
    ensures SplitLines(text + (end + tail)) == [text] + SplitLines(tail)
  {
    hide BoundaryLength, PlainText, IsTerminator, SplitFrom, StartsWithLf;
    var bytes := text + (end + tail);
    forall k | 0 <= k < |text|
      ensures BoundaryLength(bytes, k) == 0
    {
      NoBoundaryInPlain(text, end, tail, k);
    }
    WalkText(bytes, |text|, 0);
    BoundaryAtEnd(text, end, tail);
    TerminatorLength(end);
    SplitStep(bytes, 0, |text|);
    SplitShifted(bytes, |text| + |end|, tail, 0, 0);
    assert bytes[0..|text|] == text;
  }

  lemma TerminatorLength(end: seq<Byte>)
    requires IsTerminator(end)
    ensures 1 <= |end| <= 3
  {}

  lemma OnlyRest(rest: seq<Byte>)
    requires PlainText(rest)
    ensures SplitLines(rest) == if rest == [] then [] else [rest]
  {
    hide BoundaryLength;
    assert rest + ([] + []) == rest;
    forall k | 0 <= k < |rest|
      ensures BoundaryLength(rest, k) == 0
    {
      NoBoundaryInPlain(rest, [], [], k);
    }
    WalkText(rest, |rest|, 0);
    assert rest[0..|rest|] == rest;
  }

  // ----- whole files -----

  /** The lines of plain texts with terminators behind them are those texts, and the rest if there is one. */
  lemma {:induction false} LinesAre(pieces: seq<Ended>, rest: seq<Byte>)
    requires WellEnded(pieces) && PlainText(rest)
    ensures SplitLines(Joined(pieces) + rest) == Texts(pieces) + if rest == [] then [] else [rest]
  {
    hide PlainText, IsTerminator, SplitLines;
    if pieces == [] {
      assert [] + rest == rest;
      OnlyRest(rest);
    } else {
      var first, tail := pieces[0], Joined(pieces[1..]) + rest;
      LinesAre(pieces[1..], rest);
      PlainStart(rest);
      FirstLine(first.text, first.end, tail);
      assert Joined(pieces) + rest == first.text + (first.end + tail);
      assert Texts(pieces) == [first.text] + Texts(pieces[1..]);
    }
  }

  lemma PlainStart(rest: seq<Byte>)
    requires PlainText(rest)
    ensures !StartsWithLf(rest)
  {
    assert rest != [] ==> !TerminatorAt(rest, 0);
  }

  /** And all bytes are of this form. */
  lemma {:induction false} Decompose(bytes: seq<Byte>) returns (pieces: seq<Ended>, rest: seq<Byte>)
    ensures WellEnded(pieces) && PlainText(rest) && Joined(pieces) + rest == bytes
    decreases |bytes|
  {
    hide PlainText, IsTerminator, BoundaryLength;
    var i := FirstBoundary(bytes, 0);
    PlainFront(bytes, i);
    if i == |bytes| {
      pieces, rest := [], bytes;
      assert bytes[..i] == bytes;
    } else {
      var n := BoundaryLength(bytes, i);
      BoundaryIsTerminator(bytes, i);
      var more;
      more, rest := Decompose(bytes[i + n..]);
      var first := Ended(bytes[..i], bytes[i..i + n]);
      pieces := [first] + more;
      assert pieces[1..] == more;
      JoinFront(Joined(more), rest);
      assert bytes == first.text + (first.end + (Joined(more) + rest));
    }
  }

  lemma JoinFront(joined: seq<Byte>, rest: seq<Byte>)
    ensures StartsWithLf(joined) ==> StartsWithLf(joined + rest)
  {}

  lemma {:induction false} FirstBoundary(bytes: seq<Byte>, from: nat) returns (i: nat)
    requires from <= |bytes|
    requires forall k {:trigger BoundaryLength(bytes, k)} :: 0 <= k < from ==> BoundaryLength(bytes, k) == 0
    ensures i <= |bytes| && (i < |bytes| ==> BoundaryLength(bytes, i) > 0)
    ensures forall k {:trigger BoundaryLength(bytes, k)} :: 0 <= k < i ==> BoundaryLength(bytes, k) == 0
    decreases |bytes| - from
  {
    hide BoundaryLength;
    if from == |bytes| || BoundaryLength(bytes, from) > 0 {
      i := from;
    } else {
      i := FirstBoundary(bytes, from + 1);
    }
  }

  lemma PlainFront(bytes: seq<Byte>, n: nat)
    requires n <= |bytes|
    requires forall k {:trigger BoundaryLength(bytes, k)} :: 0 <= k < n ==> BoundaryLength(bytes, k) == 0
    ensures PlainText(bytes[..n])
  {
    forall i | 0 <= i < n
      ensures !TerminatorAt(bytes[..n], i)
    {
      assert BoundaryLength(bytes, i) == 0;
    }
  }

  lemma BoundaryIsTerminator(bytes: seq<Byte>, i: nat)
    requires i < |bytes| && BoundaryLength(bytes, i) > 0
    ensures var n := BoundaryLength(bytes, i);
            && i + n <= |bytes| && IsTerminator(bytes[i..i + n])
            && (bytes[i..i + n] == [13] ==> !StartsWithLf(bytes[i + n..]))
  {
    var n := BoundaryLength(bytes, i);
    assert bytes[i..i + n][0] == bytes[i];
  }

  /** No line contains a terminator. */
  lemma LinesArePlain(bytes: seq<Byte>)
    ensures forall line <- SplitLines(bytes) :: PlainText(line)
  {
    hide PlainText, SplitLines;
    var pieces, rest := Decompose(bytes);
    LinesAre(pieces, rest);
    TextsArePlain(pieces);
  }

  lemma {:induction false} TextsArePlain(pieces: seq<Ended>)
    requires WellEnded(pieces)
    ensures forall text <- Texts(pieces) :: PlainText(text)
  {
    hide PlainText, IsTerminator;
    if pieces != [] {
      TextsArePlain(pieces[1..]);
      assert Texts(pieces) == [pieces[0].text] + Texts(pieces[1..]);
    }
  }

  // ----- logs -----

  /** Plain lines, each with LF or CR LF behind it. */
  predicate IsLog(pieces: seq<Ended>) {
    forall p <- pieces :: PlainText(p.text) && (p.end == [10] || p.end == [13, 10])
  }

  lemma {:induction false} LogIsWellEnded(pieces: seq<Ended>)
    requires IsLog(pieces)
    ensures WellEnded(pieces) && LineStart(Joined(pieces), |Joined(pieces)|)
  {
    hide PlainText;
    if pieces != [] {
      assert pieces[0] in pieces && forall p <- pieces[1..] :: p in pieces;
      LogIsWellEnded(pieces[1..]);
    }
  }

  /** Behind any file that ends at a line start, a read takes exactly the log's lines and leaves an unfinished one. */
  lemma LogIsRead(before: seq<Byte>, pieces: seq<Ended>, rest: seq<Byte>)
    requires LineStart(before, |before|) && IsLog(pieces) && NEWLINE !in rest
    ensures var content := before + (Joined(pieces) + rest);
            && NewLines(Some(content), |before|) == Texts(pieces)
            && NewOffset(Some(content), |before|) == |before| + |Joined(pieces)|
  {
    hide SplitLines, PlainText, CompleteLength, IsLog, WellEnded;
    var content, log := before + (Joined(pieces) + rest), Joined(pieces);
    LogIsWellEnded(pieces);
    assert content[|before|..] == log + rest;
    LogEnd(log, rest);
    assert content[|before|..|before| + |log|] == log;
    NothingIsPlain();
    LinesAre(pieces, []);
    assert log + [] == log && Texts(pieces) + [] == Texts(pieces);
  }

  lemma NothingIsPlain()
    ensures PlainText([])
  {}

  lemma LogEnd(log: seq<Byte>, rest: seq<Byte>)
    requires LineStart(log, |log|) && NEWLINE !in rest
    ensures CompleteLength(log + rest) == |log|
  {
    LastLineStart(log + rest, |log|);
  }

  /** So an undisturbed poll delivers the log's lines, whole and in order, and no part of an unfinished one. */
  lemma LogIsDelivered(w: World, paths: seq<Path>, sinks: seq<Sink>, path: Path, sink: Sink, before: seq<Byte>,
                       pieces: seq<Ended>, rest: seq<Byte>)
    requires Distinct(sinks) && sink in sinks && Distinct(paths) && path in paths && CanPoll(w, paths)
    requires path in w.files && w.files[path] == before + (Joined(pieces) + rest)
    requires SavedOffset(w, path) == |before|
    requires LineStart(before, |before|) && IsLog(pieces) && NEWLINE !in rest
    ensures var w' := PollWorld(w, paths, sinks, Completed);
            && TextsOf(Received(w', sink), path) == TextsOf(Received(w, sink), path) + Texts(pieces)
            && SavedOffset(w', path) == |before| + |Joined(pieces)|
  {
    hide PollWorld, NewLines, NewOffset, Joined, IsLog;
    LogIsRead(before, pieces, rest);
    UndisturbedPoll(w, paths, sinks, Completed, path, sink);
  }
}
