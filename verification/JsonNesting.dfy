/**
  The byte-by-byte nesting tracker that both JSON scanners share, and the one induction over
  syntax trees they need: a whole value brings the tracker back to where it started.
*/
module JsonNesting {
  import opened Common
  import opened JsonGrammar

  datatype Scan = Scan(depth: nat, inString: bool, escaped: bool)

  function At(depth: nat): Scan {
    Scan(depth, false, false)
  }

  predicate Opens(b: Byte, braces: bool) {
    b == OPEN_ARRAY || (braces && b == OPEN_OBJECT)
  }

  predicate Closes(b: Byte, braces: bool) {
    b == CLOSE_ARRAY || (braces && b == CLOSE_OBJECT)
  }

  /** One byte inside a string. */
  function InString(st: Scan, b: Byte): Scan {
    if st.escaped then st.(escaped := false)
    else if b == BACKSLASH then st.(escaped := true)
    else st.(inString := b != QUOTE)
  }

  /** One byte; `None` when the depth would fall below `floor`. With `braces`, objects nest too. */
  function Step(st: Scan, b: Byte, braces: bool, floor: nat): Option<Scan> {
    if st.inString then Some(InString(st, b))
    else if b == QUOTE then Some(st.(inString := true))
    else if Opens(b, braces) then Some(st.(depth := st.depth + 1))
    else if Closes(b, braces) then
      if st.depth <= floor || st.depth == 0 then None else Some(st.(depth := st.depth - 1))
    else Some(st)
  }

  function Track(t: seq<Byte>, st: Scan, braces: bool, floor: nat): Option<Scan> {
    if t == [] then Some(st)
    else
      var next := Step(st, t[0], braces, floor);
      if next.None? then None else Track(t[1..], next.value, braces, floor)
  }

  /** Scanning `t` from `depth` stays at or above `floor` and ends where it began. */
  predicate Neutral(t: seq<Byte>, depth: nat, braces: bool, floor: nat) {
    Track(t, At(depth), braces, floor) == Some(At(depth))
  }

  lemma {:induction false} TrackConcat(a: seq<Byte>, b: seq<Byte>, st: Scan, braces: bool, floor: nat)
    requires Track(a, st, braces, floor).Some?
    ensures Track(a + b, st, braces, floor) == Track(b, Track(a, st, braces, floor).value, braces, floor)
    decreases |a|
  {
    if a == [] {
      assert a + b == b;
    } else {
      assert (a + b)[1..] == a[1..] + b;
      TrackConcat(a[1..], b, Step(st, a[0], braces, floor).value, braces, floor);
    }
  }

  lemma NeutralConcat(a: seq<Byte>, b: seq<Byte>, depth: nat, braces: bool, floor: nat)
    requires Neutral(a, depth, braces, floor) && Neutral(b, depth, braces, floor)
    ensures Neutral(a + b, depth, braces, floor)
  {
    TrackConcat(a, b, At(depth), braces, floor);
  }

  lemma {:induction false} NeutralFlat(t: seq<Byte>, depth: nat, braces: bool, floor: nat)
    requires forall b <- t :: b != QUOTE && !Opens(b, braces) && !Closes(b, braces)
    ensures Neutral(t, depth, braces, floor)
  {
    if t != [] {
      assert t[0] in t && forall b <- t[1..] :: b in t;
      NeutralFlat(t[1..], depth, braces, floor);
    }
  }

  lemma {:induction false} TrackRaw(parts: seq<Part>, depth: nat, braces: bool, floor: nat)
    requires ValidParts(parts)
    ensures Track(Raw(parts) + [QUOTE], Scan(depth, true, false), braces, floor) == Some(At(depth))
  {
    var t := Raw(parts) + [QUOTE];
    if parts != [] {
      assert parts[0] in parts;
      TrackRaw(parts[1..], depth, braces, floor);
      var tail := Raw(parts[1..]) + [QUOTE];
      match parts[0]
      case Plain(b) =>
        assert t == [b] + tail && t[1..] == tail;
      case Escape(b) =>
        assert t == [BACKSLASH, b] + tail && t[1..][1..] == tail;
        assert Track(t[1..], Scan(depth, true, true), braces, floor)
            == Track(tail, Scan(depth, true, false), braces, floor);
    }
  }

  lemma NeutralQuoted(parts: seq<Part>, depth: nat, braces: bool, floor: nat)
    requires ValidParts(parts)
    ensures Neutral(Quoted(parts), depth, braces, floor)
  {
    TrackRaw(parts, depth, braces, floor);
    assert Quoted(parts)[1..] == Raw(parts) + [QUOTE];
  }

  /** A bracketed run: neutral one level further in makes it neutral as a whole. */
  lemma NeutralBracketed(open: Byte, inner: seq<Byte>, close: Byte, depth: nat, braces: bool, floor: nat)
    requires open != QUOTE && Opens(open, braces)
    requires close != QUOTE && !Opens(close, braces) && Closes(close, braces)
    requires Neutral(inner, depth + 1, braces, floor) && depth >= floor
    ensures Neutral([open] + inner + [close], depth, braces, floor)
  {
    assert ([open] + inner + [close])[1..] == inner + [close];
    TrackConcat(inner, [close], At(depth + 1), braces, floor);
    assert Track([close], At(depth + 1), braces, floor) == Some(At(depth));
  }

  /** What an array or object holds between its brackets. */
  function Inner(v: Value): (inner: seq<Byte>)
    requires v.Array? || v.Object?
    ensures v.Array? ==> Print(v) == [OPEN_ARRAY] + inner + [CLOSE_ARRAY]
    ensures v.Object? ==> Print(v) == [OPEN_OBJECT] + inner + [CLOSE_OBJECT]
  {
    if v.Array? then if v.items.NoItems? then v.pad else PrintItems(v.items)
    else if v.members.NoMembers? then v.pad else PrintMembers(v.members)
  }

  lemma {:induction false} NeutralInner(v: Value, depth: nat, braces: bool, floor: nat)
    requires (v.Array? || v.Object?) && Valid(v) && depth >= floor
    ensures Neutral(Inner(v), depth, braces, floor)
    decreases v, 0
  {
    if v.Array? && v.items.Item? {
      NeutralItems(v.items, depth, braces, floor);
    } else if v.Object? && v.members.Member? {
      NeutralMembers(v.members, depth, braces, floor);
    } else {
      NeutralFlat(v.pad, depth, braces, floor);
    }
  }

  lemma {:induction false} NeutralValue(v: Value, depth: nat, braces: bool, floor: nat)
    requires Valid(v) && depth >= floor
    ensures Neutral(Print(v), depth, braces, floor)
    decreases v, 1
  {
    match v
    case Token(bytes) => NeutralFlat(bytes, depth, braces, floor);
    case Text(parts) => NeutralQuoted(parts, depth, braces, floor);
    case Array(_, _) =>
      NeutralInner(v, depth + 1, braces, floor);
      NeutralBracketed(OPEN_ARRAY, Inner(v), CLOSE_ARRAY, depth, braces, floor);
    case Object(_, _) =>
      if braces {
        NeutralInner(v, depth + 1, braces, floor);
        NeutralBracketed(OPEN_OBJECT, Inner(v), CLOSE_OBJECT, depth, braces, floor);
      } else {
        NeutralInner(v, depth, braces, floor);
        NeutralFlat([OPEN_OBJECT], depth, braces, floor);
        NeutralFlat([CLOSE_OBJECT], depth, braces, floor);
        NeutralConcat([OPEN_OBJECT], Inner(v), depth, braces, floor);
        NeutralConcat([OPEN_OBJECT] + Inner(v), [CLOSE_OBJECT], depth, braces, floor);
      }
  }

  lemma {:induction false} NeutralItems(items: Items, depth: nat, braces: bool, floor: nat)
    requires ValidItems(items) && depth >= floor
    ensures Neutral(PrintItems(items), depth, braces, floor)
    decreases items
  {
    match items
    case NoItems =>
    case Item(lead, value, trail, rest) =>
      NeutralFlat(lead, depth, braces, floor);
      NeutralValue(value, depth, braces, floor);
      NeutralFlat(trail, depth, braces, floor);
      NeutralItems(rest, depth, braces, floor);
      NeutralConcat(lead, Print(value), depth, braces, floor);
      NeutralConcat(lead + Print(value), trail, depth, braces, floor);
      NeutralTail(lead + Print(value) + trail, PrintItems(rest), rest.NoItems?, depth, braces, floor);
  }

  lemma {:induction false} NeutralMembers(members: Members, depth: nat, braces: bool, floor: nat)
    requires ValidMembers(members) && depth >= floor
    ensures Neutral(PrintMembers(members), depth, braces, floor)
    decreases members
  {
    match members
    case NoMembers =>
    case Member(_, _, _, _, value, trail, rest) =>
      NeutralHead(members, depth, braces, floor);
      NeutralValue(value, depth, braces, floor);
      NeutralFlat(trail, depth, braces, floor);
      NeutralMembers(rest, depth, braces, floor);
      NeutralConcat(MemberHead(members), Print(value), depth, braces, floor);
      NeutralConcat(MemberHead(members) + Print(value), trail, depth, braces, floor);
      NeutralTail(MemberHead(members) + Print(value) + trail, PrintMembers(rest), rest.NoMembers?, depth, braces,
                  floor);
  }

  lemma NeutralTail(entry: seq<Byte>, rest: seq<Byte>, last: bool, depth: nat, braces: bool, floor: nat)
    requires Neutral(entry, depth, braces, floor) && Neutral(rest, depth, braces, floor)
    ensures Neutral(entry + if last then [] else [COMMA] + rest, depth, braces, floor)
  {
    NeutralFlat([], depth, braces, floor);
    NeutralFlat([COMMA], depth, braces, floor);
    NeutralConcat([COMMA], rest, depth, braces, floor);
    NeutralConcat(entry, if last then [] else [COMMA] + rest, depth, braces, floor);
  }

  lemma NeutralHead(members: Members, depth: nat, braces: bool, floor: nat)
    requires members.Member? && ValidMembers(members)
    ensures Neutral(MemberHead(members), depth, braces, floor)
  {
    var head := members.lead + Quoted(members.name);
    var colon := members.beforeColon + [COLON] + members.afterColon;
    NeutralFlat(members.lead, depth, braces, floor);
    NeutralQuoted(members.name, depth, braces, floor);
    NeutralConcat(members.lead, Quoted(members.name), depth, braces, floor);
    NeutralFlat(colon, depth, braces, floor);
    NeutralConcat(head, colon, depth, braces, floor);
    assert MemberHead(members) == head + colon;
  }
}
