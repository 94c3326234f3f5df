/**
  The report importer's JSON slicing, second half: the scanner that finds where a named top-level
  array of an object starts, proved against the members of the syntax tree.
*/
module JsonMembers {
  import opened Common
  import opened JsonGrammar
  import opened JsonNesting
  import opened JsonScanner

  // ----- the scanner's pieces -----

  /** The index of the closing quote, from a position inside a string. */
  function ClosingQuote(bytes: seq<Byte>, i: nat, escaped: bool): (q: Option<nat>)
    ensures q.Some? ==> i <= q.value < |bytes|
    decreases |bytes| - i
  {
    if i >= |bytes| then None
    else if escaped then ClosingQuote(bytes, i + 1, false)
    else if bytes[i] == BACKSLASH then ClosingQuote(bytes, i + 1, true)
    else if bytes[i] == QUOTE then Some(i)
    else ClosingQuote(bytes, i + 1, false)
  }

  /** The raw string whose opening quote is at `start`, and the index after its closing quote. */
  function ReadString(bytes: seq<Byte>, start: nat): Option<(seq<Byte>, nat)>
    requires start < |bytes|
  {
    var q := ClosingQuote(bytes, start + 1, false);
    if q.None? then None else Some((bytes[start + 1..q.value], q.value + 1))
  }

  method ReadJsonString(bytes: seq<Byte>, start: nat) returns (r: Option<(seq<Byte>, nat)>)
    requires start < |bytes|
    ensures r == ReadString(bytes, start)
  {
    var idx := start + 1;
    var escaped := false;
    while idx < |bytes|
      invariant start < idx <= |bytes|
      invariant ClosingQuote(bytes, start + 1, false) == ClosingQuote(bytes, idx, escaped)
    {
      var byte := bytes[idx];
      if escaped {
        escaped := false;
      } else if byte == BACKSLASH {
        escaped := true;
      } else if byte == QUOTE {
        return Some((bytes[start + 1..idx], idx + 1));
      }
      idx := idx + 1;
    }
    return None;
  }

  /** The first index at or after `i` that holds no tab, line feed, carriage return or space. */
  function SkipWs(bytes: seq<Byte>, i: nat): (j: nat)
    ensures i <= j
    ensures j <= Max(i, |bytes|)
    ensures forall k :: i <= k < j ==> bytes[k] in [9, 10, 13, 32]
    ensures j < |bytes| ==> bytes[j] !in [9, 10, 13, 32]
    decreases |bytes| - i
  {
    if i < |bytes| && IsWs(bytes[i]) then SkipWs(bytes, i + 1) else i
  }

  method SkipJsonWs(bytes: seq<Byte>, start: nat) returns (idx: nat)
    ensures idx == SkipWs(bytes, start)
  {
    idx := start;
    while idx < |bytes| && IsWs(bytes[idx])
      invariant SkipWs(bytes, start) == SkipWs(bytes, idx)
    {
      idx := idx + 1;
    }
  }

  /** From just past a matching name: the value's bracket, if a colon and a bracket follow. */
  function BracketAfterName(bytes: seq<Byte>, after: nat): Option<nat> {
    var c := SkipWs(bytes, after);
    if c >= |bytes| || bytes[c] != COLON then None
    else
      var d := SkipWs(bytes, c + 1);
      if d < |bytes| && bytes[d] == OPEN_ARRAY then Some(d) else None
  }

  /** The index that the member scanner answers, from a given position and state. */
  function ArrayStart(bytes: seq<Byte>, i: nat, st: Scan, key: seq<Byte>): Option<nat>
    decreases |bytes| - i
  {
    if i >= |bytes| then None
    else if !st.inString && st.depth == 1 && bytes[i] == QUOTE then
      var read := ReadString(bytes, i);
      if read.None? then None
      else if read.value.0 == key then BracketAfterName(bytes, read.value.1)
      else ArrayStart(bytes, read.value.1, st, key)
    else ArrayStart(bytes, i + 1, NextState(st, bytes[i]), key)
  }

  function NextState(st: Scan, b: Byte): Scan {
    if st.inString then InString(st, b)
    else if b == QUOTE then st.(inString := true)
    else if Opens(b, true) then st.(depth := st.depth + 1)
    else if Closes(b, true) then st.(depth := if st.depth > 0 then st.depth - 1 else 0)
    else st
  }

  method FindTopLevelArrayStart(bytes: seq<Byte>, key: seq<Byte>) returns (r: Option<nat>)
    ensures r == ArrayStart(bytes, 0, At(0), key)
  {
    var idx := 0;
    var depth: nat, inString, escaped := 0, false, false;
    while idx < |bytes|
      invariant 0 <= idx <= |bytes|
      invariant ArrayStart(bytes, 0, At(0), key) == ArrayStart(bytes, idx, Scan(depth, inString, escaped), key)
      decreases |bytes| - idx
    {
      var byte := bytes[idx];
      if inString {
        if escaped {
          escaped := false;
        } else if byte == BACKSLASH {
          escaped := true;
        } else if byte == QUOTE {
          inString := false;
        }
        idx := idx + 1;
        continue;
      }
      if byte == QUOTE && depth == 1 {
        var read := ReadJsonString(bytes, idx);
        if read.None? {
          return None;
        }
        var (name, afterName) := read.value;
        if name == key {
          var cursor := SkipJsonWs(bytes, afterName);
          if cursor >= |bytes| || bytes[cursor] != COLON {
            return None;
          }
          cursor := SkipJsonWs(bytes, cursor + 1);
          if cursor < |bytes| && bytes[cursor] == OPEN_ARRAY {
            return Some(cursor);
          }
          return None;
        }
        idx := afterName;
        continue;
      }
      if byte == QUOTE {
        inString := true;
      } else if byte == OPEN_OBJECT || byte == OPEN_ARRAY {
        depth := depth + 1;
      } else if byte == CLOSE_OBJECT || byte == CLOSE_ARRAY {
        depth := if depth > 0 then depth - 1 else 0;
      }
      idx := idx + 1;
    }
    return None;
  }

  // ----- what it should find -----

  /** The first member named `key`: its offset in the printed members, and the run that it heads. */
  function FindMember(members: Members, key: seq<Byte>): (found: Option<(nat, Members)>)
    ensures found.Some? ==> found.value.1.Member? && Raw(found.value.1.name) == key
  {
    match members
    case NoMembers => None
    case Member(_, name, _, _, _, _, rest) =>
      if Raw(name) == key then Some((0, members))
      else
        var found := FindMember(rest, key);
        if found.None? then None else Some((MemberEnd(0, members) + 1 + found.value.0, found.value.1))
  }

  /** The offset of the array that is the value of the first member named `key`. */
  function MemberArray(members: Members, key: seq<Byte>): Option<nat> {
    var found := FindMember(members, key);
    if found.Some? && found.value.1.value.Array? then Some(found.value.0 + |MemberHead(found.value.1)|) else None
  }

  function Shift(n: nat, r: Option<nat>): Option<nat> {
    if r.Some? then Some(n + r.value) else None
  }

  /** Before any member named `key`, some member's value is a string spelled exactly like it. */
  predicate Shadowed(members: Members, key: seq<Byte>) {
    match members
    case NoMembers => false
    case Member(_, name, _, _, value, _, rest) =>
      Raw(name) != key && ((value.Text? && Raw(value.parts) == key) || Shadowed(rest, key))
  }

  // ----- the scanner meets the grammar -----

  /** Wherever the nesting tracker stays at depth two or deeper, the member scanner just passes on. */
  lemma {:induction false} ArrayStartPasses(bytes: seq<Byte>, i: nat, t: seq<Byte>, st: Scan, key: seq<Byte>)
    requires StandsAt(bytes, i, t) && Track(t, st, true, 2).Some? && st.depth >= 2
    ensures ArrayStart(bytes, i, st, key) == ArrayStart(bytes, i + |t|, Track(t, st, true, 2).value, key)
    decreases |t|
  {
    if t != [] {
      StandsAtTail(bytes, i, t);
      ArrayStartPasses(bytes, i + 1, t[1..], Step(st, t[0], true, 2).value, key);
    }
  }

  /** At any depth, bytes without quotes or brackets change nothing. */
  lemma {:induction false} ArrayStartFlat(bytes: seq<Byte>, i: nat, t: seq<Byte>, depth: nat, key: seq<Byte>)
    requires StandsAt(bytes, i, t)
    requires forall b <- t :: b != QUOTE && !Opens(b, true) && !Closes(b, true)
    ensures ArrayStart(bytes, i, At(depth), key) == ArrayStart(bytes, i + |t|, At(depth), key)
    decreases |t|
  {
    if t != [] {
      StandsAtTail(bytes, i, t);
      assert t[0] in t && forall b <- t[1..] :: b in t;
      ArrayStartFlat(bytes, i + 1, t[1..], depth, key);
    }
  }

  lemma {:induction false} ClosingQuoteRaw(bytes: seq<Byte>, i: nat, parts: seq<Part>)
    requires ValidParts(parts) && StandsAt(bytes, i, Raw(parts) + [QUOTE])
    ensures ClosingQuote(bytes, i, false) == Some(i + |Raw(parts)|)
    decreases |parts|
  {
    StandsAtSplit(bytes, i, Raw(parts), [QUOTE]);
    if parts == [] {
      assert bytes[i] == [QUOTE][0];
    } else {
      assert parts[0] in parts;
      var tail := Raw(parts[1..]) + [QUOTE];
      match parts[0]
      case Plain(b) =>
        assert Raw(parts) + [QUOTE] == [b] + tail;
        StandsAtSplit(bytes, i, [b], tail);
        assert bytes[i] == [b][0];
        ClosingQuoteRaw(bytes, i + 1, parts[1..]);
      case Escape(b) =>
        assert Raw(parts) + [QUOTE] == [BACKSLASH, b] + tail;
        StandsAtSplit(bytes, i, [BACKSLASH, b], tail);
        assert bytes[i] == [BACKSLASH, b][0];
        ClosingQuoteRaw(bytes, i + 2, parts[1..]);
    }
  }

  /** A string at depth one is read whole: it decides the answer if it equals the key, else it is skipped. */
  lemma ArrayStartQuoted(bytes: seq<Byte>, i: nat, parts: seq<Part>, key: seq<Byte>)
    requires ValidParts(parts) && StandsAt(bytes, i, Quoted(parts))
    ensures var after := i + |Quoted(parts)|;
            ArrayStart(bytes, i, At(1), key)
            == if Raw(parts) == key then BracketAfterName(bytes, after) else ArrayStart(bytes, after, At(1), key)
  {
    assert Quoted(parts) == [QUOTE] + (Raw(parts) + [QUOTE]);
    StandsAtSplit(bytes, i, [QUOTE], Raw(parts) + [QUOTE]);
    StandsAtSplit(bytes, i + 1, Raw(parts), [QUOTE]);
    assert bytes[i] == [QUOTE][0];
    ClosingQuoteRaw(bytes, i + 1, parts);
    assert bytes[i + 1..i + 1 + |Raw(parts)|] == Raw(parts);
  }

  /** A value at depth one other than a string spelled like the key is passed over. */
  lemma ArrayStartValue(bytes: seq<Byte>, i: nat, v: Value, key: seq<Byte>)
    requires Valid(v) && StandsAt(bytes, i, Print(v))
    requires !(v.Text? && Raw(v.parts) == key)
    ensures ArrayStart(bytes, i, At(1), key) == ArrayStart(bytes, i + |Print(v)|, At(1), key)
  {
    hide ArrayStart;
    match v
    case Token(t) => ArrayStartFlat(bytes, i, t, 1, key);
    case Text(parts) => ArrayStartQuoted(bytes, i, parts, key);
    case Array(_, _) =>
      NeutralInner(v, 2, true, 2);
      ArrayStartBracketed(bytes, i, OPEN_ARRAY, Inner(v), CLOSE_ARRAY, key);
    case Object(_, _) =>
      NeutralInner(v, 2, true, 2);
      ArrayStartBracketed(bytes, i, OPEN_OBJECT, Inner(v), CLOSE_OBJECT, key);
  }

  lemma ArrayStartBracketed(bytes: seq<Byte>, i: nat, open: Byte, inner: seq<Byte>, close: Byte,
                            key: seq<Byte>)
    requires open != QUOTE && Opens(open, true)
    requires close != QUOTE && !Opens(close, true) && Closes(close, true)
    requires Neutral(inner, 2, true, 2) && StandsAt(bytes, i, [open] + inner + [close])
    ensures ArrayStart(bytes, i, At(1), key) == ArrayStart(bytes, i + |inner| + 2, At(1), key)
  {
    var end := i + 1 + |inner|;
    StandsAtSplit(bytes, i, [open] + inner, [close]);
    StandsAtSplit(bytes, i, [open], inner);
    assert bytes[i] == [open][0] && bytes[end] == [close][0];
    ArrayStartPasses(bytes, i + 1, inner, At(2), key);
  }

  lemma {:induction false} SkipWsBlank(bytes: seq<Byte>, i: nat, ws: seq<Byte>)
    requires StandsAt(bytes, i, ws) && Blank(ws)
    requires i + |ws| < |bytes| ==> !IsWs(bytes[i + |ws|])
    ensures SkipWs(bytes, i) == i + |ws|
    decreases |ws|
  {
    if ws != [] {
      StandsAtTail(bytes, i, ws);
      SkipWsBlank(bytes, i + 1, ws[1..]);
    }
  }

  lemma PrintStarts(v: Value)
    requires Valid(v)
    ensures Print(v) != [] && !IsWs(Print(v)[0])
    ensures Print(v)[0] == OPEN_ARRAY <==> v.Array?
  {
    if v.Token? {
      assert v.bytes[0] in v.bytes;
    }
  }

  /** After a matching name, the bracket is found exactly when the printed value is an array. */
  lemma BracketAfterMember(bytes: seq<Byte>, i: nat, before: seq<Byte>, after: seq<Byte>, v: Value)
    requires Blank(before) && Blank(after) && Valid(v)
    requires StandsAt(bytes, i, before) && StandsAt(bytes, i + |before|, [COLON])
    requires StandsAt(bytes, i + |before| + 1, after) && StandsAt(bytes, i + |before| + 1 + |after|, Print(v))
    ensures BracketAfterName(bytes, i) == if v.Array? then Some(i + |before| + 1 + |after|) else None
  {
    hide Print;
    PrintStarts(v);
    var c := i + |before|;
    var d := c + 1 + |after|;
    assert bytes[c] == [COLON][0] && bytes[d] == Print(v)[0];
    SkipWsBlank(bytes, i, before);
    SkipWsBlank(bytes, c + 1, after);
  }

  /** The separator after a member: a comma, or the brace that closes the object. */
  predicate SeparatorAt(bytes: seq<Byte>, i: nat, last: bool) {
    i < |bytes| && bytes[i] == if last then CLOSE_OBJECT else COMMA
  }

  /** The pieces of the first of `members`, each at its place. */
  predicate Placed(bytes: seq<Byte>, i: nat, members: Members)
    requires members.Member?
  {
    var n := i + |members.lead|;
    var c := n + |Quoted(members.name)|;
    var d := c + |members.beforeColon|;
    var v := i + |MemberHead(members)|;
    var t := v + |Print(members.value)|;
    && StandsAt(bytes, i, members.lead) && StandsAt(bytes, n, Quoted(members.name))
    && StandsAt(bytes, c, members.beforeColon) && StandsAt(bytes, d, [COLON])
    && v == d + 1 + |members.afterColon|
    && StandsAt(bytes, d + 1, members.afterColon) && StandsAt(bytes, v, Print(members.value))
    && StandsAt(bytes, t, members.trail)
  }

  lemma {:induction false} PlaceMember(bytes: seq<Byte>, i: nat, members: Members)
    requires members.Member? && StandsAt(bytes, i, PrintMembers(members))
    ensures Placed(bytes, i, members)
    ensures var end := MemberEnd(i, members);
            && (members.rest.NoMembers? ==> end == i + |PrintMembers(members)|)
            && (members.rest.Member? ==>
                  SeparatorAt(bytes, end, false) && StandsAt(bytes, end + 1, PrintMembers(members.rest)))
  {
    hide StandsAt;
    var more := if members.rest.NoMembers? then [] else [COMMA] + PrintMembers(members.rest);
    PlacePieces(bytes, i, members.lead, Quoted(members.name), members.beforeColon, members.afterColon,
                Print(members.value), members.trail, more);
    if members.rest.Member? {
      var end := i + |MemberHead(members)| + |Print(members.value)| + |members.trail|;
      StandsAtSplit(bytes, end, [COMMA], PrintMembers(members.rest));
      assert bytes[end] == [COMMA][0];
    }
  }

  lemma PlacePieces(bytes: seq<Byte>, i: nat, lead: seq<Byte>, name: seq<Byte>, before: seq<Byte>,
                    after: seq<Byte>, value: seq<Byte>, trail: seq<Byte>, more: seq<Byte>)
    requires StandsAt(bytes, i, lead + name + before + [COLON] + after + value + trail + more)
    ensures var c := i + |lead| + |name|;
            var v := c + |before| + 1 + |after|;
            && StandsAt(bytes, i, lead) && StandsAt(bytes, i + |lead|, name) && StandsAt(bytes, c, before)
            && StandsAt(bytes, c + |before|, [COLON]) && StandsAt(bytes, c + |before| + 1, after)
            && StandsAt(bytes, v, value) && StandsAt(bytes, v + |value|, trail)
            && StandsAt(bytes, v + |value| + |trail|, more)
  {
    var head := lead + name + before + [COLON] + after;
    StandsAtSplit(bytes, i, head + value + trail, more);
    StandsAtSplit(bytes, i, head + value, trail);
    StandsAtSplit(bytes, i, head, value);
    StandsAtSplit(bytes, i, lead + name + before + [COLON], after);
    StandsAtSplit(bytes, i, lead + name + before, [COLON]);
    StandsAtSplit(bytes, i, lead + name, before);
    StandsAtSplit(bytes, i, lead, name);
  }

  /** One member, in pieces: it decides the answer or leaves the scanner at the separator behind it. */
  lemma MemberPieces(bytes: seq<Byte>, n: nat, c: nat, v: nat, name: seq<Part>, before: seq<Byte>,
                     after: seq<Byte>, value: Value, trail: seq<Byte>, last: bool, key: seq<Byte>)
    requires ValidParts(name) && Blank(before) && Blank(after) && Valid(value) && Blank(trail)
    requires c == n + |Quoted(name)| && v == c + |before| + 1 + |after|
    requires StandsAt(bytes, n, Quoted(name))
    requires StandsAt(bytes, c, before) && StandsAt(bytes, c + |before|, [COLON])
    requires StandsAt(bytes, c + |before| + 1, after) && StandsAt(bytes, v, Print(value))
    requires StandsAt(bytes, v + |Print(value)|, trail) && SeparatorAt(bytes, v + |Print(value)| + |trail|, last)
    ensures Raw(name) == key ==> ArrayStart(bytes, n, At(1), key) == if value.Array? then Some(v) else None
    ensures Raw(name) != key ==>
              ArrayStart(bytes, n, At(1), key)
              == if value.Text? && Raw(value.parts) == key then None
                 else ArrayStart(bytes, v + |Print(value)| + |trail|, At(1), key)
  {
    hide *;
    ArrayStartQuoted(bytes, n, name, key);
    if Raw(name) == key {
      BracketAfterMember(bytes, c, before, after, value);
    } else {
      NameToValue(bytes, c, before, after, key);
      ValueToSeparator(bytes, v, value, trail, last, key);
    }
  }

  lemma OneMember(bytes: seq<Byte>, i: nat, members: Members, last: bool, key: seq<Byte>)
    requires members.Member? && ValidMembers(members) && Placed(bytes, i, members)
    requires SeparatorAt(bytes, MemberEnd(i, members), last)
    ensures ArrayStart(bytes, i, At(1), key) == MemberAnswer(bytes, i, members, key)
  {
    hide ArrayStart, Print;
    var n := i + |members.lead|;
    ArrayStartFlat(bytes, i, members.lead, 1, key);
    MemberPieces(bytes, n, n + |Quoted(members.name)|, i + |MemberHead(members)|, members.name, members.beforeColon,
                 members.afterColon, members.value, members.trail, last, key);
  }

  function MemberEnd(i: nat, members: Members): nat
    requires members.Member?
  {
    i + |MemberHead(members)| + |Print(members.value)| + |members.trail|
  }

  function MemberAnswer(bytes: seq<Byte>, i: nat, members: Members, key: seq<Byte>): Option<nat>
    requires members.Member?
  {
    if Raw(members.name) == key then if members.value.Array? then Some(i + |MemberHead(members)|) else None
    else if members.value.Text? && Raw(members.value.parts) == key then None
    else ArrayStart(bytes, MemberEnd(i, members), At(1), key)
  }

  lemma NameToValue(bytes: seq<Byte>, c: nat, before: seq<Byte>, after: seq<Byte>, key: seq<Byte>)
    requires Blank(before) && Blank(after)
    requires StandsAt(bytes, c, before) && StandsAt(bytes, c + |before|, [COLON])
    requires StandsAt(bytes, c + |before| + 1, after)
    ensures ArrayStart(bytes, c, At(1), key) == ArrayStart(bytes, c + |before| + 1 + |after|, At(1), key)
  {
    ArrayStartFlat(bytes, c, before, 1, key);
    ArrayStartFlat(bytes, c + |before|, [COLON], 1, key);
    ArrayStartFlat(bytes, c + |before| + 1, after, 1, key);
  }

  lemma ValueToSeparator(bytes: seq<Byte>, v: nat, value: Value, trail: seq<Byte>, last: bool,
                         key: seq<Byte>)
    requires Valid(value) && Blank(trail)
    requires StandsAt(bytes, v, Print(value)) && StandsAt(bytes, v + |Print(value)|, trail)
    requires SeparatorAt(bytes, v + |Print(value)| + |trail|, last)
    ensures ArrayStart(bytes, v, At(1), key)
            == if value.Text? && Raw(value.parts) == key then None
               else ArrayStart(bytes, v + |Print(value)| + |trail|, At(1), key)
  {
    hide ArrayStart;
    var t := v + |Print(value)|;
    if value.Text? && Raw(value.parts) == key {
      ArrayStartQuoted(bytes, v, value.parts, key);
      SkipWsBlank(bytes, t, trail);
    } else {
      ArrayStartValue(bytes, v, value, key);
      ArrayStartFlat(bytes, t, trail, 1, key);
    }
  }

  lemma PrintedLength(members: Members)
    requires members.Member?
    ensures |PrintMembers(members)|
            == MemberEnd(0, members) + if members.rest.NoMembers? then 0 else 1 + |PrintMembers(members.rest)|
  {}

  /** The first member of a run, and where the scanner stands after it. */
  lemma FirstMember(bytes: seq<Byte>, i: nat, members: Members, key: seq<Byte>)
    requires members.Member? && ValidMembers(members) && StandsAt(bytes, i, PrintMembers(members))
    requires SeparatorAt(bytes, i + |PrintMembers(members)|, true)
    ensures ArrayStart(bytes, i, At(1), key) == MemberAnswer(bytes, i, members, key)
    ensures members.rest.NoMembers? ==> MemberEnd(i, members) == i + |PrintMembers(members)|
    ensures members.rest.Member? ==>
              && StandsAt(bytes, MemberEnd(i, members) + 1, PrintMembers(members.rest))
              && MemberEnd(i, members) + 1 + |PrintMembers(members.rest)| == i + |PrintMembers(members)|
              && ArrayStart(bytes, MemberEnd(i, members), At(1), key)
                 == ArrayStart(bytes, MemberEnd(i, members) + 1, At(1), key)
  {
    PlaceMember(bytes, i, members);
    PrintedLength(members);
    OneMember(bytes, i, members, members.rest.NoMembers?, key);
    if members.rest.Member? {
      assert StandsAt(bytes, MemberEnd(i, members), [COMMA]);
      ArrayStartFlat(bytes, MemberEnd(i, members), [COMMA], 1, key);
    }
  }

  /** The scanner's answer, member by member. */
  function WalkMembers(i: nat, members: Members, key: seq<Byte>): Option<nat>
    decreases members
  {
    if members.NoMembers? then None
    else if Raw(members.name) == key then if members.value.Array? then Some(i + |MemberHead(members)|) else None
    else if members.value.Text? && Raw(members.value.parts) == key then None
    else WalkMembers(MemberEnd(i, members) + 1, members.rest, key)
  }

  lemma {:induction false} WalkMeaning(i: nat, members: Members, key: seq<Byte>)
    ensures WalkMembers(i, members, key) == if Shadowed(members, key) then None else Shift(i, MemberArray(members, key))
    decreases members
  {
    if members.Member? {
      WalkMeaning(MemberEnd(i, members) + 1, members.rest, key);
    }
  }

  /** The scanner from the first byte of an object's members to its closing brace. */
  lemma {:induction false} ArrayStartMembers(bytes: seq<Byte>, i: nat, members: Members, key: seq<Byte>)
    requires ValidMembers(members) && StandsAt(bytes, i, PrintMembers(members))
    requires SeparatorAt(bytes, i + |PrintMembers(members)|, true)
    requires ArrayStart(bytes, i + |PrintMembers(members)|, At(1), key) == None
    ensures ArrayStart(bytes, i, At(1), key) == WalkMembers(i, members, key)
    decreases members
  {
    hide ReadString, ArrayStart, MemberHead;
    if members.Member? {
      FirstMember(bytes, i, members, key);
      if members.rest.Member? {
        ArrayStartMembers(bytes, MemberEnd(i, members) + 1, members.rest, key);
      }
    }
  }

  lemma RestStands(bytes: seq<Byte>, i: nat, members: Members)
    requires members.Member? && members.rest.Member? && StandsAt(bytes, i, PrintMembers(members))
    ensures StandsAt(bytes, MemberEnd(i, members) + 1, PrintMembers(members.rest))
  {
    PlaceMember(bytes, i, members);
  }

  /** The first member named `key` stands where `FindMember` says. */
  lemma {:induction false} FoundMemberStands(bytes: seq<Byte>, i: nat, members: Members, key: seq<Byte>)
    requires ValidMembers(members) && StandsAt(bytes, i, PrintMembers(members))
    requires FindMember(members, key).Some?
    ensures var (offset, node) := FindMember(members, key).value;
            ValidMembers(node) && StandsAt(bytes, i + offset, PrintMembers(node))
    decreases members
  {
    if Raw(members.name) != key {
      RestStands(bytes, i, members);
      FoundMemberStands(bytes, MemberEnd(i, members) + 1, members.rest, key);
    }
  }
}
