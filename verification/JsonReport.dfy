/**
  Slicing one named top-level array out of a report, as the importer does: a textual shortcut,
  the member scanner behind it, and the array-end scanner, for every object text of the grammar.
*/
module JsonReport {
  import opened Common
  import opened JsonGrammar
  import opened JsonNesting
  import opened JsonScanner
  import opened JsonMembers

  /** A report: an object with whitespace around it. */
  ghost predicate IsReport(text: seq<Byte>, lead: seq<Byte>, v: Value, trail: seq<Byte>) {
    v.Object? && Valid(v) && Blank(lead) && Blank(trail) && text == lead + Print(v) + trail
  }

  /** The index at which the first byte of the members of a report stands. */
  function MembersAt(lead: seq<Byte>): nat {
    |lead| + 1
  }

  /** The right answer: the bracket of the first top-level member named `key`, if its value is an array. */
  function ArrayOf(lead: seq<Byte>, v: Value, key: seq<Byte>): Option<nat>
    requires v.Object?
  {
    Shift(MembersAt(lead), MemberArray(v.members, key))
  }

  lemma ReportPieces(text: seq<Byte>, lead: seq<Byte>, v: Value, trail: seq<Byte>)
    requires IsReport(text, lead, v, trail)
    ensures var close := MembersAt(lead) + |Inner(v)|;
            && StandsAt(text, 0, lead) && StandsAt(text, |lead|, [OPEN_OBJECT])
            && StandsAt(text, MembersAt(lead), Inner(v)) && StandsAt(text, close, [CLOSE_OBJECT])
            && StandsAt(text, close + 1, trail) && |text| == close + 1 + |trail|
  {
    StandsAtSplit(text, 0, lead + Print(v), trail);
    StandsAtSplit(text, 0, lead, Print(v));
    StandsAtSplit(text, |lead|, [OPEN_OBJECT] + Inner(v), [CLOSE_OBJECT]);
    StandsAtSplit(text, |lead|, [OPEN_OBJECT], Inner(v));
  }

  /** Past the closing brace there is nothing to find. */
  lemma NothingAfterClose(text: seq<Byte>, close: nat, trail: seq<Byte>, key: seq<Byte>)
    requires StandsAt(text, close, [CLOSE_OBJECT]) && StandsAt(text, close + 1, trail) && Blank(trail)
    requires |text| == close + 1 + |trail|
    ensures ArrayStart(text, close, At(1), key) == None
  {
    assert text[close] == [CLOSE_OBJECT][0];
    ArrayStartFlat(text, close + 1, trail, 0, key);
  }

  /** From the first byte inside the object. */
  lemma InsideObject(text: seq<Byte>, i: nat, v: Value, key: seq<Byte>)
    requires v.Object? && Valid(v) && StandsAt(text, i, Inner(v))
    requires SeparatorAt(text, i + |Inner(v)|, true)
    requires ArrayStart(text, i + |Inner(v)|, At(1), key) == None
    ensures ArrayStart(text, i, At(1), key) == WalkMembers(i, v.members, key)
  {
    hide PrintMembers;
    if v.members.NoMembers? {
      ArrayStartFlat(text, i, v.pad, 1, key);
    } else {
      ArrayStartMembers(text, i, v.members, key);
    }
  }

  /** Up to the first byte inside the object. */
  lemma BeforeObject(text: seq<Byte>, lead: seq<Byte>, key: seq<Byte>)
    requires Blank(lead) && StandsAt(text, 0, lead) && StandsAt(text, |lead|, [OPEN_OBJECT])
    ensures ArrayStart(text, 0, At(0), key) == ArrayStart(text, MembersAt(lead), At(1), key)
  {
    ArrayStartFlat(text, 0, lead, 0, key);
    assert text[|lead|] == [OPEN_OBJECT][0];
  }

  lemma WalkReport(text: seq<Byte>, lead: seq<Byte>, v: Value, n: nat, trail: seq<Byte>, key: seq<Byte>)
    requires v.Object? && Valid(v) && Blank(lead) && Blank(trail) && n == |Inner(v)|
    requires StandsAt(text, 0, lead) && StandsAt(text, |lead|, [OPEN_OBJECT])
    requires StandsAt(text, MembersAt(lead), Inner(v)) && StandsAt(text, MembersAt(lead) + n, [CLOSE_OBJECT])
    requires StandsAt(text, MembersAt(lead) + n + 1, trail) && |text| == MembersAt(lead) + n + 1 + |trail|
    ensures ArrayStart(text, 0, At(0), key) == WalkMembers(MembersAt(lead), v.members, key)
  {
    var close := MembersAt(lead) + n;
    BeforeObject(text, lead, key);
    NothingAfterClose(text, close, trail, key);
    assert text[close] == [CLOSE_OBJECT][0];
    InsideObject(text, MembersAt(lead), v, key);
  }

  /**
    The member scanner on any report: the right answer, unless an earlier top-level string value
    is spelled like the key, and then nothing.
  */
  lemma TopLevelArrayStart(text: seq<Byte>, lead: seq<Byte>, v: Value, trail: seq<Byte>, key: seq<Byte>)
    requires IsReport(text, lead, v, trail)
    ensures ArrayStart(text, 0, At(0), key) == if Shadowed(v.members, key) then None else ArrayOf(lead, v, key)
  {
    ReportPieces(text, lead, v, trail);
    WalkReport(text, lead, v, |Inner(v)|, trail, key);
    WalkMeaning(MembersAt(lead), v.members, key);
  }

  /** Exactly when the member scanner is right about a report. */
  lemma TopLevelRightIff(text: seq<Byte>, lead: seq<Byte>, v: Value, trail: seq<Byte>, key: seq<Byte>)
    requires IsReport(text, lead, v, trail)
    ensures ArrayStart(text, 0, At(0), key) == ArrayOf(lead, v, key)
            <==> !(Shadowed(v.members, key) && MemberArray(v.members, key).Some?)
  {
    TopLevelArrayStart(text, lead, v, trail, key);
  }

  // ----- the textual shortcut -----

  /** What may stand between the colon and the bracket in the shortcut's three patterns. */
  const GAPS: seq<seq<Byte>> := [[32], [10], [10, 32, 32]]

  /** `"key":`, a gap, and an opening bracket. */
  function Pattern(key: seq<Byte>, gap: seq<Byte>): seq<Byte> {
    [QUOTE] + key + [QUOTE, COLON] + gap + [OPEN_ARRAY]
  }

  /** The first index at or after `i` where `pattern` stands. */
  function FirstOccurrence(text: seq<Byte>, pattern: seq<Byte>, i: nat): (p: Option<nat>)
    ensures p.Some? ==> i <= p.value && StandsAt(text, p.value, pattern)
    ensures forall j :: i <= j && StandsAt(text, j, pattern) ==> p.Some? && p.value <= j
    decreases |text| - i
  {
    if i + |pattern| > |text| then None
    else if StandsAt(text, i, pattern) then Some(i)
    else FirstOccurrence(text, pattern, i + 1)
  }

  function FirstBracket(text: seq<Byte>, i: nat): Option<nat>
    decreases |text| - i
  {
    if i >= |text| then None
    else if text[i] == OPEN_ARRAY then Some(i)
    else FirstBracket(text, i + 1)
  }

  /** The first pattern, in order, that occurs at all: where it first occurs, and its gap. */
  function Shortcut(text: seq<Byte>, key: seq<Byte>, gaps: seq<seq<Byte>>): (hit: Option<(nat, seq<Byte>)>)
    ensures hit.Some? ==> hit.value.1 in gaps && StandsAt(text, hit.value.0, Pattern(key, hit.value.1))
  {
    if gaps == [] then None
    else
      var p := FirstOccurrence(text, Pattern(key, gaps[0]), 0);
      if p.Some? then Some((p.value, gaps[0])) else Shortcut(text, key, gaps[1..])
  }

  function ReportArrayStart(text: seq<Byte>, key: seq<Byte>): Option<nat> {
    var hit := Shortcut(text, key, GAPS);
    if hit.Some? then FirstBracket(text, hit.value.0) else ArrayStart(text, 0, At(0), key)
  }

  method FindReportArrayStart(text: seq<Byte>, key: seq<Byte>) returns (r: Option<nat>)
    ensures r == ReportArrayStart(text, key)
  {
    var n := 0;
    assert GAPS[0..] == GAPS;
    while n < |GAPS|
      invariant 0 <= n <= |GAPS|
      invariant Shortcut(text, key, GAPS) == Shortcut(text, key, GAPS[n..])
    {
      var position := FirstOccurrence(text, Pattern(key, GAPS[n]), 0);
      assert GAPS[n..][1..] == GAPS[n + 1..];
      if position.Some? {
        return FirstBracket(text, position.value);
      }
      n := n + 1;
    }
    r := FindTopLevelArrayStart(text, key);
  }

  // ----- when the shortcut is right -----

  /** The bracket after a pattern, by the same search that the member scanner makes after a name. */
  lemma PatternBracket(text: seq<Byte>, p: nat, key: seq<Byte>, gap: seq<Byte>)
    requires gap in GAPS && OPEN_ARRAY !in key && StandsAt(text, p, Pattern(key, gap))
    ensures var q := p + |key| + 3 + |gap|;
            && FirstBracket(text, p) == Some(q)
            && BracketAfterName(text, p + |key| + 2) == Some(q)
            && StandsAt(text, p + |key| + 1, [QUOTE, COLON]) && StandsAt(text, p + |key| + 3, gap)
  {
    PatternPieces(text, p, key, gap);
    var c := p + |key| + 2;
    assert text[c - 1] == [QUOTE, COLON][0] && text[c] == [QUOTE, COLON][1];
    assert text[c + 1 + |gap|] == [OPEN_ARRAY][0];
    BlankGap(gap);
    SkipWsBlank(text, c, []);
    SkipWsBlank(text, c + 1, gap);
    assert text[p] == [QUOTE][0];
    NoBracketIn(text, p + 1, key);
    NoBracketIn(text, c + 1, gap);
  }

  lemma BlankGap(gap: seq<Byte>)
    requires gap in GAPS
    ensures Blank(gap) && OPEN_ARRAY !in gap && gap != []
  {}

  lemma PatternPieces(text: seq<Byte>, p: nat, key: seq<Byte>, gap: seq<Byte>)
    requires StandsAt(text, p, Pattern(key, gap))
    ensures StandsAt(text, p, [QUOTE]) && StandsAt(text, p + 1, key) && StandsAt(text, p + 1 + |key|, [QUOTE, COLON])
    ensures StandsAt(text, p + |key| + 3, gap) && StandsAt(text, p + |key| + 3 + |gap|, [OPEN_ARRAY])
  {
    StandsAtSplit(text, p, [QUOTE] + key + [QUOTE, COLON] + gap, [OPEN_ARRAY]);
    StandsAtSplit(text, p, [QUOTE] + key + [QUOTE, COLON], gap);
    StandsAtSplit(text, p, [QUOTE] + key, [QUOTE, COLON]);
    StandsAtSplit(text, p, [QUOTE], key);
  }

  lemma {:induction false} NoBracketIn(text: seq<Byte>, i: nat, t: seq<Byte>)
    requires StandsAt(text, i, t) && OPEN_ARRAY !in t
    ensures FirstBracket(text, i) == FirstBracket(text, i + |t|)
    decreases |t|
  {
    if t != [] {
      StandsAtTail(text, i, t);
      assert t[0] in t && forall b <- t[1..] :: b in t;
      NoBracketIn(text, i + 1, t[1..]);
    }
  }

  /** The index of the opening quote of the first top-level member named `key`. */
  function NameAt(lead: seq<Byte>, v: Value, key: seq<Byte>): Option<nat>
    requires v.Object?
  {
    var found := FindMember(v.members, key);
    if found.None? then None else Some(MembersAt(lead) + found.value.0 + |found.value.1.lead|)
  }

  /** Where the right answer stands relative to the name. */
  lemma MemberInText(text: seq<Byte>, lead: seq<Byte>, v: Value, trail: seq<Byte>, key: seq<Byte>)
    returns (i: nat, node: Members)
    requires IsReport(text, lead, v, trail) && FindMember(v.members, key).Some?
    ensures node == FindMember(v.members, key).value.1 && i == MembersAt(lead) + FindMember(v.members, key).value.0
    ensures node.Member? && ValidMembers(node) && Placed(text, i, node) && Raw(node.name) == key
  {
    ReportPieces(text, lead, v, trail);
    FoundMemberStands(text, MembersAt(lead), v.members, key);
    node := FindMember(v.members, key).value.1;
    i := MembersAt(lead) + FindMember(v.members, key).value.0;
    PlaceMember(text, i, node);
  }

  /** A pattern that starts at the name of the member finds that member's bracket. */
  lemma PatternAtName(text: seq<Byte>, i: nat, node: Members, key: seq<Byte>, gap: seq<Byte>)
    requires node.Member? && ValidMembers(node) && Placed(text, i, node) && Raw(node.name) == key
    requires gap in GAPS && OPEN_ARRAY !in key && StandsAt(text, i + |node.lead|, Pattern(key, gap))
    ensures node.value.Array? && FirstBracket(text, i + |node.lead|) == Some(i + |MemberHead(node)|)
  {
    hide StandsAt;
    PatternBracket(text, i + |node.lead|, key, gap);
    BracketAfterMember(text, i + |node.lead| + |Quoted(node.name)|, node.beforeColon, node.afterColon, node.value);
  }

  /** A pattern that ends at the bracket of the member started at its name. */
  lemma PatternEndsAtBracket(text: seq<Byte>, n: nat, c: nat, before: seq<Byte>, after: seq<Byte>,
                             q: nat, p: nat, key: seq<Byte>, gap: seq<Byte>)
    requires Blank(before) && Blank(after) && gap in GAPS
    requires c == n + |key| + 2 && StandsAt(text, c - 1, [QUOTE])
    requires StandsAt(text, c, before) && StandsAt(text, c + |before|, [COLON])
    requires StandsAt(text, c + |before| + 1, after)
    requires q == c + |before| + 1 + |after| == p + |key| + 3 + |gap|
    requires StandsAt(text, p + |key| + 1, [QUOTE, COLON]) && StandsAt(text, p + |key| + 3, gap)
    ensures p == n
  {
    BlankGap(gap);
    var d, e := c + |before|, p + |key| + 2;
    assert text[d] == [COLON][0] && text[e] == [QUOTE, COLON][1];
    assert text[c - 1] == [QUOTE][0] && text[e - 1] == [QUOTE, COLON][0];
    BlankRun(text, c, before);
    BlankRun(text, d + 1, after);
    BlankRun(text, e + 1, gap);
  }

  lemma BlankRun(text: seq<Byte>, i: nat, ws: seq<Byte>)
    requires StandsAt(text, i, ws) && Blank(ws)
    ensures forall j :: i <= j < i + |ws| ==> IsWs(text[j])
  {
    forall j | i <= j < i + |ws|
      ensures IsWs(text[j])
    {
      assert text[i + (j - i)] == ws[j - i];
      assert ws[j - i] in ws;
    }
  }

  /** For one member: the pattern's bracket is the member's exactly if the pattern starts at its name. */
  lemma PatternMeetsMember(text: seq<Byte>, i: nat, node: Members, p: nat, key: seq<Byte>,
                           gap: seq<Byte>)
    requires node.Member? && ValidMembers(node) && Placed(text, i, node) && Raw(node.name) == key
    requires gap in GAPS && OPEN_ARRAY !in key && StandsAt(text, p, Pattern(key, gap))
    ensures (node.value.Array? && FirstBracket(text, p) == Some(i + |MemberHead(node)|)) <==> p == i + |node.lead|
  {
    hide Raw, FirstBracket, Valid, BracketAfterName;
    PatternBracket(text, p, key, gap);
    var n := i + |node.lead|;
    if p == n {
      PatternAtName(text, i, node, key, gap);
    } else if node.value.Array? && FirstBracket(text, p) == Some(i + |MemberHead(node)|) {
      QuotedEnds(text, n, node.name);
      PatternEndsAtBracket(text, n, n + |Quoted(node.name)|, node.beforeColon, node.afterColon, i + |MemberHead(node)|,
                           p, key, gap);
    }
  }

  /** When a pattern occurs, the importer's answer is right exactly if the first occurrence is at the member's name. */
  lemma ShortcutAtName(text: seq<Byte>, lead: seq<Byte>, v: Value, trail: seq<Byte>, key: seq<Byte>)
    requires IsReport(text, lead, v, trail) && OPEN_ARRAY !in key
    requires Shortcut(text, key, GAPS).Some?
    ensures ReportArrayStart(text, key) == ArrayOf(lead, v, key)
            <==> NameAt(lead, v, key) == Some(Shortcut(text, key, GAPS).value.0)
  {
    hide BracketAfterName, Print, FindMember, Shortcut;
    var (p, gap) := Shortcut(text, key, GAPS).value;
    PatternBracket(text, p, key, gap);
    if FindMember(v.members, key).Some? {
      var i, node := MemberInText(text, lead, v, trail, key);
      PatternMeetsMember(text, i, node, p, key, gap);
    }
  }

  lemma QuotedEnds(text: seq<Byte>, n: nat, parts: seq<Part>)
    requires StandsAt(text, n, Quoted(parts))
    ensures StandsAt(text, n + |Quoted(parts)| - 1, [QUOTE])
  {
    StandsAtSplit(text, n, [QUOTE] + Raw(parts), [QUOTE]);
  }

  // ----- the same, read off the text and the tree -----

  predicate OccursBefore(text: seq<Byte>, pattern: seq<Byte>, n: nat) {
    exists j :: 0 <= j < n && StandsAt(text, j, pattern)
  }

  predicate Occurs(text: seq<Byte>, pattern: seq<Byte>) {
    OccursBefore(text, pattern, |text| + 1)
  }

  /** An array right behind a colon and this gap. */
  predicate LaidOut(node: Members, gap: seq<Byte>)
    requires node.Member?
  {
    node.value.Array? && node.beforeColon == [] && node.afterColon == gap
  }

  /** The first pattern that occurs is the first of its kind, and it is the layout of the member itself. */
  predicate PatternOfMember(text: seq<Byte>, lead: seq<Byte>, v: Value, key: seq<Byte>, g: nat)
    requires v.Object? && g < |GAPS|
  {
    && (forall h :: 0 <= h < g ==> !Occurs(text, Pattern(key, GAPS[h])))
    && FindMember(v.members, key).Some?
    && LaidOut(FindMember(v.members, key).value.1, GAPS[g])
    && !OccursBefore(text, Pattern(key, GAPS[g]), NameAt(lead, v, key).value)
  }

  predicate ShortcutMeetsMember(text: seq<Byte>, lead: seq<Byte>, v: Value, key: seq<Byte>)
    requires v.Object?
  {
    exists g :: 0 <= g < |GAPS| && PatternOfMember(text, lead, v, key, g)
  }

  predicate SomePattern(text: seq<Byte>, key: seq<Byte>) {
    exists g :: 0 <= g < |GAPS| && Occurs(text, Pattern(key, GAPS[g]))
  }

  lemma StandsAtJoin(bytes: seq<Byte>, i: nat, a: seq<Byte>, b: seq<Byte>)
    requires StandsAt(bytes, i, a) && StandsAt(bytes, i + |a|, b)
    ensures StandsAt(bytes, i, a + b)
  {
    forall k | 0 <= k < |a + b|
      ensures bytes[i + k] == (a + b)[k]
    {
      if k >= |a| {
        assert bytes[i + |a| + (k - |a|)] == b[k - |a|];
      }
    }
  }

  /** The pattern stands at the member's name exactly if the member is laid out that way. */
  lemma PatternIsLayout(text: seq<Byte>, i: nat, node: Members, key: seq<Byte>, gap: seq<Byte>)
    requires node.Member? && ValidMembers(node) && Placed(text, i, node) && Raw(node.name) == key
    requires gap in GAPS && OPEN_ARRAY !in key
    ensures StandsAt(text, i + |node.lead|, Pattern(key, gap)) <==> LaidOut(node, gap)
  {
    hide StandsAt;
    var n := i + |node.lead|;
    if StandsAt(text, n, Pattern(key, gap)) {
      PatternAtName(text, i, node, key, gap);
      PatternBracket(text, n, key, gap);
      SameGap(text, n + |key| + 2, node.beforeColon, node.afterColon, gap);
    } else if LaidOut(node, gap) {
      LayoutStands(text, n, node.name, node.value, key, gap);
    }
  }

  lemma SameGap(text: seq<Byte>, c: nat, before: seq<Byte>, after: seq<Byte>, gap: seq<Byte>)
    requires c > 0 && Blank(before) && |before| + |after| == |gap|
    requires StandsAt(text, c, before) && StandsAt(text, c + |before| + 1, after)
    requires StandsAt(text, c - 1, [QUOTE, COLON]) && StandsAt(text, c + 1, gap)
    ensures before == [] && after == gap
  {
    assert text[c] == [QUOTE, COLON][1];
    BlankRun(text, c, before);
    if before == [] {
      forall k | 0 <= k < |gap|
        ensures after[k] == gap[k]
      {
        assert text[c + 1 + k] == after[k] && text[c + 1 + k] == gap[k];
      }
    }
  }

  lemma LayoutStands(text: seq<Byte>, n: nat, name: seq<Part>, value: Value, key: seq<Byte>, gap: seq<Byte>)
    requires Raw(name) == key && value.Array?
    requires StandsAt(text, n, Quoted(name)) && StandsAt(text, n + |key| + 2, [COLON])
    requires StandsAt(text, n + |key| + 3, gap) && StandsAt(text, n + |key| + 3 + |gap|, Print(value))
    ensures StandsAt(text, n, Pattern(key, gap))
  {
    assert Quoted(name) == [QUOTE] + key + [QUOTE];
    assert text[n + |key| + 3 + |gap|] == Print(value)[0];
    StandsAtJoin(text, n, [QUOTE] + key + [QUOTE], [COLON]);
    StandsAtJoin(text, n, [QUOTE] + key + [QUOTE] + [COLON], gap);
    StandsAtJoin(text, n, [QUOTE] + key + [QUOTE] + [COLON] + gap, [OPEN_ARRAY]);
    assert [QUOTE] + key + [QUOTE] + [COLON] == [QUOTE] + key + [QUOTE, COLON];
  }

  /** Which pattern the shortcut finds, and where. */
  lemma {:induction false} ShortcutIs(text: seq<Byte>, key: seq<Byte>, gaps: seq<seq<Byte>>) returns (g: nat)
    requires Shortcut(text, key, gaps).Some?
    ensures g < |gaps| && Shortcut(text, key, gaps).value.1 == gaps[g]
    ensures forall h :: 0 <= h < g ==> !Occurs(text, Pattern(key, gaps[h]))
    ensures !OccursBefore(text, Pattern(key, gaps[g]), Shortcut(text, key, gaps).value.0)
  {
    if FirstOccurrence(text, Pattern(key, gaps[0]), 0).Some? {
      g := 0;
    } else {
      var k := ShortcutIs(text, key, gaps[1..]);
      g := k + 1;
      forall h | 0 <= h < g
        ensures !Occurs(text, Pattern(key, gaps[h]))
      {
        if h > 0 {
          assert gaps[h] == gaps[1..][h - 1];
        }
      }
    }
  }

  /** It finds one exactly if one occurs. */
  lemma {:induction false} ShortcutFindsIff(text: seq<Byte>, key: seq<Byte>, gaps: seq<seq<Byte>>)
    ensures Shortcut(text, key, gaps).Some? <==> exists h :: 0 <= h < |gaps| && Occurs(text, Pattern(key, gaps[h]))
  {
    if gaps != [] {
      ShortcutFindsIff(text, key, gaps[1..]);
      var p := FirstOccurrence(text, Pattern(key, gaps[0]), 0);
      if p.Some? {
        assert Occurs(text, Pattern(key, gaps[0]));
      } else {
        assert !Occurs(text, Pattern(key, gaps[0]));
        forall h | 0 <= h < |gaps|
          ensures h > 0 ==> gaps[h] == gaps[1..][h - 1]
        {}
        if h :| 0 <= h < |gaps[1..]| && Occurs(text, Pattern(key, gaps[1..][h])) {
          assert Occurs(text, Pattern(key, gaps[h + 1]));
        }
      }
    }
  }

  /**
    When some pattern occurs, the importer's answer is right exactly if the member itself is laid out with a gap whose
    pattern does not occur before its name, and no pattern with an earlier gap occurs at all.
  */
  lemma ShortcutRightIff(text: seq<Byte>, lead: seq<Byte>, v: Value, trail: seq<Byte>, key: seq<Byte>)
    requires IsReport(text, lead, v, trail) && OPEN_ARRAY !in key && SomePattern(text, key)
    ensures ReportArrayStart(text, key) == ArrayOf(lead, v, key) <==> ShortcutMeetsMember(text, lead, v, key)
  {
    ShortcutFindsIff(text, key, GAPS);
    ShortcutAtName(text, lead, v, trail, key);
    if FindMember(v.members, key).Some? {
      var g := ShortcutIs(text, key, GAPS);
      GapsAtName(text, lead, v, trail, key);
      HitIsMember(text, lead, v, key, Shortcut(text, key, GAPS).value.0, g, NameAt(lead, v, key).value);
    }
  }

  lemma GapsAtName(text: seq<Byte>, lead: seq<Byte>, v: Value, trail: seq<Byte>, key: seq<Byte>)
    requires IsReport(text, lead, v, trail) && OPEN_ARRAY !in key && FindMember(v.members, key).Some?
    ensures forall h :: 0 <= h < |GAPS| ==>
              (StandsAt(text, NameAt(lead, v, key).value, Pattern(key, GAPS[h]))
               <==> LaidOut(FindMember(v.members, key).value.1, GAPS[h]))
  {
    var i, node := MemberInText(text, lead, v, trail, key);
    forall h | 0 <= h < |GAPS|
      ensures StandsAt(text, i + |node.lead|, Pattern(key, GAPS[h])) <==> LaidOut(node, GAPS[h])
    {
      PatternIsLayout(text, i, node, key, GAPS[h]);
    }
  }

  lemma HitIsMember(text: seq<Byte>, lead: seq<Byte>, v: Value, key: seq<Byte>, p: nat, g: nat, n: nat)
    requires v.Object? && FindMember(v.members, key).Some? && NameAt(lead, v, key) == Some(n) && g < |GAPS|
    requires forall h :: 0 <= h < |GAPS| ==>
               (StandsAt(text, n, Pattern(key, GAPS[h])) <==> LaidOut(FindMember(v.members, key).value.1, GAPS[h]))
    requires StandsAt(text, p, Pattern(key, GAPS[g])) && !OccursBefore(text, Pattern(key, GAPS[g]), p)
    requires forall h :: 0 <= h < g ==> !Occurs(text, Pattern(key, GAPS[h]))
    ensures n == p <==> ShortcutMeetsMember(text, lead, v, key)
  {
    if n == p {
      assert PatternOfMember(text, lead, v, key, g);
    }
    if k :| 0 <= k < |GAPS| && PatternOfMember(text, lead, v, key, k) {
      assert Occurs(text, Pattern(key, GAPS[g]));
      assert StandsAt(text, n, Pattern(key, GAPS[k]));
      assert Occurs(text, Pattern(key, GAPS[k]));
    }
  }

  /** The condition under which the importer finds the right bracket. */
  predicate FindsRight(text: seq<Byte>, lead: seq<Byte>, v: Value, key: seq<Byte>)
    requires v.Object?
  {
    if SomePattern(text, key) then ShortcutMeetsMember(text, lead, v, key)
    else !(Shadowed(v.members, key) && MemberArray(v.members, key).Some?)
  }

  lemma ReportArrayStartRightIff(text: seq<Byte>, lead: seq<Byte>, v: Value, trail: seq<Byte>,
                                 key: seq<Byte>)
    requires IsReport(text, lead, v, trail) && OPEN_ARRAY !in key
    ensures ReportArrayStart(text, key) == ArrayOf(lead, v, key) <==> FindsRight(text, lead, v, key)
  {
    ShortcutFindsIff(text, key, GAPS);
    if SomePattern(text, key) {
      ShortcutRightIff(text, lead, v, trail, key);
    } else {
      TopLevelRightIff(text, lead, v, trail, key);
    }
  }

  // ----- the slice -----

  datatype Slice = Missing | Unterminated | Bytes(bytes: seq<Byte>)

  function TopLevelSlice(text: seq<Byte>, key: seq<Byte>): Slice {
    var start := ReportArrayStart(text, key);
    if start.None? then Missing
    else
      var end := ArrayEnd(text, start.value, At(0));
      if end.None? then Unterminated
      else if start.value <= end.value <= |text| then Bytes(text[start.value..end.value])
      else Missing
  }

  /** Cuts the bytes of the named array out of the text; the JSON library then parses only those. */
  method ParseTopLevelArray(text: seq<Byte>, key: seq<Byte>) returns (r: Slice)
    ensures r == TopLevelSlice(text, key)
  {
    var start := FindReportArrayStart(text, key);
    if start.None? {
      return Missing;
    }
    var end := FindJsonArrayEnd(text, start.value);
    if end.None? {
      return Unterminated;
    }
    ArrayEndStable(text, [], start.value, At(0));
    ArrayEndAfter(text, start.value, At(0));
    return Bytes(text[start.value..end.value]);
  }

  lemma {:induction false} ArrayEndAfter(bytes: seq<Byte>, i: nat, st: Scan)
    requires ArrayEnd(bytes, i, st).Some?
    ensures i < ArrayEnd(bytes, i, st).value
    decreases |bytes| - i
  {
    if !(!st.inString && bytes[i] == CLOSE_ARRAY && st.depth <= 1) {
      ArrayEndAfter(bytes, i + 1, AfterByte(st, bytes[i]));
    }
  }

  /**
    Whenever the importer finds the right bracket, the slice is byte for byte the array that is the
    value of the first top-level member named `key`, and nothing when there is no such array.
  */
  lemma SliceIsTheArray(text: seq<Byte>, lead: seq<Byte>, v: Value, trail: seq<Byte>, key: seq<Byte>)
    requires IsReport(text, lead, v, trail) && OPEN_ARRAY !in key && FindsRight(text, lead, v, key)
    ensures var found := FindMember(v.members, key);
            TopLevelSlice(text, key)
            == if found.Some? && found.value.1.value.Array? then Bytes(Print(found.value.1.value)) else Missing
  {
    ReportArrayStartRightIff(text, lead, v, trail, key);
    if FindMember(v.members, key).Some? {
      NamedSlice(text, lead, v, trail, key);
    }
  }

  lemma {:induction false} NamedSlice(text: seq<Byte>, lead: seq<Byte>, v: Value, trail: seq<Byte>, key: seq<Byte>)
    requires IsReport(text, lead, v, trail) && FindMember(v.members, key).Some?
    ensures var start, value := ArrayOf(lead, v, key), FindMember(v.members, key).value.1.value;
            && (start.Some? <==> value.Array?)
            && (start.Some? ==>
                  && start.value + |Print(value)| <= |text|
                  && ArrayEnd(text, start.value, At(0)) == Some(start.value + |Print(value)|)
                  && text[start.value..start.value + |Print(value)|] == Print(value))
  {
    hide Print, Placed, ArrayEnd;
    var i, node := MemberInText(text, lead, v, trail, key);
    if node.value.Array? {
      MemberSlice(text, i, node);
    }
  }

  lemma MemberSlice(text: seq<Byte>, i: nat, node: Members)
    requires node.Member? && ValidMembers(node) && Placed(text, i, node) && node.value.Array?
    ensures var start := i + |MemberHead(node)|;
            var end := start + |Print(node.value)|;
            end <= |text| && ArrayEnd(text, start, At(0)) == Some(end) && text[start..end] == Print(node.value)
  {
    var start := i + |MemberHead(node)|;
    assert StandsAt(text, start, Print(node.value));
    ArrayEndIsMatching(text, start, node.value);
  }
}
