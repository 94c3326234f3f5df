/**
  The importer on the reports that the analyser itself writes: sorted names, two spaces of indentation and one space
  behind every colon. Every actor has its own `sessions`, and the actors come first.
*/
module JsonWriter {
  import opened Common
  import opened JsonGrammar
  import opened JsonScanner
  import opened JsonMembers
  import opened JsonReport
  import opened JsonPatterns

  const SPACE: seq<Byte> := [32]
  const ACTORS: seq<Byte> := [97, 99, 116, 111, 114, 115]
  const SESSIONS: seq<Byte> := [115, 101, 115, 115, 105, 111, 110, 115]

  // ----- every occurrence in a report -----

  /** A pattern occurs in a report exactly at the pattern members, at any depth. */
  lemma OccurrencesAre(text: seq<Byte>, lead: seq<Byte>, v: Value, trail: seq<Byte>, key: seq<Byte>,
                       gap: seq<Byte>, q: nat)
    requires IsReport(text, lead, v, trail) && PlainKey(key) && gap in GAPS
    ensures Hit(text, q, key, gap) <==> ClosesIn(v, |lead|, key, gap, q)
  {
    var end := |lead| + |Print(v)|;
    ReportStands(text, lead, v, trail);
    if ClosesIn(v, |lead|, key, gap, q) {
      ClosesWithin(v, |lead|, key, gap, q);
    }
    if q < |lead| {
      FlatHits(text, 0, lead, key, gap, q);
    } else if q < end {
      BracketedHits(text, |lead|, v, key, gap, q);
    } else if q <= end + |trail| {
      NoHitBehind(text, end, trail, key, gap, q);
    }
  }

  lemma ReportStands(text: seq<Byte>, lead: seq<Byte>, v: Value, trail: seq<Byte>)
    requires IsReport(text, lead, v, trail)
    ensures StandsAt(text, 0, lead) && StandsAt(text, |lead|, Print(v)) && StandsAt(text, |lead| + |Print(v)|, trail)
    ensures |text| == |lead| + |Print(v)| + |trail|
  {
    StandsAtSplit(text, 0, lead + Print(v), trail);
    StandsAtSplit(text, 0, lead, Print(v));
  }

  // ----- the written form -----

  /** Every colon, at any depth, has one space behind it and none in front. */
  predicate Spaced(v: Value)
    decreases v
  {
    match v
    case Array(_, items) => SpacedItems(items)
    case Object(_, members) => SpacedMembers(members)
    case _ => true
  }

  predicate SpacedItems(items: Items)
    decreases items
  {
    items.Item? ==> Spaced(items.value) && SpacedItems(items.rest)
  }

  predicate SpacedMembers(members: Members)
    decreases members
  {
    members.Member? ==>
      members.beforeColon == [] && members.afterColon == SPACE && Spaced(members.value) && SpacedMembers(members.rest)
  }

  /** No member at any depth has an array for a value and a name that ends like the key. */
  predicate Silent(v: Value, key: seq<Byte>)
    decreases v
  {
    match v
    case Array(_, items) => SilentItems(items, key)
    case Object(_, members) => SilentMembers(members, key)
    case _ => true
  }

  predicate SilentItems(items: Items, key: seq<Byte>)
    decreases items
  {
    items.Item? ==> Silent(items.value, key) && SilentItems(items.rest, key)
  }

  predicate SilentMembers(members: Members, key: seq<Byte>)
    decreases members
  {
    members.Member? ==>
      !(EndsLike(members.name, key) && members.value.Array?)
      && Silent(members.value, key) && SilentMembers(members.rest, key)
  }

  /** Nothing of the kind before the first member named `key`. */
  predicate SilentUpTo(members: Members, key: seq<Byte>) {
    members.Member? && Raw(members.name) != key ==>
      !(EndsLike(members.name, key) && members.value.Array?) && Silent(members.value, key)
      && SilentUpTo(members.rest, key)
  }

  // ----- where its pattern members are -----

  lemma {:induction false} SilentClosesNot(v: Value, i: nat, key: seq<Byte>, q: nat)
    requires Silent(v, key)
    ensures !ClosesIn(v, i, key, SPACE, q)
    decreases v
  {
    match v
    case Array(_, items) => SilentItemsCloseNot(items, i + 1, key, q);
    case Object(_, members) => SilentMembersCloseNot(members, i + 1, key, q);
    case _ =>
  }

  lemma {:induction false} SilentItemsCloseNot(items: Items, i: nat, key: seq<Byte>, q: nat)
    requires SilentItems(items, key)
    ensures !ClosesInItems(items, i, key, SPACE, q)
    decreases items
  {
    if items.Item? {
      SilentClosesNot(items.value, i + |items.lead|, key, q);
      SilentItemsCloseNot(items.rest, ItemEnd(i, items) + 1, key, q);
    }
  }

  lemma {:induction false} SilentMembersCloseNot(members: Members, i: nat, key: seq<Byte>, q: nat)
    requires SilentMembers(members, key)
    ensures !ClosesInMembers(members, i, key, SPACE, q)
    decreases members
  {
    if members.Member? {
      SilentClosesNot(members.value, i + |MemberHead(members)|, key, q);
      SilentMembersCloseNot(members.rest, MemberEnd(i, members) + 1, key, q);
    }
  }

  /** In the written form, whatever is not silent has a pattern member. */
  lemma {:induction false} LoudCloses(v: Value, i: nat, key: seq<Byte>) returns (q: nat)
    requires Spaced(v) && !Silent(v, key)
    ensures ClosesIn(v, i, key, SPACE, q)
    decreases v
  {
    match v
    case Array(_, items) => q := LoudItemsClose(items, i + 1, key);
    case Object(_, members) => q := LoudMembersClose(members, i + 1, key);
  }

  lemma {:induction false} LoudItemsClose(items: Items, i: nat, key: seq<Byte>) returns (q: nat)
    requires SpacedItems(items) && !SilentItems(items, key)
    ensures ClosesInItems(items, i, key, SPACE, q)
    decreases items
  {
    if !Silent(items.value, key) {
      q := LoudCloses(items.value, i + |items.lead|, key);
    } else {
      q := LoudItemsClose(items.rest, ItemEnd(i, items) + 1, key);
    }
  }

  lemma {:induction false} LoudMembersClose(members: Members, i: nat, key: seq<Byte>) returns (q: nat)
    requires SpacedMembers(members) && !SilentMembers(members, key)
    ensures ClosesInMembers(members, i, key, SPACE, q)
    decreases members
  {
    if EndsLike(members.name, key) && members.value.Array? {
      q := NameEnd(i, members);
    } else if !Silent(members.value, key) {
      q := LoudCloses(members.value, i + |MemberHead(members)|, key);
    } else {
      q := LoudMembersClose(members.rest, MemberEnd(i, members) + 1, key);
    }
  }

  /** Whether some pattern member closes its name before `e`. */
  ghost predicate ClosesBefore(members: Members, i: nat, key: seq<Byte>, e: nat) {
    exists q: nat :: q < e && ClosesInMembers(members, i, key, SPACE, q)
  }

  /** Where the first member named `key` closes its name, in members printed from `i`. */
  function KeyEnd(members: Members, i: nat, key: seq<Byte>): nat
    requires FindMember(members, key).Some?
  {
    var (offset, node) := FindMember(members, key).value;
    NameEnd(i + offset, node)
  }

  /** In the written form, a pattern member precedes the key exactly if not all before the key is silent. */
  lemma {:induction false} BeforeKeyIff(members: Members, i: nat, key: seq<Byte>)
    requires SpacedMembers(members) && FindMember(members, key).Some?
    ensures ClosesBefore(members, i, key, KeyEnd(members, i, key)) <==> !SilentUpTo(members, key)
    decreases members
  {
    var e := KeyEnd(members, i, key);
    if Raw(members.name) == key {
      forall q: nat | q < e
        ensures !ClosesInMembers(members, i, key, SPACE, q)
      {
        HeadLength(members);
        MembersSplit(members, i, key, SPACE, q);
      }
    } else {
      var after := MemberEnd(i, members) + 1;
      BeforeKeyIff(members.rest, after, key);
      assert KeyEnd(members.rest, after, key) == e;
      OneBeforeKey(members, i, key);
    }
  }

  /** One member that is not the key's: its own name and value, and then the rest. */
  lemma OneBeforeKey(members: Members, i: nat, key: seq<Byte>)
    requires members.Member? && SpacedMembers(members) && Raw(members.name) != key && FindMember(members, key).Some?
    ensures var e, after := KeyEnd(members, i, key), MemberEnd(i, members) + 1;
            ClosesBefore(members, i, key, e)
            <==> ClosesBefore(members.rest, after, key, e)
                 || PatternMember(members, key, SPACE) || !Silent(members.value, key)
  {
    var v, e, after := i + |MemberHead(members)|, KeyEnd(members, i, key), MemberEnd(i, members) + 1;
    KeyEndBehind(members, i, key);
    if q: nat :| q < e && ClosesInMembers(members, i, key, SPACE, q) {
      if Silent(members.value, key) {
        SilentClosesNot(members.value, v, key, q);
      }
      assert
        || PatternMember(members, key, SPACE)
        || ClosesIn(members.value, v, key, SPACE, q)
        || ClosesInMembers(members.rest, after, key, SPACE, q);
    }
    if PatternMember(members, key, SPACE) {
      assert ClosesInMembers(members, i, key, SPACE, NameEnd(i, members));
    }
    if !Silent(members.value, key) {
      var q := LoudCloses(members.value, v, key);
      ClosesWithin(members.value, v, key, SPACE, q);
      assert ClosesInMembers(members, i, key, SPACE, q);
    }
    if q: nat :| q < e && ClosesInMembers(members.rest, after, key, SPACE, q) {
      assert ClosesInMembers(members, i, key, SPACE, q);
    }
  }

  lemma KeyEndBehind(members: Members, i: nat, key: seq<Byte>)
    requires members.Member? && Raw(members.name) != key && FindMember(members, key).Some?
    ensures NameEnd(i, members) < i + |MemberHead(members)| <= MemberEnd(i, members) < KeyEnd(members, i, key)
  {
    HeadLength(members);
  }

  // ----- the importer on such a report -----

  lemma SpaceIsFirst()
    ensures |GAPS| == 3 && GAPS[0] == SPACE && GAPS[1] != SPACE && GAPS[2] != SPACE && SPACE in GAPS
  {
    assert GAPS[0] == SPACE;
    assert GAPS[1] == [10] && GAPS[2] == [10, 32, 32];
  }

  lemma {:induction false} FoundSpaced(members: Members, key: seq<Byte>)
    requires SpacedMembers(members) && FindMember(members, key).Some?
    ensures var node := FindMember(members, key).value.1;
            node.beforeColon == [] && node.afterColon == SPACE
    decreases members
  {
    if Raw(members.name) != key {
      FoundSpaced(members.rest, key);
    }
  }

  /** The pattern occurs before the key's own name exactly if a pattern member closes its name before the key's does. */
  lemma OccursBeforeIff(text: seq<Byte>, lead: seq<Byte>, v: Value, trail: seq<Byte>, key: seq<Byte>)
    requires IsReport(text, lead, v, trail) && PlainKey(key) && FindMember(v.members, key).Some?
    ensures OccursBefore(text, Pattern(key, SPACE), NameAt(lead, v, key).value)
            <==> ClosesBefore(v.members, MembersAt(lead), key, KeyEnd(v.members, MembersAt(lead), key))
  {
    var n, e := NameAt(lead, v, key).value, KeyEnd(v.members, MembersAt(lead), key);
    SpaceIsFirst();
    assert e == n + |key| + 1;
    if j :| 0 <= j < n && StandsAt(text, j, Pattern(key, SPACE)) {
      assert Hit(text, j + |key| + 1, key, SPACE);
      OccurrencesAre(text, lead, v, trail, key, SPACE, j + |key| + 1);
    }
    if q: nat :| q < e && ClosesInMembers(v.members, MembersAt(lead), key, SPACE, q) {
      OccurrencesAre(text, lead, v, trail, key, SPACE, q);
      assert StandsAt(text, q - |key| - 1, Pattern(key, SPACE));
    }
  }

  /**
    On a report in the written form, an array is sliced right exactly if no member before it, at any depth, has an array
    for a value and a name that ends like the key.
  */
  lemma WrittenRightIff(text: seq<Byte>, lead: seq<Byte>, v: Value, trail: seq<Byte>, key: seq<Byte>)
    requires IsReport(text, lead, v, trail) && PlainKey(key) && Spaced(v)
    requires FindMember(v.members, key).Some? && FindMember(v.members, key).value.1.value.Array?
    ensures ReportArrayStart(text, key) == ArrayOf(lead, v, key) <==> SilentUpTo(v.members, key)
  {
    FoundSpaced(v.members, key);
    SpaceIsFirst();
    BeforeKeyIff(v.members, MembersAt(lead), key);
    OccursBeforeIff(text, lead, v, trail, key);
    GapsAtName(text, lead, v, trail, key);
    FirstGapDecides(text, lead, v, key);
    ShortcutRightIff(text, lead, v, trail, key);
  }

  lemma FirstGapDecides(text: seq<Byte>, lead: seq<Byte>, v: Value, key: seq<Byte>)
    requires v.Object? && FindMember(v.members, key).Some? && LaidOut(FindMember(v.members, key).value.1, SPACE)
    requires StandsAt(text, NameAt(lead, v, key).value, Pattern(key, SPACE))
    ensures SomePattern(text, key)
    ensures ShortcutMeetsMember(text, lead, v, key)
            <==> !OccursBefore(text, Pattern(key, SPACE), NameAt(lead, v, key).value)
  {
    SpaceIsFirst();
    assert Occurs(text, Pattern(key, GAPS[0]));
    if !OccursBefore(text, Pattern(key, SPACE), NameAt(lead, v, key).value) {
      assert PatternOfMember(text, lead, v, key, 0);
    }
  }

  // ----- the sessions of a written report -----

  /** Some member of this name has an array for a value. */
  predicate HasArray(members: Members, key: seq<Byte>) {
    members.Member? && ((Raw(members.name) == key && members.value.Array?) || HasArray(members.rest, key))
  }

  predicate EachHas(items: Items, key: seq<Byte>) {
    items.Item? ==> items.value.Object? && HasArray(items.value.members, key) && EachHas(items.rest, key)
  }

  /** Up to the sessions: the actors are objects with sessions of their own, and everything else is silent. */
  predicate WrittenUpToSessions(members: Members) {
    members.Member? && Raw(members.name) != SESSIONS ==>
      && !EndsLike(members.name, SESSIONS)
      && (if Raw(members.name) == ACTORS then members.value.Array? && EachHas(members.value.items, SESSIONS)
          else Silent(members.value, SESSIONS))
      && WrittenUpToSessions(members.rest)
  }

  /** No actor before the sessions. */
  predicate NoActors(members: Members) {
    members.Member? && Raw(members.name) != SESSIONS ==>
      (Raw(members.name) == ACTORS && members.value.Array? ==> members.value.items.NoItems?) && NoActors(members.rest)
  }

  lemma {:induction false} HasArrayLoud(members: Members, key: seq<Byte>)
    requires HasArray(members, key)
    ensures !SilentMembers(members, key)
    decreases members
  {
    if Raw(members.name) == key && members.value.Array? {
      assert EndsLike(members.name, key);
    } else {
      HasArrayLoud(members.rest, key);
    }
  }

  lemma ActorsLoudIff(actors: Value)
    requires actors.Array? && EachHas(actors.items, SESSIONS)
    ensures Silent(actors, SESSIONS) <==> actors.items.NoItems?
  {
    if actors.items.Item? {
      HasArrayLoud(actors.items.value.members, SESSIONS);
      assert !Silent(actors.items.value, SESSIONS);
      assert !SilentItems(actors.items, SESSIONS);
    } else {
      assert SilentItems(NoItems, SESSIONS);
    }
  }

  lemma {:induction false} SilentIffNoActors(members: Members)
    requires WrittenUpToSessions(members)
    ensures SilentUpTo(members, SESSIONS) <==> NoActors(members)
    decreases members
  {
    if members.Member? && Raw(members.name) != SESSIONS {
      SilentIffNoActors(members.rest);
      if Raw(members.name) == ACTORS {
        ActorsLoudIff(members.value);
      }
    }
  }

  /** So the sessions of a written report are sliced right exactly if it has no actor. */
  lemma SessionsRightIff(text: seq<Byte>, v: Value)
    requires IsReport(text, [], v, []) && Spaced(v) && WrittenUpToSessions(v.members)
    requires FindMember(v.members, SESSIONS).Some? && FindMember(v.members, SESSIONS).value.1.value.Array?
    ensures ReportArrayStart(text, SESSIONS) == ArrayOf([], v, SESSIONS) <==> NoActors(v.members)
  {
    SessionsPlain();
    SilentIffNoActors(v.members);
    WrittenRightIff(text, [], v, [], SESSIONS);
  }

  lemma SessionsPlain()
    ensures PlainKey(SESSIONS)
  {}
}
