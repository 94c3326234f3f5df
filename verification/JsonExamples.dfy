/** Reports on which the importer does not find the array it asks for, and one on which it does. */
module JsonExamples {
  import opened Common
  import opened JsonGrammar
  import opened JsonScanner
  import opened JsonMembers
  import opened JsonReport
  import opened JsonPatterns
  import opened JsonWriter

  /** A name spelled without escapes. */
  function Plainly(bytes: seq<Byte>): (parts: seq<Part>)
    ensures |parts| == |bytes|
  {
    seq(|bytes|, i requires 0 <= i < |bytes| => Plain(bytes[i]))
  }

  lemma {:induction false} PlainlyRaw(bytes: seq<Byte>)
    ensures Raw(Plainly(bytes)) == bytes
  {
    if bytes != [] {
      PlainlyRaw(bytes[1..]);
      assert Plainly(bytes)[1..] == Plainly(bytes[1..]);
      assert bytes == [bytes[0]] + bytes[1..];
    }
  }

  /** A member without any whitespace but `gap` after its colon. */
  function Tight(name: seq<Byte>, gap: seq<Byte>, value: Value, rest: Members): Members {
    Member([], Plainly(name), [], gap, value, [], rest)
  }

  const EMPTY: Value := Array([], NoItems)

  // ----- the member scanner -----

  const SHADOWED: Members := Tight([97], [], Text(Plainly(ACTORS)), Tight(ACTORS, [], EMPTY, NoMembers))

  lemma ShadowedNames()
    ensures Raw(Plainly(ACTORS)) == ACTORS && Raw(Plainly([97])) != ACTORS
    ensures ValidMembers(SHADOWED) && Shadowed(SHADOWED, ACTORS) && MemberArray(SHADOWED, ACTORS).Some?
  {
    PlainlyRaw(ACTORS);
    PlainlyRaw([97]);
    assert |ACTORS| == 6;
  }

  lemma TightHead(name: seq<Byte>, gap: seq<Byte>, value: Value, rest: Members)
    ensures MemberHead(Tight(name, gap, value, rest)) == [34] + name + [34, 58] + gap
  {
    hide Plainly;
    PlainlyRaw(name);
  }

  /** One member and what follows it. */
  lemma MemberText(m: Members)
    requires m.Member?
    ensures PrintMembers(m)
            == MemberHead(m) + Print(m.value) + m.trail + if m.rest.NoMembers? then [] else [44] + PrintMembers(m.rest)
  {}

  /** The characters of a member without whitespace around it. */
  lemma TightText(name: seq<Byte>, gap: seq<Byte>, value: Value, rest: Members)
    ensures Tight(name, gap, value, rest).Member?
    ensures PrintMembers(Tight(name, gap, value, rest))
            == [34] + name + [34, 58] + gap + Print(value) + []
               + if rest.NoMembers? then [] else [44] + PrintMembers(rest)
  {
    hide Plainly, PrintMembers, MemberHead, Print;
    TightHead(name, gap, value, rest);
    MemberText(Tight(name, gap, value, rest));
  }

  /** The characters around a report's names. */
  lemma Around()
    ensures TextBytes("{\"a\":\"") == [123, 34, 97, 34, 58, 34] && TextBytes("\",\"") == [34, 44, 34]
    ensures TextBytes("\":[]}") == [34, 58, 91, 93, 125]
  {}

  lemma ShadowedText()
    ensures Print(Object([], SHADOWED))
            == TextBytes("{\"a\":\"") + ACTORS + TextBytes("\",\"") + ACTORS + TextBytes("\":[]}")
  {
    hide Tight, Plainly, TextBytes, PrintMembers, Raw;
    Around();
    TightText(ACTORS, [], EMPTY, NoMembers);
    TightText([97], [], Text(Plainly(ACTORS)), Tight(ACTORS, [], EMPTY, NoMembers));
    PlainlyRaw(ACTORS);
    assert Print(EMPTY) == [91, 93];
    Joins(ACTORS);
  }

  lemma Joins(name: seq<Byte>)
    ensures [34] + name + [34, 58] + [] + [91, 93] + [] + [] == [34] + name + [34, 58, 91, 93]
    ensures [123] + ([34] + [97] + [34, 58] + [] + ([34] + name + [34]) + []
                     + ([44] + ([34] + name + [34, 58, 91, 93]))) + [125]
            == [123, 34, 97, 34, 58, 34] + name + [34, 44, 34] + name + [34, 58, 91, 93, 125]
  {}

  lemma ActorsSpelled()
    ensures ACTORS == TextBytes("actors")
  {}

  /** No pattern has a colon with the bracket right behind it. */
  lemma TightCloses(gap: seq<Byte>, q: nat)
    requires gap in GAPS
    ensures !ClosesIn(Object([], SHADOWED), 0, ACTORS, gap, q)
  {
    BlankGap(gap);
  }

  /** `{"a":"actors","actors":[]}`: a string value spelled like the key hides the array. */
  lemma ShadowedReport() returns (text: seq<Byte>, v: Value)
    ensures text == TextBytes("{\"a\":\"") + ACTORS + TextBytes("\",\"") + ACTORS + TextBytes("\":[]}")
    ensures ACTORS == TextBytes("actors")
    ensures IsReport(text, [], v, [])
    ensures ReportArrayStart(text, ACTORS) == None && ArrayOf([], v, ACTORS).Some?
  {
    hide TextBytes, Print, Occurs, Pattern, ClosesIn, Tight, Plainly, ArrayStart;
    v := Object([], SHADOWED);
    text := Print(v);
    ShadowedText();
    ActorsSpelled();
    ShadowedNames();
    assert text == [] + Print(v) + [];
    ActorsPlain();
    forall h | 0 <= h < |GAPS|
      ensures !Occurs(text, Pattern(ACTORS, GAPS[h]))
    {
      forall q: nat
        ensures !ClosesIn(v, 0, ACTORS, GAPS[h], q)
      {
        TightCloses(GAPS[h], q);
      }
      NoPattern(text, [], v, [], GAPS[h]);
    }
    ShortcutFindsIff(text, ACTORS, GAPS);
    TopLevelArrayStart(text, [], v, [], ACTORS);
  }

  lemma ActorsPlain()
    ensures PlainKey(ACTORS)
  {}

  lemma NoPattern(text: seq<Byte>, lead: seq<Byte>, v: Value, trail: seq<Byte>, gap: seq<Byte>)
    requires IsReport(text, lead, v, trail) && PlainKey(ACTORS) && gap in GAPS
    requires forall q: nat {:trigger ClosesIn(v, |lead|, ACTORS, gap, q)} :: !ClosesIn(v, |lead|, ACTORS, gap, q)
    ensures !Occurs(text, Pattern(ACTORS, gap))
  {
    if j :| 0 <= j <= |text| && StandsAt(text, j, Pattern(ACTORS, gap)) {
      var q := j + |ACTORS| + 1;
      assert Hit(text, q, ACTORS, gap);
      OccurrencesAre(text, lead, v, trail, ACTORS, gap, q);
    }
  }

  // ----- the textual shortcut -----

  const LAST: Members := Tight(SESSIONS, SPACE, EMPTY, NoMembers)
  const INNER: Value := Array([], Item([], Object([], LAST), [], NoItems))
  const NESTED: Members := Tight(ACTORS, SPACE, INNER, LAST)

  /** `{"actors": [{"sessions": []}],"sessions": []}`: the shortcut takes the actor's own sessions. */
  lemma NestedReport() returns (text: seq<Byte>, v: Value)
    ensures text == TextBytes("{\"") + ACTORS + TextBytes("\": [{\"") + SESSIONS + TextBytes("\": []}],\"") + SESSIONS
                    + TextBytes("\": []}")
    ensures ACTORS == TextBytes("actors") && SESSIONS == TextBytes("sessions")
    ensures IsReport(text, [], v, [])
    ensures ReportArrayStart(text, SESSIONS) != ArrayOf([], v, SESSIONS) && ArrayOf([], v, SESSIONS).Some?
  {
    hide ReportArrayStart, ArrayOf, Print, WrittenUpToSessions, NoActors;
    v := Object([], NESTED);
    text := Print(v);
    NestedText();
    ActorsSpelled();
    SessionsSpelled();
    assert text == [] + Print(v) + [];
    NestedValid();
    NestedShape();
    NestedFound();
    SessionsRightIff(text, v);
    ArrayFound(v);
  }

  lemma SessionsSpelled()
    ensures SESSIONS == TextBytes("sessions")
  {}

  lemma AroundNested()
    ensures TextBytes("{\"") == [123, 34] && TextBytes("\": [{\"") == [34, 58, 32, 91, 123, 34]
    ensures TextBytes("\": []}],\"") == [34, 58, 32, 91, 93, 125, 93, 44, 34]
    ensures TextBytes("\": []}") == [34, 58, 32, 91, 93, 125]
  {}

  lemma LastText()
    ensures PrintMembers(LAST) == [34] + SESSIONS + [34, 58, 32, 91, 93]
  {
    hide Tight, PrintMembers;
    TightText(SESSIONS, SPACE, EMPTY, NoMembers);
    assert Print(EMPTY) == [91, 93];
  }

  lemma InnerText()
    ensures Print(INNER) == [91] + ([123] + PrintMembers(LAST) + [125]) + [93]
  {
    hide Tight, PrintMembers;
    TightText(SESSIONS, SPACE, EMPTY, NoMembers);
    assert Print(Object([], LAST)) == [123] + PrintMembers(LAST) + [125];
    assert PrintItems(INNER.items) == Print(Object([], LAST));
  }

  lemma NestedText()
    ensures Print(Object([], NESTED))
            == TextBytes("{\"") + ACTORS + TextBytes("\": [{\"") + SESSIONS + TextBytes("\": []}],\"") + SESSIONS
               + TextBytes("\": []}")
  {
    hide Tight, TextBytes, PrintMembers;
    AroundNested();
    LastText();
    InnerText();
    TightText(ACTORS, SPACE, INNER, LAST);
    NestedJoins(ACTORS, SESSIONS);
  }

  lemma NestedJoins(name: seq<Byte>, inner: seq<Byte>)
    ensures [123] + ([34] + name + [34, 58] + [32]
                     + ([91] + ([123] + ([34] + inner + [34, 58, 32, 91, 93]) + [125]) + [93]) + []
                     + ([44] + ([34] + inner + [34, 58, 32, 91, 93]))) + [125]
            == [123, 34] + name + [34, 58, 32, 91, 123, 34] + inner + [34, 58, 32, 91, 93, 125, 93, 44, 34] + inner
               + [34, 58, 32, 91, 93, 125]
  {}

  lemma ArrayFound(v: Value)
    requires v.Object? && FindMember(v.members, SESSIONS).Some? && FindMember(v.members, SESSIONS).value.1.value.Array?
    ensures ArrayOf([], v, SESSIONS).Some?
  {}

  lemma NestedNames()
    ensures Raw(Plainly(ACTORS)) == ACTORS && Raw(Plainly(SESSIONS)) == SESSIONS && ACTORS != SESSIONS
  {
    PlainlyRaw(ACTORS);
    PlainlyRaw(SESSIONS);
    assert |ACTORS| == 6 && |SESSIONS| == 8;
  }

  lemma NestedValid()
    ensures ValidMembers(NESTED) && SpacedMembers(NESTED)
  {
    assert ValidMembers(LAST) && SpacedMembers(LAST);
  }

  lemma NestedFound()
    ensures FindMember(NESTED, SESSIONS).Some? && FindMember(NESTED, SESSIONS).value.1.value.Array?
  {
    hide Raw, Plainly;
    NestedNames();
    assert FindMember(LAST, SESSIONS) == Some((0, LAST));
  }

  lemma NestedShape()
    ensures WrittenUpToSessions(NESTED) && !NoActors(NESTED)
  {
    hide Raw, Plainly;
    NestedNames();
    ActorsEndOtherwise();
    assert HasArray(LAST, SESSIONS);
    assert WrittenUpToSessions(LAST);
  }

  lemma ActorsEndOtherwise()
    ensures !EndsLike(Plainly(ACTORS), SESSIONS)
  {
    hide Raw, Plainly;
    NestedNames();
  }

  // ----- a report with everything that may stand around its values -----

  const LIST: Value := Array([], Item([], Text([Plain(93), Escape(34)]), [32],
                                      Item([32], Object([32], NoMembers), [32], NoItems)))
  const NAMED: Members := Member([13, 10], Plainly(ACTORS), [10], [32], LIST, [9], NoMembers)
  const SPACED: Members := Member([32], [Plain(97)], [32], [9], Array([32], NoItems), [32], NAMED)

  lemma ListParts()
    ensures Print(Text([Plain(93), Escape(34)])) == [34, 93, 92, 34, 34]
  {
    assert [Plain(93), Escape(34)][1..] == [Escape(34)] && [Escape(34)][1..] == [];
    assert Raw([Escape(34)]) == [92, 34];
  }

  lemma ListText()
    ensures Print(LIST) == [91, 34, 93, 92, 34, 34, 32, 44, 32, 123, 32, 125, 32, 93]
  {
    hide Raw;
    ListParts();
    var last := Item([32], Object([32], NoMembers), [32], NoItems);
    assert PrintItems(last) == [32, 123, 32, 125, 32];
  }

  lemma NamedText()
    ensures PrintMembers(NAMED) == [13, 10, 34] + ACTORS + [34, 10, 58, 32] + Print(LIST) + [9]
  {
    hide Plainly, Print;
    PlainlyRaw(ACTORS);
    assert MemberHead(NAMED) == [13, 10, 34] + ACTORS + [34, 10, 58, 32];
  }

  lemma SpacedMembersText()
    ensures PrintMembers(SPACED) == [32, 34, 97, 34, 32, 58, 9, 91, 32, 93, 32, 44] + PrintMembers(NAMED)
  {
    hide Plainly, PrintMembers;
    MemberText(SPACED);
    assert Raw([Plain(97)]) == [97];
    assert MemberHead(SPACED) == [32, 34, 97, 34, 32, 58, 9];
  }

  lemma SpacedJoins(name: seq<Byte>, list: seq<Byte>)
    ensures [10] + ([123] + ([32, 34, 97, 34, 32, 58, 9, 91, 32, 93, 32, 44]
                             + ([13, 10, 34] + name + [34, 10, 58, 32] + list + [9])) + [125]) + [10]
            == [10, 123, 32, 34, 97, 34, 32, 58, 9, 91, 32, 93, 32, 44, 13, 10, 34] + name + [34, 10, 58, 32] + list
               + [9, 125, 10]
  {}

  lemma AroundSpaced()
    ensures TextBytes("\n{ \"a\" :\t[ ] ,\r\n\"")
            == [10, 123, 32, 34, 97, 34, 32, 58, 9, 91, 32, 93, 32, 44, 13, 10, 34]
    ensures TextBytes("\"\n: ") == [34, 10, 58, 32] && TextBytes("\t}\n") == [9, 125, 10]
    ensures TextBytes("[\"]\\\"\" , { } ]") == [91, 34, 93, 92, 34, 34, 32, 44, 32, 123, 32, 125, 32, 93]
  {}

  lemma SpacedText()
    ensures [10] + Print(Object([], SPACED)) + [10]
            == TextBytes("\n{ \"a\" :\t[ ] ,\r\n\"") + ACTORS + TextBytes("\"\n: ") + Print(LIST)
               + TextBytes("\t}\n")
    ensures Print(LIST) == TextBytes("[\"]\\\"\" , { } ]")
  {
    hide PrintMembers, TextBytes;
    SpacedMembersText();
    NamedText();
    ListText();
    AroundSpaced();
    assert Print(Object([], SPACED)) == [123] + PrintMembers(SPACED) + [125];
    hide *;
    SpacedJoins(ACTORS, Print(LIST));
  }

  lemma SpacedValid()
    ensures Valid(Object([], SPACED)) && ValidMembers(SPACED)
    ensures FindMember(SPACED, ACTORS).Some? && FindMember(SPACED, ACTORS).value.1.value == LIST
    ensures !Shadowed(SPACED, ACTORS)
  {
    PlainlyRaw(ACTORS);
    assert |ACTORS| == 6 && Raw([Plain(97)]) == [97];
    assert Valid(LIST);
    assert ValidMembers(NAMED);
  }

  lemma ListCloses(i: nat, gap: seq<Byte>, q: nat)
    ensures !ClosesIn(LIST, i, ACTORS, gap, q)
  {
    var second := LIST.items.rest;
    assert !ClosesInItems(second, ItemEnd(i + 1, LIST.items) + 1, ACTORS, gap, q);
  }

  /** Wherever a pattern might close, something stands between the name and the colon. */
  lemma SpacedCloses(gap: seq<Byte>, q: nat)
    ensures !ClosesIn(Object([], SPACED), 1, ACTORS, gap, q)
  {
    var i := MemberEnd(2, SPACED) + 1;
    ListCloses(i + |MemberHead(NAMED)|, gap, q);
    assert !ClosesInMembers(NAMED, i, ACTORS, gap, q);
    assert !ClosesInMembers(SPACED, 2, ACTORS, gap, q);
  }

  lemma NoPatternSpaced(text: seq<Byte>, gap: seq<Byte>)
    requires IsReport(text, [10], Object([], SPACED), [10]) && gap in GAPS
    ensures !Occurs(text, Pattern(ACTORS, gap))
  {
    forall q: nat
      ensures !ClosesIn(Object([], SPACED), 1, ACTORS, gap, q)
    {
      SpacedCloses(gap, q);
    }
    ActorsPlain();
    NoPattern(text, [10], Object([], SPACED), [10], gap);
  }

  /** Every kind of whitespace, a bracket in a string and an escaped quote: the array is cut out whole. */
  lemma SpacedReport(text: seq<Byte>)
    requires text == TextBytes("\n{ \"a\" :\t[ ] ,\r\n\"") + ACTORS + TextBytes("\"\n: ")
                     + TextBytes("[\"]\\\"\" , { } ]") + TextBytes("\t}\n")
    ensures TopLevelSlice(text, ACTORS) == Bytes(TextBytes("[\"]\\\"\" , { } ]")) && ACTORS == TextBytes("actors")
  {
    hide TextBytes, Print, Valid, Shadowed, FindMember, TopLevelSlice, Occurs, Pattern;
    var v := Object([], SPACED);
    SpacedText();
    SpacedValid();
    ActorsSpelled();
    assert IsReport(text, [10], v, [10]);
    forall h | 0 <= h < |GAPS|
      ensures !Occurs(text, Pattern(ACTORS, GAPS[h]))
    {
      NoPatternSpaced(text, GAPS[h]);
    }
    SliceIsTheArray(text, [10], v, [10], ACTORS);
  }
}
