/** The importer's three textual patterns, and texts in general, spelled as characters. */
module JsonText {
  import opened Common
  import opened JsonGrammar
  import opened JsonNesting
  import opened JsonScanner
  import opened JsonMembers
  import opened JsonReport

  // ----- the patterns -----

  /** What may stand behind a quoted key. */
  const BEHIND: seq<string> := ["\": [", "\":\n[", "\":\n  ["]

  /** The key in quotes, a colon, a space or a line break with or without indentation, and a bracket. */
  function Written(key: seq<Byte>, g: nat): seq<Byte>
    requires g < 3
  {
    TextBytes("\"") + key + TextBytes(BEHIND[g])
  }

  lemma WrittenIs(key: seq<Byte>, g: nat)
    requires g < 3
    ensures |GAPS| == 3 && Written(key, g) == Pattern(key, GAPS[g])
  {
    var gap := GAPS[g];
    assert TextBytes("\"") == [QUOTE];
    assert TextBytes(BEHIND[g]) == [QUOTE, COLON] + gap + [OPEN_ARRAY];
    assert Written(key, g) == [QUOTE] + key + ([QUOTE, COLON] + gap + [OPEN_ARRAY]);
  }

  /** The first place of the pattern, of which no earlier one in the list occurs. */
  predicate FirstOfAll(text: seq<Byte>, key: seq<Byte>, g: nat, n: nat)
    requires g < 3
  {
    && StandsAt(text, n, Written(key, g)) && !OccursBefore(text, Written(key, g), n)
    && (forall h :: 0 <= h < g ==> !Occurs(text, Written(key, h)))
  }

  predicate NoneOccurs(text: seq<Byte>, key: seq<Byte>) {
    forall h :: 0 <= h < 3 ==> !Occurs(text, Written(key, h))
  }

  /**
    Of the patterns that occur, the importer takes the first in the order of the list, where it first stands, and its
    bracket; without any, it asks the member scanner.
  */
  lemma FirstPatternTaken(text: seq<Byte>, key: seq<Byte>, g: nat, n: nat)
    requires g < 3 && OPEN_ARRAY !in key
    ensures FirstOfAll(text, key, g, n) ==> ReportArrayStart(text, key) == Some(n + |key| + |BEHIND[g]|)
    ensures NoneOccurs(text, key) ==> ReportArrayStart(text, key) == ArrayStart(text, 0, At(0), key)
  {
    hide StandsAt, Pattern, ArrayStart, Written, FirstBracket;
    forall h: nat | h < 3
      ensures |GAPS| == 3 && Written(key, h) == Pattern(key, GAPS[h])
    {
      WrittenIs(key, h);
    }
    ShortcutFindsIff(text, key, GAPS);
    if FirstOfAll(text, key, g, n) {
      OccursWhereItStands(text, Written(key, g), n);
      var k := ShortcutIs(text, key, GAPS);
      OccursWhereItStands(text, Written(key, k), Shortcut(text, key, GAPS).value.0);
      PatternBracket(text, n, key, GAPS[g]);
    }
  }

  lemma OccursWhereItStands(text: seq<Byte>, pattern: seq<Byte>, n: nat)
    requires StandsAt(text, n, pattern)
    ensures Occurs(text, pattern)
  {}
}
