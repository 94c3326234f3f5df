/** A report that was cut off while its named array was being written: the importer says so. */
module JsonCut {
  import opened Common
  import opened JsonGrammar
  import opened JsonNesting
  import opened JsonScanner
  import opened JsonMembers
  import opened JsonReport

  // ----- the member scanner on the front of a text -----

  lemma {:induction false} ClosingQuoteCut(text: seq<Byte>, i: nat, escaped: bool, cut: nat)
    requires cut <= |text| && ClosingQuote(text, i, escaped).Some? && ClosingQuote(text, i, escaped).value < cut
    ensures ClosingQuote(text[..cut], i, escaped) == ClosingQuote(text, i, escaped)
    decreases |text| - i
  {
    if escaped || text[i] == BACKSLASH || text[i] != QUOTE {
      ClosingQuoteCut(text, i + 1, !escaped && text[i] == BACKSLASH, cut);
    }
  }

  lemma {:induction false} SkipWsCut(text: seq<Byte>, i: nat, cut: nat)
    requires SkipWs(text, i) < cut <= |text|
    ensures SkipWs(text[..cut], i) == SkipWs(text, i)
    decreases |text| - i
  {
    if IsWs(text[i]) {
      SkipWsCut(text, i + 1, cut);
    }
  }

  lemma BracketCut(text: seq<Byte>, after: nat, cut: nat)
    requires cut <= |text| && BracketAfterName(text, after).Some? && BracketAfterName(text, after).value < cut
    ensures after <= BracketAfterName(text, after).value
    ensures BracketAfterName(text[..cut], after) == BracketAfterName(text, after)
  {
    var c := SkipWs(text, after);
    SkipWsCut(text, after, cut);
    SkipWsCut(text, c + 1, cut);
  }

  lemma {:induction false} ArrayStartCut(text: seq<Byte>, i: nat, st: Scan, key: seq<Byte>, cut: nat)
    requires cut <= |text| && ArrayStart(text, i, st, key).Some? && ArrayStart(text, i, st, key).value < cut
    ensures i <= ArrayStart(text, i, st, key).value
    ensures ArrayStart(text[..cut], i, st, key) == ArrayStart(text, i, st, key)
    decreases |text| - i
  {
    if !st.inString && st.depth == 1 && text[i] == QUOTE {
      var read := ReadString(text, i).value;
      if read.0 == key {
        BracketCut(text, read.1, cut);
        NameCut(text, i, cut);
      } else {
        ArrayStartCut(text, read.1, st, key, cut);
        NameCut(text, i, cut);
      }
    } else {
      ArrayStartCut(text, i + 1, NextState(st, text[i]), key, cut);
    }
  }

  lemma NameCut(text: seq<Byte>, i: nat, cut: nat)
    requires i < cut <= |text| && ReadString(text, i).Some? && ReadString(text, i).value.1 <= cut
    ensures ReadString(text[..cut], i) == ReadString(text, i)
  {
    ClosingQuoteCut(text, i + 1, false, cut);
    var q := ClosingQuote(text, i + 1, false).value;
    assert text[..cut][i + 1..q] == text[i + 1..q];
  }

  // ----- the shortcut on the front of a text -----

  lemma StandsInFront(text: seq<Byte>, j: nat, pattern: seq<Byte>, cut: nat)
    requires cut <= |text|
    ensures StandsAt(text[..cut], j, pattern) <==> StandsAt(text, j, pattern) && j + |pattern| <= cut
  {
    if StandsAt(text[..cut], j, pattern) {
      forall k {:trigger pattern[k]} | 0 <= k < |pattern|
        ensures text[j + k] == pattern[k]
      {
        assert text[..cut][j + k] == pattern[k];
      }
    }
  }

  lemma NoneInFront(text: seq<Byte>, pattern: seq<Byte>, cut: nat)
    requires cut <= |text| && !Occurs(text, pattern)
    ensures FirstOccurrence(text[..cut], pattern, 0) == None
  {
    hide StandsAt, Occurs;
    forall j: nat
      ensures !StandsAt(text[..cut], j, pattern)
    {
      StandsInFront(text, j, pattern, cut);
      StandingOccurs(text, j, pattern);
    }
  }

  lemma StandingOccurs(text: seq<Byte>, j: nat, pattern: seq<Byte>)
    ensures StandsAt(text, j, pattern) ==> Occurs(text, pattern)
  {}

  lemma SameInFront(text: seq<Byte>, pattern: seq<Byte>, n: nat, cut: nat)
    requires n + |pattern| <= cut <= |text| && StandsAt(text, n, pattern) && !OccursBefore(text, pattern, n)
    ensures FirstOccurrence(text[..cut], pattern, 0) == Some(n)
  {
    hide StandsAt;
    StandsInFront(text, n, pattern, cut);
    var p := FirstOccurrence(text[..cut], pattern, 0).value;
    StandsInFront(text, p, pattern, cut);
  }

  lemma {:induction false} ShortcutInFront(text: seq<Byte>, key: seq<Byte>, gaps: seq<seq<Byte>>, g: nat, n: nat,
                                          cut: nat)
    requires g < |gaps| && n + |Pattern(key, gaps[g])| <= cut <= |text|
    requires forall h :: 0 <= h < g ==> !Occurs(text, Pattern(key, gaps[h]))
    requires StandsAt(text, n, Pattern(key, gaps[g])) && !OccursBefore(text, Pattern(key, gaps[g]), n)
    ensures Shortcut(text[..cut], key, gaps) == Some((n, gaps[g]))
  {
    hide StandsAt, Occurs, OccursBefore, Pattern;
    if g == 0 {
      SameInFront(text, Pattern(key, gaps[0]), n, cut);
    } else {
      NoneInFront(text, Pattern(key, gaps[0]), cut);
      forall h | 0 <= h < g - 1
        ensures !Occurs(text, Pattern(key, gaps[1..][h]))
      {
        assert gaps[1..][h] == gaps[h + 1];
      }
      ShortcutInFront(text, key, gaps[1..], g - 1, n, cut);
    }
  }

  lemma {:induction false} NoShortcutInFront(text: seq<Byte>, key: seq<Byte>, gaps: seq<seq<Byte>>, cut: nat)
    requires cut <= |text| && forall h :: 0 <= h < |gaps| ==> !Occurs(text, Pattern(key, gaps[h]))
    ensures Shortcut(text[..cut], key, gaps) == None
  {
    hide StandsAt, Occurs, OccursBefore, Pattern;
    if gaps != [] {
      NoneInFront(text, Pattern(key, gaps[0]), cut);
      forall h | 0 <= h < |gaps| - 1
        ensures !Occurs(text, Pattern(key, gaps[1..][h]))
      {
        assert gaps[1..][h] == gaps[h + 1];
      }
      NoShortcutInFront(text, key, gaps[1..], cut);
    }
  }

  lemma {:induction false} FirstBracketCut(text: seq<Byte>, i: nat, cut: nat)
    requires cut <= |text| && FirstBracket(text, i).Some? && FirstBracket(text, i).value < cut
    ensures FirstBracket(text[..cut], i) == FirstBracket(text, i)
    ensures i <= FirstBracket(text, i).value
    decreases |text| - i
  {
    if text[i] != OPEN_ARRAY {
      FirstBracketCut(text, i + 1, cut);
    }
  }

  // ----- a cut report -----

  /** Where the importer finds the right bracket in the whole report, it finds it in any front that reaches past it. */
  lemma StartInFront(text: seq<Byte>, lead: seq<Byte>, v: Value, trail: seq<Byte>, key: seq<Byte>, cut: nat)
    requires IsReport(text, lead, v, trail) && OPEN_ARRAY !in key && FindsRight(text, lead, v, key)
    requires ArrayOf(lead, v, key).Some? && ArrayOf(lead, v, key).value < cut <= |text|
    ensures ReportArrayStart(text[..cut], key) == ArrayOf(lead, v, key)
  {
    hide StandsAt, Occurs, OccursBefore, ArrayOf, Pattern, LaidOut, Print, Valid, Blank;
    ReportArrayStartRightIff(text, lead, v, trail, key);
    if SomePattern(text, key) {
      var g :| 0 <= g < |GAPS| && PatternOfMember(text, lead, v, key, g);
      var n := NameAt(lead, v, key).value;
      GapsAtName(text, lead, v, trail, key);
      ShortcutIsMember(text, lead, v, trail, key, g);
      PatternBracket(text, n, key, GAPS[g]);
      PatternLength(key, GAPS[g]);
      FirstBracketCut(text, n, cut);
      ShortcutInFront(text, key, GAPS, g, n, cut);
    } else {
      NoShortcutInFront(text, key, GAPS, cut);
      TopLevelRightIff(text, lead, v, trail, key);
      ArrayStartCut(text, 0, At(0), key, cut);
    }
  }

  lemma PatternLength(key: seq<Byte>, gap: seq<Byte>)
    ensures |Pattern(key, gap)| == |key| + 4 + |gap|
  {}

  /** The member's own pattern ends at its bracket. */
  lemma ShortcutIsMember(text: seq<Byte>, lead: seq<Byte>, v: Value, trail: seq<Byte>, key: seq<Byte>, g: nat)
    requires IsReport(text, lead, v, trail) && OPEN_ARRAY !in key && FindMember(v.members, key).Some?
    requires g < |GAPS| && StandsAt(text, NameAt(lead, v, key).value, Pattern(key, GAPS[g]))
    ensures FirstBracket(text, NameAt(lead, v, key).value) == ArrayOf(lead, v, key)
  {
    hide StandsAt, IsReport, Pattern, Placed, Print, FirstBracket;
    var i, node := MemberInText(text, lead, v, trail, key);
    PatternAtName(text, i, node, key, GAPS[g]);
  }

  /**
    A report cut anywhere inside the named array is reported as unterminated, wherever the importer finds the array in
    the whole report.
  */
  lemma CutReportUnterminated(text: seq<Byte>, lead: seq<Byte>, v: Value, trail: seq<Byte>, key: seq<Byte>, cut: nat)
    requires IsReport(text, lead, v, trail) && OPEN_ARRAY !in key && FindsRight(text, lead, v, key)
    requires ArrayOf(lead, v, key).Some?
    requires var start := ArrayOf(lead, v, key).value;
             start < cut < start + |Print(FindMember(v.members, key).value.1.value)| && cut <= |text|
    ensures TopLevelSlice(text[..cut], key) == Unterminated
  {
    hide StandsAt, FindsRight, ReportArrayStart, Print, Valid, Blank;
    StartInFront(text, lead, v, trail, key, cut);
    ArrayStands(text, lead, v, trail, key);
    CutArrayUnterminated(text, ArrayOf(lead, v, key).value, FindMember(v.members, key).value.1.value, cut);
  }

  lemma ArrayStands(text: seq<Byte>, lead: seq<Byte>, v: Value, trail: seq<Byte>, key: seq<Byte>)
    requires IsReport(text, lead, v, trail) && ArrayOf(lead, v, key).Some?
    ensures FindMember(v.members, key).Some?
    ensures var value := FindMember(v.members, key).value.1.value;
            value.Array? && Valid(value) && StandsAt(text, ArrayOf(lead, v, key).value, Print(value))
  {
    hide Print;
    var i, node := MemberInText(text, lead, v, trail, key);
  }
}
