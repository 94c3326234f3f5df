/**
  The report importer's hand-written JSON slicing, first half: the byte scanner that finds the
  end of an array without parsing it, proved against the grammar.
*/
module JsonScanner {
  import opened Common
  import opened JsonGrammar
  import opened JsonNesting

  /** `t` stands in `bytes` at index `i`. */
  predicate StandsAt(bytes: seq<Byte>, i: nat, t: seq<Byte>) {
    i + |t| <= |bytes| && forall k {:trigger t[k]} :: 0 <= k < |t| ==> bytes[i + k] == t[k]
  }

  lemma StandsAtSplit(bytes: seq<Byte>, i: nat, a: seq<Byte>, b: seq<Byte>)
    requires StandsAt(bytes, i, a + b)
    ensures StandsAt(bytes, i, a) && StandsAt(bytes, i + |a|, b)
  {
    forall k | 0 <= k < |a|
      ensures bytes[i + k] == a[k]
    {
      assert (a + b)[k] == a[k];
    }
    forall k | 0 <= k < |b|
      ensures bytes[i + |a| + k] == b[k]
    {
      assert (a + b)[|a| + k] == b[k];
    }
  }

  lemma StandsAtTail(bytes: seq<Byte>, i: nat, t: seq<Byte>)
    requires StandsAt(bytes, i, t) && t != []
    ensures bytes[i] == t[0] && StandsAt(bytes, i + 1, t[1..])
  {
    assert bytes[i + 0] == t[0];
    assert t == [t[0]] + t[1..];
    StandsAtSplit(bytes, i, [t[0]], t[1..]);
  }

  /** The index just past the bracket at which the array scanner stops, from a given position and state. */
  function ArrayEnd(bytes: seq<Byte>, i: nat, st: Scan): Option<nat>
    decreases |bytes| - i
  {
    if i >= |bytes| then None
    else if !st.inString && bytes[i] == CLOSE_ARRAY && st.depth <= 1 then Some(i + 1)
    else ArrayEnd(bytes, i + 1, AfterByte(st, bytes[i]))
  }

  function AfterByte(st: Scan, b: Byte): Scan {
    if st.inString then InString(st, b)
    else if b == QUOTE then st.(inString := true)
    else if b == OPEN_ARRAY then st.(depth := st.depth + 1)
    else if b == CLOSE_ARRAY then st.(depth := if st.depth > 0 then st.depth - 1 else 0)
    else st
  }

  method FindJsonArrayEnd(text: seq<Byte>, start: nat) returns (end: Option<nat>)
    ensures end == ArrayEnd(text, start, At(0))
  {
    var idx := start;
    var depth: nat, inString, escaped := 0, false, false;
    while idx < |text|
      invariant ArrayEnd(text, start, At(0)) == ArrayEnd(text, idx, Scan(depth, inString, escaped))
    {
      var byte := text[idx];
      if inString {
        if escaped {
          escaped := false;
        } else if byte == BACKSLASH {
          escaped := true;
        } else if byte == QUOTE {
          inString := false;
        }
        idx := idx + 1;
        continue;
      }
      if byte == QUOTE {
        inString := true;
      } else if byte == OPEN_ARRAY {
        depth := depth + 1;
      } else if byte == CLOSE_ARRAY {
        depth := if depth > 0 then depth - 1 else 0;
        if depth == 0 {
          return Some(idx + 1);
        }
      }
      idx := idx + 1;
    }
    return None;
  }

  /** Where the nesting tracker stays at depth one or deeper, the array scanner just passes on. */
  lemma {:induction false} ArrayEndPasses(bytes: seq<Byte>, i: nat, t: seq<Byte>, st: Scan)
    requires StandsAt(bytes, i, t) && Track(t, st, false, 1).Some?
    ensures ArrayEnd(bytes, i, st) == ArrayEnd(bytes, i + |t|, Track(t, st, false, 1).value)
    decreases |t|
  {
    if t != [] {
      StandsAtTail(bytes, i, t);
      ArrayEndPasses(bytes, i + 1, t[1..], Step(st, t[0], false, 1).value);
    }
  }

  /** Started on the bracket of any array, in any text, the scanner stops just past the matching bracket. */
  lemma ArrayEndIsMatching(text: seq<Byte>, start: nat, v: Value)
    requires v.Array? && Valid(v) && StandsAt(text, start, Print(v))
    ensures ArrayEnd(text, start, At(0)) == Some(start + |Print(v)|)
  {
    var inner := Inner(v);
    NeutralInner(v, 1, false, 1);
    StandsAtSplit(text, start, [OPEN_ARRAY] + inner, [CLOSE_ARRAY]);
    StandsAtSplit(text, start, [OPEN_ARRAY], inner);
    var close := start + 1 + |inner|;
    assert text[start] == [OPEN_ARRAY][0] && text[close] == [CLOSE_ARRAY][0];
    ArrayEndPasses(text, start + 1, inner, At(1));
  }

  /** An answer does not depend on what follows it. */
  lemma {:induction false} ArrayEndStable(bytes: seq<Byte>, suffix: seq<Byte>, i: nat, st: Scan)
    requires ArrayEnd(bytes, i, st).Some?
    ensures ArrayEnd(bytes, i, st).value <= |bytes|
    ensures ArrayEnd(bytes + suffix, i, st) == ArrayEnd(bytes, i, st)
    decreases |bytes| - i
  {
    assert (bytes + suffix)[i] == bytes[i];
    if !(!st.inString && bytes[i] == CLOSE_ARRAY && st.depth <= 1) {
      ArrayEndStable(bytes, suffix, i + 1, AfterByte(st, bytes[i]));
    }
  }

  /** A text cut anywhere before the array's last bracket is reported as unterminated. */
  lemma CutArrayUnterminated(text: seq<Byte>, start: nat, v: Value, cut: nat)
    requires v.Array? && Valid(v) && StandsAt(text, start, Print(v))
    requires cut < start + |Print(v)|
    ensures ArrayEnd(text[..cut], start, At(0)) == None
  {
    if ArrayEnd(text[..cut], start, At(0)).Some? {
      ArrayEndStable(text[..cut], text[cut..], start, At(0));
      assert text[..cut] + text[cut..] == text;
      ArrayEndIsMatching(text, start, v);
    }
  }
}
