/**
  Where the importer's textual patterns occur in a report: exactly at the members, at any depth, that are laid out that
  way and whose name ends like the key. So what the shortcut finds can be read off the tree, and in particular off the
  reports that the analyser writes, with one space behind every colon.
*/
module JsonPatterns {
  import opened Common
  import opened JsonGrammar
  import opened JsonNesting
  import opened JsonScanner
  import opened JsonMembers
  import opened JsonReport

  predicate KeyByte(b: Byte) {
    b != QUOTE && b != BACKSLASH && !Structural(b) && !IsWs(b)
  }

  predicate PlainKey(key: seq<Byte>) {
    key != [] && forall b <- key :: KeyByte(b)
  }

  /** The key behind a quote: the name itself, or the end of a name with an escaped quote in it. */
  predicate EndsLike(name: seq<Part>, key: seq<Byte>) {
    var s, t := [QUOTE] + Raw(name), [QUOTE] + key;
    |t| <= |s| && forall k {:trigger t[k]} :: 0 <= k < |t| ==> s[|s| - |t| + k] == t[k]
  }

  predicate PatternMember(node: Members, key: seq<Byte>, gap: seq<Byte>)
    requires node.Member?
  {
    EndsLike(node.name, key) && LaidOut(node, gap)
  }

  /** Where the closing quote of the first member's name stands. */
  function NameEnd(i: nat, members: Members): nat
    requires members.Member?
  {
    i + |members.lead| + |Raw(members.name)| + 1
  }

  // ----- the closing quotes of the pattern's members -----

  /** A pattern member of `v` at any depth, printed from `i`, closes its name at `q`. */
  predicate ClosesIn(v: Value, i: nat, key: seq<Byte>, gap: seq<Byte>, q: nat)
    decreases v
  {
    match v
    case Array(_, items) => ClosesInItems(items, i + 1, key, gap, q)
    case Object(_, members) => ClosesInMembers(members, i + 1, key, gap, q)
    case _ => false
  }

  predicate ClosesInItems(items: Items, i: nat, key: seq<Byte>, gap: seq<Byte>, q: nat)
    decreases items
  {
    items.Item? &&
    (|| ClosesIn(items.value, i + |items.lead|, key, gap, q)
     || ClosesInItems(items.rest, ItemEnd(i, items) + 1, key, gap, q))
  }

  predicate ClosesInMembers(members: Members, i: nat, key: seq<Byte>, gap: seq<Byte>, q: nat)
    decreases members
  {
    members.Member? &&
    (|| (PatternMember(members, key, gap) && q == NameEnd(i, members))
     || ClosesIn(members.value, i + |MemberHead(members)|, key, gap, q)
     || ClosesInMembers(members.rest, MemberEnd(i, members) + 1, key, gap, q))
  }

  function ItemEnd(i: nat, items: Items): nat
    requires items.Item?
  {
    i + |items.lead| + |Print(items.value)| + |items.trail|
  }

  // ----- one occurrence, seen from its second quote -----

  /** The pattern stands so that its second quote is at `q`. */
  predicate Hit(text: seq<Byte>, q: nat, key: seq<Byte>, gap: seq<Byte>) {
    q >= |key| + 1 && StandsAt(text, q - |key| - 1, Pattern(key, gap))
  }

  predicate ColonAt(text: seq<Byte>, i: nat) {
    i < |text| && text[i] == COLON
  }

  /** What stands in front of `i` cannot be the end of a key. */
  predicate Fenced(text: seq<Byte>, i: nat) {
    i == 0 || (i <= |text| && !KeyByte(text[i - 1]))
  }

  lemma HitBytes(text: seq<Byte>, q: nat, key: seq<Byte>, gap: seq<Byte>)
    requires Hit(text, q, key, gap) && PlainKey(key)
    ensures q + 2 + |gap| < |text| && q >= 2
    ensures text[q] == QUOTE && ColonAt(text, q + 1) && KeyByte(text[q - 1]) && text[q - |key| - 1] == QUOTE
    ensures StandsAt(text, q - |key|, key) && StandsAt(text, q + 2, gap) && text[q + 2 + |gap|] == OPEN_ARRAY
  {
    var p := q - |key| - 1;
    PatternPieces(text, p, key, gap);
    assert text[p] == [QUOTE][0] && text[q] == [QUOTE, COLON][0] && text[q + 1] == [QUOTE, COLON][1];
    assert text[q + 2 + |gap|] == [OPEN_ARRAY][0];
    assert text[q - |key| + (|key| - 1)] == key[|key| - 1];
  }

  lemma NoHitInFlat(text: seq<Byte>, i: nat, t: seq<Byte>, q: nat)
    requires StandsAt(text, i, t) && i <= q < i + |t| && QUOTE !in t
    ensures text[q] != QUOTE
  {
    assert text[i + (q - i)] == t[q - i];
    assert t[q - i] in t;
  }

  /** Inside a string a quote is always escaped. */
  lemma {:induction false} RawQuote(parts: seq<Part>, k: nat)
    requires ValidParts(parts) && k < |Raw(parts)| && Raw(parts)[k] == QUOTE
    ensures k > 0 && Raw(parts)[k - 1] == BACKSLASH
  {
    assert parts[0] in parts;
    var head := match parts[0] case Plain(b) => [b] case Escape(b) => [BACKSLASH, b];
    assert Raw(parts) == head + Raw(parts[1..]);
    if k >= |head| {
      assert forall p <- parts[1..] :: p in parts;
      RawQuote(parts[1..], k - |head|);
    }
  }

  /** A pattern's second quote in a string can only be its closing quote. */
  lemma HitInQuoted(text: seq<Byte>, i: nat, parts: seq<Part>, key: seq<Byte>, gap: seq<Byte>, q: nat)
    requires ValidParts(parts) && PlainKey(key) && StandsAt(text, i, Quoted(parts)) && Fenced(text, i)
    requires Hit(text, q, key, gap) && i <= q < i + |Quoted(parts)|
    ensures q == i + |Raw(parts)| + 1
  {
    HitBytes(text, q, key, gap);
    var raw := Raw(parts);
    if i < q < i + |raw| + 1 {
      StandsAtSplit(text, i, [QUOTE] + raw, [QUOTE]);
      StandsAtSplit(text, i, [QUOTE], raw);
      RawInText(text, i + 1, raw, q - i - 1);
      RawQuote(parts, q - i - 1);
    }
  }

  lemma RawInText(text: seq<Byte>, i: nat, raw: seq<Byte>, k: nat)
    requires StandsAt(text, i, raw) && k < |raw|
    ensures text[i + k] == raw[k] && (k > 0 ==> text[i + k - 1] == raw[k - 1])
  {
    if k > 0 {
      assert text[i + (k - 1)] == raw[k - 1];
    }
  }

  lemma BlankNoQuote(ws: seq<Byte>)
    requires Blank(ws)
    ensures QUOTE !in ws && COLON !in ws
  {}

  // ----- what follows and precedes a value -----

  /** Behind a value come whitespace and then a separator: no colon. */
  lemma NoColonBehind(text: seq<Byte>, e: nat, trail: seq<Byte>)
    requires Blank(trail) && StandsAt(text, e, trail) && !ColonAt(text, e + |trail|)
    ensures !ColonAt(text, e)
  {
    if trail != [] {
      assert text[e + 0] == trail[0] && trail[0] in trail;
    }
  }

  /** In front of a value, behind whitespace, stands something that ends no key. */
  lemma FencedBehind(text: seq<Byte>, i: nat, lead: seq<Byte>)
    requires Blank(lead) && StandsAt(text, i, lead) && Fenced(text, i)
    ensures Fenced(text, i + |lead|)
  {
    if lead != [] {
      assert text[i + (|lead| - 1)] == lead[|lead| - 1] && lead[|lead| - 1] in lead;
    }
  }

  lemma PlaceItem(text: seq<Byte>, i: nat, items: Items)
    requires items.Item? && StandsAt(text, i, PrintItems(items))
    ensures StandsAt(text, i, items.lead) && StandsAt(text, i + |items.lead|, Print(items.value))
    ensures StandsAt(text, i + |items.lead| + |Print(items.value)|, items.trail)
    ensures items.rest.NoItems? ==> ItemEnd(i, items) == i + |PrintItems(items)|
    ensures items.rest.Item? ==>
              && ItemEnd(i, items) + 1 + |PrintItems(items.rest)| == i + |PrintItems(items)|
              && StandsAt(text, ItemEnd(i, items), [COMMA])
              && StandsAt(text, ItemEnd(i, items) + 1, PrintItems(items.rest))
  {
    hide StandsAt;
    var lead, value, trail := items.lead, Print(items.value), items.trail;
    var more := if items.rest.NoItems? then [] else [COMMA] + PrintItems(items.rest);
    StandsAtSplit(text, i, lead + value + trail, more);
    StandsAtSplit(text, i, lead + value, trail);
    StandsAtSplit(text, i, lead, value);
    if items.rest.Item? {
      StandsAtSplit(text, ItemEnd(i, items), [COMMA], PrintItems(items.rest));
    }
  }

  // ----- the name of one member -----

  lemma KeySpan(text: seq<Byte>, i: nat, key: seq<Byte>)
    requires StandsAt(text, i, key) && PlainKey(key)
    ensures forall j :: i <= j < i + |key| ==> KeyByte(text[j])
  {
    forall j | i <= j < i + |key|
      ensures KeyByte(text[j])
    {
      assert text[i + (j - i)] == key[j - i];
    }
  }

  /** The key behind a quote ends the name exactly if it stands in front of the name's closing quote. */
  lemma NameEndsLike(text: seq<Byte>, n: nat, name: seq<Part>, key: seq<Byte>)
    requires PlainKey(key) && StandsAt(text, n, Quoted(name))
    ensures var q := n + |Raw(name)| + 1;
            EndsLike(name, key) <==> q >= |key| + 1 && StandsAt(text, q - |key| - 1, [QUOTE] + key)
  {
    var s, t := [QUOTE] + Raw(name), [QUOTE] + key;
    var q := n + |s|;
    StandsAtSplit(text, n, s, [QUOTE]);
    assert text[n] == QUOTE by {
      assert text[n + 0] == s[0];
    }
    if EndsLike(name, key) {
      forall k | 0 <= k < |t|
        ensures text[q - |t| + k] == t[k]
      {
        assert text[n + (|s| - |t| + k)] == s[|s| - |t| + k];
      }
    }
    if q >= |t| && StandsAt(text, q - |t|, t) {
      StandsAtSplit(text, q - |t|, [QUOTE], key);
      KeySpan(text, q - |key|, key);
      forall k | 0 <= k < |t|
        ensures s[|s| - |t| + k] == t[k]
      {
        assert text[n + (|s| - |t| + k)] == s[|s| - |t| + k];
        assert text[q - |t| + k] == t[k];
      }
    }
  }

  /** What stands behind a name is the pattern's rest exactly if the member is laid out that way. */
  lemma LayoutBehind(text: seq<Byte>, q: nat, node: Members, gap: seq<Byte>)
    requires node.Member? && ValidMembers(node) && gap in GAPS && StandsAt(text, q, [QUOTE])
    requires StandsAt(text, q + 1, node.beforeColon) && StandsAt(text, q + 1 + |node.beforeColon|, [COLON])
    requires StandsAt(text, q + 2 + |node.beforeColon|, node.afterColon)
    requires StandsAt(text, q + 2 + |node.beforeColon| + |node.afterColon|, Print(node.value))
    ensures LaidOut(node, gap) <==> RestStands(text, q, gap)
  {
    hide Print, BracketAfterName, Structural;
    if LaidOut(node, gap) {
      StandsAtJoin(text, q, [QUOTE], [COLON]);
      assert [QUOTE] + [COLON] == [QUOTE, COLON];
      assert text[q + 2 + |gap|] == Print(node.value)[0];
    }
    if RestStands(text, q, gap) {
      BracketAfterMember(text, q + 1, node.beforeColon, node.afterColon, node.value);
      BracketBehindRest(text, q, gap);
      SameGap(text, q + 1, node.beforeColon, node.afterColon, gap);
    }
  }

  /** The pattern from its second quote on. */
  predicate RestStands(text: seq<Byte>, q: nat, gap: seq<Byte>) {
    StandsAt(text, q, [QUOTE, COLON]) && StandsAt(text, q + 2, gap) && StandsAt(text, q + 2 + |gap|, [OPEN_ARRAY])
  }

  lemma BracketBehindRest(text: seq<Byte>, q: nat, gap: seq<Byte>)
    requires gap in GAPS && RestStands(text, q, gap)
    ensures BracketAfterName(text, q + 1) == Some(q + 2 + |gap|)
  {
    BlankGap(gap);
    assert text[q + 1] == [QUOTE, COLON][1] && text[q + 2 + |gap|] == [OPEN_ARRAY][0];
    SkipWsBlank(text, q + 1, []);
    SkipWsBlank(text, q + 2, gap);
  }

  lemma PatternJoin(text: seq<Byte>, p: nat, key: seq<Byte>, gap: seq<Byte>)
    ensures StandsAt(text, p, Pattern(key, gap))
            <==> StandsAt(text, p, [QUOTE] + key) && RestStands(text, p + |key| + 1, gap)
  {
    if StandsAt(text, p, Pattern(key, gap)) {
      PatternPieces(text, p, key, gap);
      StandsAtJoin(text, p, [QUOTE], key);
    } else if StandsAt(text, p, [QUOTE] + key) && RestStands(text, p + |key| + 1, gap) {
      StandsAtJoin(text, p, [QUOTE] + key, [QUOTE, COLON]);
      StandsAtJoin(text, p, [QUOTE] + key + [QUOTE, COLON], gap);
      StandsAtJoin(text, p, [QUOTE] + key + [QUOTE, COLON] + gap, [OPEN_ARRAY]);
    }
  }

  /** A member's closing quote is a pattern's second quote exactly if it is a pattern member. */
  lemma OwnName(text: seq<Byte>, i: nat, node: Members, key: seq<Byte>, gap: seq<Byte>)
    requires node.Member? && ValidMembers(node) && Placed(text, i, node) && PlainKey(key) && gap in GAPS
    ensures Hit(text, NameEnd(i, node), key, gap) <==> PatternMember(node, key, gap)
  {
    hide StandsAt;
    var n, q := i + |node.lead|, NameEnd(i, node);
    NameEndsLike(text, n, node.name, key);
    QuotedEnds(text, n, node.name);
    LayoutBehind(text, q, node, gap);
    if q >= |key| + 1 {
      PatternJoin(text, q - |key| - 1, key, gap);
    }
  }

  // ----- names stand within their values -----

  lemma {:induction false} ClosesWithin(v: Value, i: nat, key: seq<Byte>, gap: seq<Byte>, q: nat)
    requires ClosesIn(v, i, key, gap, q)
    ensures i < q < i + |Print(v)|
    decreases v
  {
    match v
    case Array(_, items) => ItemsCloseWithin(items, i + 1, key, gap, q);
    case Object(_, members) => MembersCloseWithin(members, i + 1, key, gap, q);
  }

  lemma {:induction false} ItemsCloseWithin(items: Items, i: nat, key: seq<Byte>, gap: seq<Byte>, q: nat)
    requires ClosesInItems(items, i, key, gap, q)
    ensures i < q < i + |PrintItems(items)|
    decreases items
  {
    ItemsLength(i, items);
    if ClosesIn(items.value, i + |items.lead|, key, gap, q) {
      ClosesWithin(items.value, i + |items.lead|, key, gap, q);
    } else {
      ItemsCloseWithin(items.rest, ItemEnd(i, items) + 1, key, gap, q);
    }
  }

  lemma {:induction false} MembersCloseWithin(members: Members, i: nat, key: seq<Byte>, gap: seq<Byte>, q: nat)
    requires ClosesInMembers(members, i, key, gap, q)
    ensures i < q < i + |PrintMembers(members)|
    decreases members
  {
    PrintedLength(members);
    HeadLength(members);
    if ClosesIn(members.value, i + |MemberHead(members)|, key, gap, q) {
      ClosesWithin(members.value, i + |MemberHead(members)|, key, gap, q);
    } else if ClosesInMembers(members.rest, MemberEnd(i, members) + 1, key, gap, q) {
      MembersCloseWithin(members.rest, MemberEnd(i, members) + 1, key, gap, q);
    }
  }

  lemma ItemsLength(i: nat, items: Items)
    requires items.Item?
    ensures i + |PrintItems(items)|
            == ItemEnd(i, items) + if items.rest.NoItems? then 0 else 1 + |PrintItems(items.rest)|
  {}

  lemma HeadLength(members: Members)
    requires members.Member?
    ensures |MemberHead(members)|
            == |members.lead| + |Raw(members.name)| + 2 + |members.beforeColon| + 1 + |members.afterColon|
  {}

  // ----- every occurrence is at such a name -----

  lemma HeadHits(text: seq<Byte>, i: nat, node: Members, key: seq<Byte>, gap: seq<Byte>, q: nat)
    requires node.Member? && ValidMembers(node) && Placed(text, i, node) && PlainKey(key) && gap in GAPS
    requires Fenced(text, i) && i <= q < i + |MemberHead(node)|
    ensures Hit(text, q, key, gap) <==> q == NameEnd(i, node) && PatternMember(node, key, gap)
  {
    HeadLength(node);
    OwnName(text, i, node, key, gap);
    if Hit(text, q, key, gap) {
      HeadQuote(text, i, node, key, gap, q);
    }
  }

  lemma HeadQuote(text: seq<Byte>, i: nat, node: Members, key: seq<Byte>, gap: seq<Byte>, q: nat)
    requires node.Member? && ValidMembers(node) && Placed(text, i, node) && PlainKey(key) && gap in GAPS
    requires Fenced(text, i) && i <= q < i + |MemberHead(node)| && Hit(text, q, key, gap)
    ensures q == NameEnd(i, node)
  {
    var n := i + |node.lead|;
    var c := n + |Quoted(node.name)|;
    var d := c + |node.beforeColon|;
    HitBytes(text, q, key, gap);
    BlankNoQuote(node.lead);
    BlankNoQuote(node.beforeColon);
    BlankNoQuote(node.afterColon);
    FencedBehind(text, i, node.lead);
    if q < n {
      NoHitInFlat(text, i, node.lead, q);
    } else if q < c {
      HitInQuoted(text, n, node.name, key, gap, q);
    } else if q < d {
      NoHitInFlat(text, c, node.beforeColon, q);
    } else if q == d {
      NoHitInFlat(text, d, [COLON], q);
    } else {
      NoHitInFlat(text, d + 1, node.afterColon, q);
    }
  }

  lemma MembersSplit(members: Members, i: nat, key: seq<Byte>, gap: seq<Byte>, q: nat)
    requires members.Member?
    ensures var v, e := i + |MemberHead(members)|, MemberEnd(i, members);
            var t := v + |Print(members.value)|;
            ClosesInMembers(members, i, key, gap, q) <==>
              if q < v then q == NameEnd(i, members) && PatternMember(members, key, gap)
              else if q < t then ClosesIn(members.value, v, key, gap, q)
              else if q <= e then false
              else ClosesInMembers(members.rest, e + 1, key, gap, q)
  {
    HeadLength(members);
    var v, e := i + |MemberHead(members)|, MemberEnd(i, members);
    if ClosesIn(members.value, v, key, gap, q) {
      ClosesWithin(members.value, v, key, gap, q);
    }
    if ClosesInMembers(members.rest, e + 1, key, gap, q) {
      MembersCloseWithin(members.rest, e + 1, key, gap, q);
    }
  }

  lemma ItemsSplit(items: Items, i: nat, key: seq<Byte>, gap: seq<Byte>, q: nat)
    requires items.Item?
    ensures var v, e := i + |items.lead|, ItemEnd(i, items);
            var t := v + |Print(items.value)|;
            ClosesInItems(items, i, key, gap, q) <==>
              if q < v then false
              else if q < t then ClosesIn(items.value, v, key, gap, q)
              else if q <= e then false
              else ClosesInItems(items.rest, e + 1, key, gap, q)
  {
    var v, e := i + |items.lead|, ItemEnd(i, items);
    if ClosesIn(items.value, v, key, gap, q) {
      ClosesWithin(items.value, v, key, gap, q);
    }
    if ClosesInItems(items.rest, e + 1, key, gap, q) {
      ItemsCloseWithin(items.rest, e + 1, key, gap, q);
    }
  }

  /** No pattern's second quote stands between a value and what comes after its separator. */
  lemma NoHitBehind(text: seq<Byte>, t: nat, trail: seq<Byte>, key: seq<Byte>, gap: seq<Byte>, q: nat)
    requires Blank(trail) && StandsAt(text, t, trail) && PlainKey(key) && t <= q <= t + |trail|
    requires t + |trail| < |text| ==> text[t + |trail|] != QUOTE
    ensures !Hit(text, q, key, gap)
  {
    if Hit(text, q, key, gap) {
      HitBytes(text, q, key, gap);
      if q < t + |trail| {
        BlankNoQuote(trail);
        NoHitInFlat(text, t, trail, q);
      }
    }
  }

  lemma {:induction false} ValueHits(text: seq<Byte>, i: nat, v: Value, key: seq<Byte>, gap: seq<Byte>, q: nat)
    requires Valid(v) && PlainKey(key) && gap in GAPS && StandsAt(text, i, Print(v)) && Fenced(text, i)
    requires !ColonAt(text, i + |Print(v)|) && i <= q < i + |Print(v)|
    ensures Hit(text, q, key, gap) <==> ClosesIn(v, i, key, gap, q)
    decreases v, 2
  {
    if v.Token? || v.Text? {
      LeafHits(text, i, v, key, gap, q);
    } else {
      BracketedHits(text, i, v, key, gap, q);
    }
  }

  lemma LeafHits(text: seq<Byte>, i: nat, v: Value, key: seq<Byte>, gap: seq<Byte>, q: nat)
    requires (v.Token? || v.Text?) && Valid(v) && PlainKey(key) && StandsAt(text, i, Print(v)) && Fenced(text, i)
    requires !ColonAt(text, i + |Print(v)|) && i <= q < i + |Print(v)|
    ensures !Hit(text, q, key, gap)
  {
    if Hit(text, q, key, gap) {
      HitBytes(text, q, key, gap);
      if v.Token? {
        NoHitInFlat(text, i, v.bytes, q);
      } else {
        HitInQuoted(text, i, v.parts, key, gap, q);
      }
    }
  }

  lemma {:induction false} BracketedHits(text: seq<Byte>, i: nat, v: Value, key: seq<Byte>, gap: seq<Byte>, q: nat)
    requires (v.Array? || v.Object?) && Valid(v) && PlainKey(key) && gap in GAPS && StandsAt(text, i, Print(v))
    requires i <= q < i + |Print(v)|
    ensures Hit(text, q, key, gap) <==> ClosesIn(v, i, key, gap, q)
    decreases v, 1
  {
    hide ClosesIn, Print, Valid, Hit, PlainKey;
    var e := i + 1 + |Inner(v)|;
    PlaceInner(text, i, v);
    if q == i || q == e {
      if Hit(text, q, key, gap) {
        HitBytes(text, q, key, gap);
      }
      if ClosesIn(v, i, key, gap, q) {
        InnerCloses(v, i, key, gap, q);
      }
    } else {
      InnerHits(text, i, v, key, gap, q);
    }
  }

  function Opening(v: Value): Byte {
    if v.Array? then OPEN_ARRAY else OPEN_OBJECT
  }

  function Closing(v: Value): Byte {
    if v.Array? then CLOSE_ARRAY else CLOSE_OBJECT
  }

  lemma PlaceInner(text: seq<Byte>, i: nat, v: Value)
    requires (v.Array? || v.Object?) && StandsAt(text, i, Print(v))
    ensures var e := i + 1 + |Inner(v)|;
            && e < |text| && text[i] == Opening(v) && text[e] == Closing(v) && |Print(v)| == |Inner(v)| + 2
            && StandsAt(text, i + 1, Inner(v)) && StandsAt(text, e, [Closing(v)])
  {
    hide Print;
    var inner := Inner(v);
    StandsAtSplit(text, i, [Opening(v)] + inner, [Closing(v)]);
    StandsAtSplit(text, i, [Opening(v)], inner);
    assert text[i] == [Opening(v)][0] && text[i + 1 + |inner|] == [Closing(v)][0];
  }

  lemma {:induction false} InnerHits(text: seq<Byte>, i: nat, v: Value, key: seq<Byte>, gap: seq<Byte>, q: nat)
    requires (v.Array? || v.Object?) && Valid(v) && PlainKey(key) && gap in GAPS
    requires i < |text| && text[i] == Opening(v) && StandsAt(text, i + 1, Inner(v))
    requires StandsAt(text, i + 1 + |Inner(v)|, [Closing(v)]) && i < q < i + 1 + |Inner(v)|
    ensures Hit(text, q, key, gap) <==> ClosesIn(v, i, key, gap, q)
    decreases v, 0
  {
    hide Hit, PlainKey, Print, PrintMembers, PrintItems;
    if v.Array? && v.items.Item? {
      ItemsHits(text, i + 1, v.items, key, gap, q);
    } else if v.Object? && v.members.Member? {
      MembersHits(text, i + 1, v.members, key, gap, q);
    } else {
      assert text[i + 1 + |v.pad|] == [Closing(v)][0];
      NoHitBehind(text, i + 1, v.pad, key, gap, q);
    }
  }

  lemma InnerCloses(v: Value, i: nat, key: seq<Byte>, gap: seq<Byte>, q: nat)
    requires (v.Array? || v.Object?) && ClosesIn(v, i, key, gap, q)
    ensures i + 1 < q < i + 1 + |Inner(v)|
  {
    match v
    case Array(_, items) => ItemsCloseWithin(items, i + 1, key, gap, q);
    case Object(_, members) => MembersCloseWithin(members, i + 1, key, gap, q);
  }

  lemma {:induction false} ItemsHits(text: seq<Byte>, i: nat, items: Items, key: seq<Byte>, gap: seq<Byte>, q: nat)
    requires items.Item? && ValidItems(items) && PlainKey(key) && gap in GAPS && StandsAt(text, i, PrintItems(items))
    requires Fenced(text, i) && StandsAt(text, i + |PrintItems(items)|, [CLOSE_ARRAY])
    requires i <= q < i + |PrintItems(items)|
    ensures Hit(text, q, key, gap) <==> ClosesInItems(items, i, key, gap, q)
    decreases items
  {
    hide ClosesInItems, ClosesIn, Hit, StandsAt, Print, PrintItems, Blank, PlainKey;
    var v, e := i + |items.lead|, ItemEnd(i, items);
    var t := v + |Print(items.value)|;
    PlaceItem(text, i, items);
    ItemsLength(i, items);
    ItemsSplit(items, i, key, gap, q);
    ItemFences(text, i, items);
    if q < v {
      FlatHits(text, i, items.lead, key, gap, q);
    } else if q < t {
      ValueHits(text, v, items.value, key, gap, q);
    } else if q <= e {
      NoHitBehind(text, t, items.trail, key, gap, q);
    } else {
      ItemsHits(text, e + 1, items.rest, key, gap, q);
    }
  }

  /** What stands around an item's value and behind the item. */
  lemma ItemFences(text: seq<Byte>, i: nat, items: Items)
    requires items.Item? && ValidItems(items) && StandsAt(text, i, PrintItems(items))
    requires Fenced(text, i) && StandsAt(text, i + |PrintItems(items)|, [CLOSE_ARRAY])
    ensures var v, e := i + |items.lead|, ItemEnd(i, items);
            && Fenced(text, v) && !ColonAt(text, v + |Print(items.value)|)
            && e < |text| && text[e] != QUOTE && text[e] != COLON && Fenced(text, e + 1)
  {
    hide Print, PrintItems, Blank;
    var e, separator := ItemEnd(i, items), if items.rest.NoItems? then CLOSE_ARRAY else COMMA;
    PlaceItem(text, i, items);
    FencedBehind(text, i, items.lead);
    assert text[e] == [separator][0];
    NoColonBehind(text, i + |items.lead| + |Print(items.value)|, items.trail);
  }

  lemma FlatHits(text: seq<Byte>, i: nat, lead: seq<Byte>, key: seq<Byte>, gap: seq<Byte>, q: nat)
    requires Blank(lead) && StandsAt(text, i, lead) && PlainKey(key) && i <= q < i + |lead|
    ensures !Hit(text, q, key, gap)
  {
    if Hit(text, q, key, gap) {
      HitBytes(text, q, key, gap);
      BlankNoQuote(lead);
      NoHitInFlat(text, i, lead, q);
    }
  }

  lemma {:induction false} MembersHits(text: seq<Byte>, i: nat, members: Members, key: seq<Byte>, gap: seq<Byte>,
                                       q: nat)
    requires members.Member? && ValidMembers(members) && PlainKey(key) && gap in GAPS
    requires StandsAt(text, i, PrintMembers(members)) && Fenced(text, i)
    requires StandsAt(text, i + |PrintMembers(members)|, [CLOSE_OBJECT]) && i <= q < i + |PrintMembers(members)|
    ensures Hit(text, q, key, gap) <==> ClosesInMembers(members, i, key, gap, q)
    decreases members
  {
    hide PrintMembers, StandsAt;
    var v, e := i + |MemberHead(members)|, MemberEnd(i, members);
    var t := v + |Print(members.value)|;
    PlaceMember(text, i, members);
    PrintedLength(members);
    MembersSplit(members, i, key, gap, q);
    MemberFences(text, i, members);
    if q < v {
      HeadHits(text, i, members, key, gap, q);
    } else if q < t {
      ValueHits(text, v, members.value, key, gap, q);
    } else if q <= e {
      NoHitBehind(text, t, members.trail, key, gap, q);
    } else {
      MembersHits(text, e + 1, members.rest, key, gap, q);
    }
  }

  /** What stands around a member's value and behind the member. */
  lemma {:induction false} MemberFences(text: seq<Byte>, i: nat, members: Members)
    requires members.Member? && ValidMembers(members) && StandsAt(text, i, PrintMembers(members))
    requires StandsAt(text, i + |PrintMembers(members)|, [CLOSE_OBJECT])
    ensures var v, e := i + |MemberHead(members)|, MemberEnd(i, members);
            && Fenced(text, v) && !ColonAt(text, v + |Print(members.value)|)
            && e < |text| && text[e] != QUOTE && text[e] != COLON && Fenced(text, e + 1)
            && (members.rest.Member? ==> StandsAt(text, e + 1, PrintMembers(members.rest)))
  {
    var v, e := i + |MemberHead(members)|, MemberEnd(i, members);
    var d := i + |members.lead| + |Quoted(members.name)| + |members.beforeColon|;
    PlaceMember(text, i, members);
    PrintedLength(members);
    assert text[d] == [COLON][0];
    FencedBehind(text, d + 1, members.afterColon);
    if members.rest.NoMembers? {
      assert text[e] == [CLOSE_OBJECT][0];
    }
    NoColonBehind(text, v + |Print(members.value)|, members.trail);
  }
}
