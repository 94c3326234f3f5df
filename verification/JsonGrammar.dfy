/**
  JSON texts as syntax trees that keep every byte: whitespace, escapes and raw spellings.
  `Print` writes a tree back; the trees cover sections 2 to 7 of RFC 8259 (and a little more:
  a bare token may be any run of bytes without structure, quotes or whitespace).
*/
module JsonGrammar {
  import opened Common

  const QUOTE: Byte := 34
  const BACKSLASH: Byte := 92
  const OPEN_ARRAY: Byte := 91
  const CLOSE_ARRAY: Byte := 93
  const OPEN_OBJECT: Byte := 123
  const CLOSE_OBJECT: Byte := 125
  const COLON: Byte := 58
  const COMMA: Byte := 44

  predicate IsWs(b: Byte) {
    b == 32 || b == 10 || b == 13 || b == 9
  }

  /** A plain byte of a string, or a backslash and the byte it escapes. */
  datatype Part = Plain(b: Byte) | Escape(b: Byte)

  /** `pad` is the whitespace inside an empty array or object. */
  datatype Value = Token(bytes: seq<Byte>)
                 | Text(parts: seq<Part>)
                 | Array(pad: seq<Byte>, items: Items)
                 | Object(pad: seq<Byte>, members: Members)

  datatype Items = NoItems | Item(lead: seq<Byte>, value: Value, trail: seq<Byte>, rest: Items)

  datatype Members = NoMembers
                   | Member(lead: seq<Byte>, name: seq<Part>, beforeColon: seq<Byte>, afterColon: seq<Byte>,
                            value: Value, trail: seq<Byte>, rest: Members)

  predicate Blank(bytes: seq<Byte>) {
    forall b <- bytes :: IsWs(b)
  }

  predicate Structural(b: Byte) {
    b == OPEN_ARRAY || b == CLOSE_ARRAY || b == OPEN_OBJECT || b == CLOSE_OBJECT || b == COLON || b == COMMA
  }

  predicate ValidParts(parts: seq<Part>) {
    forall p <- parts :: p.Plain? ==> p.b != QUOTE && p.b != BACKSLASH
  }

  predicate Valid(v: Value) {
    match v
    case Token(bytes) => bytes != [] && forall b <- bytes :: !Structural(b) && !IsWs(b) && b != QUOTE
    case Text(parts) => ValidParts(parts)
    case Array(pad, items) => Blank(pad) && ValidItems(items)
    case Object(pad, members) => Blank(pad) && ValidMembers(members)
  }

  predicate ValidItems(items: Items) {
    match items
    case NoItems => true
    case Item(lead, value, trail, rest) => Blank(lead) && Valid(value) && Blank(trail) && ValidItems(rest)
  }

  predicate ValidMembers(members: Members) {
    match members
    case NoMembers => true
    case Member(lead, name, beforeColon, afterColon, value, trail, rest) =>
      && Blank(lead) && ValidParts(name) && Blank(beforeColon) && Blank(afterColon)
      && Valid(value) && Blank(trail) && ValidMembers(rest)
  }

  /** The raw spelling between the quotes. */
  function Raw(parts: seq<Part>): seq<Byte> {
    if parts == [] then []
    else (match parts[0] case Plain(b) => [b] case Escape(b) => [BACKSLASH, b]) + Raw(parts[1..])
  }

  function Quoted(parts: seq<Part>): seq<Byte> {
    [QUOTE] + Raw(parts) + [QUOTE]
  }

  function Print(v: Value): (bytes: seq<Byte>)
    ensures v.Array? ==> |bytes| >= 2 && bytes[0] == OPEN_ARRAY
  {
    match v
    case Token(bytes) => bytes
    case Text(parts) => Quoted(parts)
    case Array(pad, items) =>
      [OPEN_ARRAY] + (if items.NoItems? then pad else PrintItems(items)) + [CLOSE_ARRAY]
    case Object(pad, members) =>
      [OPEN_OBJECT] + (if members.NoMembers? then pad else PrintMembers(members)) + [CLOSE_OBJECT]
  }

  function PrintItems(items: Items): seq<Byte> {
    match items
    case NoItems => []
    case Item(lead, value, trail, rest) =>
      lead + Print(value) + trail + if rest.NoItems? then [] else [COMMA] + PrintItems(rest)
  }

  function PrintMembers(members: Members): seq<Byte> {
    match members
    case NoMembers => []
    case Member(lead, name, beforeColon, afterColon, value, trail, rest) =>
      MemberHead(members) + Print(value) + trail + if rest.NoMembers? then [] else [COMMA] + PrintMembers(rest)
  }

  /** Everything of the first member up to its value. */
  function MemberHead(members: Members): seq<Byte>
    requires members.Member?
  {
    members.lead + Quoted(members.name) + members.beforeColon + [COLON] + members.afterColon
  }
}
