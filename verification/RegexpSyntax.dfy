/**
 The syntax `compile` accepts, as a parser from pattern text to the nodes of
 module Regexp.

 A pattern is a NUL-terminated string.  Patterns with back-references, patterns
 that put a second range on one expression or a range on a group, and strings that
 end in the middle of a class or an escape are `Outside` this model.
 */
module RegexpSyntax {
  import opened Regexp
  import opened RegexpCode

  const NEWLINE: Byte := 10
  const DOLLAR: Byte := 36
  const LPAREN: Byte := 40
  const RPAREN: Byte := 41
  const ASTERISK: Byte := 42
  const COMMA: Byte := 44
  const HYPHEN: Byte := 45
  const DOT: Byte := 46
  const ZERO: Byte := 48
  const ONE: Byte := 49
  const NINE: Byte := 57
  const LBRACKET: Byte := 91
  const BACKSLASH: Byte := 92
  const RBRACKET: Byte := 93
  const CARET: Byte := 94
  const LETTER_N: Byte := 110
  const LBRACE: Byte := 123
  const RBRACE: Byte := 125

  /** The numbers ERROR is called with. */
  type ErrorCode = int

  datatype Parsed = Pattern(nodes: seq<Node>) | Bad(code: ErrorCode) | Outside

  // ----- bracket expressions

  datatype ClassParsed = Members(members: set<Byte>, sp: nat) | BadClass(code: ErrorCode) | ClassOutside

  /** The characters from low up to but not including high. */
  function Interval(low: Byte, high: Byte): (s: set<Byte>)
    ensures forall c: Byte :: c in s <==> low <= c < high
    decreases high - low
  {
    if low < high then {low} + Interval(low + 1, high) else {}
  }

  /**
   The rest of a bracket expression: c is the character just read, lc the one before
   it (0 at the start) and `members` what has been listed so far.  A hyphen after a
   character makes an interval up to the next one, unless the bracket closes.
   */
  function ClassFrom(p: Text, sp: nat, c: Byte, lc: Byte, members: set<Byte>): (r: ClassParsed)
    requires sp <= |p| + 1 && (sp == |p| + 1 ==> c == 0)
    ensures r.Members? ==> sp < r.sp <= |p|
    ensures r.Members? && 0 !in members ==> 0 !in r.members
    decreases |p| + 1 - sp
  {
    if c == 0 || c == NEWLINE then BadClass(49)
    else if c == HYPHEN && lc != 0 then
      var c' := At(p, sp);
      if c' == RBRACKET then Members(members + {HYPHEN}, sp + 1)
      else if c' == 0 then ClassOutside
      else ClassNext(p, sp + 1, c', members + Interval(lc, c') + {c'})
    else ClassNext(p, sp, c, members + {c})
  }

  function ClassNext(p: Text, sp: nat, lc: Byte, members: set<Byte>): (r: ClassParsed)
    requires sp <= |p|
    ensures r.Members? ==> sp < r.sp <= |p|
    ensures r.Members? && 0 !in members ==> 0 !in r.members
    decreases |p| + 1 - sp, 0
  {
    if At(p, sp) == RBRACKET then Members(members, sp + 1)
    else ClassFrom(p, sp + 1, At(p, sp), lc, members)
  }

  // ----- ranges

  datatype NumberParsed = Number(n: nat, end: Byte, sp: nat) | BadNumber(code: ErrorCode)

  predicate Digit(c: Byte) {
    ZERO <= c <= NINE
  }

  /** A decimal number from sp on, ended by a backslash or a comma. */
  function NumberFrom(p: Text, sp: nat, n: nat): (r: NumberParsed)
    requires sp <= |p|
    ensures r.Number? ==> sp < r.sp <= |p| && r.n < 255 && r.end in {BACKSLASH, COMMA}
    decreases |p| - sp
  {
    if !Digit(At(p, sp)) then BadNumber(16)
    else
      var n' := 10 * n + At(p, sp) - ZERO;
      var c := At(p, sp + 1);
      if c == BACKSLASH || c == COMMA then
        if n' >= 255 then BadNumber(11) else Number(n', c, sp + 2)
      else NumberFrom(p, sp + 1, n')
  }

  datatype RangeParsed = Bounded(low: Byte, high: Byte, sp: nat) | BadRange(code: ErrorCode)

  /** What follows `\{`: "m\}", "m,\}" or "m,n\}". */
  function RangeFrom(p: Text, sp: nat): (r: RangeParsed)
    requires sp <= |p|
    ensures r.Bounded? ==> sp < r.sp <= |p| && r.low <= r.high && r.low < 255
  {
    match NumberFrom(p, sp, 0)
    case BadNumber(e) => BadRange(e)
    case Number(m, end, sp1) =>
      if end == BACKSLASH then Closing(p, sp1, m, m)
      else if At(p, sp1) == BACKSLASH then Closing(p, sp1 + 1, m, 255)
      else
        match NumberFrom(p, sp1, 0)
        case BadNumber(e) => BadRange(e)
        case Number(n, end', sp2) => if end' == COMMA then BadRange(44) else Closing(p, sp2, m, n)
  }

  function Closing(p: Text, sp: nat, low: nat, high: nat): (r: RangeParsed)
    requires sp <= |p| && low < 255 && high <= 255
    ensures r.Bounded? ==> r.sp == sp + 1 <= |p| && r.low == low <= high == r.high
  {
    if At(p, sp) != RBRACE then BadRange(45)
    else if high < low then BadRange(46)
    else Bounded(low, high, sp + 1)
  }

  // ----- patterns

  /** The repetition marks apply to the expression before them; a group mark is not one. */
  predicate Repeatable(nodes: seq<Node>) {
    nodes != [] && nodes[|nodes| - 1].Item?
  }

  /** A star on the last expression; a second star, or a star after a range, changes nothing. */
  function Starred(nodes: seq<Node>): (r: seq<Node>)
    requires Repeatable(nodes)
    ensures |r| == |nodes| && r[|r| - 1].Item?
  {
    var last := nodes[|nodes| - 1];
    nodes[..|nodes| - 1] + [if last.rep.Count? then last else last.(rep := Star)]
  }

  function Ranged(nodes: seq<Node>, low: Byte, high: Byte): (r: seq<Node>)
    requires Repeatable(nodes)
    ensures |r| == |nodes| && r[|r| - 1].Item?
  {
    nodes[..|nodes| - 1] + [nodes[|nodes| - 1].(rep := Count(low, high))]
  }

  function Literal(c: Byte): Node {
    Item(Char(c), One)
  }

  /**
   The rest of the pattern from sp on, after `nodes`; `open` holds the groups not
   yet closed, innermost last, and `nbra` and `closed` count the groups opened and
   closed so far.  A newline ends the pattern like `eof` does, unless `sed` is set.
   */
  function ParseFrom(p: Text, eof: Byte, sed: bool, sp: nat, nodes: seq<Node>, open: seq<nat>, nbra: nat, closed: nat): (r: Parsed)
    requires sp <= |p|
    decreases |p| - sp
  {
    var c := At(p, sp);
    if c == eof || (c == NEWLINE && !sed) then
      if open != [] then Bad(42) else Pattern(nodes)
    else if c == NEWLINE then Bad(36)
    else if c == 0 then Outside
    else if c == DOT then ParseFrom(p, eof, sed, sp + 1, nodes + [Item(Any, One)], open, nbra, closed)
    else if c == ASTERISK && Repeatable(nodes) then
      ParseFrom(p, eof, sed, sp + 1, Starred(nodes), open, nbra, closed)
    else if c == DOLLAR && At(p, sp + 1) in {eof, NEWLINE} then
      ParseFrom(p, eof, sed, sp + 1, nodes + [EndText], open, nbra, closed)
    else if c == LBRACKET then
      var negated := At(p, sp + 1) == CARET;
      var sp1 := if negated then sp + 2 else sp + 1;
      match ClassFrom(p, sp1 + 1, At(p, sp1), 0, {})
      case BadClass(e) => Bad(e)
      case ClassOutside => Outside
      case Members(members, sp2) =>
        ParseFrom(p, eof, sed, sp2, nodes + [Item(Class(negated, members), One)], open, nbra, closed)
    else if c == BACKSLASH then
      var d := At(p, sp + 1);
      if d == LPAREN then
        if nbra >= 9 then Bad(43)
        else ParseFrom(p, eof, sed, sp + 2, nodes + [Open(nbra)], open + [nbra], nbra + 1, closed)
      else if d == RPAREN then
        if open == [] then Bad(42)
        else ParseFrom(p, eof, sed, sp + 2, nodes + [Close(open[|open| - 1])], open[..|open| - 1], nbra, closed + 1)
      else if d == LBRACE && nodes != [] then
        if !Repeatable(nodes) || nodes[|nodes| - 1].rep.Count? then Outside
        else
          match RangeFrom(p, sp + 2)
          case BadRange(e) => Bad(e)
          case Bounded(low, high, sp2) =>
            ParseFrom(p, eof, sed, sp2, Ranged(nodes, low, high), open, nbra, closed)
      else if d == NEWLINE then Bad(36)
      else if d == LETTER_N then ParseFrom(p, eof, sed, sp + 2, nodes + [Literal(NEWLINE)], open, nbra, closed)
      else if ONE <= d <= NINE then
        if d - ONE >= closed then Bad(25) else Outside
      else if d == 0 then Outside
      else ParseFrom(p, eof, sed, sp + 2, nodes + [Literal(d)], open, nbra, closed)
    else ParseFrom(p, eof, sed, sp + 1, nodes + [Literal(c)], open, nbra, closed)
  }

  /** Whether the pattern is anchored at the start, and the rest of it. */
  function Parse(p: Text, eof: Byte, sed: bool): Parsed {
    ParseFrom(p, eof, sed, if Anchored(p) then 1 else 0, [], [], 0, 0)
  }

  predicate Anchored(p: Text) {
    At(p, 0) == CARET
  }
}
