/**
 The pattern language as a grammar, apart from the parser: a pattern is a tree of
 repeated atoms and groups, `Show` writes it down and `Nodes` says what it stands
 for.  Parsing what was written gives back what it stands for.
 */
module RegexpGrammar {
  import opened Prelude
  import opened Regexp
  import opened RegexpSyntax

  /** A member of a bracket expression: one character, or an interval. */
  datatype Element = Single(c: Byte) | Span(low: Byte, high: Byte)

  /** The elements, and whether a closing hyphen follows them. */
  datatype AtomSyntax = Letter(c: Byte) | Dot | Bracket(negated: bool, elements: seq<Element>, hyphen: bool)

  datatype Syntax =
    | Empty
    | Piece(atom: AtomSyntax, rep: Repeat, next: Syntax)
    | Group(body: Syntax, next: Syntax)

  /** A pattern, with its two anchors. */
  datatype PatternSyntax = PatternSyntax(start: bool, body: Syntax, end: bool)

  const MAGIC: set<Byte> := {DOT, ASTERISK, LBRACKET, BACKSLASH, DOLLAR, CARET}

  // ----- what is written down

  function ShowElement(e: Element): seq<Byte> {
    match e
    case Single(c) => [c]
    case Span(low, high) => [low, HYPHEN, high]
  }

  function ShowElements(es: seq<Element>): seq<Byte> {
    if es == [] then [] else ShowElement(es[0]) + ShowElements(es[1..])
  }

  /** Magic characters and the delimiter are quoted; a newline is written as an escape. */
  function ShowAtom(a: AtomSyntax, eof: Byte): seq<Byte> {
    match a
    case Letter(c) => if c == NEWLINE then [BACKSLASH, LETTER_N] else if c in MAGIC || c == eof then [BACKSLASH, c] else [c]
    case Dot => [DOT]
    case Bracket(negated, es, hyphen) => ShowBracket(negated, es, hyphen)
  }

  function ShowBracket(negated: bool, es: seq<Element>, hyphen: bool): seq<Byte> {
    [LBRACKET] + (if negated then [CARET] else []) + ShowInner(es, hyphen)
  }

  function ShowHyphen(hyphen: bool): (r: seq<Byte>)
    ensures r != [] && r[|r| - 1] == RBRACKET
  {
    if hyphen then [HYPHEN, RBRACKET] else [RBRACKET]
  }

  /** The elements, and the closing bracket. */
  function ShowInner(es: seq<Element>, hyphen: bool): seq<Byte> {
    ShowElements(es) + ShowHyphen(hyphen)
  }

  function ShowNumber(n: nat): (r: seq<Byte>)
    ensures r != [] && r[|r| - 1] == ZERO as int + n % 10
  {
    (if n < 10 then [] else ShowNumber(n / 10)) + [(ZERO + n % 10) as int]
  }

  function ShowRepeat(r: Repeat): seq<Byte> {
    match r
    case One => []
    case Star => [ASTERISK]
    case Count(low, high) =>
      [BACKSLASH, LBRACE] + ShowNumber(low) +
      (if high == low then [] else if high == 255 then [COMMA] else [COMMA] + ShowNumber(high)) +
      [BACKSLASH, RBRACE]
  }

  function Show(x: Syntax, eof: Byte): seq<Byte> {
    match x
    case Empty => []
    case Piece(a, r, next) => ShowAtom(a, eof) + (ShowRepeat(r) + Show(next, eof))
    case Group(body, next) => ShowGroup(Show(body, eof), Show(next, eof))
  }

  function ShowGroup(body: seq<Byte>, next: seq<Byte>): seq<Byte> {
    [BACKSLASH, LPAREN] + (body + ([BACKSLASH, RPAREN] + next))
  }

  function ShowPattern(x: PatternSyntax, eof: Byte): seq<Byte> {
    (if x.start then [CARET] else []) + (Show(x.body, eof) + (if x.end then [DOLLAR] else []))
  }

  // ----- what it stands for

  /** Both ends belong to an interval, also when it runs backwards. */
  function ListedBy(e: Element): set<Byte> {
    match e
    case Single(c) => {c}
    case Span(low, high) => {low} + Interval(low, high) + {high}
  }

  function Listed(es: seq<Element>): set<Byte> {
    if es == [] then {} else ListedBy(es[0]) + Listed(es[1..])
  }

  function Meaning(a: AtomSyntax): Atom {
    match a
    case Letter(c) => Char(c)
    case Dot => Any
    case Bracket(negated, es, hyphen) => Class(negated, Listed(es) + if hyphen then {HYPHEN} else {})
  }

  function GroupCount(x: Syntax): nat {
    match x
    case Empty => 0
    case Piece(_, _, next) => GroupCount(next)
    case Group(body, next) => 1 + GroupCount(body) + GroupCount(next)
  }

  /** Groups are numbered in the order they open. */
  function Nodes(x: Syntax, n: nat): seq<Node> {
    match x
    case Empty => []
    case Piece(a, r, next) => [Item(Meaning(a), r)] + Nodes(next, n)
    case Group(body, next) => Marked(n, Nodes(body, n + 1), Nodes(next, n + 1 + GroupCount(body)))
  }

  function Marked(n: nat, body: seq<Node>, next: seq<Node>): seq<Node> {
    [Open(n)] + (body + ([Close(n)] + next))
  }

  // ----- what may be written

  /**
   A closing bracket or a hyphen stands for itself only at the front, and a caret
   not there unless the list is negated.
   */
  predicate ValidElement(e: Element, first: bool, negated: bool) {
    var c := if e.Single? then e.c else e.low;
    && c != 0 && c != NEWLINE && (c in {RBRACKET, HYPHEN} ==> first) && (c == CARET && first ==> negated)
    && (e.Span? ==> e.high != 0 && e.high != RBRACKET)
  }

  predicate ValidElements(es: seq<Element>, first: bool, negated: bool) {
    es == [] || (ValidElement(es[0], first, negated) && ValidElements(es[1..], false, negated))
  }

  predicate ValidAtom(a: AtomSyntax) {
    match a
    case Letter(c) => c != 0
    case Dot => true
    case Bracket(negated, es, _) => es != [] && ValidElements(es, true, negated)
  }

  predicate Valid(x: Syntax) {
    match x
    case Empty => true
    case Piece(a, r, next) => ValidAtom(a) && (r.Count? ==> r.low <= r.high && r.low < 255) && Valid(next)
    case Group(body, next) => Valid(body) && Valid(next)
  }

  /** What a caller may delimit patterns with. */
  predicate Delimiter(eof: Byte) {
    eof !in MAGIC && eof !in {LPAREN, RPAREN, LBRACE, RBRACE, COMMA, LETTER_N} && !Digit(eof)
  }

  /** The text of p from sp on starts with t. */
  predicate Reads(p: Text, sp: nat, t: seq<Byte>) {
    sp + |t| <= |p| && p[sp..sp + |t|] == t
  }

  lemma ReadsParts(p: Text, sp: nat, s: seq<Byte>, t: seq<Byte>)
    requires Reads(p, sp, s + t)
    ensures Reads(p, sp, s) && Reads(p, sp + |s|, t)
    ensures |s| > 0 ==> p[sp] == s[0]
    ensures |s| > 1 ==> p[sp + 1] == s[1]
    ensures |s| > 2 ==> p[sp + 2] == s[2]
  {
    assert p[sp..sp + |s|] == (s + t)[..|s|];
    assert p[sp + |s|..sp + |s| + |t|] == (s + t)[|s|..];
  }

  // ----- the parser inverts the printer

  lemma ParsesElement(p: Text, sp: nat, e: Element, first: bool, negated: bool, lc: Byte, members: set<Byte>)
    requires ValidElement(e, first, negated) && (first <==> lc == 0) && Reads(p, sp, ShowElement(e)) && sp + |ShowElement(e)| < |p|
    ensures ClassFrom(p, sp + 1, p[sp], lc, members) ==
            ClassNext(p, sp + |ShowElement(e)|, LastChar(e), members + ListedBy(e))
    ensures LastChar(e) != 0
  {
    hide Interval;
    var c := if e.Single? then e.c else e.low;
    assert p[sp] == p[sp..sp + |ShowElement(e)|][0];
    assert ClassFrom(p, sp + 1, p[sp], lc, members) == ClassNext(p, sp + 1, c, members + {c});
    if e.Span? {
      assert p[sp + 1] == p[sp..sp + 3][1] && p[sp + 2] == p[sp..sp + 3][2];
      assert ClassNext(p, sp + 1, c, members + {c}) == ClassFrom(p, sp + 2, HYPHEN, c, members + {c});
      assert members + {c} + Interval(c, e.high) + {e.high} == members + ListedBy(e);
    }
  }

  function LastChar(e: Element): Byte {
    if e.Single? then e.c else e.high
  }

  lemma {:induction false} ParsesElements(p: Text, sp: nat, es: seq<Element>, hyphen: bool, negated: bool, lc: Byte, members: set<Byte>)
    requires es != [] && ValidElements(es, lc == 0, negated) && Reads(p, sp, ShowInner(es, hyphen))
    ensures sp < |p|
    ensures ClassFrom(p, sp + 1, p[sp], lc, members) ==
            Members(WithListed(members, es, hyphen), sp + |ShowInner(es, hyphen)|)
    decreases |es|
  {
    hide *;
    var e, rest := es[0], ShowInner(es[1..], hyphen);
    FirstElement(es, hyphen, lc == 0, negated);
    ReadsParts(p, sp, ShowElement(e), rest);
    ParsesElement(p, sp, e, lc == 0, negated, lc, members);
    var after := sp + |ShowElement(e)|;
    if es[1..] == [] {
      LastElement(members, es, hyphen);
      ParsesHyphen(p, after, hyphen, LastChar(e), members + ListedBy(e));
    } else {
      NotClosed(p, after, es[1..], hyphen, negated);
      ClassGoesOn(p, after, LastChar(e), members + ListedBy(e));
      ParsesElements(p, after, es[1..], hyphen, negated, LastChar(e), members + ListedBy(e));
      MoreListed(members, es, hyphen);
    }
  }

  lemma FirstElement(es: seq<Element>, hyphen: bool, first: bool, negated: bool)
    requires es != [] && ValidElements(es, first, negated)
    ensures ShowInner(es, hyphen) == ShowElement(es[0]) + ShowInner(es[1..], hyphen)
    ensures ValidElement(es[0], first, negated) && ValidElements(es[1..], false, negated)
    ensures |ShowElement(es[0])| > 0 && |ShowInner(es[1..], hyphen)| > 0
  {
    hide ValidElement, ListedBy, ShowHyphen, ShowElements, ShowElement;
    ShowFirst(es);
    Associate(ShowElement(es[0]), ShowElements(es[1..]), ShowHyphen(hyphen));
    ElementShown(es[0]);
  }

  lemma ShowFirst(es: seq<Element>)
    requires es != []
    ensures ShowElements(es) == ShowElement(es[0]) + ShowElements(es[1..])
  {
  }

  lemma ElementShown(e: Element)
    ensures ShowElement(e) != []
  {
  }

  /** The characters so far, those the elements list, and a closing hyphen. */
  function WithListed(members: set<Byte>, es: seq<Element>, hyphen: bool): set<Byte> {
    members + Listed(es) + (if hyphen then {HYPHEN} else {})
  }

  lemma MoreListed(members: set<Byte>, es: seq<Element>, hyphen: bool)
    requires es != []
    ensures WithListed(members, es, hyphen) == WithListed(members + ListedBy(es[0]), es[1..], hyphen)
  {
    hide ListedBy;
    assert Listed(es) == ListedBy(es[0]) + Listed(es[1..]);
  }

  lemma LastElement(members: set<Byte>, es: seq<Element>, hyphen: bool)
    requires es != [] && es[1..] == []
    ensures ShowInner(es[1..], hyphen) == ShowHyphen(hyphen)
    ensures WithListed(members, es, hyphen) == members + ListedBy(es[0]) + if hyphen then {HYPHEN} else {}
  {
    hide ListedBy, ShowHyphen;
    assert [] + ShowHyphen(hyphen) == ShowHyphen(hyphen);
    assert Listed(es) == ListedBy(es[0]);
  }

  lemma ClassGoesOn(p: Text, sp: nat, lc: Byte, members: set<Byte>)
    requires sp < |p| && p[sp] != RBRACKET
    ensures ClassNext(p, sp, lc, members) == ClassFrom(p, sp + 1, p[sp], lc, members)
  {
    hide ClassFrom;
  }

  lemma ParsesHyphen(p: Text, sp: nat, hyphen: bool, lc: Byte, members: set<Byte>)
    requires Reads(p, sp, ShowHyphen(hyphen)) && lc != 0
    ensures ClassNext(p, sp, lc, members) == Members(members + (if hyphen then {HYPHEN} else {}), sp + |ShowHyphen(hyphen)|)
  {
    assert p[sp] == p[sp..sp + |ShowHyphen(hyphen)|][0];
    if hyphen {
      assert p[sp + 1] == p[sp..sp + 2][1];
      assert ClassNext(p, sp, lc, members) == ClassFrom(p, sp + 1, HYPHEN, lc, members);
    }
  }

  lemma NotClosed(p: Text, sp: nat, es: seq<Element>, hyphen: bool, negated: bool)
    requires es != [] && ValidElements(es, false, negated) && Reads(p, sp, ShowInner(es, hyphen))
    ensures sp < |p| && p[sp] != RBRACKET
  {
    var t := ShowInner(es, hyphen);
    assert t[0] == ShowElement(es[0])[0];
    assert p[sp] == p[sp..sp + |t|][0];
  }

  /** A bracket expression, from behind its opening bracket. */
  lemma ParsesBracket(p: Text, sp: nat, negated: bool, es: seq<Element>, hyphen: bool)
    requires ValidAtom(Bracket(negated, es, hyphen)) && Reads(p, sp, ShowBracket(negated, es, hyphen))
    ensures p[sp] == LBRACKET && negated == (At(p, sp + 1) == CARET)
    ensures var sp1 := if negated then sp + 2 else sp + 1;
            sp1 < |p| &&
            ClassFrom(p, sp1 + 1, At(p, sp1), 0, {}) ==
            Members(Meaning(Bracket(negated, es, hyphen)).members, sp + |ShowBracket(negated, es, hyphen)|)
  {
    hide ClassFrom, Interval, ShowElements, ShowElement, ShowHyphen, Listed, Reads, ShowBracket, ValidElements, ValidElement;
    var front, inner := if negated then [LBRACKET, CARET] else [LBRACKET], ShowInner(es, hyphen);
    BracketParts(negated, es, hyphen);
    FirstShown(es, hyphen, negated);
    ReadsParts(p, sp, front, inner);
    var sp1 := sp + |front|;
    ParsesElements(p, sp1, es, hyphen, negated, 0, {});
    assert WithListed({}, es, hyphen) == Meaning(Bracket(negated, es, hyphen)).members;
    ReadsFirst(p, sp1, inner);
  }

  lemma ReadsFirst(p: Text, sp: nat, t: seq<Byte>)
    requires Reads(p, sp, t) && t != []
    ensures sp < |p| && p[sp] == t[0]
  {
    assert p[sp..sp + |t|][0] == p[sp];
  }

  lemma BracketParts(negated: bool, es: seq<Element>, hyphen: bool)
    ensures ShowBracket(negated, es, hyphen) ==
            (if negated then [LBRACKET, CARET] else [LBRACKET]) + ShowInner(es, hyphen)
  {
  }

  lemma FirstShown(es: seq<Element>, hyphen: bool, negated: bool)
    requires es != [] && ValidElements(es, true, negated)
    ensures var t := ShowInner(es, hyphen);
            t != [] && (t[0] == CARET ==> negated)
  {
    var t := ShowInner(es, hyphen);
    assert t[0] == ShowElement(es[0])[0];
  }

  // ----- ranges

  /** Reading all digits of k but the last. */
  lemma {:induction false} ParsesDigits(p: Text, sp: nat, k: nat)
    requires Reads(p, sp, ShowNumber(k))
    ensures NumberFrom(p, sp, 0) == NumberFrom(p, sp + |ShowNumber(k)| - 1, k / 10)
    ensures p[sp + |ShowNumber(k)| - 1] == ZERO as int + k % 10
    decreases k
  {
    hide NumberFrom;
    var t := ShowNumber(k);
    assert p[sp + |t| - 1] == p[sp..sp + |t|][|t| - 1];
    if k >= 10 {
      assert t == ShowNumber(k / 10) + [t[|t| - 1]];
      hide ShowNumber, Reads;
      ReadsParts(p, sp, ShowNumber(k / 10), [t[|t| - 1]]);
      ParsesDigits(p, sp, k / 10);
      LastDigit(p, sp + |t| - 2, k / 10);
    }
  }

  lemma LastDigit(p: Text, sp: nat, k: nat)
    requires sp < |p| && p[sp] == ZERO as int + k % 10
    ensures var c := At(p, sp + 1);
            NumberFrom(p, sp, k / 10) ==
            if c == BACKSLASH || c == COMMA then (if k >= 255 then BadNumber(11) else Number(k, c, sp + 2))
            else NumberFrom(p, sp + 1, k)
  {
    assert 10 * (k / 10) + k % 10 == k;
    assert Digit(At(p, sp));
  }

  lemma ParsesNumber(p: Text, sp: nat, k: nat, end: Byte)
    requires Reads(p, sp, ShowNumber(k) + [end]) && k < 255 && end in {BACKSLASH, COMMA}
    ensures NumberFrom(p, sp, 0) == Number(k, end, sp + |ShowNumber(k)| + 1)
  {
    ReadsParts(p, sp, ShowNumber(k), [end]);
    ParsesDigits(p, sp, k);
    LastDigit(p, sp + |ShowNumber(k)| - 1, k);
    assert p[sp + |ShowNumber(k)|] == p[sp + |ShowNumber(k)|..sp + |ShowNumber(k)| + 1][0];
  }

  /** What follows `\{`. */
  function ShowBounds(low: Byte, high: Byte): seq<Byte> {
    if high == low then ShowNumber(low) + [BACKSLASH] + [RBRACE]
    else if high == 255 then ShowNumber(low) + [COMMA] + [BACKSLASH, RBRACE]
    else ShowNumber(low) + [COMMA] + (ShowNumber(high) + [BACKSLASH] + [RBRACE])
  }

  lemma ParsesBounds(p: Text, sp: nat, low: Byte, high: Byte)
    requires low <= high && low < 255 && Reads(p, sp, ShowBounds(low, high))
    ensures RangeFrom(p, sp) == Bounded(low, high, sp + |ShowBounds(low, high)|)
  {
    hide Closing, Digit;
    if high == low {
      ParsesOne(p, sp, low);
    } else if high == 255 {
      ParsesOpen(p, sp, low);
    } else {
      ParsesTwo(p, sp, low, high);
    }
  }

  lemma ParsesOne(p: Text, sp: nat, low: Byte)
    requires low < 255 && Reads(p, sp, ShowNumber(low) + [BACKSLASH] + [RBRACE])
    ensures RangeFrom(p, sp) == Bounded(low, low, sp + |ShowNumber(low)| + 2)
  {
    hide NumberFrom, ShowNumber, Digit;
    ReadsParts(p, sp, ShowNumber(low) + [BACKSLASH], [RBRACE]);
    ParsesNumber(p, sp, low, BACKSLASH);
    ReadsOne(p, sp + |ShowNumber(low)| + 1, RBRACE);
  }

  lemma ParsesOpen(p: Text, sp: nat, low: Byte)
    requires low < 255 && Reads(p, sp, ShowNumber(low) + [COMMA] + [BACKSLASH, RBRACE])
    ensures RangeFrom(p, sp) == Bounded(low, 255, sp + |ShowNumber(low)| + 3)
  {
    hide NumberFrom, ShowNumber, Digit;
    ReadsParts(p, sp, ShowNumber(low) + [COMMA], [BACKSLASH, RBRACE]);
    ParsesNumber(p, sp, low, COMMA);
    var sp1 := sp + |ShowNumber(low)| + 1;
    assert p[sp1] == p[sp1..sp1 + 2][0] && p[sp1 + 1] == p[sp1..sp1 + 2][1];
  }

  lemma ParsesTwo(p: Text, sp: nat, low: Byte, high: Byte)
    requires low < high < 255 && Reads(p, sp, ShowNumber(low) + [COMMA] + (ShowNumber(high) + [BACKSLASH] + [RBRACE]))
    ensures RangeFrom(p, sp) == Bounded(low, high, sp + |ShowNumber(low)| + 1 + |ShowNumber(high)| + 2)
  {
    hide NumberFrom, ShowNumber, RangeFrom, Reads, Digit, Closing;
    var sp1, sp2 := sp + |ShowNumber(low)| + 1, sp + |ShowNumber(low)| + |ShowNumber(high)| + 2;
    ReadsParts(p, sp, ShowNumber(low) + [COMMA], ShowNumber(high) + [BACKSLASH] + [RBRACE]);
    ParsesNumber(p, sp, low, COMMA);
    ReadsParts(p, sp1, ShowNumber(high) + [BACKSLASH], [RBRACE]);
    ParsesNumber(p, sp1, high, BACKSLASH);
    NumberIsDigits(high);
    ReadsParts(p, sp1, ShowNumber(high), [BACKSLASH]);
    ReadsOne(p, sp2, RBRACE);
    TwoNumbers(p, sp, low, sp1, high, sp2);
  }

  lemma TwoNumbers(p: Text, sp: nat, low: Byte, sp1: nat, high: Byte, sp2: nat)
    requires sp <= |p| && sp1 < |p| && sp2 < |p| && low < high < 255 && p[sp1] != BACKSLASH && p[sp2] == RBRACE
    requires NumberFrom(p, sp, 0) == Number(low, COMMA, sp1) && NumberFrom(p, sp1, 0) == Number(high, BACKSLASH, sp2)
    ensures RangeFrom(p, sp) == Bounded(low, high, sp2 + 1)
  {
    hide NumberFrom;
  }

  lemma ReadsOne(p: Text, sp: nat, c: Byte)
    requires Reads(p, sp, [c])
    ensures sp < |p| && p[sp] == c
  {
    assert p[sp] == p[sp..sp + 1][0];
  }

  lemma {:induction false} NumberIsDigits(k: nat)
    ensures ZERO <= ShowNumber(k)[0] <= NINE
  {
    if k >= 10 {
      NumberIsDigits(k / 10);
    }
  }

  // ----- whole patterns

  /** One atom with its repetition. */
  lemma ParsesAtom(p: Text, sp: nat, a: AtomSyntax, eof: Byte, sed: bool, nodes: seq<Node>, open: seq<nat>, nbra: nat, closed: nat)
    requires Delimiter(eof) && ValidAtom(a) && Reads(p, sp, ShowAtom(a, eof))
    ensures ParseFrom(p, eof, sed, sp, nodes, open, nbra, closed) ==
            ParseFrom(p, eof, sed, sp + |ShowAtom(a, eof)|, nodes + [Item(Meaning(a), One)], open, nbra, closed)
  {
    hide ClassFrom, Listed, ShowBracket, RangeFrom, ValidElements, Interval;
    var t := ShowAtom(a, eof);
    match a
    case Letter(c) =>
      assert p[sp] == p[sp..sp + |t|][0];
      if |t| == 2 {
        assert p[sp + 1] == p[sp..sp + 2][1];
      }
    case Dot =>
      assert p[sp] == p[sp..sp + |t|][0];
    case Bracket(negated, es, hyphen) =>
      ParsesBracket(p, sp, negated, es, hyphen);
  }

  lemma ParsesRepeat(p: Text, sp: nat, r: Repeat, eof: Byte, sed: bool, nodes: seq<Node>, x: Node, open: seq<nat>, nbra: nat, closed: nat)
    requires Delimiter(eof) && (r.Count? ==> r.low <= r.high && r.low < 255) && Reads(p, sp, ShowRepeat(r))
    requires x.Item? && x.rep == One
    ensures ParseFrom(p, eof, sed, sp, nodes + [x], open, nbra, closed) ==
            ParseFrom(p, eof, sed, sp + |ShowRepeat(r)|, nodes + [x.(rep := r)], open, nbra, closed)
  {
    hide ParseFrom, ShowNumber, Delimiter, Reads;
    match r
    case One => assert x.(rep := r) == x;
    case Star => ParsesStar(p, sp, eof, sed, nodes, x, open, nbra, closed);
    case Count(low, high) => ParsesCounted(p, sp, low, high, eof, sed, nodes, x, open, nbra, closed);
  }

  lemma ParsesCounted(p: Text, sp: nat, low: Byte, high: Byte, eof: Byte, sed: bool, nodes: seq<Node>, x: Node,
                      open: seq<nat>, nbra: nat, closed: nat)
    requires Delimiter(eof) && low <= high && low < 255 && Reads(p, sp, ShowRepeat(Count(low, high)))
    requires x.Item? && x.rep == One
    ensures ParseFrom(p, eof, sed, sp, nodes + [x], open, nbra, closed) ==
            ParseFrom(p, eof, sed, sp + |ShowRepeat(Count(low, high))|, nodes + [x.(rep := Count(low, high))], open, nbra, closed)
  {
    hide ParseFrom, RangeFrom, ShowRepeat, ShowBounds, Delimiter, Reads;
    ShowCount(low, high);
    ReadsParts(p, sp, [BACKSLASH, LBRACE], ShowBounds(low, high));
    ReadsWithin(p, sp, [BACKSLASH, LBRACE]);
    ParsesBounds(p, sp + 2, low, high);
    ParsesCount(p, sp, eof, sed, nodes, x, open, nbra, closed, low, high, sp + 2 + |ShowBounds(low, high)|);
  }

  lemma ShowCount(low: Byte, high: Byte)
    ensures ShowRepeat(Count(low, high)) == [BACKSLASH, LBRACE] + ShowBounds(low, high)
  {
    hide ShowNumber;
  }

  lemma ParsesStar(p: Text, sp: nat, eof: Byte, sed: bool, nodes: seq<Node>, x: Node, open: seq<nat>, nbra: nat, closed: nat)
    requires Delimiter(eof) && Reads(p, sp, [ASTERISK]) && x.Item? && x.rep == One
    ensures ParseFrom(p, eof, sed, sp, nodes + [x], open, nbra, closed) ==
            ParseFrom(p, eof, sed, sp + 1, nodes + [x.(rep := Star)], open, nbra, closed)
  {
    hide ClassFrom, RangeFrom, Ranged;
    assert p[sp] == p[sp..sp + 1][0];
    assert (nodes + [x])[..|nodes|] == nodes;
    assert Starred(nodes + [x]) == nodes + [x.(rep := Star)];
  }

  lemma ParsesCount(p: Text, sp: nat, eof: Byte, sed: bool, nodes: seq<Node>, x: Node, open: seq<nat>, nbra: nat, closed: nat,
                    low: Byte, high: Byte, after: nat)
    requires Delimiter(eof) && sp + 2 <= |p| && p[sp] == BACKSLASH && p[sp + 1] == LBRACE && x.Item? && x.rep == One
    requires RangeFrom(p, sp + 2) == Bounded(low, high, after)
    ensures ParseFrom(p, eof, sed, sp, nodes + [x], open, nbra, closed) ==
            ParseFrom(p, eof, sed, after, nodes + [x.(rep := Count(low, high))], open, nbra, closed)
  {
    hide ClassFrom, RangeFrom, Starred;
    assert (nodes + [x])[..|nodes|] == nodes;
    assert Ranged(nodes + [x], low, high) == nodes + [x.(rep := Count(low, high))];
  }

  lemma {:induction false} Parses(p: Text, sp: nat, x: Syntax, eof: Byte, sed: bool, nodes: seq<Node>, open: seq<nat>, nbra: nat, closed: nat)
    requires Delimiter(eof) && Valid(x) && nbra + GroupCount(x) <= 9 && Reads(p, sp, Show(x, eof))
    ensures ParseFrom(p, eof, sed, sp, nodes, open, nbra, closed) ==
            ParseFrom(p, eof, sed, sp + |Show(x, eof)|, nodes + Nodes(x, nbra), open, nbra + GroupCount(x), closed + GroupCount(x))
    decreases x, 1
  {
    hide ShowAtom, ShowRepeat, ParseFrom, Meaning, Delimiter, ValidAtom, Reads, ShowGroup, Marked;
    match x
    case Empty => assert nodes + [] == nodes;
    case Piece(a, r, next) =>
      var item := Item(Meaning(a), r);
      ParsesPiece(p, sp, a, r, next, eof, sed, nodes, open, nbra, closed);
      Parses(p, sp + |ShowAtom(a, eof)| + |ShowRepeat(r)|, next, eof, sed, nodes + [item], open, nbra, closed);
      Associate(nodes, [item], Nodes(next, nbra));
    case Group(body, next) =>
      ParsesGroup(p, sp, body, next, eof, sed, nodes, open, nbra, closed);
  }

  lemma ParsesGroup(p: Text, sp: nat, body: Syntax, next: Syntax, eof: Byte, sed: bool,
                    nodes: seq<Node>, open: seq<nat>, nbra: nat, closed: nat)
    requires Delimiter(eof) && Valid(Group(body, next)) && nbra + GroupCount(Group(body, next)) <= 9
    requires Reads(p, sp, Show(Group(body, next), eof))
    ensures var x := Group(body, next);
            ParseFrom(p, eof, sed, sp, nodes, open, nbra, closed) ==
            ParseFrom(p, eof, sed, sp + |Show(x, eof)|, nodes + Nodes(x, nbra), open, nbra + GroupCount(x), closed + GroupCount(x))
    decreases Group(body, next), 0
  {
    hide *;
    Unfold(body, next, eof);
    GroupParts(p, sp, Show(body, eof), Show(next, eof));
    var sp1, n := sp + 2 + |Show(body, eof)|, nbra + 1 + GroupCount(body);
    var inner := nodes + [Open(nbra)] + Nodes(body, nbra + 1);
    ParsesMark(p, sp, eof, sed, nodes, open, nbra, closed);
    Parses(p, sp + 2, body, eof, sed, nodes + [Open(nbra)], open + [nbra], nbra + 1, closed);
    ParsesRest(p, sp1, next, eof, sed, inner, open, nbra, n, closed + GroupCount(body));
    GroupNodes(body, next, nbra, nodes);
  }

  /** From the end of a group on. */
  lemma ParsesRest(p: Text, sp: nat, next: Syntax, eof: Byte, sed: bool, nodes: seq<Node>, open: seq<nat>, m: nat, n: nat, closed: nat)
    requires Delimiter(eof) && Valid(next) && n + GroupCount(next) <= 9
    requires sp + 2 <= |p| && p[sp] == BACKSLASH && p[sp + 1] == RPAREN && Reads(p, sp + 2, Show(next, eof))
    ensures sp + 2 + |Show(next, eof)| <= |p|
    ensures ParseFrom(p, eof, sed, sp, nodes, open + [m], n, closed) ==
            ParseFrom(p, eof, sed, sp + 2 + |Show(next, eof)|, nodes + [Close(m)] + Nodes(next, n), open, n + GroupCount(next),
                      closed + 1 + GroupCount(next))
    decreases next, 2
  {
    hide *;
    ParsesMark(p, sp, eof, sed, nodes, open + [m], n, closed);
    Unstack(open, m);
    ReadsWithin(p, sp + 2, Show(next, eof));
    Parses(p, sp + 2, next, eof, sed, nodes + [Close(m)], open, n, closed + 1);
  }

  lemma ReadsWithin(p: Text, sp: nat, t: seq<Byte>)
    requires Reads(p, sp, t)
    ensures sp + |t| <= |p|
  {
  }

  lemma Unfold(body: Syntax, next: Syntax, eof: Byte)
    ensures Show(Group(body, next), eof) == ShowGroup(Show(body, eof), Show(next, eof))
    ensures GroupCount(Group(body, next)) == 1 + GroupCount(body) + GroupCount(next)
    ensures Valid(Group(body, next)) ==> Valid(body) && Valid(next)
  {
    hide ShowGroup;
  }

  lemma Unstack(open: seq<nat>, n: nat)
    ensures (open + [n])[..|open + [n]| - 1] == open && (open + [n])[|open + [n]| - 1] == n
  {
  }

  lemma GroupParts(p: Text, sp: nat, body: seq<Byte>, next: seq<Byte>)
    requires Reads(p, sp, ShowGroup(body, next))
    ensures var sp1 := sp + 2 + |body|;
            && Reads(p, sp + 2, body) && Reads(p, sp1 + 2, next)
            && sp1 + 2 + |next| == sp + |ShowGroup(body, next)| <= |p|
            && p[sp] == p[sp1] == BACKSLASH && p[sp + 1] == LPAREN && p[sp1 + 1] == RPAREN
  {
    var rest := [BACKSLASH, RPAREN] + next;
    ReadsParts(p, sp, [BACKSLASH, LPAREN], body + rest);
    ReadsParts(p, sp + 2, body, rest);
    ReadsParts(p, sp + 2 + |body|, [BACKSLASH, RPAREN], next);
  }

  lemma GroupNodes(body: Syntax, next: Syntax, n: nat, nodes: seq<Node>)
    ensures var n' := n + 1 + GroupCount(body);
            nodes + [Open(n)] + Nodes(body, n + 1) + [Close(n)] + Nodes(next, n') == nodes + Nodes(Group(body, next), n)
  {
    hide Nodes;
    var inner, last := Nodes(body, n + 1), Nodes(next, n + 1 + GroupCount(body));
    UnfoldNodes(body, next, n);
    Associate(nodes + [Open(n)] + inner, [Close(n)], last);
    Associate(nodes + [Open(n)], inner, [Close(n)] + last);
    Associate(nodes, [Open(n)], inner + ([Close(n)] + last));
  }

  lemma UnfoldNodes(body: Syntax, next: Syntax, n: nat)
    ensures Nodes(Group(body, next), n) == Marked(n, Nodes(body, n + 1), Nodes(next, n + 1 + GroupCount(body)))
  {
    hide Marked;
  }

  lemma ParsesPiece(p: Text, sp: nat, a: AtomSyntax, r: Repeat, next: Syntax, eof: Byte, sed: bool,
                    nodes: seq<Node>, open: seq<nat>, nbra: nat, closed: nat)
    requires Delimiter(eof) && Valid(Piece(a, r, next)) && Reads(p, sp, Show(Piece(a, r, next), eof))
    ensures var sp2 := sp + |ShowAtom(a, eof)| + |ShowRepeat(r)|;
            && Reads(p, sp2, Show(next, eof)) && sp2 <= |p|
            && ParseFrom(p, eof, sed, sp, nodes, open, nbra, closed) ==
               ParseFrom(p, eof, sed, sp2, nodes + [Item(Meaning(a), r)], open, nbra, closed)
  {
    hide ShowAtom, ShowRepeat, ParseFrom, Meaning, Delimiter, ValidAtom;
    ReadsParts(p, sp, ShowAtom(a, eof), ShowRepeat(r) + Show(next, eof));
    var sp1 := sp + |ShowAtom(a, eof)|;
    ReadsParts(p, sp1, ShowRepeat(r), Show(next, eof));
    ParsesAtom(p, sp, a, eof, sed, nodes, open, nbra, closed);
    ParsesRepeat(p, sp1, r, eof, sed, nodes, Item(Meaning(a), One), open, nbra, closed);
  }

  lemma ParsesMark(p: Text, sp: nat, eof: Byte, sed: bool, nodes: seq<Node>, open: seq<nat>, nbra: nat, closed: nat)
    requires Delimiter(eof) && sp + 2 <= |p| && p[sp] == BACKSLASH
    ensures p[sp + 1] == LPAREN && nbra < 9 ==>
              ParseFrom(p, eof, sed, sp, nodes, open, nbra, closed) ==
              ParseFrom(p, eof, sed, sp + 2, nodes + [Open(nbra)], open + [nbra], nbra + 1, closed)
    ensures p[sp + 1] == RPAREN && open != [] ==>
              ParseFrom(p, eof, sed, sp, nodes, open, nbra, closed) ==
              ParseFrom(p, eof, sed, sp + 2, nodes + [Close(open[|open| - 1])], open[..|open| - 1], nbra, closed + 1)
  {
    hide ClassFrom, RangeFrom;
  }

  /**
   The parser undoes the printer: a pattern of at most nine groups, written down and
   followed by its delimiter, is parsed to what it stands for.
   */
  lemma ParseOfShow(p: Text, x: PatternSyntax, eof: Byte, sed: bool)
    requires Delimiter(eof) && Valid(x.body) && GroupCount(x.body) <= 9
    requires ShowPattern(x, eof) <= p && At(p, |ShowPattern(x, eof)|) == eof
    ensures Anchored(p) == x.start
    ensures Parse(p, eof, sed) == Pattern(Nodes(x.body, 0) + if x.end then [EndText] else [])
  {
    hide ParseFrom, Show, Nodes, Valid, GroupCount, Reads, Delimiter;
    var front, tail := if x.start then [CARET] else [], if x.end then [DOLLAR] else [];
    var t := Show(x.body, eof);
    assert ShowPattern(x, eof) == front + (t + tail);
    PatternParts(p, front, t, tail);
    var sp1 := |front| + |t|;
    FirstChar(p, x, eof);
    Parses(p, |front|, x.body, eof, sed, [], [], 0, 0);
    assert [] + Nodes(x.body, 0) == Nodes(x.body, 0);
    ParsesEnd(p, sp1, x.end, eof, sed, Nodes(x.body, 0), GroupCount(x.body));
  }

  lemma PatternParts(p: Text, front: seq<Byte>, t: seq<Byte>, tail: seq<Byte>)
    requires front + (t + tail) <= p
    ensures Reads(p, |front|, t) && Reads(p, |front| + |t|, tail) && |front| + |t| + |tail| <= |p|
    ensures |tail| > 0 ==> p[|front| + |t|] == tail[0]
  {
    assert Reads(p, 0, front + (t + tail));
    ReadsParts(p, 0, front, t + tail);
    ReadsParts(p, |front|, t, tail);
    if |tail| > 0 {
      assert p[|front| + |t|] == p[|front| + |t|..|front| + |t| + |tail|][0];
    }
  }

  /** The pattern begins with a caret exactly when it is anchored. */
  lemma FirstChar(p: Text, x: PatternSyntax, eof: Byte)
    requires Delimiter(eof) && Valid(x.body) && ShowPattern(x, eof) <= p && At(p, |ShowPattern(x, eof)|) == eof
    ensures Anchored(p) == x.start
  {
    hide Show, Valid;
    var t := Show(x.body, eof);
    NoCaret(x.body, eof);
    var shown := ShowPattern(x, eof);
    if shown != [] {
      assert p[0] == shown[0];
    }
  }

  lemma ParsesEnd(p: Text, sp: nat, end: bool, eof: Byte, sed: bool, nodes: seq<Node>, n: nat)
    requires Delimiter(eof) && sp <= |p|
    requires if end then At(p, sp) == DOLLAR && sp < |p| && At(p, sp + 1) == eof else At(p, sp) == eof
    ensures ParseFrom(p, eof, sed, sp, nodes, [], n, n) == Pattern(nodes + if end then [EndText] else [])
  {
    hide ClassFrom, RangeFrom;
    assert nodes + [] == nodes;
  }

  lemma NoCaret(x: Syntax, eof: Byte)
    requires Valid(x)
    ensures Show(x, eof) != [] ==> Show(x, eof)[0] !in {CARET, DOLLAR}
  {
  }
}
