/**
 How patterns of `gmatch` are written, and that what is written is read as it is meant.
 */
module GmatchGrammar {
  import opened Prelude
  import opened Gmatch

  /** A character as it is, or behind a backslash. */
  datatype Spelled = Spelled(c: char, quoted: bool)

  datatype Element = Single(x: Spelled) | Span(low: Spelled, high: Spelled)

  datatype Part = Letter(x: Spelled) | Any | Star | Bracket(negated: bool, elements: seq<Element>)

  // ----- what is written down

  function ShowChar(x: Spelled): string {
    if x.quoted then ['\\', x.c] else [x.c]
  }

  function ShowElement(e: Element): string {
    match e
    case Single(x) => ShowChar(x)
    case Span(low, high) => ShowChar(low) + "-" + ShowChar(high)
  }

  function ShowElements(es: seq<Element>): string {
    if es == [] then "" else ShowElement(es[0]) + ShowElements(es[1..])
  }

  function ShowPart(x: Part): string {
    match x
    case Letter(y) => ShowChar(y)
    case Any => "?"
    case Star => "*"
    case Bracket(negated, es) => (if negated then "[!" else "[") + (ShowElements(es) + "]")
  }

  function Show(parts: seq<Part>): string {
    if parts == [] then "" else ShowPart(parts[0]) + Show(parts[1..])
  }

  // ----- what it means

  /** Both ends belong to a range, also when it runs backwards. */
  function ListedBy(e: Element): set<char> {
    match e
    case Single(x) => {x.c}
    case Span(low, high) => {low.c} + Between(low.c, high.c) + {high.c}
  }

  function Listed(es: seq<Element>): set<char> {
    if es == [] then {} else ListedBy(es[0]) + Listed(es[1..])
  }

  function PartMeaning(x: Part): Item {
    match x
    case Letter(y) => One(y.c)
    case Any => AnyOne
    case Star => Many
    case Bracket(negated, es) => Class(negated, Listed(es))
  }

  function Meaning(parts: seq<Part>): seq<Item> {
    if parts == [] then [] else [PartMeaning(parts[0])] + Meaning(parts[1..])
  }

  // ----- what has to be quoted

  /** At the start of an element: a backslash always, a closing bracket behind the first, an exclamation mark in front. */
  predicate StartsElement(x: Spelled, first: bool, negated: bool) {
    x.c != '\0' && (x.quoted || (x.c != '\\' && (first || x.c != ']') && (first && !negated ==> x.c != '!')))
  }

  /** A hyphen stands for itself at either end. */
  predicate ValidElement(e: Element, first: bool, negated: bool, last: bool) {
    match e
    case Single(x) => StartsElement(x, first, negated) && (x.c == '-' ==> x.quoted || first || last)
    case Span(low, high) =>
      && StartsElement(low, first, negated) && (low.c == '-' ==> low.quoted || first)
      && high.c != '\0' && (high.quoted || (high.c != '\\' && high.c != ']'))
  }

  predicate ValidElements(es: seq<Element>, first: bool, negated: bool) {
    es == [] || (ValidElement(es[0], first, negated, |es| == 1) && ValidElements(es[1..], false, negated))
  }

  predicate ValidPart(x: Part) {
    match x
    case Letter(y) => y.quoted || (y.c != '*' && y.c != '?' && y.c != '\\' && y.c != '[')
    case Bracket(negated, es) => es != [] && ValidElements(es, true, negated)
    case _ => true
  }

  predicate Valid(parts: seq<Part>) {
    forall x :: x in parts ==> ValidPart(x)
  }

  // ----- reading undoes writing

  predicate Reads(p: string, i: nat, t: string) {
    i + |t| <= |p| && p[i..i + |t|] == t
  }

  lemma ReadsParts(p: string, i: nat, s: string, t: string)
    requires Reads(p, i, s + t)
    ensures Reads(p, i, s) && Reads(p, i + |s|, t)
    ensures |s| > 0 ==> p[i] == s[0]
    ensures |s| > 1 ==> p[i + 1] == s[1]
    ensures |t| > 0 ==> p[i + |s|] == t[0]
  {
    var u := p[i..i + |s + t|];
    assert u[..|s|] == s && u[|s|..] == t;
  }

  /** A character of a class that is not the hyphen of a range. */
  lemma ReadsChar(p: string, i: nat, x: Spelled, lc: char, members: set<char>)
    requires Reads(p, i, ShowChar(x)) && (x.quoted || x.c != '\\')
    requires x.c == '-' && !x.quoted ==> lc == '\0' || At(p, i + 1) == ']'
    ensures Members(p, i, lc, members) == Closed(p, i + |ShowChar(x)|, x.c, members + {x.c})
  {
    hide Members, Closed, Between;
    MembersStep(p, i, lc, members);
    ReadsParts(p, i, ShowChar(x), "");
    assert ShowChar(x) + "" == ShowChar(x);
  }

  /** The rest of a range. */
  lemma ReadsRange(p: string, i: nat, x: Spelled, lc: char, members: set<char>)
    requires Reads(p, i, "-" + ShowChar(x)) && (x.quoted || (x.c != '\\' && x.c != ']')) && lc != '\0'
    ensures Closed(p, i, lc, members) == Closed(p, i + 1 + |ShowChar(x)|, x.c, members + Between(lc, x.c) + {x.c})
  {
    hide Members, Closed, Between;
    ReadsParts(p, i, "-", ShowChar(x));
    ReadsParts(p, i + 1, ShowChar(x), "");
    assert ShowChar(x) + "" == ShowChar(x);
    ClosedStep(p, i, lc, members);
    MembersStep(p, i, lc, members);
  }

  /** One element of a class. */
  lemma ReadsElement(p: string, i: nat, e: Element, first: bool, negated: bool, last: bool, lc: char, members: set<char>, rest: string)
    requires ValidElement(e, first, negated, last) && (first <==> lc == '\0') && Reads(p, i, ShowElement(e) + rest)
    requires last ==> rest != "" && rest[0] == ']'
    ensures Members(p, i, lc, members) == Closed(p, i + |ShowElement(e)|, LastChar(e), members + ListedBy(e))
    ensures LastChar(e) != '\0'
  {
    hide Between, Members, Closed, Reads, ShowChar;
    ReadsParts(p, i, ShowElement(e), rest);
    match e {
      case Single(x) =>
        ShownChar(x);
        ReadsChar(p, i, x, lc, members);
        assert members + {x.c} == members + ListedBy(e);
      case Span(low, high) =>
        assert ShowElement(e) == ShowChar(low) + ("-" + ShowChar(high));
        ReadsParts(p, i, ShowChar(low), "-" + ShowChar(high));
        ReadsChar(p, i, low, lc, members);
        ReadsRange(p, i + |ShowChar(low)|, high, low.c, members + {low.c});
        assert members + {low.c} + Between(low.c, high.c) + {high.c} == members + ListedBy(e);
    }
  }

  lemma ShownChar(x: Spelled)
    ensures |ShowChar(x)| == (if x.quoted then 2 else 1) && ShowChar(x)[0] == (if x.quoted then '\\' else x.c)
  {
  }

  function LastChar(e: Element): char {
    match e
    case Single(x) => x.c
    case Span(_, high) => high.c
  }

  /** The elements of a class, the first from where the class begins. */
  lemma {:induction false} ReadsElements(p: string, i: nat, es: seq<Element>, negated: bool, lc: char, members: set<char>)
    requires es != [] && ValidElements(es, lc == '\0', negated) && Reads(p, i, ShowElements(es) + "]")
    ensures Members(p, i, lc, members) == Some((members + Listed(es), i + |ShowElements(es)| + 1))
    decreases |es|
  {
    hide Members, Closed, Reads, ListedBy, ShowElement, ValidElement;
    var e, rest := es[0], ShowElements(es[1..]) + "]";
    assert ShowElements(es) + "]" == ShowElement(e) + rest;
    ReadsParts(p, i, ShowElement(e), rest);
    ReadsElement(p, i, e, lc == '\0', negated, |es| == 1, lc, members, rest);
    var j, lc' := i + |ShowElement(e)|, LastChar(e);
    ClosedStep(p, j, lc', members + ListedBy(e));
    InPattern(p, j, rest);
    if |es| == 1 {
      assert es[1..] == [] && rest == "]";
      assert members + ListedBy(e) == members + Listed(es) && ShowElements(es) == ShowElement(e) + "";
    } else {
      FirstChar(es[1], negated, |es[1..]| == 1);
      assert es[1..][0] == es[1] && rest[0] == ShowElement(es[1])[0];
      ReadsElements(p, j, es[1..], negated, lc', members + ListedBy(e));
      assert members + ListedBy(e) + Listed(es[1..]) == members + Listed(es);
    }
  }

  lemma InPattern(p: string, i: nat, t: string)
    requires Reads(p, i, t) && t != ""
    ensures i < |p| && p[i] == t[0] && i + |t| <= |p|
  {
    assert p[i..i + |t|][0] == p[i];
  }

  /** An element behind the first does not look like the end of the class. */
  lemma FirstChar(e: Element, negated: bool, last: bool)
    requires ValidElement(e, false, negated, last)
    ensures ShowElement(e) != "" && ShowElement(e)[0] != ']'
  {
    ShownChar(if e.Single? then e.x else e.low);
  }

  /** The elements of the first kind, in particular not an exclamation mark after an opening bracket alone. */
  lemma ClassStart(es: seq<Element>, negated: bool)
    requires es != [] && ValidElements(es, true, negated)
    ensures ShowElements(es) != "" && (ShowElements(es)[0] == '!' ==> negated)
  {
    ShownChar(if es[0].Single? then es[0].x else es[0].low);
  }

  lemma ReadsLetter(p: string, i: nat, y: Spelled)
    requires ValidPart(Letter(y)) && Reads(p, i, ShowChar(y))
    ensures Items(p, i) == [One(y.c)] + Items(p, i + |ShowChar(y)|)
  {
    hide Members;
    InPattern(p, i, ShowChar(y));
    assert p[i..i + |ShowChar(y)|][|ShowChar(y)| - 1] == p[i + |ShowChar(y)| - 1];
  }

  lemma ReadsBracket(p: string, i: nat, negated: bool, es: seq<Element>)
    requires es != [] && ValidElements(es, true, negated) && Reads(p, i, (if negated then "[!" else "[") + (ShowElements(es) + "]"))
    ensures Items(p, i) == [Class(negated, Listed(es))] + Items(p, i + (if negated then 2 else 1) + |ShowElements(es)| + 1)
  {
    hide Members, Listed, ShowElements, ValidElements, Reads, Items;
    var front := if negated then "[!" else "[";
    ClassStart(es, negated);
    ReadsParts(p, i, front, ShowElements(es) + "]");
    InPattern(p, i, front);
    InPattern(p, i + |front|, ShowElements(es) + "]");
    ReadsElements(p, i + |front|, es, negated, '\0', {});
    assert {} + Listed(es) == Listed(es);
    ClassStep(p, i);
  }

  lemma ClassStep(p: string, i: nat)
    requires i < |p| && p[i] == '['
    ensures var negated := At(p, i + 1) == '!';
            match Members(p, if negated then i + 2 else i + 1, '\0', {})
            case None => Items(p, i) == [Never]
            case Some(m) => Items(p, i) == [Class(negated, m.0)] + Items(p, m.1)
  {
    hide Members;
  }

  lemma WildStep(p: string, i: nat)
    requires i < |p|
    ensures p[i] == '*' ==> Items(p, i) == [Many] + Items(p, i + 1)
    ensures p[i] == '?' ==> Items(p, i) == [AnyOne] + Items(p, i + 1)
  {
    hide Members;
  }

  /** One part of a pattern. */
  lemma ReadsPart(p: string, i: nat, x: Part)
    requires ValidPart(x) && Reads(p, i, ShowPart(x))
    ensures Items(p, i) == [PartMeaning(x)] + Items(p, i + |ShowPart(x)|)
  {
    hide Members, Listed, ShowElements, ValidElements, Reads, ShowChar, Items;
    match x {
      case Bracket(negated, es) => ReadsBracket(p, i, negated, es);
      case Letter(y) => ReadsLetter(p, i, y);
      case _ =>
        InPattern(p, i, ShowPart(x));
        WildStep(p, i);
    }
  }

  /** What is written for the parts is read as their meaning, whatever follows. */
  lemma {:induction false} ReadsShown(p: string, i: nat, parts: seq<Part>)
    requires Valid(parts) && Reads(p, i, Show(parts))
    ensures Items(p, i) == Meaning(parts) + Items(p, i + |Show(parts)|)
    decreases |parts|
  {
    hide Items, ShowPart, PartMeaning, ValidPart, Reads;
    if parts != [] {
      var x, rest := parts[0], parts[1..];
      assert x in parts && Valid(rest);
      ReadsParts(p, i, ShowPart(x), Show(rest));
      ReadsPart(p, i, x);
      ReadsShown(p, i + |ShowPart(x)|, rest);
    }
  }

  /** A whole pattern has its meaning. */
  lemma ItemsOfShow(parts: seq<Part>)
    requires Valid(parts)
    ensures Items(Show(parts), 0) == Meaning(parts)
  {
    ReadsShown(Show(parts), 0, parts);
    assert Meaning(parts) + [] == Meaning(parts);
  }

  /** A backslash with nothing behind it matches nothing. */
  lemma TrailingBackslash(parts: seq<Part>)
    requires Valid(parts)
    ensures Items(Show(parts) + "\\", 0) == Meaning(parts) + [Never]
  {
    hide Show, Meaning, Items, Reads, Valid;
    WholeAndRest(Show(parts), "\\");
    ReadsShown(Show(parts) + "\\", 0, parts);
    LoneBackslash(Show(parts) + "\\", |Show(parts)|);
  }

  lemma LoneBackslash(p: string, i: nat)
    requires i + 1 == |p| && p[i] == '\\'
    ensures Items(p, i) == [Never]
  {
  }

  /** Nor does a class that is not closed. */
  lemma UnclosedClass(parts: seq<Part>, negated: bool, es: seq<Element>)
    requires Valid(parts) && ValidElements(es, true, negated)
    requires forall e :: e in es ==> e.Single? ==> e.x.c != '-' || e.x.quoted
    ensures Items(Show(parts) + ((if negated then "[!" else "[") + ShowElements(es)), 0) == Meaning(parts) + [Never]
  {
    hide Members, ShowElements, ValidElements, Items, Show, Meaning, Reads, Valid;
    var front := if negated then "[!" else "[";
    var p, n := Show(parts) + (front + ShowElements(es)), |Show(parts)|;
    WholeAndRest(Show(parts), front + ShowElements(es));
    ReadsShown(p, 0, parts);
    ReadsParts(p, n, front, ShowElements(es));
    if es != [] {
      ClassStart(es, negated);
      InPattern(p, n + |front|, ShowElements(es));
    } else {
      ShowNothing();
    }
    assert At(p, n + 1) == '!' <==> negated;
    NotClosed(p, n + |front|, es, negated, '\0', {});
    InPattern(p, n, front);
    ClassStep(p, n);
  }

  lemma ShowNothing()
    ensures ShowElements([]) == ""
  {
  }

  lemma WholeAndRest(s: string, t: string)
    ensures Reads(s + t, 0, s) && Reads(s + t, |s|, t)
  {
  }

  lemma {:induction false} NotClosed(p: string, i: nat, es: seq<Element>, negated: bool, lc: char, members: set<char>)
    requires ValidElements(es, lc == '\0', negated) && Reads(p, i, ShowElements(es)) && i + |ShowElements(es)| == |p|
    requires forall e :: e in es ==> e.Single? ==> e.x.c != '-' || e.x.quoted
    ensures Members(p, i, lc, members).None?
    ensures lc != '\0' ==> Closed(p, i, lc, members).None?
    decreases |es|
  {
    hide Members, Closed, Reads, ListedBy, ShowElement, ValidElement;
    MembersStep(p, i, lc, members);
    ClosedStep(p, i, lc, members);
    if es != [] {
      var e, rest := es[0], ShowElements(es[1..]);
      assert ShowElements(es) == ShowElement(e) + rest && e in es && forall d :: d in es[1..] ==> d in es;
      ReadsParts(p, i, ShowElement(e), rest);
      NeverLast(e, lc == '\0', negated, |es| == 1);
      ReadsElement(p, i, e, lc == '\0', negated, false, lc, members, rest);
      NotClosed(p, i + |ShowElement(e)|, es[1..], negated, LastChar(e), members + ListedBy(e));
      if lc != '\0' {
        FirstChar(e, negated, |es| == 1);
        InPattern(p, i, ShowElement(e));
      }
    }
  }

  lemma NeverLast(e: Element, first: bool, negated: bool, last: bool)
    requires ValidElement(e, first, negated, last) && (e.Single? ==> e.x.c != '-' || e.x.quoted)
    ensures ValidElement(e, first, negated, false)
  {
  }
}
