/**
 Other ways to write a pattern than those of module RegexpGrammar, and the patterns that
 are refused, with the number of the error.
 */
module RegexpSpelling {
  import opened Prelude
  import opened Regexp
  import opened RegexpSyntax
  import opened RegexpGrammar

  // ----- other spellings

  /**
   A character stands for itself when it is not special, or is special elsewhere: a star
   behind nothing that can be repeated, a dollar that is not at the end, a caret that is
   not at the start.
   */
  lemma StandsForItself(p: Text, sp: nat, eof: Byte, sed: bool, nodes: seq<Node>, open: seq<nat>, nbra: nat, closed: nat)
    requires sp < |p| && p[sp] != eof && p[sp] !in {NEWLINE, DOT, LBRACKET, BACKSLASH}
    requires p[sp] == ASTERISK ==> nodes == [] || !nodes[|nodes| - 1].Item?
    requires p[sp] == DOLLAR ==> At(p, sp + 1) != eof && At(p, sp + 1) != NEWLINE
    ensures ParseFrom(p, eof, sed, sp, nodes, open, nbra, closed) ==
            ParseFrom(p, eof, sed, sp + 1, nodes + [Item(Char(p[sp]), One)], open, nbra, closed)
  {
  }

  /** So does any character behind a backslash but the brackets of groups and ranges, the digits 1 to 9, n and a newline. */
  lemma QuotedStandsForItself(p: Text, sp: nat, eof: Byte, sed: bool, nodes: seq<Node>, open: seq<nat>, nbra: nat, closed: nat)
    requires sp + 2 <= |p| && p[sp] == BACKSLASH && eof != BACKSLASH
    requires p[sp + 1] !in {LPAREN, RPAREN, LBRACE, NEWLINE, LETTER_N} && !(ONE <= p[sp + 1] <= NINE)
    ensures ParseFrom(p, eof, sed, sp, nodes, open, nbra, closed) ==
            ParseFrom(p, eof, sed, sp + 2, nodes + [Item(Char(p[sp + 1]), One)], open, nbra, closed)
  {
    hide RangeFrom, ClassFrom;
  }

  /** A star behind a star or a range changes nothing. */
  lemma MoreStars(p: Text, sp: nat, eof: Byte, sed: bool, nodes: seq<Node>, x: Node, open: seq<nat>, nbra: nat, closed: nat)
    requires sp < |p| && p[sp] == ASTERISK != eof && x.Item? && x.rep != One
    ensures ParseFrom(p, eof, sed, sp, nodes + [x], open, nbra, closed) == ParseFrom(p, eof, sed, sp + 1, nodes + [x], open, nbra, closed)
  {
    hide RangeFrom, ClassFrom;
    assert Starred(nodes + [x]) == nodes + [x];
  }

  // ----- what is refused

  /** A pattern that begins with what is written for x, and has t behind it. */
  predicate Begins(p: Text, x: Syntax, eof: Byte, t: seq<Byte>) {
    Show(x, eof) + t <= p && t != [] && t[0] != CARET
  }

  lemma AfterShown(p: Text, x: Syntax, eof: Byte, sed: bool, t: seq<Byte>)
    requires Delimiter(eof) && Valid(x) && GroupCount(x) <= 9 && Begins(p, x, eof, t)
    ensures |Show(x, eof)| + |t| <= |p| && Reads(p, |Show(x, eof)|, t)
    ensures Parse(p, eof, sed) == ParseFrom(p, eof, sed, |Show(x, eof)|, Nodes(x, 0), [], GroupCount(x), GroupCount(x))
  {
    hide ParseFrom, Show, Nodes, Valid, GroupCount;
    assert p[0..0 + |Show(x, eof) + t|] == Show(x, eof) + t;
    ReadsParts(p, 0, Show(x, eof), t);
    NoCaret(x, eof);
    assert p[0] == (Show(x, eof) + t)[0];
    Parses(p, 0, x, eof, sed, [], [], 0, 0);
    assert [] + Nodes(x, 0) == Nodes(x, 0);
  }

  /** A group that is closed but was not opened. */
  lemma StrayClose(p: Text, x: Syntax, eof: Byte, sed: bool)
    requires Delimiter(eof) && Valid(x) && GroupCount(x) <= 9 && Begins(p, x, eof, [BACKSLASH, RPAREN])
    ensures Parse(p, eof, sed) == Bad(42)
  {
    hide Show, Nodes, Valid, GroupCount, RangeFrom, ClassFrom, Parse;
    AfterShown(p, x, eof, sed, [BACKSLASH, RPAREN]);
    TwoRead(p, |Show(x, eof)|, BACKSLASH, RPAREN);
  }

  lemma TwoRead(p: Text, sp: nat, c: Byte, d: Byte)
    requires Reads(p, sp, [c, d])
    ensures sp + 2 <= |p| && p[sp] == c && p[sp + 1] == d
  {
    assert p[sp..sp + 2][0] == p[sp] && p[sp..sp + 2][1] == p[sp + 1];
  }

  /** The tenth group. */
  lemma TenthGroup(p: Text, x: Syntax, eof: Byte, sed: bool)
    requires Delimiter(eof) && Valid(x) && GroupCount(x) == 9 && Begins(p, x, eof, [BACKSLASH, LPAREN])
    ensures Parse(p, eof, sed) == Bad(43)
  {
    hide Show, Nodes, Valid, GroupCount, RangeFrom, ClassFrom, Parse;
    AfterShown(p, x, eof, sed, [BACKSLASH, LPAREN]);
    TwoRead(p, |Show(x, eof)|, BACKSLASH, LPAREN);
  }

  /** A group that is opened and not closed. */
  lemma UnclosedGroup(p: Text, x: Syntax, y: Syntax, eof: Byte, sed: bool)
    requires Delimiter(eof) && Valid(x) && Valid(y) && GroupCount(x) + 1 + GroupCount(y) <= 9
    requires Begins(p, x, eof, [BACKSLASH, LPAREN] + Show(y, eof))
    requires At(p, |Show(x, eof)| + 2 + |Show(y, eof)|) == eof
    ensures Parse(p, eof, sed) == Bad(42)
  {
    hide ParseFrom, Show, Nodes, Valid, GroupCount, RangeFrom, ClassFrom, Parse;
    AfterShown(p, x, eof, sed, [BACKSLASH, LPAREN] + Show(y, eof));
    var sp, n := |Show(x, eof)|, GroupCount(x);
    ReadsParts(p, sp, [BACKSLASH, LPAREN], Show(y, eof));
    TwoRead(p, sp, BACKSLASH, LPAREN);
    ParsesMark(p, sp, eof, sed, Nodes(x, 0), [], n, n);
    Parses(p, sp + 2, y, eof, sed, Nodes(x, 0) + [Open(n)], [] + [n], n + 1, n);
    StillOpen(p, sp + 2 + |Show(y, eof)|, eof, sed, Nodes(x, 0) + [Open(n)] + Nodes(y, n + 1), [] + [n], n + 1 + GroupCount(y), n + GroupCount(y));
  }

  lemma StillOpen(p: Text, sp: nat, eof: Byte, sed: bool, nodes: seq<Node>, open: seq<nat>, nbra: nat, closed: nat)
    requires sp <= |p| && At(p, sp) == eof && open != []
    ensures ParseFrom(p, eof, sed, sp, nodes, open, nbra, closed) == Bad(42)
  {
  }

  /** A range that runs backwards. */
  lemma BackwardRange(p: Text, sp: nat, low: nat, high: nat)
    requires high < low < 255 && Reads(p, sp, ShowNumber(low) + [COMMA] + (ShowNumber(high) + [BACKSLASH] + [RBRACE]))
    ensures RangeFrom(p, sp) == BadRange(46)
  {
    hide ShowNumber, NumberFrom, Reads;
    ReadsParts(p, sp, ShowNumber(low) + [COMMA], ShowNumber(high) + [BACKSLASH] + [RBRACE]);
    var sp1 := sp + |ShowNumber(low)| + 1;
    ParsesNumber(p, sp, low, COMMA);
    ReadsParts(p, sp1, ShowNumber(high) + [BACKSLASH], [RBRACE]);
    ParsesNumber(p, sp1, high, BACKSLASH);
    NumberIsDigits(high);
    ReadsParts(p, sp1, ShowNumber(high), [BACKSLASH]);
    ReadsOne(p, sp1 + |ShowNumber(high)| + 1, RBRACE);
  }

  /** A bound of 255 or more. */
  lemma HugeBound(p: Text, sp: nat, k: nat, end: Byte)
    requires Reads(p, sp, ShowNumber(k) + [end]) && k >= 255 && end in {BACKSLASH, COMMA}
    ensures RangeFrom(p, sp) == BadRange(11)
  {
    hide ShowNumber, Reads;
    ReadsParts(p, sp, ShowNumber(k), [end]);
    ReadsOne(p, sp + |ShowNumber(k)|, end);
    ParsesDigits(p, sp, k);
    LastDigit(p, sp + |ShowNumber(k)| - 1, k);
  }

  /** A range that is refused makes the pattern refused, with the same number. */
  lemma RefusedRange(p: Text, x: Syntax, a: AtomSyntax, eof: Byte, sed: bool, e: ErrorCode)
    requires Delimiter(eof) && Valid(x) && ValidAtom(a) && GroupCount(x) <= 9
    requires Begins(p, x, eof, ShowAtom(a, eof) + [BACKSLASH, LBRACE]) && RangeFrom(p, |Show(x, eof)| + |ShowAtom(a, eof)| + 2) == BadRange(e)
    ensures Parse(p, eof, sed) == Bad(e)
  {
    hide Show, ShowAtom, Nodes, Valid, GroupCount, RangeFrom, ClassFrom, Parse, ParseFrom;
    AfterShown(p, x, eof, sed, ShowAtom(a, eof) + [BACKSLASH, LBRACE]);
    var sp, n := |Show(x, eof)|, GroupCount(x);
    ReadsParts(p, sp, ShowAtom(a, eof), [BACKSLASH, LBRACE]);
    ParsesAtom(p, sp, a, eof, sed, Nodes(x, 0), [], n, n);
    TwoRead(p, sp + |ShowAtom(a, eof)|, BACKSLASH, LBRACE);
    RangeStep(p, sp + |ShowAtom(a, eof)|, eof, sed, Nodes(x, 0), Item(Meaning(a), One), n, e);
  }

  lemma RangeStep(p: Text, sp: nat, eof: Byte, sed: bool, nodes: seq<Node>, x: Node, n: nat, e: ErrorCode)
    requires sp + 2 <= |p| && p[sp] == BACKSLASH != eof && p[sp + 1] == LBRACE && x.Item? && x.rep == One && RangeFrom(p, sp + 2) == BadRange(e)
    ensures ParseFrom(p, eof, sed, sp, nodes + [x], [], n, n) == Bad(e)
  {
    hide RangeFrom, ClassFrom;
  }
}
