/**
 The matcher of regexp.h: `advance` on byte code, and the search `step`.

 The scanning loops of the repeated opcodes are the same in the code but for the
 test they apply; here they are written once, over `RegexpCode.Test`.
 */
module RegexpAdvance {
  import opened Prelude
  import opened Regexp
  import opened RegexpCode

  /** The operand at ep is the one of atom a. */
  ghost predicate Tests(code: seq<Byte>, base: Byte, ep: nat, a: Atom) {
    ep + Width(base) <= |code| && forall c: Byte :: Test(code, base, ep, c) <==> Accepts(a, c)
  }

  /** One character of a scan: the text's end stops it like any other character that fails the test. */
  lemma ScanStep(code: seq<Byte>, base: Byte, ep: nat, a: Atom, s: Text, i: nat, cap: nat)
    requires i <= |s| && Tests(code, base, ep, a) && (a.Char? ==> a.c != 0)
    ensures cap == 0 ==> Run(a, s, i, cap) == 0
    ensures cap > 0 ==>
              if Test(code, base, ep, At(s, i)) then i < |s| && Run(a, s, i, cap) == 1 + Run(a, s, i + 1, cap - 1)
              else Run(a, s, i, cap) == 0
  {
    assert Test(code, base, ep, At(s, i)) <==> Accepts(a, At(s, i));
  }

  /** `while (*lp++ ...);`: one past the first character that fails the test. */
  method ScanAll(s: Text, lp0: nat, code: seq<Byte>, base: Byte, ep: nat, ghost a: Atom) returns (lp: nat)
    requires lp0 <= |s| && Tests(code, base, ep, a) && (a.Char? ==> a.c != 0)
    ensures lp == lp0 + Run(a, s, lp0, |s| + 1) + 1
  {
    hide Run, Test, Accepts, AllAccepted;
    lp := lp0;
    while true
      invariant lp0 <= lp <= |s|
      invariant Run(a, s, lp0, |s| + 1) == lp - lp0 + Run(a, s, lp, |s| + 1 - (lp - lp0))
      decreases |s| - lp
    {
      ScanStep(code, base, ep, a, s, lp, |s| + 1 - (lp - lp0));
      var c := At(s, lp);
      lp := lp + 1;
      if !Test(code, base, ep, c) {
        break;
      }
    }
  }

  /** The groups that nodes[k..] opens and closes. */
  ghost predicate OpensLater(nodes: seq<Node>, k: nat, n: nat) {
    exists m :: k <= m < |nodes| && nodes[m] == Open(n)
  }

  ghost predicate ClosesLater(nodes: seq<Node>, k: nat, n: nat) {
    exists m :: k <= m < |nodes| && nodes[m] == Close(n)
  }

  /** Group positions that differ at most where nodes[k..] will write them anyway. */
  ghost predicate Agree(nodes: seq<Node>, k: nat, g: Groups, h: Groups) {
    && |g.starts| == |g.ends| == |h.starts| == |h.ends| == 9
    && (forall n :: 0 <= n < 9 && !OpensLater(nodes, k, n) ==> g.starts[n] == h.starts[n])
    && (forall n :: 0 <= n < 9 && !ClosesLater(nodes, k, n) ==> g.ends[n] == h.ends[n])
  }

  lemma {:induction false} AgreeFirst(nodes: seq<Node>, k: nat, s: Text, i: nat, g: Groups, h: Groups)
    requires k <= |nodes| && i <= |s| && WellFormed(nodes) && Agree(nodes, k, g, h)
    ensures First(nodes, k, s, i, g) == First(nodes, k, s, i, h)
    decreases |nodes| - k, 0, 0
  {
    if k == |nodes| {
      assert g.starts == h.starts && g.ends == h.ends;
    } else {
      match nodes[k]
      case Open(n) =>
        AgreeFirst(nodes, k + 1, s, i, g.(starts := g.starts[n := i]), h.(starts := h.starts[n := i]));
      case Close(n) =>
        AgreeFirst(nodes, k + 1, s, i, g.(ends := g.ends[n := i]), h.(ends := h.ends[n := i]));
      case EndText =>
        AgreeFirst(nodes, k + 1, s, i, g, h);
      case Item(a, r) =>
        var low := Low(r);
        if Run(a, s, i, low) == low {
          AgreeDown(nodes, k + 1, s, i + low, i + low + Run(a, s, i + low, Extra(r, s)), g, h);
        }
    }
  }

  lemma {:induction false} AgreeDown(nodes: seq<Node>, k: nat, s: Text, from: nat, to: nat, g: Groups, h: Groups)
    requires k <= |nodes| && from <= to <= |s| && WellFormed(nodes) && Agree(nodes, k, g, h)
    ensures Down(nodes, k, s, from, to, g) == Down(nodes, k, s, from, to, h)
    decreases |nodes| - k, 1, (to)
  {
    AgreeFirst(nodes, k, s, to, g, h);
    if to > from {
      AgreeDown(nodes, k, s, from, to - 1, g, h);
    }
  }

  /** An unrepeated character. */
  lemma OneStep(nodes: seq<Node>, k: nat, s: Text, i: nat, g: Groups, c: Byte)
    requires k < |nodes| && i <= |s| && WellFormed(nodes) && |g.starts| == |g.ends| == 9
    requires nodes[k].Item? && nodes[k].rep == One && c == At(s, i)
    ensures Accepts(nodes[k].atom, c) ==> i < |s| && First(nodes, k, s, i, g) == First(nodes, k + 1, s, i + 1, g)
    ensures !Accepts(nodes[k].atom, c) ==> First(nodes, k, s, i, g).None?
  {
    assert WellFormedNode(nodes[k]);
    var a := nodes[k].atom;
    assert Run(a, s, i, 1) == if i < |s| && Accepts(a, s[i]) then 1 + Run(a, s, i + 1, 0) else 0;
  }

  /** Marking a group at node k. */
  lemma MarkAgrees(nodes: seq<Node>, k: nat, g: Groups, i: nat)
    requires k < |nodes| && WellFormed(nodes) && |g.starts| == |g.ends| == 9
    ensures Agree(nodes, k, g, g)
    ensures nodes[k].Open? ==> nodes[k].n < 9 && Agree(nodes, k, g, g.(starts := g.starts[nodes[k].n := i]))
    ensures nodes[k].Close? ==> nodes[k].n < 9 && Agree(nodes, k, g, g.(ends := g.ends[nodes[k].n := i]))
  {
    assert WellFormedNode(nodes[k]);
  }

  lemma OperandOfMark(nodes: seq<Node>, k: nat, code: seq<Byte>)
    requires WellFormed(nodes) && k < |nodes| && !nodes[k].Item? && Code(nodes) <= code
    ensures var ep := Offset(nodes, k) + 1;
            if nodes[k].EndText? then Offset(nodes, k + 1) == ep
            else Offset(nodes, k + 1) == ep + 1 < |code| && code[ep] == nodes[k].n
  {
    NodeCode(nodes, k, code);
    var o, e := Offset(nodes, k), EncodeNode(nodes[k]);
    if !nodes[k].EndText? {
      assert code[o..o + |e|][1] == e[1];
    }
  }

  lemma AgreeThen(nodes: seq<Node>, k0: nat, k: nat, g: Groups, h: Groups, h': Groups)
    requires k0 <= k && Agree(nodes, k0, g, h) && Agree(nodes, k, h, h')
    ensures Agree(nodes, k0, g, h')
  {
    forall n | OpensLater(nodes, k, n)
      ensures OpensLater(nodes, k0, n)
    {
    }
    forall n | ClosesLater(nodes, k, n)
      ensures ClosesLater(nodes, k0, n)
    {
    }
  }

  lemma OpcodeOf(x: Node)
    requires WellFormedNode(x)
    ensures var op := EncodeNode(x)[0];
            && op != CCEOF
            && (op == CBRA <==> x.Open?) && (op == CKET <==> x.Close?) && (op == CDOL <==> x.EndText?)
            && (x.Item? ==> op % 4 == Flag(x.rep) && op - op % 4 == Base(x.atom))
  {
    if x.Item? {
      BaseOf(x.atom);
      FlagOf(x.rep);
      hide Base, Flag, Operand, Bounds;
    }
  }

  lemma BaseOf(a: Atom)
    ensures Base(a) in {CCHR, CDOT, CXCL, NCCL, CCL}
  {
  }

  lemma FlagOf(r: Repeat)
    ensures Flag(r) in {0, STAR, RNGE}
  {
  }

  /** Where the parts of an item's code are. */
  lemma ItemCode(nodes: seq<Node>, k: nat, code: seq<Byte>)
    requires WellFormed(nodes) && k < |nodes| && nodes[k].Item? && Code(nodes) <= code
    ensures var ep, a, r := Offset(nodes, k) + 1, nodes[k].atom, nodes[k].rep;
            var w := Width(Base(a));
            && Tests(code, Base(a), ep, a)
            && Offset(nodes, k + 1) == ep + w + |Bounds(r)| <= |code|
            && (r.Count? ==> code[ep + w] == r.low && code[ep + w + 1] == r.high)
  {
    hide EncodeNode, Code, Operand, Base, Test, Accepts, Bounds, Offset, Flag, WellFormedNode;
    NodeCode(nodes, k, code);
    var o, a, r := Offset(nodes, k), nodes[k].atom, nodes[k].rep;
    var e := EncodeNode(nodes[k]);
    assert WellFormedNode(nodes[k]);
    ItemIs(nodes[k]);
    ItemParts(e[0], Operand(a), Bounds(r), e, code, o);
    BoundsAre(r);
    forall c: Byte
      ensures Test(code, Base(a), o + 1, c) <==> Accepts(a, c)
    {
      TestMeaning(a, code, o + 1, c);
    }
  }

  lemma ItemIs(x: Node)
    requires WellFormedNode(x) && x.Item?
    ensures EncodeNode(x) != [] && EncodeNode(x) == [EncodeNode(x)[0]] + Operand(x.atom) + Bounds(x.rep)
    ensures (x.atom.Char? ==> x.atom.c != 0) && (x.atom.Class? ==> 0 !in x.atom.members)
  {
    hide Operand, Bounds, Base, Flag;
  }

  lemma BoundsAre(r: Repeat)
    ensures r.Count? ==> |Bounds(r)| == 2 && Bounds(r)[0] == r.low && Bounds(r)[1] == r.high
  {
  }

  lemma ItemParts(op: Byte, operand: seq<Byte>, bounds: seq<Byte>, e: seq<Byte>, code: seq<Byte>, o: nat)
    requires e == [op] + operand + bounds && o + |e| <= |code| && code[o..o + |e|] == e
    ensures code[o + 1..o + 1 + |operand|] == operand
    ensures forall i :: 0 <= i < |bounds| ==> code[o + 1 + |operand| + i] == bounds[i]
    ensures |bounds| == 2 ==> code[o + 1 + |operand|] == bounds[0] && code[o + 2 + |operand|] == bounds[1]
  {
    forall i | 0 <= i < |e|
      ensures code[o + i] == e[i]
    {
    }
    assert code[o + 1..o + 1 + |operand|] == e[1..1 + |operand|];
    forall i | 0 <= i < |bounds|
      ensures code[o + 1 + |operand| + i] == bounds[i]
    {
      assert e[1 + |operand| + i] == bounds[i];
    }
    if |bounds| == 2 {
      assert code[o + 1 + |operand| + 0] == bounds[0] && code[o + 1 + |operand| + 1] == bounds[1];
    }
  }

  /** The globals of regexp.h that matching reads and writes. */
  class Matcher {
    var loc1: int
    var loc2: int
    var circf: bool
    var low: int
    var size: int
    const braslist: array<int>
    const braelist: array<int>

    constructor ()
      ensures Valid() && fresh(braslist) && fresh(braelist)
    {
      braslist := new int[9];
      braelist := new int[9];
    }

    ghost predicate Valid() {
      braslist.Length == braelist.Length == 9 && braslist != braelist
    }

    ghost function Marks(): (g: Groups)
      requires Valid()
      reads braslist, braelist
      ensures |g.starts| == |g.ends| == 9
    {
      Groups(braslist[..], braelist[..])
    }

    /** `getrnge`. */
    method GetRange(code: seq<Byte>, str: nat)
      requires str + 1 < |code|
      modifies this`low, this`size
      ensures low == code[str]
      ensures size == if code[str + 1] == 255 then 20000 else code[str + 1] as int - code[str] as int
    {
      low := code[str];
      size := if code[str + 1] == 255 then 20000 else code[str + 1] as int - low;
    }

    /** `while(low--)`: fails at the first character that does not pass the test. */
    method TakeLow(s: Text, lp0: nat, code: seq<Byte>, base: Byte, ep: nat, ghost a: Atom) returns (failed: bool, lp: nat)
      requires lp0 <= |s| && low >= 0 && Tests(code, base, ep, a) && (a.Char? ==> a.c != 0)
      modifies this`low
      ensures failed <==> Run(a, s, lp0, old(low)) < old(low)
      ensures !failed ==> lp == lp0 + old(low) <= |s|
    {
      hide Run, Test, Accepts, AllAccepted;
      failed := false;
      lp := lp0;
      ghost var low0 := low;
      while true
        invariant lp0 <= lp <= |s| && 0 <= low == low0 - (lp - lp0)
        invariant Run(a, s, lp0, low0) == lp - lp0 + Run(a, s, lp, low)
        decreases low
      {
        ScanStep(code, base, ep, a, s, lp, low);
        low := low - 1;
        if low < 0 {
          break;
        }
        var c := At(s, lp);
        lp := lp + 1;
        if !Test(code, base, ep, c) {
          failed := true;
          return;
        }
      }
    }

    /** `while(size--)`: one past the first character that does not pass the test, or past as many as are allowed. */
    method TakeSize(s: Text, curlp: nat, code: seq<Byte>, base: Byte, ep: nat, ghost a: Atom) returns (lp: nat)
      requires curlp <= |s| && size >= 0 && Tests(code, base, ep, a) && (a.Char? ==> a.c != 0)
      modifies this`size
      ensures lp == curlp + Run(a, s, curlp, old(size)) + 1
    {
      hide Run, Test, Accepts, AllAccepted;
      lp := curlp;
      ghost var size0 := size;
      while true
        invariant curlp <= lp <= |s| && 0 <= size == size0 - (lp - curlp)
        invariant Run(a, s, curlp, size0) == lp - curlp + Run(a, s, lp, size)
        decreases size
      {
        ScanStep(code, base, ep, a, s, lp, size);
        size := size - 1;
        if size < 0 {
          break;
        }
        var c := At(s, lp);
        lp := lp + 1;
        if !Test(code, base, ep, c) {
          break;
        }
      }
      if size < 0 {
        lp := lp + 1;
      }
    }

    /** The two loops of a range: `low` characters that must pass the test, then as many more as `size` allows. */
    method ScanCount(s: Text, lp0: nat, code: seq<Byte>, base: Byte, ep: nat, ghost a: Atom, ghost r: Repeat)
      returns (failed: bool, curlp: nat, lp: nat)
      requires lp0 <= |s| && Tests(code, base, ep, a) && (a.Char? ==> a.c != 0)
      requires r.Count? && r.low <= r.high && ep + Width(base) + 1 < |code|
      requires code[ep + Width(base)] == r.low && code[ep + Width(base) + 1] == r.high
      modifies this`low, this`size
      ensures failed <==> Run(a, s, lp0, Low(r)) < Low(r)
      ensures !failed ==> curlp == lp0 + Low(r) && lp == curlp + Run(a, s, curlp, Extra(r, s)) + 1
    {
      hide Run, Test, Accepts, AllAccepted;
      GetRange(code, ep + Width(base));
      assert low == Low(r) && size == Extra(r, s);
      failed, lp := TakeLow(s, lp0, code, base, ep, a);
      curlp := lp;
      if !failed {
        lp := TakeSize(s, curlp, code, base, ep, a);
      }
    }

    /** The `star:` loop: from the longest repetition down, with `locs` null. */
    method TryDown(s: Text, lp0: nat, curlp: nat, code: seq<Byte>, ep: nat, ghost nodes: seq<Node>, ghost k: nat)
      returns (ok: bool)
      requires Valid() && WellFormed(nodes) && Code(nodes) <= code && k <= |nodes| && ep == Offset(nodes, k)
      requires curlp < lp0 <= |s| + 1
      modifies this, braslist, braelist
      ensures var r := Down(nodes, k, s, curlp, lp0 - 1, old(Marks()));
              if ok then r == Some((loc2, Marks())) else r.None? && loc2 == old(loc2) && Agree(nodes, k, old(Marks()), Marks())
      ensures loc1 == old(loc1) && circf == old(circf)
      decreases |nodes| - k, 3
    {
      ghost var g := Marks();
      var lp := lp0;
      while true
        invariant curlp < lp <= lp0 && loc2 == old(loc2) && loc1 == old(loc1) && circf == old(circf)
        invariant Agree(nodes, k, g, Marks())
        invariant Down(nodes, k, s, curlp, lp - 1, g) == Down(nodes, k, s, curlp, lp0 - 1, g)
        decreases lp
      {
        lp := lp - 1;
        AgreeFirst(nodes, k, s, lp, g, Marks());
        ok := Advance(s, lp, code, ep, nodes, k);
        if ok {
          return;
        }
        if lp <= curlp {
          break;
        }
      }
    }

    /** The opcodes that take no repetition: group marks, the end anchor and single characters. */
    method Single(op: Byte, s: Text, lp0: nat, code: seq<Byte>, ep0: nat, ghost nodes: seq<Node>, ghost k: nat)
      returns (matched: bool, lp: nat, ep: nat)
      requires Valid() && WellFormed(nodes) && Code(nodes) <= code && k < |nodes| && ep0 == Offset(nodes, k) + 1
      requires lp0 <= |s| && op == EncodeNode(nodes[k])[0] && (nodes[k].Item? ==> nodes[k].rep == One)
      modifies braslist, braelist
      ensures if matched then
                lp <= |s| && ep == Offset(nodes, k + 1) &&
                First(nodes, k + 1, s, lp, Marks()) == First(nodes, k, s, lp0, old(Marks()))
              else First(nodes, k, s, lp0, old(Marks())).None? && Marks() == old(Marks())
      ensures Agree(nodes, k, old(Marks()), Marks())
    {
      hide Agree, Run, Test, Accepts, Offset, EncodeNode, Code;
      NodeCode(nodes, k, code);
      OpcodeOf(nodes[k]);
      MarkAgrees(nodes, k, Marks(), lp0);
      lp, ep := lp0, ep0;
      assert WellFormedNode(nodes[k]);
      if op == CBRA {
        OperandOfMark(nodes, k, code);
        braslist[code[ep]] := lp;
        return true, lp, ep + 1;
      }
      if op == CKET {
        OperandOfMark(nodes, k, code);
        braelist[code[ep]] := lp;
        return true, lp, ep + 1;
      }
      if op == CDOL {
        OperandOfMark(nodes, k, code);
        return At(s, lp) == 0, lp, ep;
      }
      ItemCode(nodes, k, code);
      var c := At(s, lp);
      OneStep(nodes, k, s, lp, Marks(), c);
      lp := lp + 1;
      if Test(code, op, ep, c) {
        return true, lp, ep + Width(op);
      }
      return false, lp, ep;
    }

    /** The repeated opcodes: scan as far as allowed, then back off. */
    method Repeated(op: Byte, s: Text, lp0: nat, code: seq<Byte>, ep0: nat, ghost nodes: seq<Node>, ghost k: nat)
      returns (ok: bool)
      requires Valid() && WellFormed(nodes) && Code(nodes) <= code && k < |nodes| && ep0 == Offset(nodes, k) + 1
      requires lp0 <= |s| && op == EncodeNode(nodes[k])[0] && nodes[k].Item? && nodes[k].rep != One
      modifies this, braslist, braelist
      ensures var r := First(nodes, k, s, lp0, old(Marks()));
              if ok then r == Some((loc2, Marks())) else r.None? && loc2 == old(loc2) && Agree(nodes, k, old(Marks()), Marks())
      ensures loc1 == old(loc1) && circf == old(circf)
      decreases |nodes| - k, 0
    {
      hide Agree, Run, Test, Accepts, Offset, EncodeNode, Code, Tests, Down;
      OpcodeOf(nodes[k]);
      ItemCode(nodes, k, code);
      assert WellFormedNode(nodes[k]);
      ghost var a, r, g := nodes[k].atom, nodes[k].rep, Marks();
      var flag: int := op % 4;
      var base := op - flag;
      var lp: nat, ep: nat, curlp: nat := lp0, ep0, lp0;
      RunZero(a, s, lp0);
      if flag == STAR {
        lp := ScanAll(s, lp0, code, base, ep, a);
        ep := ep + Width(base);
      } else {
        var failed;
        failed, curlp, lp := ScanCount(s, lp0, code, base, ep, a, r);
        if failed {
          MarkAgrees(nodes, k, g, 0);
          return false;
        }
        ep := ep + Width(base) + 2;
      }
      assert Down(nodes, k + 1, s, curlp, lp - 1, g) == First(nodes, k, s, lp0, g);
      ok := TryDown(s, lp, curlp, code, ep, nodes, k + 1);
      if !ok {
        AgreeThen(nodes, k, k + 1, g, g, Marks());
      }
    }

    /**
     `advance` on the code of nodes[k0..]: succeeds exactly when the search does,
     with `loc2` and the group positions it finds.
     */
    method Advance(s: Text, lp0: nat, code: seq<Byte>, ep0: nat, ghost nodes: seq<Node>, ghost k0: nat) returns (ok: bool)
      requires Valid() && WellFormed(nodes) && Code(nodes) <= code && k0 <= |nodes| && ep0 == Offset(nodes, k0)
      requires lp0 <= |s|
      modifies this, braslist, braelist
      ensures var r := First(nodes, k0, s, lp0, old(Marks()));
              if ok then r == Some((loc2, Marks())) else r.None? && loc2 == old(loc2) && Agree(nodes, k0, old(Marks()), Marks())
      ensures loc1 == old(loc1) && circf == old(circf)
      decreases |nodes| - k0, 2
    {
      hide Agree, Run, Test, Accepts, Offset, EncodeNode, Code, Down;
      ghost var g := Marks();
      var lp: nat, ep: nat := lp0, ep0;
      ghost var k := k0;
      AgreeSelf(nodes, k0, g);
      while true
        invariant k0 <= k <= |nodes| && ep == Offset(nodes, k) && lp <= |s|
        invariant loc2 == old(loc2) && loc1 == old(loc1) && circf == old(circf)
        invariant Agree(nodes, k0, g, Marks())
        invariant First(nodes, k, s, lp, Marks()) == First(nodes, k0, s, lp0, g)
        decreases |nodes| - k
      {
        Opcode(nodes, k, code);
        var op := code[ep];
        ep := ep + 1;
        if op == CCEOF {
          loc2 := lp;
          return true;
        }
        ghost var before := Marks();
        if op !in {CBRA, CKET, CDOL} && op % 4 != 0 {
          ok := Repeated(op, s, lp, code, ep, nodes, k);
          if !ok {
            AgreeThen(nodes, k0, k, g, before, Marks());
          }
          return;
        }
        var matched;
        matched, lp, ep := Single(op, s, lp, code, ep, nodes, k);
        AgreeThen(nodes, k0, k, g, before, Marks());
        if !matched {
          return false;
        }
        k := k + 1;
      }
    }

    /**
     `step`: without the anchor, the leftmost position from which the pattern
     matches, the end of the text included; with it, only the start.
     */
    method Step(s: Text, p1: nat, code: seq<Byte>, ghost nodes: seq<Node>) returns (ok: bool)
      requires Valid() && WellFormed(nodes) && Code(nodes) <= code && p1 <= |s|
      modifies this, braslist, braelist
      ensures circf == old(circf)
      ensures circf ==> (ok <==> First(nodes, 0, s, p1, old(Marks())).Some?) && loc1 == p1
      ensures !circf ==> (ok <==> exists i :: p1 <= i <= |s| && First(nodes, 0, s, i, old(Marks())).Some?)
      ensures !circf && ok ==>
                p1 <= loc1 <= |s| && forall i :: p1 <= i < loc1 ==> First(nodes, 0, s, i, old(Marks())).None?
      ensures ok ==> First(nodes, 0, s, loc1, old(Marks())) == Some((loc2, Marks()))
      ensures !ok ==> loc2 == old(loc2) && (!circf ==> loc1 == old(loc1))
    {
      if circf {
        loc1 := p1;
        ok := Advance(s, p1, code, 0, nodes, 0);
        return;
      }
      ghost var g := Marks();
      AgreeSelf(nodes, 0, g);
      assert nodes[..0] == [];
      var fast := code[0] == CCHR;
      var c: Byte := 0;
      if fast {
        c := code[1];
        LeadingChar(nodes, code);
      }
      var i := p1;
      while true
        invariant p1 <= i <= |s| && circf == old(circf) && loc1 == old(loc1) && loc2 == old(loc2)
        invariant Agree(nodes, 0, g, Marks())
        invariant forall j :: p1 <= j < i ==> First(nodes, 0, s, j, g).None?
        decreases |s| - i
      {
        if !fast || At(s, i) == c {
          AgreeFirst(nodes, 0, s, i, g, Marks());
          ok := Advance(s, i, code, 0, nodes, 0);
          if ok {
            loc1 := i;
            return;
          }
        } else {
          OneStep(nodes, 0, s, i, g, At(s, i));
        }
        if At(s, i) == 0 {
          break;
        }
        i := i + 1;
      }
      return false;
    }
  }

  /** What the first-character shortcut relies on. */
  lemma LeadingChar(nodes: seq<Node>, code: seq<Byte>)
    requires WellFormed(nodes) && Code(nodes) <= code && code[0] == CCHR
    ensures nodes != [] && |code| > 1 && nodes[0] == Item(Char(code[1]), One)
  {
    assert nodes[..0] == [];
    EndCode(nodes, code);
    Opcode(nodes, 0, code);
    if nodes != [] {
      NodeCode(nodes, 0, code);
      OpcodeOf(nodes[0]);
      var e := EncodeNode(nodes[0]);
      assert WellFormedNode(nodes[0]);
      assert code[0..|e|] == e && nodes[0].atom.Char?;
      assert e[1] == nodes[0].atom.c;
    }
  }

  lemma AgreeSelf(nodes: seq<Node>, k: nat, g: Groups)
    requires |g.starts| == |g.ends| == 9
    ensures Agree(nodes, k, g, g)
  {
  }

  lemma RunZero(a: Atom, s: Text, i: nat)
    requires i <= |s|
    ensures Run(a, s, i, 0) == 0
  {
  }

  /** What the byte at the offset of node k says about it. */
  lemma Opcode(nodes: seq<Node>, k: nat, code: seq<Byte>)
    requires WellFormed(nodes) && k <= |nodes| && Code(nodes) <= code
    ensures Offset(nodes, k) < |code|
    ensures code[Offset(nodes, k)] == CCEOF <==> k == |nodes|
    ensures k < |nodes| ==> code[Offset(nodes, k)] == EncodeNode(nodes[k])[0]
    ensures k < |nodes| ==>
              (nodes[k].Item? && nodes[k].rep != One <==>
                code[Offset(nodes, k)] !in {CBRA, CKET, CDOL} && code[Offset(nodes, k)] % 4 != 0)
  {
    if k == |nodes| {
      EndCode(nodes, code);
    } else {
      NodeCode(nodes, k, code);
      OpcodeOf(nodes[k]);
      var o, e := Offset(nodes, k), EncodeNode(nodes[k]);
      assert code[o..o + |e|][0] == e[0];
      assert WellFormedNode(nodes[k]);
    }
  }
}
