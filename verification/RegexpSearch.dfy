/**
 The two halves of regexp.h together, the way its clients use them: `compile` fills
 a buffer and sets `circf`, `step` searches a text with it.
 */
module RegexpSearch {
  import opened Prelude
  import opened Regexp
  import opened RegexpCode
  import opened RegexpSyntax
  import opened RegexpCompile
  import opened RegexpAdvance

  /** s[i..j] is matched by these counts, which are the greatest in lexicographic order. */
  ghost predicate Greatest(nodes: seq<Node>, s: Text, i: nat, path: seq<nat>, j: nat) {
    && Leads(nodes, 0, s, i, path, j)
    && forall q, j': nat :: Leads(nodes, 0, s, i, q, j') ==> |q| == |path| && AtMost(q, path)
  }

  ghost predicate LongestFirst(nodes: seq<Node>, s: Text, i: nat, j: nat) {
    exists path :: Greatest(nodes, s, i, path, j)
  }

  /** The group marks are those of that match; groups the pattern does not have are as they were. */
  ghost predicate Grouped(nodes: seq<Node>, s: Text, i: nat, j: nat, g: Groups, h: Groups) {
    exists path :: Greatest(nodes, s, i, path, j) && GroupsAt(nodes, s, i, path, g, h)
  }

  /** Some match starts at i. */
  ghost predicate MatchesAt(nodes: seq<Node>, s: Text, i: nat) {
    exists j: nat :: Matches(nodes, 0, s, i, j)
  }

  lemma SearchMeaning(nodes: seq<Node>, s: Text, i: nat, g: Groups)
    requires i <= |s| && WellFormed(nodes) && |g.starts| == |g.ends| == 9
    ensures First(nodes, 0, s, i, g).Some? <==> MatchesAt(nodes, s, i)
    ensures First(nodes, 0, s, i, g).Some? ==> LongestFirst(nodes, s, i, First(nodes, 0, s, i, g).value.0)
    ensures First(nodes, 0, s, i, g).Some? ==>
              Grouped(nodes, s, i, First(nodes, 0, s, i, g).value.0, g, First(nodes, 0, s, i, g).value.1)
  {
    hide MarksAt, GroupsAt, Leads, AtMost, First;
    FirstIffMatches(nodes, s, i, g);
    var path := FirstIsGreatest(nodes, 0, s, i, g);
    if First(nodes, 0, s, i, g).Some? {
      var (j, h) := First(nodes, 0, s, i, g).value;
      GroupMeaning(nodes, s, i, path, j, g, h);
      assert Greatest(nodes, s, i, path, j);
    }
  }

  /**
   Compiling p and searching s from its start: it fails only as `compile` does; an
   unanchored search succeeds exactly when the pattern matches somewhere, and then
   at the leftmost place, an anchored one exactly when it matches at the start.
   */
  method CompileAndStep(p: Text, eof: Byte, sed: bool, endbuf: nat, s: Text, m: Matcher)
    returns (r: Status, ok: bool, ghost nodes: seq<Node>)
    requires At(p, 0) != eof && At(p, 0) != NEWLINE && Parse(p, eof, sed) != Outside && m.Valid()
    modifies m, m.braslist, m.braelist
    ensures r.Failed? ==> Parse(p, eof, sed) == Bad(r.code) || (r.code == NO_SPACE && endbuf <= 33 * (|p| + 1))
    ensures r.Fine? ==> Parse(p, eof, sed) == Pattern(nodes)
    ensures r.Fine? ==> (ok <==> if Anchored(p) then MatchesAt(nodes, s, 0) else exists i: nat :: i <= |s| && MatchesAt(nodes, s, i))
    ensures r.Fine? && ok ==> 0 <= m.loc1 <= m.loc2 <= |s| && LongestFirst(nodes, s, m.loc1, m.loc2)
    ensures r.Fine? && ok ==> m.Valid() && 0 <= m.loc1 <= m.loc2 && Grouped(nodes, s, m.loc1, m.loc2, old(m.Marks()), m.Marks())
    ensures r.Fine? && ok && Anchored(p) ==> m.loc1 == 0
    ensures r.Fine? && ok ==> forall i: nat :: i < m.loc1 ==> !MatchesAt(nodes, s, i)
  {
    hide Parse, First, MatchesAt, LongestFirst, Grouped, Code;
    var buf := new Byte[endbuf + 1];
    var ep, circf, nbra;
    ok := false;
    r, ep, circf, nbra, nodes := Compile(p, buf, endbuf, eof, sed);
    if r.Failed? {
      return;
    }
    m.circf := circf;
    ghost var g := m.Marks();
    ok := m.Step(s, 0, buf[..ep], nodes);
    forall i: nat | i <= |s|
      ensures MatchesAt(nodes, s, i) <==> First(nodes, 0, s, i, g).Some?
    {
      SearchMeaning(nodes, s, i, g);
    }
    if ok {
      var at: nat := m.loc1;
      assert First(nodes, 0, s, at, g) == Some((m.loc2, m.Marks()));
      SearchMeaning(nodes, s, at, g);
    } else if !circf {
      forall i: nat | i <= |s|
        ensures !MatchesAt(nodes, s, i)
      {
        assert First(nodes, 0, s, i, g).None?;
      }
    }
  }
}
