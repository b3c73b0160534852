/**
 `gmatch`: matching a string against a shell pattern, in a locale of single bytes.

 The pattern is read into a list of items whose meaning is a set of strings; the
 matcher, which interprets the pattern directly, decides membership.  Strings hold no
 NUL; a pattern part that is cut short matches nothing.
 */
module Gmatch {
  import opened Prelude

  datatype Item = One(c: char) | AnyOne | Many | Class(negated: bool, members: set<char>) | Never

  function At(s: string, i: nat): char {
    if i < |s| then s[i] else '\0'
  }

  // ----- what a pattern means

  predicate Within(low: char, c: char, high: char) {
    low <= c <= high
  }

  function Between(low: char, high: char): set<char> {
    set c: char | Within(low, c, high)
  }

  /** The rest of a class and the position behind it; lc is the member before, NUL at the start. */
  function Members(p: string, i: nat, lc: char, members: set<char>): (r: Option<(set<char>, nat)>)
    ensures r.Some? ==> i < r.value.1 <= |p| && members <= r.value.0
    decreases |p| - i, 1
  {
    if i >= |p| then None
    else if p[i] == '-' && lc != '\0' && At(p, i + 1) != ']' then
      var j := if At(p, i + 1) == '\\' then i + 2 else i + 1;
      if j >= |p| then None else Closed(p, j + 1, p[j], members + Between(lc, p[j]) + {p[j]})
    else
      var j := if p[i] == '\\' then i + 1 else i;
      if j >= |p| then None else Closed(p, j + 1, p[j], members + {p[j]})
  }

  function Closed(p: string, i: nat, lc: char, members: set<char>): (r: Option<(set<char>, nat)>)
    ensures r.Some? ==> i < r.value.1 <= |p| && members <= r.value.0
    decreases |p| - i, 2
  {
    if i >= |p| then None
    else if p[i] == ']' then Some((members, i + 1))
    else Members(p, i, lc, members)
  }

  /** The items of the pattern from position i on. */
  function Items(p: string, i: nat): seq<Item>
    decreases |p| - i
  {
    if i >= |p| then []
    else if p[i] == '*' then [Many] + Items(p, i + 1)
    else if p[i] == '?' then [AnyOne] + Items(p, i + 1)
    else if p[i] == '\\' then (if i + 1 >= |p| then [Never] else [One(p[i + 1])] + Items(p, i + 2))
    else if p[i] == '[' then
      var negated := At(p, i + 1) == '!';
      match Members(p, if negated then i + 2 else i + 1, '\0', {})
      case None => [Never]
      case Some(m) => [Class(negated, m.0)] + Items(p, m.1)
    else [One(p[i])] + Items(p, i + 1)
  }

  predicate Takes(x: Item, c: char) {
    match x
    case One(d) => c == d
    case AnyOne => true
    case Class(negated, members) => (c in members) != negated
    case _ => false
  }

  /** The string is in the language of the items. */
  ghost predicate Matches(items: seq<Item>, s: string)
    decreases |items|
  {
    if items == [] then s == ""
    else if items[0].Many? then exists k :: 0 <= k <= |s| && Matches(items[1..], s[k..])
    else s != "" && Takes(items[0], s[0]) && Matches(items[1..], s[1..])
  }

  // ----- the laws the matcher relies on

  /** A second star adds nothing. */
  lemma StarStar(items: seq<Item>, s: string)
    requires |items| >= 2 && items[0] == items[1] == Many
    ensures Matches(items, s) <==> Matches(items[1..], s)
  {
    var rest := items[1..][1..];
    if Matches(items, s) {
      var k :| 0 <= k <= |s| && Matches(items[1..], s[k..]);
      var j :| 0 <= j <= |s[k..]| && Matches(rest, s[k..][j..]);
      assert s[k..][j..] == s[k + j..];
    }
    if Matches(items[1..], s) {
      assert s[0..] == s;
    }
  }

  /** Behind a star only the suffixes that are not empty need be tried, unless nothing follows. */
  lemma StarThen(items: seq<Item>, s: string)
    requires |items| >= 2 && items[0].Many? && !items[1].Many?
    ensures Matches(items, s) <==> exists k :: 0 <= k < |s| && Matches(items[1..], s[k..])
  {
    assert !Matches(items[1..], "");
    assert s[|s|..] == "";
  }

  lemma LastStar(s: string)
    ensures Matches([Many], s)
  {
    assert Matches([Many][1..], s[|s|..]);
  }

  /** What a malformed part does to the items before it. */
  lemma {:induction false} MalformedMatchesNothing(items: seq<Item>, s: string)
    requires Never in items
    ensures !Matches(items, s)
    decreases |items|
  {
    if !items[0].Never? {
      assert Never in items[1..];
      if items[0].Many? {
        forall k | 0 <= k <= |s|
          ensures !Matches(items[1..], s[k..])
        {
          MalformedMatchesNothing(items[1..], s[k..]);
        }
      } else if s != "" {
        MalformedMatchesNothing(items[1..], s[1..]);
      }
    }
  }

  // ----- the matcher

  /** The class whose first character is at pp0, against scc: whether it takes it, and the position behind. */
  method MatchClass(scc: char, p: string, pp0: nat, notflag: bool) returns (ok: bool, pp: nat)
    requires '\0' !in p
    ensures match Members(p, pp0, '\0', {})
            case None => !ok
            case Some(m) => (ok <==> (scc in m.0) != notflag) && (ok ==> pp == m.1)
  {
    hide Members, Closed, Between;
    var lc := '\0';
    ghost var members: set<char> := {};
    ok := false;
    pp := pp0;
    while true
      invariant pp0 <= pp && Members(p, pp, lc, members) == Members(p, pp0, '\0', {})
      invariant if notflag then scc !in members && (ok <==> members != {}) else ok <==> scc in members
      decreases |p| - pp
    {
      MembersStep(p, pp, lc, members);
      if pp >= |p| {
        return false, pp;
      }
      var c := p[pp];
      pp := pp + 1;
      if c == '-' && lc != '\0' && At(p, pp) != ']' {
        if pp >= |p| {
          return false, pp;
        }
        c := p[pp];
        pp := pp + 1;
        if c == '\\' {
          if pp >= |p| {
            return false, pp;
          }
          c := p[pp];
          pp := pp + 1;
        }
        InRange(lc, c, scc);
        members := members + Between(lc, c);
        if notflag {
          if scc < lc || scc > c {
            ok := true;
          } else {
            return false, pp;
          }
        } else if lc <= scc && scc <= c {
          ok := true;
        }
      } else if c == '\\' {
        if pp >= |p| {
          return false, pp;
        }
        c := p[pp];
        pp := pp + 1;
      }
      lc := c;
      members := members + {c};
      if notflag {
        if scc != lc {
          ok := true;
        } else {
          return false, pp;
        }
      } else if scc == lc {
        ok := true;
      }
      ClosedStep(p, pp, lc, members);
      if pp >= |p| {
        return false, pp;
      }
      if p[pp] == ']' {
        return ok, pp + 1;
      }
    }
  }

  lemma InRange(low: char, high: char, c: char)
    ensures c in Between(low, high) <==> low <= c <= high
  {
  }

  lemma MembersStep(p: string, i: nat, lc: char, members: set<char>)
    ensures i >= |p| ==> Members(p, i, lc, members).None?
    ensures i < |p| ==>
              if p[i] == '-' && lc != '\0' && At(p, i + 1) != ']' then
                var j := if At(p, i + 1) == '\\' then i + 2 else i + 1;
                Members(p, i, lc, members) ==
                (if j >= |p| then None else Closed(p, j + 1, p[j], members + Between(lc, p[j]) + {p[j]}))
              else
                var j := if p[i] == '\\' then i + 1 else i;
                Members(p, i, lc, members) == (if j >= |p| then None else Closed(p, j + 1, p[j], members + {p[j]}))
  {
  }

  lemma ClosedStep(p: string, i: nat, lc: char, members: set<char>)
    ensures Closed(p, i, lc, members) ==
            if i >= |p| then None else if p[i] == ']' then Some((members, i + 1)) else Members(p, i, lc, members)
  {
  }

  /** `gmatch`. */
  method GMatch(s: string, s0: nat, p: string, p0: nat) returns (r: bool)
    requires '\0' !in s && '\0' !in p && s0 <= |s| && p0 <= |p|
    ensures r <==> Matches(Items(p, p0), s[s0..])
    decreases |p| - p0, 1
  {
    hide Members;
    var scc := At(s, s0);
    if p0 == |p| {
      return scc == '\0';
    }
    var c := p[p0];
    var pp := p0 + 1;
    assert scc != '\0' ==> s[s0..][0] == scc && s[s0..][1..] == s[s0 + 1..];
    if c == '[' {
      r := Bracket(s, s0, p, p0);
    } else if c == '*' {
      r := Star(s, s0, p, p0);
    } else if c == '?' {
      if scc == '\0' {
        return false;
      }
      r := GMatch(s, s0 + 1, p, pp);
    } else {
      if c == '\\' {
        if pp >= |p| {
          return false;
        }
        c := p[pp];
        pp := pp + 1;
      }
      if c != scc {
        return false;
      }
      r := GMatch(s, s0 + 1, p, pp);
    }
  }

  method Bracket(s: string, s0: nat, p: string, p0: nat) returns (r: bool)
    requires '\0' !in s && '\0' !in p && s0 <= |s| && p0 < |p| && p[p0] == '['
    ensures r <==> Matches(Items(p, p0), s[s0..])
    decreases |p| - p0, 0
  {
    hide Members;
    if s0 == |s| {
      return false;
    }
    var pp := p0 + 1;
    var notflag := false;
    if At(p, pp) == '!' {
      notflag := true;
      pp := pp + 1;
    }
    var ok;
    ok, pp := MatchClass(s[s0], p, pp, notflag);
    assert s[s0..][0] == s[s0] && s[s0..][1..] == s[s0 + 1..];
    if !ok {
      return false;
    }
    r := GMatch(s, s0 + 1, p, pp);
  }

  method Star(s: string, s0: nat, p: string, p0: nat) returns (r: bool)
    requires '\0' !in s && '\0' !in p && s0 <= |s| && p0 < |p| && p[p0] == '*'
    ensures r <==> Matches(Items(p, p0), s[s0..])
    decreases |p| - p0, 0
  {
    hide Members, Items, Matches;
    var pp := p0 + 1;
    ghost var t := s[s0..];
    while At(p, pp) == '*'
      invariant p0 < pp <= |p| && p[pp - 1] == '*' && (Matches(Items(p, pp - 1), t) <==> Matches(Items(p, p0), t))
      decreases |p| - pp
    {
      ItemsAt(p, pp);
      ItemsAt(p, pp + 1);
      StarStar(Items(p, pp - 1), t);
      pp := pp + 1;
    }
    ItemsAt(p, pp);
    if pp == |p| {
      LastStar(t);
      return true;
    }
    StarThen(Items(p, pp - 1), t);
    r := TrySuffixes(s, s0, p, pp);
  }

  /** What a star is in front of. */
  lemma ItemsAt(p: string, i: nat)
    requires 0 < i <= |p| && p[i - 1] == '*'
    ensures Items(p, i - 1) == [Many] + Items(p, i) && Items(p, i - 1)[1..] == Items(p, i) && Items(p, i - 1)[0] == Many
    ensures i == |p| ==> Items(p, i - 1) == [Many]
    ensures i < |p| ==> Items(p, i) != [] && (Items(p, i)[0].Many? <==> p[i] == '*')
  {
  }

  /** The loop over the suffixes that are not empty. */
  method TrySuffixes(s: string, s0: nat, p: string, p0: nat) returns (r: bool)
    requires '\0' !in s && '\0' !in p && s0 <= |s| && p0 <= |p|
    ensures r <==> exists k :: 0 <= k < |s[s0..]| && Matches(Items(p, p0), s[s0..][k..])
    decreases |p| - p0, 2
  {
    hide Items, Matches;
    var i := s0;
    while i < |s|
      invariant s0 <= i <= |s|
      invariant forall k :: 0 <= k < i - s0 ==> !Matches(Items(p, p0), s[s0..][k..])
    {
      assert s[s0..][i - s0..] == s[i..];
      r := GMatch(s, i, p, p0);
      if r {
        return;
      }
      i := i + 1;
    }
    return false;
  }
}
