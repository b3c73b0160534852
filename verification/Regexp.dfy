/**
 What a compiled regular expression of regexp.h means.

 A pattern is a list of nodes: one-character expressions with a repetition, group
 marks, and the end-of-text anchor.  The language is defined by counts; the search
 order of the backtracking matcher is a function of its own, and it is proved to
 find a match whenever there is one, and the one with the greatest counts in
 lexicographic order.
 */
module Regexp {
  import opened Prelude

  type Byte = x: int | 0 <= x < 256

  type Text = s: seq<Byte> | 0 !in s

  /** A text is followed by a NUL. */
  function At(s: Text, i: nat): Byte
    requires i <= |s|
  {
    if i < |s| then s[i] else 0
  }

  /** A one-character expression. */
  datatype Atom = Any | Char(c: Byte) | Class(negated: bool, members: set<Byte>)

  /** How often it is to be repeated; an upper count of 255 stands for no upper count. */
  datatype Repeat = One | Star | Count(low: Byte, high: Byte)

  datatype Node = Item(atom: Atom, rep: Repeat) | Open(n: nat) | Close(n: nat) | EndText

  /** The start and end positions of the nine groups. */
  datatype Groups = Groups(starts: seq<int>, ends: seq<int>)

  predicate Accepts(a: Atom, c: Byte) {
    match a
    case Any => c != 0
    case Char(x) => c == x
    case Class(negated, members) => c != 0 && (c in members) != negated
  }

  /** The counts a repetition allows; "no upper count" is low + 20000 in the code. */
  predicate Allows(r: Repeat, n: nat) {
    match r
    case One => n == 1
    case Star => true
    case Count(low, high) => low <= n <= (if high == 255 then low + 20000 else high)
  }

  ghost predicate AllAccepted(a: Atom, s: Text, i: nat, n: nat) {
    i + n <= |s| && forall k :: i <= k < i + n ==> Accepts(a, s[k])
  }

  /** The counts `path` lead nodes[k..] from position i to position j. */
  ghost predicate Leads(nodes: seq<Node>, k: nat, s: Text, i: nat, path: seq<nat>, j: nat)
    requires k <= |nodes|
    decreases |nodes| - k
  {
    if k == |nodes| then path == [] && i == j
    else match nodes[k]
      case Item(a, r) =>
        path != [] && Allows(r, path[0]) && AllAccepted(a, s, i, path[0]) && Leads(nodes, k + 1, s, i + path[0], path[1..], j)
      case EndText => i == |s| && Leads(nodes, k + 1, s, i, path, j)
      case _ => Leads(nodes, k + 1, s, i, path, j)
  }

  /** One count for every item. */
  lemma {:induction false} SameLength(nodes: seq<Node>, k: nat, s: Text, i: nat, p: seq<nat>, j: nat, i': nat, q: seq<nat>, j': nat)
    requires k <= |nodes| && Leads(nodes, k, s, i, p, j) && Leads(nodes, k, s, i', q, j')
    ensures |p| == |q|
    decreases |nodes| - k
  {
    if k < |nodes| {
      match nodes[k]
      case Item(_, _) => SameLength(nodes, k + 1, s, i + p[0], p[1..], j, i' + q[0], q[1..], j');
      case _ => SameLength(nodes, k + 1, s, i, p, j, i', q, j');
    }
  }

  /** s[i..j] is in the language of nodes[k..]. */
  ghost predicate Matches(nodes: seq<Node>, k: nat, s: Text, i: nat, j: nat)
    requires k <= |nodes|
  {
    exists path :: Leads(nodes, k, s, i, path, j)
  }

  /** p comes no later than q when longer counts are tried first. */
  ghost predicate AtMost(q: seq<nat>, p: seq<nat>)
    requires |q| == |p|
  {
    q == [] || q[0] < p[0] || (q[0] == p[0] && AtMost(q[1..], p[1..]))
  }

  // ----- the search order of the matcher

  /** How many characters from i on are accepted, up to `cap` of them. */
  ghost function Run(a: Atom, s: Text, i: nat, cap: nat): (n: nat)
    requires i <= |s|
    ensures AllAccepted(a, s, i, n) && n <= cap && i + n <= |s|
    ensures n == cap || i + n == |s| || !Accepts(a, s[i + n])
    decreases cap
  {
    if cap > 0 && i < |s| && Accepts(a, s[i]) then 1 + Run(a, s, i + 1, cap - 1) else 0
  }

  ghost function Low(r: Repeat): nat {
    match r case One => 1 case Star => 0 case Count(low, _) => low
  }

  /** The cap of the greedy scan after the first `low` characters. */
  ghost function Extra(r: Repeat, s: Text): (n: nat) {
    match r
    case One => 0
    case Star => |s| + 1
    case Count(low, high) => if high == 255 then 20000 else if low <= high then high - low else 0
  }

  ghost predicate WellFormedNode(x: Node) {
    match x
    case Item(a, r) => (a.Char? ==> a.c != 0) && (a.Class? ==> 0 !in a.members) && (r.Count? ==> r.low <= r.high && r.low < 255)
    case Open(n) => n < 9
    case Close(n) => n < 9
    case EndText => true
  }

  ghost predicate WellFormed(nodes: seq<Node>) {
    forall k :: 0 <= k < |nodes| ==> WellFormedNode(nodes[k])
  }

  /** The backtracking search of nodes[k..] at position i: where it ends, and the groups on the way. */
  ghost function First(nodes: seq<Node>, k: nat, s: Text, i: nat, g: Groups): (r: Option<(nat, Groups)>)
    requires k <= |nodes| && i <= |s| && WellFormed(nodes) && |g.starts| == |g.ends| == 9
    ensures r.Some? ==> i <= r.value.0 <= |s| && |r.value.1.starts| == |r.value.1.ends| == 9
    decreases |nodes| - k, 0, 0
  {
    if k == |nodes| then Some((i, g))
    else match nodes[k]
      case Item(a, r) =>
        var low := Low(r);
        if Run(a, s, i, low) < low then None
        else Down(nodes, k + 1, s, i + low, i + low + Run(a, s, i + low, Extra(r, s)), g)
      case Open(n) => First(nodes, k + 1, s, i, g.(starts := g.starts[n := i]))
      case Close(n) => First(nodes, k + 1, s, i, g.(ends := g.ends[n := i]))
      case EndText => if i == |s| then First(nodes, k + 1, s, i, g) else None
  }

  /** Tries nodes[k..] at `to`, then one back, and so on down to `from`. */
  ghost function Down(nodes: seq<Node>, k: nat, s: Text, from: nat, to: nat, g: Groups): (r: Option<(nat, Groups)>)
    requires k <= |nodes| && from <= to <= |s| && WellFormed(nodes) && |g.starts| == |g.ends| == 9
    ensures r.Some? ==> from <= r.value.0 <= |s| && |r.value.1.starts| == |r.value.1.ends| == 9
    decreases |nodes| - k, 1, to
  {
    var here := First(nodes, k, s, to, g);
    if here.Some? then here
    else if to > from then Down(nodes, k, s, from, to - 1, g)
    else None
  }

  // ----- the groups of a match

  /** Where nodes[m] is reached on the way from nodes[k] at i: after the counts of the items in between. */
  ghost function Reached(nodes: seq<Node>, k: nat, m: nat, i: nat, path: seq<nat>): nat
    requires k <= m <= |nodes|
    decreases m - k
  {
    if k == m then i
    else if nodes[k].Item? then (if path == [] then i else Reached(nodes, k + 1, m, i + path[0], path[1..]))
    else Reached(nodes, k + 1, m, i, path)
  }

  /** The number of items from nodes[k] up to nodes[m]. */
  ghost function Items(nodes: seq<Node>, k: nat, m: nat): nat
    requires k <= m <= |nodes|
    decreases m - k
  {
    if k == m then 0 else (if nodes[k].Item? then 1 else 0) + Items(nodes, k + 1, m)
  }

  /** That is: the part of the pattern before nodes[m] matches up to there, with its share of the counts. */
  lemma {:induction false} ReachedLeads(nodes: seq<Node>, k: nat, m: nat, s: Text, i: nat, path: seq<nat>, j: nat)
    requires k <= m <= |nodes| && Leads(nodes, k, s, i, path, j)
    ensures Items(nodes, k, m) <= |path|
    ensures Leads(nodes[..m], k, s, i, path[..Items(nodes, k, m)], Reached(nodes, k, m, i, path))
    decreases m - k
  {
    if k < m {
      assert nodes[..m][k] == nodes[k];
      match nodes[k]
      case Item(a, r) =>
        ReachedLeads(nodes, k + 1, m, s, i + path[0], path[1..], j);
        var c := Items(nodes, k + 1, m);
        assert path[..c + 1][1..] == path[1..][..c];
      case _ => ReachedLeads(nodes, k + 1, m, s, i, path, j);
    }
  }

  /** nodes[m] is the last x from nodes[k] on. */
  ghost predicate LastOf(nodes: seq<Node>, k: nat, m: nat, x: Node) {
    k <= m < |nodes| && nodes[m] == x && forall l :: m < l < |nodes| ==> nodes[l] != x
  }

  /** A position holds where the last such mark was reached, or what it held before if there is none. */
  ghost predicate MarkAt(nodes: seq<Node>, k: nat, i: nat, path: seq<nat>, x: Node, was: int, now: int) {
    && (forall m: nat :: LastOf(nodes, k, m, x) ==> now == Reached(nodes, k, m, i, path))
    && ((forall l :: k <= l < |nodes| ==> nodes[l] != x) ==> now == was)
  }

  /** All eighteen of them. */
  ghost predicate MarksAt(nodes: seq<Node>, k: nat, i: nat, path: seq<nat>, g: Groups, h: Groups) {
    && |g.starts| == |g.ends| == |h.starts| == |h.ends| == 9
    && forall n: nat :: n < 9 ==> MarkAt(nodes, k, i, path, Open(n), g.starts[n], h.starts[n]) && MarkAt(nodes, k, i, path, Close(n), g.ends[n], h.ends[n])
  }

  /** From one node to the next, with the new value that node gives the mark, if it does. */
  lemma MarkOn(nodes: seq<Node>, k: nat, i: nat, path: seq<nat>, i': nat, path': seq<nat>, x: Node, was: int, was': int, now: int)
    requires k < |nodes| && MarkAt(nodes, k + 1, i', path', x, was', now) && !x.Item?
    requires if nodes[k].Item? then path != [] && i' == i + path[0] && path' == path[1..] else i' == i && path' == path
    requires was' == if nodes[k] == x then i else was
    ensures MarkAt(nodes, k, i, path, x, was, now)
  {
    forall m: nat | LastOf(nodes, k, m, x)
      ensures now == Reached(nodes, k, m, i, path)
    {
      if m > k {
        assert LastOf(nodes, k + 1, m, x);
      }
    }
  }

  lemma MarksOn(nodes: seq<Node>, k: nat, i: nat, path: seq<nat>, i': nat, path': seq<nat>, g: Groups, g': Groups, h: Groups)
    requires k < |nodes| && MarksAt(nodes, k + 1, i', path', g', h) && |g.starts| == |g.ends| == 9
    requires if nodes[k].Item? then path != [] && i' == i + path[0] && path' == path[1..] else i' == i && path' == path
    requires match nodes[k]
             case Open(n) => n < 9 && g' == g.(starts := g.starts[n := i])
             case Close(n) => n < 9 && g' == g.(ends := g.ends[n := i])
             case _ => g' == g
    ensures MarksAt(nodes, k, i, path, g, h)
  {
    hide MarkAt;
    forall n: nat | n < 9
      ensures MarkAt(nodes, k, i, path, Open(n), g.starts[n], h.starts[n]) && MarkAt(nodes, k, i, path, Close(n), g.ends[n], h.ends[n])
    {
      MarkOn(nodes, k, i, path, i', path', Open(n), g.starts[n], g'.starts[n], h.starts[n]);
      MarkOn(nodes, k, i, path, i', path', Close(n), g.ends[n], g'.ends[n], h.ends[n]);
    }
  }

  /** A position holds where the part of the pattern before the last such mark has matched up to. */
  ghost predicate GroupAt(nodes: seq<Node>, s: Text, i: nat, path: seq<nat>, x: Node, was: int, now: int) {
    && (forall m: nat :: LastOf(nodes, 0, m, x) ==>
          Items(nodes, 0, m) <= |path| && now >= 0 && Leads(nodes[..m], 0, s, i, path[..Items(nodes, 0, m)], now))
    && (x !in nodes ==> now == was)
  }

  ghost predicate GroupsAt(nodes: seq<Node>, s: Text, i: nat, path: seq<nat>, g: Groups, h: Groups) {
    && |g.starts| == |g.ends| == |h.starts| == |h.ends| == 9
    && forall n: nat :: n < 9 ==>
         GroupAt(nodes, s, i, path, Open(n), g.starts[n], h.starts[n]) && GroupAt(nodes, s, i, path, Close(n), g.ends[n], h.ends[n])
  }

  lemma GroupMeaning(nodes: seq<Node>, s: Text, i: nat, path: seq<nat>, j: nat, g: Groups, h: Groups)
    requires Leads(nodes, 0, s, i, path, j) && MarksAt(nodes, 0, i, path, g, h)
    ensures GroupsAt(nodes, s, i, path, g, h)
  {
    hide Leads, Reached, Items;
    forall n: nat | n < 9
      ensures GroupAt(nodes, s, i, path, Open(n), g.starts[n], h.starts[n]) && GroupAt(nodes, s, i, path, Close(n), g.ends[n], h.ends[n])
    {
      GroupOf(nodes, s, i, path, j, Open(n), g.starts[n], h.starts[n]);
      GroupOf(nodes, s, i, path, j, Close(n), g.ends[n], h.ends[n]);
    }
  }

  lemma GroupOf(nodes: seq<Node>, s: Text, i: nat, path: seq<nat>, j: nat, x: Node, was: int, now: int)
    requires Leads(nodes, 0, s, i, path, j) && MarkAt(nodes, 0, i, path, x, was, now)
    ensures GroupAt(nodes, s, i, path, x, was, now)
  {
    hide Leads, Reached, Items;
    forall m: nat | LastOf(nodes, 0, m, x)
      ensures Items(nodes, 0, m) <= |path| && now >= 0 && Leads(nodes[..m], 0, s, i, path[..Items(nodes, 0, m)], now)
    {
      ReachedLeads(nodes, 0, m, s, i, path, j);
    }
  }

  lemma MarksNone(nodes: seq<Node>, i: nat, path: seq<nat>, g: Groups)
    requires |g.starts| == |g.ends| == 9
    ensures MarksAt(nodes, |nodes|, i, path, g, g)
  {
  }

  // ----- the search finds the first match of the language

  /** Where the descent stops. */
  lemma {:induction false} DownStops(nodes: seq<Node>, k: nat, s: Text, from: nat, to: nat, g: Groups) returns (at: nat)
    requires k <= |nodes| && from <= to <= |s| && WellFormed(nodes) && |g.starts| == |g.ends| == 9
    ensures from <= at <= to && Down(nodes, k, s, from, to, g) == First(nodes, k, s, at, g)
    ensures forall x: nat :: at < x <= to ==> First(nodes, k, s, x, g).None?
    ensures First(nodes, k, s, at, g).Some? || at == from
    decreases (to)
  {
    if First(nodes, k, s, to, g).None? && to > from {
      at := DownStops(nodes, k, s, from, to - 1, g);
    } else {
      at := to;
    }
  }

  /** The scan stops at the longest count the repetition allows. */
  lemma RunIsLongest(a: Atom, r: Repeat, s: Text, i: nat, n: nat)
    requires i <= |s| && (r.Count? ==> r.low <= r.high)
    ensures var low := Low(r);
            Allows(r, n) && AllAccepted(a, s, i, n) <==>
            Run(a, s, i, low) == low && low <= n <= low + Run(a, s, i + low, Extra(r, s))
  {
    var low := Low(r);
    var head := Run(a, s, i, low);
    assert AllAccepted(a, s, i, head);
    if head == low {
      var more := Run(a, s, i + low, Extra(r, s));
      assert AllAccepted(a, s, i + low, more);
    }
  }

  /**
   The search fails exactly when no counts lead anywhere, and otherwise follows the
   greatest ones: `path` is matched and no other matching list of counts exceeds it.
   */
  lemma {:induction false} FirstIsGreatest(nodes: seq<Node>, k: nat, s: Text, i: nat, g: Groups) returns (path: seq<nat>)
    requires k <= |nodes| && i <= |s| && WellFormed(nodes) && |g.starts| == |g.ends| == 9
    ensures First(nodes, k, s, i, g).Some? ==> Leads(nodes, k, s, i, path, First(nodes, k, s, i, g).value.0)
    ensures First(nodes, k, s, i, g).Some? ==>
              forall q, j: nat :: Leads(nodes, k, s, i, q, j) ==> |q| == |path| && AtMost(q, path)
    ensures First(nodes, k, s, i, g).Some? ==> MarksAt(nodes, k, i, path, g, First(nodes, k, s, i, g).value.1)
    ensures First(nodes, k, s, i, g).None? ==> forall q, j: nat :: !Leads(nodes, k, s, i, q, j)
    decreases |nodes| - k
  {
    hide MarksAt;
    path := [];
    if k == |nodes| {
      MarksNone(nodes, i, path, g);
    } else if nodes[k].Item? {
      path := ItemIsGreatest(nodes, k, s, i, g);
    } else {
      assert WellFormedNode(nodes[k]);
      var g' := match nodes[k]
        case Open(n) => g.(starts := g.starts[n := i])
        case Close(n) => g.(ends := g.ends[n := i])
        case _ => g;
      path := FirstIsGreatest(nodes, k + 1, s, i, g');
      if First(nodes, k, s, i, g).Some? {
        MarksOn(nodes, k, i, path, i, path, g, g', First(nodes, k, s, i, g).value.1);
      }
    }
  }

  lemma {:induction false} ItemIsGreatest(nodes: seq<Node>, k: nat, s: Text, i: nat, g: Groups) returns (path: seq<nat>)
    requires k < |nodes| && nodes[k].Item? && i <= |s| && WellFormed(nodes) && |g.starts| == |g.ends| == 9
    ensures First(nodes, k, s, i, g).Some? ==> Leads(nodes, k, s, i, path, First(nodes, k, s, i, g).value.0)
    ensures First(nodes, k, s, i, g).Some? ==>
              forall q, j: nat :: Leads(nodes, k, s, i, q, j) ==> |q| == |path| && AtMost(q, path)
    ensures First(nodes, k, s, i, g).Some? ==> MarksAt(nodes, k, i, path, g, First(nodes, k, s, i, g).value.1)
    ensures First(nodes, k, s, i, g).None? ==> forall q, j: nat :: !Leads(nodes, k, s, i, q, j)
    decreases |nodes| - k, 0
  {
    hide Run, Down, Allows, AllAccepted, Low, Extra, MarksAt;
    var Item(a, r) := nodes[k];
    var low := Low(r);
    assert WellFormedNode(nodes[k]);
    path := [];
    if Run(a, s, i, low) < low {
      forall q, j: nat | Leads(nodes, k, s, i, q, j)
        ensures false
      {
        RunIsLongest(a, r, s, i, q[0]);
      }
      return;
    }
    var n := low + Run(a, s, i + low, Extra(r, s));
    var at := DownStops(nodes, k + 1, s, i + low, i + n, g);
    RunIsLongest(a, r, s, i, at - i);
    var rest := FirstIsGreatest(nodes, k + 1, s, at, g);
    path := [at - i] + rest;
    assert path[1..] == rest;
    if First(nodes, k, s, i, g).Some? {
      MarksOn(nodes, k, i, path, at, rest, g, g, First(nodes, k, s, i, g).value.1);
    }
    forall q, j: nat | Leads(nodes, k, s, i, q, j)
      ensures First(nodes, k, s, i, g).Some? && |q| == |path| && AtMost(q, path)
    {
      RunIsLongest(a, r, s, i, q[0]);
      assert Leads(nodes, k + 1, s, i + q[0], q[1..], j);
      var other := FirstIsGreatest(nodes, k + 1, s, i + q[0], g);
      assert First(nodes, k + 1, s, i + q[0], g).Some?;
      assert i + q[0] <= at;
      assert First(nodes, k, s, i, g) == First(nodes, k + 1, s, at, g);
      SameLength(nodes, k + 1, s, i + q[0], q[1..], j, at, rest, First(nodes, k + 1, s, at, g).value.0);
    }
  }

  /** The search succeeds exactly when some prefix is in the language. */
  lemma FirstIffMatches(nodes: seq<Node>, s: Text, i: nat, g: Groups)
    requires i <= |s| && WellFormed(nodes) && |g.starts| == |g.ends| == 9
    ensures First(nodes, 0, s, i, g).Some? <==> exists j: nat :: Matches(nodes, 0, s, i, j)
    ensures First(nodes, 0, s, i, g).Some? ==> Matches(nodes, 0, s, i, First(nodes, 0, s, i, g).value.0)
  {
    var path := FirstIsGreatest(nodes, 0, s, i, g);
    var r := First(nodes, 0, s, i, g);
    if r.Some? {
      assert Leads(nodes, 0, s, i, path, r.value.0);
      assert Matches(nodes, 0, s, i, r.value.0);
    }
  }
}
