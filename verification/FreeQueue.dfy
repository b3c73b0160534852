/**
 The free queue of libmalloc: a doubly linked list between two sentinels, changed by
 macros that relink nodes in a fixed order.
 */
module FreeQueues {
  class Header {
    var nextfree: Header?
    var prevfree: Header?

    constructor ()
      ensures nextfree == null && prevfree == null
    {
      nextfree, prevfree := null, null;
    }
  }

  /** Forward and backward links run along these nodes, each of which occurs once. */
  ghost predicate Linked(nodes: seq<Header>)
    reads nodes`nextfree, nodes`prevfree
  {
    && (forall i {:trigger nodes[i].nextfree} :: 0 <= i < |nodes| - 1 ==> nodes[i].nextfree == nodes[i + 1])
    && (forall i {:trigger nodes[i].prevfree} :: 1 <= i < |nodes| ==> nodes[i].prevfree == nodes[i - 1])
    && (forall i, j :: 0 <= i < j < |nodes| ==> nodes[i] != nodes[j])
  }

  /** The queue turned so that node k comes first. */
  function Rotated<T>(queue: seq<T>, k: nat): seq<T>
    requires k <= |queue|
  {
    queue[k..] + queue[..k]
  }

  lemma RotatedKeeps<T>(queue: seq<T>, k: nat)
    requires k < |queue|
    ensures multiset(Rotated(queue, k)) == multiset(queue) && Rotated(queue, k)[0] == queue[k]
    ensures Rotated(Rotated(queue, k), |queue| - k) == queue
  {
    assert queue == queue[..k] + queue[k..];
  }

  /** The nodes linked in a circle. */
  ghost predicate Ring(q: seq<Header>)
    reads q`nextfree, q`prevfree
  {
    && q != []
    && (forall i {:trigger q[i].nextfree} :: 0 <= i < |q| ==> q[i].nextfree == q[if i + 1 < |q| then i + 1 else 0])
    && (forall i {:trigger q[i].prevfree} :: 0 <= i < |q| ==> q[i].prevfree == q[if i > 0 then i - 1 else |q| - 1])
    && (forall i, j :: 0 <= i < j < |q| ==> q[i] != q[j])
  }

  lemma RingRotated(q: seq<Header>, k: nat)
    requires Ring(q) && k < |q|
    ensures Ring(Rotated(q, k)) && Rotated(q, k)[0] == q[k]
    ensures forall y :: y in Rotated(q, k) <==> y in q
  {
    hide Rotated, Turned;
    var r := Rotated(q, k);
    var n := |q|;
    SameMembers(q, k);
    forall i | 0 <= i < n
      ensures r[i].nextfree == r[if i + 1 < n then i + 1 else 0]
    {
      TurnedAt(q, i, k);
      TurnedAt(q, if i + 1 < n then i + 1 else 0, k);
      TurnedOn(i, n, k);
      assert q[Turned(i, n, k)].nextfree == q[if Turned(i, n, k) + 1 < n then Turned(i, n, k) + 1 else 0];
    }
    forall i | 0 <= i < n
      ensures r[i].prevfree == r[if i > 0 then i - 1 else n - 1]
    {
      var j := if i > 0 then i - 1 else n - 1;
      TurnedAt(q, i, k);
      TurnedAt(q, j, k);
      TurnedOn(j, n, k);
      assert q[Turned(i, n, k)].prevfree == q[if Turned(i, n, k) > 0 then Turned(i, n, k) - 1 else n - 1];
    }
    forall i, j | 0 <= i < j < n
      ensures r[i] != r[j]
    {
      TurnedAt(q, i, k);
      TurnedAt(q, j, k);
      TurnedApart(i, j, n, k);
    }
  }

  lemma SameMembers(q: seq<Header>, k: nat)
    requires k < |q|
    ensures |Rotated(q, k)| == |q| && Rotated(q, k)[0] == q[k]
    ensures forall y :: y in Rotated(q, k) <==> y in q
  {
    assert q == q[..k] + q[k..];
  }

  /** Turning keeps what comes next in the circle. */
  lemma TurnedOn(i: nat, n: nat, k: nat)
    requires i < n && k < n
    ensures Turned(if i + 1 < n then i + 1 else 0, n, k) == (if Turned(i, n, k) + 1 < n then Turned(i, n, k) + 1 else 0)
    ensures Turned(i, n, k) < n
  {
  }

  lemma TurnedApart(i: nat, j: nat, n: nat, k: nat)
    requires i < j < n && k < n
    ensures Turned(i, n, k) != Turned(j, n, k) && Turned(i, n, k) < n && Turned(j, n, k) < n
  {
  }

  lemma TurnedAt(q: seq<Header>, i: nat, k: nat)
    requires i < |q| && k < |q|
    ensures |Rotated(q, k)| == |q| && Turned(i, |q|, k) < |q| && Rotated(q, k)[i] == q[Turned(i, |q|, k)]
  {
  }

  /** Where the node at position i of the turned queue was before. */
  function Turned(i: nat, n: nat, k: nat): nat
    requires i < n && k < n
  {
    if i < n - k then i + k else i - (n - k)
  }

  /** The links lead past node m. */
  lemma LinkedWithout(nodes: seq<Header>, m: nat)
    requires 0 < m < |nodes| - 1 && nodes[m - 1].nextfree == nodes[m + 1] && nodes[m + 1].prevfree == nodes[m - 1]
    requires forall i {:trigger nodes[i].nextfree} :: 0 <= i < |nodes| - 1 && i != m && i != m - 1 ==> nodes[i].nextfree == nodes[i + 1]
    requires forall i {:trigger nodes[i].prevfree} :: 1 <= i < |nodes| && i != m && i != m + 1 ==> nodes[i].prevfree == nodes[i - 1]
    requires forall i, j :: 0 <= i < j < |nodes| ==> nodes[i] != nodes[j]
    ensures Linked(nodes[..m] + nodes[m + 1..])
  {
    var now := nodes[..m] + nodes[m + 1..];
    forall i | 0 <= i < |now| - 1
      ensures now[i].nextfree == now[i + 1] && now[i + 1].prevfree == now[i]
    {
      var j := if i < m then i else i + 1;
      assert now[i] == nodes[j] && now[i + 1] == nodes[if i + 1 < m then i + 1 else i + 2];
      assert j != m - 1 ==> nodes[j].nextfree == nodes[j + 1] && nodes[j + 1].prevfree == nodes[j];
    }
    forall i, j | 0 <= i < j < |now|
      ensures now[i] != now[j]
    {
      assert now[i] == nodes[if i < m then i else i + 1] && now[j] == nodes[if j < m then j else j + 1];
    }
  }

  class FreeQueue {
    const first: Header
    const last: Header
    ghost var queue: seq<Header>

    /** An empty queue between its sentinels `freeptr[0]` and `freeptr[1]`. */
    constructor ()
      ensures Valid() && queue == [] && fresh(first) && fresh(last)
    {
      first := new Header();
      last := new Header();
      queue := [];
      new;
      first.nextfree := last;
      last.prevfree := first;
    }

    ghost function Nodes(): seq<Header>
      reads this
    {
      [first] + queue + [last]
    }

    ghost predicate Valid()
      reads this, Nodes()
    {
      Linked(Nodes())
    }

    /** `ADDFREEQ`. */
    method AddFreeQ(x: Header)
      requires Valid() && x !in Nodes()
      modifies this`queue, Nodes(), x
      ensures Valid() && queue == [x] + old(queue)
    {
      ghost var nodes := Nodes();
      assert nodes[0] == first && first.nextfree == nodes[1];
      assert [x][0] == x;
      x.prevfree := first;
      x.nextfree := first.nextfree;
      first.nextfree.prevfree := x;
      first.nextfree := x;
      queue := [x] + queue;
      ghost var now := Nodes();
      assert now[0] == first && now[1] == x && forall i :: 2 <= i < |now| ==> now[i] == nodes[i - 1];
      assert x.nextfree != x && x.prevfree != x;
    }

    /** `DELFREEQ`. */
    method DelFreeQ(x: Header, ghost k: nat)
      requires Valid() && k < |queue| && queue[k] == x
      modifies this`queue, Nodes()
      ensures Valid() && queue == old(queue[..k] + queue[k + 1..])
    {
      ghost var nodes := Nodes();
      assert nodes[k + 1] == x && x.nextfree == nodes[k + 2] && x.prevfree == nodes[k];
      x.prevfree.nextfree := x.nextfree;
      x.nextfree.prevfree := x.prevfree;
      LinkedWithout(nodes, k + 1);
      queue := queue[..k] + queue[k + 1..];
      assert Nodes() == nodes[..k + 1] + nodes[k + 2..];
    }

    /** The first half of `MOVEHEAD`: the last and the first free block are linked. */
    method CloseRing()
      requires Valid() && queue != []
      modifies Nodes()
      ensures Ring(queue) && Between()
    {
      hide Linked;
      Inside();
      assert Nodes()[|queue|] == last.prevfree && Nodes()[1] == first.nextfree;
      last.prevfree.nextfree := first.nextfree;
      first.nextfree.prevfree := last.prevfree;
    }

    /** The links along the queue itself, and those of the sentinels. */
    lemma Inside()
      requires Valid() && queue != []
      ensures Between() && last.prevfree == queue[|queue| - 1] && first.nextfree == queue[0]
      ensures forall i {:trigger queue[i].nextfree} :: 0 <= i < |queue| - 1 ==> queue[i].nextfree == queue[i + 1]
      ensures forall i {:trigger queue[i].prevfree} :: 1 <= i < |queue| ==> queue[i].prevfree == queue[i - 1]
      ensures forall i, j :: 0 <= i < j < |queue| ==> queue[i] != queue[j]
    {
      var nodes := Nodes();
      var n := |queue|;
      assert nodes[0] == first && nodes[n + 1] == last && nodes[1] == queue[0] && nodes[n] == queue[n - 1];
      assert forall i :: 0 <= i < n ==> queue[i] == nodes[i + 1];
      forall i | 0 <= i < n - 1
        ensures queue[i].nextfree == queue[i + 1]
      {
        assert nodes[i + 1].nextfree == nodes[i + 2];
      }
      forall i | 1 <= i < n
        ensures queue[i].prevfree == queue[i - 1]
      {
        assert nodes[i + 1].prevfree == nodes[i];
      }
    }

    /** The sentinels are not among the queue. */
    ghost predicate Between()
      reads this
    {
      first != last && first !in queue && last !in queue
    }

    /** The second half: the ring r is cut before its first node x. */
    method CutRing(x: Header, ghost r: seq<Header>)
      requires Ring(r) && r[0] == x && first != last && first !in r && last !in r && forall i :: 0 <= i < |r| ==> r[i] in Nodes()
      modifies Nodes()
      ensures Linked([first] + r + [last])
    {
      ghost var n := |r|;
      assert x.prevfree == r[n - 1] && Nodes()[0] == first && Nodes()[|queue| + 1] == last;
      x.prevfree.nextfree := last;
      last.prevfree := x.prevfree;
      x.prevfree := first;
      first.nextfree := x;
      ghost var nodes := [first] + r + [last];
      assert nodes[0] == first && nodes[n + 1] == last && forall i :: 1 <= i <= n ==> nodes[i] == r[i - 1];
    }

    /** `MOVEHEAD`: the queue is turned so that x is first, also when it is first or alone already. */
    method MoveHead(x: Header, ghost k: nat)
      requires Valid() && k < |queue| && queue[k] == x
      modifies this`queue, Nodes()
      ensures Valid() && queue == Rotated(old(queue), k)
    {
      hide Linked, Ring;
      CloseRing();
      RingRotated(queue, k);
      CutRing(x, Rotated(queue, k));
      queue := Rotated(queue, k);
    }

    /** `checkq`: its assertions hold, and both walks end. */
    method CheckQ() returns (steps: nat)
      requires Valid()
      ensures steps == 2 * |queue| + 2
    {
      ghost var nodes := Nodes();
      assert nodes[|nodes| - 1] == last;
      var p := first;
      steps := 0;
      while p != last
        invariant steps < |nodes| && p == nodes[steps]
        decreases |nodes| - steps
      {
        p := p.nextfree;
        steps := steps + 1;
        assert p == nodes[steps] && nodes[steps - 1].nextfree == p;
        assert p.prevfree.nextfree == p;
      }
      assert steps == |queue| + 1;
      while p != first
        invariant |queue| + 1 <= steps <= 2 * |queue| + 2 && p == nodes[2 * |queue| + 2 - steps]
        decreases 2 * |queue| + 2 - steps
      {
        p := p.prevfree;
        steps := steps + 1;
        ghost var i := 2 * |queue| + 2 - steps;
        assert p == nodes[i] && nodes[i + 1].prevfree == p;
        assert p.nextfree.prevfree == p;
      }
    }
  }
}
