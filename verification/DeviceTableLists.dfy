/**
 The linked attribute lists of `mkdevtabent` and `_moddevtabrec`.
 */
module DeviceTableLists {
  import opened Prelude
  import opened DeviceTable
  import opened DeviceTableEntry

  // ----- the merge as a function on attribute lists

  /** The first attribute of that name gets the new value. */
  function Override(attrs: seq<Attribute>, a: Attribute): (r: seq<Attribute>)
    ensures |r| == |attrs|
  {
    if attrs == [] then []
    else if attrs[0].name == a.name then [a] + attrs[1..]
    else [attrs[0]] + Override(attrs[1..], a)
  }

  function MergeOne(attrs: seq<Attribute>, a: Attribute): seq<Attribute> {
    if a.name in Names(attrs) then Override(attrs, a) else [a] + attrs
  }

  function MergeAll(attrs: seq<Attribute>, changes: seq<Attribute>): seq<Attribute>
    decreases |changes|
  {
    if changes == [] then attrs else MergeAll(MergeOne(attrs, changes[0]), changes[1..])
  }

  /** A device without attributes takes the whole list as it is. */
  function Merged(attrs: seq<Attribute>, changes: seq<Attribute>): seq<Attribute> {
    if attrs == [] then changes else MergeAll(attrs, changes)
  }

  lemma {:induction false} OverrideAt(attrs: seq<Attribute>, a: Attribute, k: nat)
    requires k < |attrs| && attrs[k].name == a.name && forall i :: 0 <= i < k ==> attrs[i].name != a.name
    ensures Override(attrs, a) == attrs[k := a]
  {
    if k > 0 {
      OverrideAt(attrs[1..], a, k - 1);
    }
  }

  lemma {:induction false} OverrideMeaning(attrs: seq<Attribute>, a: Attribute)
    requires a.name in Names(attrs)
    ensures forall n :: Lookup(Override(attrs, a), n) == if n == a.name then Some(a.value) else Lookup(attrs, n)
    ensures forall i :: 0 <= i < |attrs| ==> Override(attrs, a)[i].name == attrs[i].name
  {
    if attrs[0].name != a.name {
      var i :| 0 <= i < |attrs| && attrs[i].name == a.name;
      assert attrs[1..][i - 1].name == a.name;
      OverrideMeaning(attrs[1..], a);
      var r := Override(attrs, a);
      assert r[1..] == Override(attrs[1..], a);
    } else {
      assert Override(attrs, a)[1..] == attrs[1..];
    }
  }

  lemma MergeOneMeaning(attrs: seq<Attribute>, a: Attribute)
    ensures forall n :: Lookup(MergeOne(attrs, a), n) == if n == a.name then Some(a.value) else Lookup(attrs, n)
    ensures Distinct(attrs) ==> Distinct(MergeOne(attrs, a))
    ensures MergeOne(attrs, a) != []
  {
    if a.name in Names(attrs) {
      OverrideMeaning(attrs, a);
    } else {
      var r := [a] + attrs;
      assert r[1..] == attrs;
      forall i | 0 <= i < |attrs|
        ensures attrs[i].name != a.name
      {
        assert attrs[i].name in Names(attrs);
      }
    }
  }

  /** The merged list is the old map overridden by the new one, and repeats no name. */
  lemma {:induction false} MergedMeaning(attrs: seq<Attribute>, changes: seq<Attribute>)
    requires Distinct(changes)
    ensures forall n :: Lookup(Merged(attrs, changes), n) == if n in Names(changes) then Lookup(changes, n) else Lookup(attrs, n)
    ensures Distinct(attrs) ==> Distinct(Merged(attrs, changes))
    decreases |changes|
  {
    hide MergeOne, Distinct;
    if attrs != [] && changes != [] {
      var a, rest := changes[0], changes[1..];
      MergeOneMeaning(attrs, a);
      DistinctTail(changes);
      MergedMeaning(MergeOne(attrs, a), rest);
      assert Merged(attrs, changes) == Merged(MergeOne(attrs, a), rest);
      forall n
        ensures n in Names(changes) <==> n == a.name || n in Names(rest)
      {
        NamesStep(changes, n);
      }
    }
  }

  function NamesOf(attrs: seq<Attribute>): (r: seq<string>)
    ensures |r| == |attrs| && forall i :: 0 <= i < |r| ==> r[i] == attrs[i].name
  {
    seq(|attrs|, i requires 0 <= i < |attrs| => attrs[i].name)
  }

  /** The names the list did not have, the last one first. */
  function NewNames(attrs: seq<Attribute>, changes: seq<Attribute>): seq<string> {
    if changes == [] then []
    else NewNames(attrs, changes[1..]) + if changes[0].name in Names(attrs) then [] else [changes[0].name]
  }

  /** Old names stay in their order and new ones come before them, the last one first. */
  lemma {:induction false} MergedOrder(attrs: seq<Attribute>, changes: seq<Attribute>)
    requires Distinct(changes)
    ensures NamesOf(MergeAll(attrs, changes)) == NewNames(attrs, changes) + NamesOf(attrs)
    decreases |changes|
  {
    hide Names, Override, Distinct;
    if changes == [] {
      assert [] + NamesOf(attrs) == NamesOf(attrs);
    } else {
      var a, rest := changes[0], changes[1..];
      var m := MergeOne(attrs, a);
      DistinctTail(changes);
      MergedOrder(m, rest);
      OneName(attrs, a);
      SameNew(attrs, m, a.name, rest);
      var new_ := if a.name in Names(attrs) then [] else [a.name];
      Associate(NewNames(attrs, rest), new_, NamesOf(attrs));
    }
  }

  lemma OneName(attrs: seq<Attribute>, a: Attribute)
    ensures NamesOf(MergeOne(attrs, a)) == (if a.name in Names(attrs) then [] else [a.name]) + NamesOf(attrs)
    ensures forall n :: n in Names(MergeOne(attrs, a)) <==> n == a.name || n in Names(attrs)
  {
    hide Override;
    if a.name in Names(attrs) {
      OverrideMeaning(attrs, a);
    }
    var m := MergeOne(attrs, a);
    assert NamesOf(m) == (if a.name in Names(attrs) then [] else [a.name]) + NamesOf(attrs);
    forall n
      ensures n in Names(m) <==> n == a.name || n in Names(attrs)
    {
      NamedIn(m, n);
      NamedIn(attrs, n);
    }
  }

  lemma NamedIn(attrs: seq<Attribute>, n: string)
    ensures n in Names(attrs) <==> n in NamesOf(attrs)
  {
    if n in Names(attrs) {
      var i :| 0 <= i < |attrs| && attrs[i].name == n;
      assert NamesOf(attrs)[i] == n;
    }
  }

  lemma {:induction false} SameNew(attrs: seq<Attribute>, m: seq<Attribute>, name: string, changes: seq<Attribute>)
    requires name !in Names(changes) && forall n :: n in Names(m) <==> n == name || n in Names(attrs)
    ensures NewNames(m, changes) == NewNames(attrs, changes)
    decreases |changes|
  {
    hide Names;
    if changes != [] {
      NamesStep(changes, name);
      SameNew(attrs, m, name, changes[1..]);
    }
  }

  lemma DistinctTail(attrs: seq<Attribute>)
    requires Distinct(attrs) && attrs != []
    ensures Distinct(attrs[1..]) && attrs[0].name !in Names(attrs[1..])
  {
    forall i | 0 <= i < |attrs[1..]|
      ensures attrs[1..][i].name != attrs[0].name
    {
      assert attrs[1..][i] == attrs[i + 1];
    }
  }

  lemma NamesStep(attrs: seq<Attribute>, n: string)
    requires attrs != []
    ensures n in Names(attrs) <==> n == attrs[0].name || n in Names(attrs[1..])
  {
    assert attrs == [attrs[0]] + attrs[1..];
  }

  // ----- the nodes

  class AttrVal {
    var attr: string
    var val: Option<string>
    var next: AttrVal?

    constructor (attr: string, val: string)
      ensures this.attr == attr && this.val == Some(val) && next == null
    {
      this.attr, this.val, next := attr, Some(val), null;
    }
  }

  /** A position just behind the nodes is a null pointer. */
  ghost function At(nodes: seq<AttrVal>, i: nat): AttrVal? {
    if i < |nodes| then nodes[i] else null
  }

  /** The nodes from `head` on, in order and each once. */
  ghost predicate Chain(head: AttrVal?, nodes: seq<AttrVal>)
    reads nodes`next
  {
    && head == At(nodes, 0)
    && (forall i {:trigger nodes[i].next} :: 0 <= i < |nodes| ==> nodes[i].next == At(nodes, i + 1))
    && (forall i, j :: 0 <= i < j < |nodes| ==> nodes[i] != nodes[j])
  }

  /** From position k on the nodes hold these attributes. */
  ghost predicate Spells(nodes: seq<AttrVal>, k: nat, attrs: seq<Attribute>)
    reads nodes`attr, nodes`val
  {
    |nodes| == |attrs| && forall i :: k <= i < |nodes| ==> nodes[i].attr == attrs[i].name && nodes[i].val == Some(attrs[i].value)
  }

  class DevTabEnt {
    var alias: string
    var cdevice: Option<string>
    var bdevice: Option<string>
    var pathname: Option<string>
    var attrlist: AttrVal?
    ghost var nodes: seq<AttrVal>

    constructor (alias: string)
      ensures Valid() && nodes == [] && Is(Blank(alias))
    {
      this.alias := alias;
      cdevice, bdevice, pathname, attrlist, nodes := None, None, None, null, [];
    }

    ghost predicate Valid()
      reads this`attrlist, this`nodes, nodes`next
    {
      Chain(attrlist, nodes)
    }

    /** The record as a value. */
    ghost predicate Is(e: Entry)
      reads this, nodes
    {
      && e.Device? && e.alias == alias && e.cdevice == cdevice && e.bdevice == bdevice && e.pathname == pathname
      && Spells(nodes, 0, e.attrs)
    }
  }

  ghost predicate Apart(a: seq<AttrVal>, b: seq<AttrVal>) {
    forall i, j :: 0 <= i < |a| && 0 <= j < |b| ==> a[i] != b[j]
  }

  /** The node takes over the new value. */
  method TakeValue(old_: AttrVal, new_: AttrVal, ghost nodes: seq<AttrVal>, ghost k: nat, ghost attrs: seq<Attribute>, ghost a: Attribute)
    requires k < |nodes| && old_ == nodes[k] && Apart(nodes, [new_]) && new_.val == Some(a.value) && old_.attr == a.name
    requires (forall i, j :: 0 <= i < j < |nodes| ==> nodes[i] != nodes[j]) && Spells(nodes, 0, attrs)
    modifies old_`val, new_`val
    ensures Spells(nodes, 0, attrs[k := a]) && new_.val == None
  {
    assert new_ == [new_][0];
    old_.val := new_.val;
    new_.val := None;
  }

  /** The search of the existing list: the first node of that name takes the value of `new`. */
  method Overwrite(ent: DevTabEnt, new_: AttrVal, ghost attrs: seq<Attribute>, ghost a: Attribute) returns (found: bool)
    requires ent.Valid() && Spells(ent.nodes, 0, attrs) && Apart(ent.nodes, [new_]) && new_.attr == a.name && new_.val == Some(a.value)
    modifies ent.nodes`val, new_`val
    ensures ent.Valid()
    ensures found <==> a.name in Names(attrs)
    ensures Spells(ent.nodes, 0, if found then Override(attrs, a) else attrs)
    ensures new_.val == if found then None else Some(a.value)
  {
    hide Override, Names;
    found := false;
    var old_ := ent.attrlist;
    ghost var k := 0;
    while !found && old_ != null
      invariant k <= |ent.nodes| && old_ == At(ent.nodes, k)
      invariant ent.Valid() && new_.attr == a.name
      invariant !found ==> forall i :: 0 <= i < k ==> attrs[i].name != a.name
      invariant found ==> a.name in Names(attrs)
      invariant Spells(ent.nodes, 0, if found then Override(attrs, a) else attrs)
      invariant new_.val == if found then None else Some(a.value)
      decreases |ent.nodes| - k
    {
      if old_.attr == new_.attr {
        found := true;
        OverrideAt(attrs, a, k);
        TakeValue(old_, new_, ent.nodes, k, attrs, a);
      }
      old_ := old_.next;
      k := k + 1;
    }
  }

  /** Node k leaves the list of changes. */
  method Unlink(chg: DevTabEnt, prevnew: AttrVal?, new_: AttrVal, ghost k: nat) returns (newnew: AttrVal?)
    requires chg.Valid() && k < |chg.nodes| && new_ == chg.nodes[k] && prevnew == if k == 0 then null else chg.nodes[k - 1]
    modifies chg`attrlist, chg`nodes, chg.nodes`next
    ensures chg.Valid() && chg.nodes == old(chg.nodes[..k] + chg.nodes[k + 1..]) && newnew == At(chg.nodes, k)
  {
    ghost var nodes := chg.nodes;
    ghost var rest := nodes[..k] + nodes[k + 1..];
    newnew := new_.next;
    if prevnew != null {
      prevnew.next := newnew;
    } else {
      chg.attrlist := newnew;
    }
    chg.nodes := rest;
    assert forall i :: k <= i < |rest| ==> rest[i] == nodes[i + 1];
  }

  /** And joins the device's list at the front. */
  method PushFront(ent: DevTabEnt, new_: AttrVal)
    requires ent.Valid() && Apart(ent.nodes, [new_])
    modifies ent`attrlist, ent`nodes, new_`next
    ensures ent.Valid() && ent.nodes == [new_] + old(ent.nodes)
  {
    assert [new_][0] == new_;
    ghost var nodes := ent.nodes;
    new_.next := ent.attrlist;
    ent.attrlist := new_;
    ent.nodes := [new_] + nodes;
    assert forall i :: 1 <= i < |ent.nodes| ==> ent.nodes[i] == nodes[i - 1];
  }

  ghost function NodeSet(nodes: seq<AttrVal>): set<AttrVal> {
    set x | x in nodes
  }

  lemma MoveKeepsNodes(mine: seq<AttrVal>, theirs: seq<AttrVal>, k: nat)
    requires k < |theirs|
    ensures NodeSet([theirs[k]] + mine) + NodeSet(theirs[..k] + theirs[k + 1..]) == NodeSet(mine) + NodeSet(theirs)
  {
    assert theirs == theirs[..k] + [theirs[k]] + theirs[k + 1..];
  }

  lemma MoveKeepsApart(mine: seq<AttrVal>, theirs: seq<AttrVal>, k: nat)
    requires k < |theirs| && Apart(mine, theirs) && forall i, j :: 0 <= i < j < |theirs| ==> theirs[i] != theirs[j]
    ensures Apart([theirs[k]] + mine, theirs[..k] + theirs[k + 1..]) && Apart(mine, [theirs[k]])
    ensures (theirs[..k] + theirs[k + 1..])[k..] == theirs[k + 1..]
  {
    var rest := theirs[..k] + theirs[k + 1..];
    assert forall j :: 0 <= j < |rest| ==> rest[j] == theirs[if j < k then j else j + 1];
  }

  /**
   The merge under way: `cur` is merged so far, and of the changes `theirs` those from
   node k on are still to come.
   */
  ghost predicate Merging(ent: DevTabEnt, chg: DevTabEnt, prevnew: AttrVal?, new_: AttrVal?, k: nat, cur: seq<Attribute>, theirs: seq<Attribute>)
    reads ent, chg, ent.nodes, chg.nodes
  {
    && ent != chg && ent.Valid() && chg.Valid() && Apart(ent.nodes, chg.nodes)
    && k <= |chg.nodes| && new_ == At(chg.nodes, k) && prevnew == (if k == 0 then null else chg.nodes[k - 1])
    && Spells(ent.nodes, 0, cur) && Spells(chg.nodes, k, theirs)
  }

  lemma MoveSpells(mine: seq<AttrVal>, theirs: seq<AttrVal>, k: nat, a: seq<Attribute>, b: seq<Attribute>)
    requires k < |theirs| && Spells(mine, 0, a) && Spells(theirs, k, b)
    ensures Spells([theirs[k]] + mine, 0, [b[k]] + a)
    ensures Spells(theirs[..k] + theirs[k + 1..], k, b[..k] + b[k + 1..])
  {
    assert theirs[k].attr == b[k].name;
  }

  /** Node k moves from the changes to the device. */
  method MoveNode(ent: DevTabEnt, chg: DevTabEnt, prevnew: AttrVal?, new0: AttrVal, ghost k: nat, ghost cur: seq<Attribute>, ghost theirs: seq<Attribute>)
    returns (new_: AttrVal?)
    requires Merging(ent, chg, prevnew, new0, k, cur, theirs)
    modifies ent`attrlist, ent`nodes, chg`attrlist, chg`nodes, chg.nodes`next
    ensures k < |theirs| && Merging(ent, chg, prevnew, new_, k, [theirs[k]] + cur, theirs[..k] + theirs[k + 1..])
    ensures NodeSet(ent.nodes) + NodeSet(chg.nodes) == old(NodeSet(ent.nodes) + NodeSet(chg.nodes))
  {
    hide NodeSet, Spells;
    MoveKeepsApart(ent.nodes, chg.nodes, k);
    MoveKeepsNodes(ent.nodes, chg.nodes, k);
    SameLength(chg.nodes, k, theirs);
    MoveSpells(ent.nodes, chg.nodes, k, cur, theirs);
    ghost var mine, rest := ent.nodes, chg.nodes[..k] + chg.nodes[k + 1..];
    new_ := Unlink(chg, prevnew, new0, k);
    assert Spells([new0] + mine, 0, [theirs[k]] + cur) && Spells(rest, k, theirs[..k] + theirs[k + 1..]);
    PushFront(ent, new0);
    assert ent.nodes == [new0] + mine && chg.nodes == rest;
    assert Spells(ent.nodes, 0, [theirs[k]] + cur) && Spells(chg.nodes, k, theirs[..k] + theirs[k + 1..]);
    assert k > 0 ==> chg.nodes[k - 1] == prevnew;
  }

  lemma SameLength(nodes: seq<AttrVal>, k: nat, attrs: seq<Attribute>)
    requires Spells(nodes, k, attrs)
    ensures |nodes| == |attrs|
  {
  }

  /** The whole list of changes, in either case of the code; no node is lost or shared. */
  method MergeLists(ent: DevTabEnt, chg: DevTabEnt, ghost attrs: seq<Attribute>, ghost changes: seq<Attribute>)
    requires ent != chg && ent.Valid() && chg.Valid() && Apart(ent.nodes, chg.nodes)
    requires Spells(ent.nodes, 0, attrs) && Spells(chg.nodes, 0, changes)
    modifies ent`attrlist, ent`nodes, chg`attrlist, chg`nodes, NodeSet(ent.nodes) + NodeSet(chg.nodes)
    ensures ent.Valid() && chg.Valid() && Apart(ent.nodes, chg.nodes)
    ensures Spells(ent.nodes, 0, Merged(attrs, changes))
    ensures NodeSet(ent.nodes) + NodeSet(chg.nodes) == old(NodeSet(ent.nodes) + NodeSet(chg.nodes))
  {
    hide MergeOne;
    ghost var all := NodeSet(ent.nodes) + NodeSet(chg.nodes);
    if ent.attrlist == null {
      ent.attrlist, ent.nodes := chg.attrlist, chg.nodes;
      chg.attrlist, chg.nodes := null, [];
      return;
    }
    var prevnew: AttrVal?, new_ := null, chg.attrlist;
    ghost var k: nat, cur, theirs := 0, attrs, changes;
    assert changes[0..] == changes;
    while new_ != null
      invariant Merging(ent, chg, prevnew, new_, k, cur, theirs)
      invariant MergeAll(cur, theirs[k..]) == MergeAll(attrs, changes)
      invariant NodeSet(ent.nodes) + NodeSet(chg.nodes) == all
      decreases |theirs| - k
    {
      assert theirs[k..][1..] == theirs[k + 1..];
      ghost var a := theirs[k];
      prevnew, new_, k, theirs := MergeStep(ent, chg, prevnew, new_, k, cur, theirs, all);
      cur := MergeOne(cur, a);
    }
  }

  /** One pass through the loop body. */
  method MergeStep(ent: DevTabEnt, chg: DevTabEnt, prevnew0: AttrVal?, new0: AttrVal, ghost k0: nat,
                   ghost cur: seq<Attribute>, ghost theirs0: seq<Attribute>, ghost all: set<AttrVal>)
    returns (prevnew: AttrVal?, new_: AttrVal?, ghost k: nat, ghost theirs: seq<Attribute>)
    requires Merging(ent, chg, prevnew0, new0, k0, cur, theirs0) && NodeSet(ent.nodes) + NodeSet(chg.nodes) == all
    modifies ent`attrlist, ent`nodes, chg`attrlist, chg`nodes, all
    ensures k0 < |theirs0| && Merging(ent, chg, prevnew, new_, k, MergeOne(cur, theirs0[k0]), theirs)
    ensures k <= |theirs| && theirs[k..] == theirs0[k0 + 1..]
    ensures NodeSet(ent.nodes) + NodeSet(chg.nodes) == all
  {
    hide NodeSet, Spells, Chain, MergeOne;
    prevnew, new_, k, theirs := prevnew0, new0, k0, theirs0;
    InAll(ent.nodes, chg.nodes, all);
    SameLength(chg.nodes, k, theirs);
    var found := OverwriteFrom(ent, chg, new0, k, cur, theirs);
    MergedOne(cur, theirs[k], found);
    if !found {
      new_ := MoveNode(ent, chg, prevnew, new0, k, cur, theirs);
      theirs := theirs[..k] + theirs[k + 1..];
    } else {
      NextNode(chg, new0, k);
      prevnew := new_;
      new_ := new_.next;
      k := k + 1;
    }
  }

  lemma MergedOne(attrs: seq<Attribute>, a: Attribute, found: bool)
    requires found <==> a.name in Names(attrs)
    ensures MergeOne(attrs, a) == if found then Override(attrs, a) else [a] + attrs
  {
  }

  lemma NextNode(chg: DevTabEnt, new_: AttrVal, k: nat)
    requires chg.Valid() && k < |chg.nodes| && new_ == chg.nodes[k]
    ensures new_.next == At(chg.nodes, k + 1)
  {
  }

  /** The search for node k of the changes, which leaves the nodes behind it as they are. */
  method OverwriteFrom(ent: DevTabEnt, chg: DevTabEnt, new_: AttrVal, ghost k: nat, ghost cur: seq<Attribute>, ghost theirs: seq<Attribute>)
    returns (found: bool)
    requires ent.Valid() && chg.Valid() && Apart(ent.nodes, chg.nodes) && k < |chg.nodes| == |theirs| && new_ == chg.nodes[k]
    requires Spells(ent.nodes, 0, cur) && Spells(chg.nodes, k, theirs)
    modifies ent.nodes`val, new_`val
    ensures found <==> theirs[k].name in Names(cur)
    ensures Spells(ent.nodes, 0, if found then Override(cur, theirs[k]) else cur)
    ensures Spells(chg.nodes, if found then k + 1 else k, theirs)
  {
    hide Names, Override;
    found := Overwrite(ent, new_, cur, theirs[k]);
  }

  lemma InAll(a: seq<AttrVal>, b: seq<AttrVal>, all: set<AttrVal>)
    requires NodeSet(a) + NodeSet(b) == all
    ensures forall i :: 0 <= i < |a| ==> a[i] in all
    ensures forall i :: 0 <= i < |b| ==> b[i] in all
  {
    forall i | 0 <= i < |a|
      ensures a[i] in all
    {
      assert a[i] in NodeSet(a);
    }
    forall i | 0 <= i < |b|
      ensures b[i] in all
    {
      assert b[i] in NodeSet(b);
    }
  }

  // ----- building and using the lists

  /** `prev->next = node`, or the head of an empty list. */
  method Append(ent: DevTabEnt, prev: AttrVal?, node: AttrVal, ghost attrs: seq<Attribute>, ghost a: Attribute)
    requires ent.Valid() && Spells(ent.nodes, 0, attrs) && prev == (if ent.nodes == [] then null else ent.nodes[|ent.nodes| - 1])
    requires Apart(ent.nodes, [node]) && node.attr == a.name && node.val == Some(a.value) && node.next == null
    modifies ent`attrlist, ent`nodes, ent.nodes`next
    ensures ent.Valid() && ent.nodes == old(ent.nodes) + [node] && Spells(ent.nodes, 0, attrs + [a])
  {
    assert [node][0] == node;
    ghost var nodes := ent.nodes;
    if prev != null {
      prev.next := node;
    } else {
      ent.attrlist := node;
    }
    ent.nodes := nodes + [node];
  }

  /** The search of the list under construction. */
  method HasName(ent: DevTabEnt, name: string, ghost attrs: seq<Attribute>) returns (found: bool)
    requires ent.Valid() && Spells(ent.nodes, 0, attrs)
    ensures found <==> name in Names(attrs)
  {
    hide Names;
    found := false;
    var p := ent.attrlist;
    ghost var k := 0;
    while p != null && !found
      invariant k <= |ent.nodes| && (!found ==> p == At(ent.nodes, k))
      invariant forall i :: 0 <= i < k ==> attrs[i].name != name
      invariant found ==> name in Names(attrs)
      decreases |ent.nodes| - k, !found
    {
      if p.attr == name {
        found := true;
      } else {
        p := p.next;
        k := k + 1;
      }
    }
  }

  /** A fresh record of heap nodes for an entry, as the reader links it. */
  method Build(e: Entry) returns (ent: DevTabEnt)
    requires e.Device?
    ensures ent.Valid() && ent.Is(e) && fresh(ent) && forall i :: 0 <= i < |ent.nodes| ==> fresh(ent.nodes[i])
  {
    hide Chain, Spells;
    ent := new DevTabEnt(e.alias);
    assert e.attrs[..0] == [] && Spells(ent.nodes, 0, []);
    ent.cdevice, ent.bdevice, ent.pathname := e.cdevice, e.bdevice, e.pathname;
    var t: AttrVal? := null;
    var k := 0;
    while k < |e.attrs|
      invariant k <= |e.attrs| && fresh(ent) && ent.Valid() && Spells(ent.nodes, 0, e.attrs[..k])
      invariant forall i :: 0 <= i < |ent.nodes| ==> fresh(ent.nodes[i])
      invariant t == if ent.nodes == [] then null else ent.nodes[|ent.nodes| - 1]
      invariant ent.alias == e.alias && ent.cdevice == e.cdevice && ent.bdevice == e.bdevice && ent.pathname == e.pathname
    {
      var attr := new AttrVal(e.attrs[k].name, e.attrs[k].value);
      Append(ent, t, attr, e.attrs[..k], e.attrs[k]);
      assert e.attrs[..k + 1] == e.attrs[..k] + [e.attrs[k]];
      t := attr;
      k := k + 1;
    }
    assert e.attrs[..k] == e.attrs;
  }

  /** The record as a value, from a walk along its list. */
  method Collect(ent: DevTabEnt, ghost e: Entry) returns (r: Entry)
    requires ent.Valid() && ent.Is(e)
    ensures r == e
  {
    var attrs := [];
    var p := ent.attrlist;
    while p != null
      invariant |attrs| <= |ent.nodes| && p == At(ent.nodes, |attrs|)
      invariant attrs == e.attrs[..|attrs|]
      decreases |ent.nodes| - |attrs|
    {
      attrs := attrs + [Attribute(p.attr, p.val.value)];
      p := p.next;
    }
    r := Device(ent.alias, ent.cdevice, ent.bdevice, ent.pathname, attrs);
  }

  /** `mkdevtabent`: null and an error number, or the entry the arguments describe. */
  method MkDevTabEnt(alias: string, attrlist: seq<string>) returns (ent: DevTabEnt?, errno: Errno)
    ensures match TakeAll(Blank(alias), attrlist)
            case Refused(n) => ent == null && errno == n
            case Made(e) => ent != null && fresh(ent) && ent.Valid() && ent.Is(e) && forall i :: 0 <= i < |ent.nodes| ==> fresh(ent.nodes[i])
  {
    hide Names, Equals, NameOf;
    var devtabent := new DevTabEnt(alias);
    var prevattrval: AttrVal? := null;
    ghost var e := Blank(alias);
    var k := 0;
    assert attrlist[0..] == attrlist;
    while k < |attrlist|
      invariant k <= |attrlist| && fresh(devtabent) && devtabent.Valid() && devtabent.Is(e)
      invariant TakeAll(e, attrlist[k..]) == TakeAll(Blank(alias), attrlist)
      invariant prevattrval == if devtabent.nodes == [] then null else devtabent.nodes[|devtabent.nodes| - 1]
      invariant forall i :: 0 <= i < |devtabent.nodes| ==> fresh(devtabent.nodes[i])
    {
      assert attrlist[k..][0] == attrlist[k] && attrlist[k..][1..] == attrlist[k + 1..];
      var fail;
      prevattrval, fail := TakePair(devtabent, attrlist[k], prevattrval, e);
      if fail.Some? {
        return null, fail.value;
      }
      e := Take(e, attrlist[k]).entry;
      k := k + 1;
    }
    return devtabent, EINVAL;
  }

  /** One argument. */
  method TakePair(devtabent: DevTabEnt, arg: string, prev: AttrVal?, ghost e: Entry) returns (prevattrval: AttrVal?, fail: Option<Errno>)
    requires devtabent.Valid() && devtabent.Is(e)
    requires prev == if devtabent.nodes == [] then null else devtabent.nodes[|devtabent.nodes| - 1]
    modifies devtabent, devtabent.nodes`next
    ensures devtabent.Valid() && old(devtabent.nodes) <= devtabent.nodes
    ensures prevattrval == if devtabent.nodes == [] then null else devtabent.nodes[|devtabent.nodes| - 1]
    ensures forall i :: |old(devtabent.nodes)| <= i < |devtabent.nodes| ==> fresh(devtabent.nodes[i])
    ensures match Take(e, arg)
            case Refused(n) => fail == Some(n)
            case Made(e') => fail.None? && devtabent.Is(e')
  {
    hide Names, Equals;
    prevattrval := prev;
    fail := None;
    if IsPair(arg) {
      var name, val := NameOf(arg), ValueOf(arg);
      if name == "alias" {
        fail := Some(EINVAL);
      } else if name == "cdevice" {
        if devtabent.cdevice.None? {
          devtabent.cdevice := Some(val);
        } else {
          fail := Some(EAGAIN);
        }
      } else if name == "bdevice" {
        if devtabent.bdevice.None? {
          devtabent.bdevice := Some(val);
        } else {
          fail := Some(EAGAIN);
        }
      } else if name == "pathname" {
        if devtabent.pathname.None? {
          devtabent.pathname := Some(val);
        } else {
          fail := Some(EAGAIN);
        }
      } else {
        var found := HasName(devtabent, name, e.attrs);
        if found {
          fail := Some(EAGAIN);
        } else {
          prevattrval := new AttrVal(name, val);
          Append(devtabent, prev, prevattrval, e.attrs, Attribute(name, val));
        }
      }
    }
  }

  /** The changed fields and attributes replace the old ones. */
  function Modified(e: Entry, c: Entry): (r: Entry)
    requires e.Device? && c.Device?
    ensures r.Device? && r.alias == e.alias
  {
    Device(e.alias,
           if c.cdevice.Some? then c.cdevice else e.cdevice,
           if c.bdevice.Some? then c.bdevice else e.bdevice,
           if c.pathname.Some? then c.pathname else e.pathname,
           Merged(e.attrs, c.attrs))
  }

  /** Some argument sets n. */
  ghost predicate Mentions(args: seq<string>, n: string) {
    exists v :: Sets(args, n, v)
  }

  /** The modified entry is the old map overridden by what the arguments set. */
  lemma ModifiedMeaning(e: Entry, alias: string, args: seq<string>)
    requires e.Device? && TakeAll(Blank(alias), args).Made?
    ensures var r := Modified(e, TakeAll(Blank(alias), args).entry);
            && (Distinct(e.attrs) ==> Distinct(r.attrs))
            && (forall n, v :: n != "alias" && Sets(args, n, v) ==> Get(r, n) == Some(v))
            && (forall n :: n != "alias" && !Mentions(args, n) ==> Get(r, n) == Get(e, n))
  {
    hide Sets, TakeAll, Lookup, Merged, Clashes, Names;
    MadeMeaning(alias, args);
    var c := TakeAll(Blank(alias), args).entry;
    MergedMeaning(e.attrs, c.attrs);
    forall n | n != "alias"
      ensures Get(c, n).Some? ==> Mentions(args, n)
    {
      if Get(c, n).Some? {
        assert Sets(args, n, Get(c, n).value);
      }
    }
    TidyNames(c.attrs);
  }

  lemma TidyNames(attrs: seq<Attribute>)
    requires Tidy(attrs)
    ensures Distinct(attrs) && forall n :: n in RESERVED ==> n !in Names(attrs)
  {
  }

  /** The standard fields, one by one. */
  method ModifyFields(ent: DevTabEnt, chg: DevTabEnt)
    requires ent != chg
    modifies ent`cdevice, ent`bdevice, ent`pathname, chg`cdevice, chg`bdevice, chg`pathname
    ensures ent.cdevice == if old(chg.cdevice).Some? then old(chg.cdevice) else old(ent.cdevice)
    ensures ent.bdevice == if old(chg.bdevice).Some? then old(chg.bdevice) else old(ent.bdevice)
    ensures ent.pathname == if old(chg.pathname).Some? then old(chg.pathname) else old(ent.pathname)
  {
    if chg.cdevice.Some? {
      ent.cdevice := chg.cdevice;
      chg.cdevice := None;
    }
    if chg.bdevice.Some? {
      ent.bdevice := chg.bdevice;
      chg.bdevice := None;
    }
    if chg.pathname.Some? {
      ent.pathname := chg.pathname;
      chg.pathname := None;
    }
  }

  /** The changes of `_moddevtabrec` to the device's record. */
  method Modify(ent: DevTabEnt, chg: DevTabEnt, ghost e: Entry, ghost c: Entry)
    requires ent != chg && ent.Valid() && chg.Valid() && Apart(ent.nodes, chg.nodes) && ent.Is(e) && chg.Is(c)
    modifies ent, chg, NodeSet(ent.nodes) + NodeSet(chg.nodes)
    ensures ent.Valid() && chg.Valid() && Apart(ent.nodes, chg.nodes) && ent.Is(Modified(e, c))
    ensures NodeSet(ent.nodes) + NodeSet(chg.nodes) == old(NodeSet(ent.nodes) + NodeSet(chg.nodes))
  {
    hide Merged, Spells, Chain, NodeSet, Apart;
    ModifyFields(ent, chg);
    MergeLists(ent, chg, e.attrs, c.attrs);
  }
}
