/**
 Building an entry from "name=value" strings, and merging one into another by moving
 the nodes of their linked attribute lists.
 */
module DeviceTableEntry {
  import opened Prelude
  import opened DeviceTable

  // ----- the specification of `mkdevtabent`

  datatype Errno = EINVAL | EAGAIN

  datatype Made = Made(entry: Entry) | Refused(errno: Errno)

  const RESERVED: set<string> := {"alias", "cdevice", "bdevice", "pathname"}

  /** The position of the first '='. */
  function Equals(arg: string): (k: nat)
    ensures k <= |arg| && '=' !in arg[..k] && (k < |arg| ==> arg[k] == '=')
  {
    if arg == "" || arg[0] == '=' then 0
    else
      var k := Equals(arg[1..]);
      assert arg[..k + 1] == [arg[0]] + arg[1..][..k];
      k + 1
  }

  /** "name=value" with a name; anything else is ignored. */
  predicate IsPair(arg: string) {
    0 < Equals(arg) < |arg|
  }

  function NameOf(arg: string): string {
    arg[..Equals(arg)]
  }

  function ValueOf(arg: string): string
    requires IsPair(arg)
  {
    arg[Equals(arg) + 1..]
  }

  function Names(attrs: seq<Attribute>): (r: set<string>)
    ensures forall n :: n in r <==> exists i :: 0 <= i < |attrs| && attrs[i].name == n
  {
    set a | a in attrs :: a.name
  }

  /** One argument more. */
  function Take(e: Entry, arg: string): Made
    requires e.Device?
  {
    if !IsPair(arg) then Made(e)
    else
      var n, v := NameOf(arg), ValueOf(arg);
      if n == "alias" then Refused(EINVAL)
      else if n == "cdevice" then (if e.cdevice.None? then Made(e.(cdevice := Some(v))) else Refused(EAGAIN))
      else if n == "bdevice" then (if e.bdevice.None? then Made(e.(bdevice := Some(v))) else Refused(EAGAIN))
      else if n == "pathname" then (if e.pathname.None? then Made(e.(pathname := Some(v))) else Refused(EAGAIN))
      else if n in Names(e.attrs) then Refused(EAGAIN)
      else Made(e.(attrs := e.attrs + [Attribute(n, v)]))
  }

  function TakeAll(e: Entry, args: seq<string>): (r: Made)
    requires e.Device?
    ensures r.Made? ==> r.entry.Device? && r.entry.alias == e.alias
    decreases |args|
  {
    if args == [] then Made(e)
    else match Take(e, args[0])
      case Refused(errno) => Refused(errno)
      case Made(e') => TakeAll(e', args[1..])
  }

  function Blank(alias: string): Entry {
    Device(alias, None, None, None, [])
  }

  predicate Distinct(attrs: seq<Attribute>) {
    forall i, j :: 0 <= i < j < |attrs| ==> attrs[i].name != attrs[j].name
  }

  /** What an entry says about a name. */
  function Lookup(attrs: seq<Attribute>, n: string): (r: Option<string>)
    ensures r.Some? <==> n in Names(attrs)
  {
    if attrs == [] then None
    else if attrs[0].name == n then Some(attrs[0].value)
    else
      assert forall i :: 1 <= i < |attrs| ==> attrs[i] == attrs[1..][i - 1];
      Lookup(attrs[1..], n)
  }

  function Get(e: Entry, n: string): Option<string>
    requires e.Device?
  {
    if n == "cdevice" then e.cdevice else if n == "bdevice" then e.bdevice else if n == "pathname" then e.pathname
    else Lookup(e.attrs, n)
  }

  /** Some argument sets n to v. */
  ghost predicate Sets(args: seq<string>, n: string, v: string) {
    exists i :: 0 <= i < |args| && IsPair(args[i]) && NameOf(args[i]) == n && ValueOf(args[i]) == v
  }

  /** An argument names "alias", or two name the same. */
  ghost predicate Clashes(args: seq<string>) {
    || (exists i :: 0 <= i < |args| && IsPair(args[i]) && NameOf(args[i]) == "alias")
    || (exists i, j :: 0 <= i < j < |args| && IsPair(args[i]) && IsPair(args[j]) && NameOf(args[i]) == NameOf(args[j]))
  }

  predicate Tidy(attrs: seq<Attribute>) {
    && Distinct(attrs)
    && forall i :: 0 <= i < |attrs| ==> attrs[i].name != "" && '=' !in attrs[i].name && attrs[i].name !in RESERVED
  }

  lemma {:induction false} LookupSnoc(attrs: seq<Attribute>, a: Attribute, n: string)
    requires a.name !in Names(attrs)
    ensures Lookup(attrs + [a], n) == if n == a.name then Some(a.value) else Lookup(attrs, n)
  {
    if attrs != [] {
      assert attrs[0] in attrs;
      assert (attrs + [a])[1..] == attrs[1..] + [a];
      assert forall x :: x in attrs[1..] ==> x in attrs;
      LookupSnoc(attrs[1..], a, n);
    }
  }

  lemma PairName(arg: string)
    requires IsPair(arg)
    ensures NameOf(arg) != "" && '=' !in NameOf(arg)
  {
  }

  lemma TakeOne(e: Entry, arg: string)
    requires e.Device? && Tidy(e.attrs)
    ensures Take(e, arg).Refused? <==> IsPair(arg) && (NameOf(arg) == "alias" || Get(e, NameOf(arg)).Some?)
    ensures Take(e, arg).Refused? ==> Take(e, arg).errno == if NameOf(arg) == "alias" then EINVAL else EAGAIN
    ensures Take(e, arg).Made? ==>
              && Take(e, arg).entry.Device? && Tidy(Take(e, arg).entry.attrs)
              && forall n :: Get(Take(e, arg).entry, n) == if IsPair(arg) && n == NameOf(arg) then Some(ValueOf(arg)) else Get(e, n)
  {
    hide Equals, Names, Lookup, ValueOf, NameOf;
    if Take(e, arg).Made? && IsPair(arg) && NameOf(arg) !in RESERVED {
      PairName(arg);
      var a := Attribute(NameOf(arg), ValueOf(arg));
      forall n
        ensures Lookup(e.attrs + [a], n) == if n == a.name then Some(a.value) else Lookup(e.attrs, n)
      {
        LookupSnoc(e.attrs, a, n);
      }
      forall i | 0 <= i < |e.attrs|
        ensures e.attrs[i].name != a.name
      {
        assert e.attrs[i].name in Names(e.attrs);
      }
    }
  }

  lemma SetsSnoc(done: seq<string>, arg: string)
    ensures forall n, v :: Sets(done + [arg], n, v) <==> Sets(done, n, v) || (IsPair(arg) && NameOf(arg) == n && ValueOf(arg) == v)
  {
    var all := done + [arg];
    assert all[|done|] == arg && forall i :: 0 <= i < |done| ==> all[i] == done[i];
  }

  lemma ClashesSnoc(done: seq<string>, arg: string)
    requires !Clashes(done)
    ensures Clashes(done + [arg]) <==> IsPair(arg) && (NameOf(arg) == "alias" || exists v :: Sets(done, NameOf(arg), v))
  {
    hide Equals, ValueOf, NameOf, IsPair;
    var all := done + [arg];
    assert all[|done|] == arg && forall i :: 0 <= i < |done| ==> all[i] == done[i];
    if v :| IsPair(arg) && Sets(done, NameOf(arg), v) {
      var i :| 0 <= i < |done| && IsPair(done[i]) && NameOf(done[i]) == NameOf(arg) && ValueOf(done[i]) == v;
      assert IsPair(all[i]) && IsPair(all[|done|]) && NameOf(all[i]) == NameOf(all[|done|]);
    }
    if Clashes(all) && NameOf(arg) != "alias" {
      if i :| 0 <= i < |all| && IsPair(all[i]) && NameOf(all[i]) == "alias" {
        assert false;
      }
      var i, j :| 0 <= i < j < |all| && IsPair(all[i]) && IsPair(all[j]) && NameOf(all[i]) == NameOf(all[j]);
      assert j == |done|;
      assert Sets(done, NameOf(arg), ValueOf(done[i]));
    }
  }

  lemma ClashesOn(done: seq<string>, rest: seq<string>)
    requires Clashes(done)
    ensures Clashes(done + rest)
  {
    var all := done + rest;
    assert forall i :: 0 <= i < |done| ==> all[i] == done[i];
    if i :| 0 <= i < |done| && IsPair(done[i]) && NameOf(done[i]) == "alias" {
      assert IsPair(all[i]) && NameOf(all[i]) == "alias";
    } else {
      var i, j :| 0 <= i < j < |done| && IsPair(done[i]) && IsPair(done[j]) && NameOf(done[i]) == NameOf(done[j]);
      assert IsPair(all[i]) && IsPair(all[j]) && NameOf(all[i]) == NameOf(all[j]);
    }
  }

  /** The entry and the arguments so far say the same. */
  ghost predicate Agrees(e: Entry, done: seq<string>)
    requires e.Device?
  {
    && Tidy(e.attrs) && !Clashes(done)
    && forall n, v :: n != "alias" ==> (Get(e, n) == Some(v) <==> Sets(done, n, v))
  }

  /** One argument more either clashes or is said too. */
  lemma AgreesStep(e: Entry, arg: string, done: seq<string>)
    requires e.Device? && Agrees(e, done)
    ensures Take(e, arg).Refused? <==> Clashes(done + [arg])
    ensures Take(e, arg).Made? ==> Take(e, arg).entry.Device? && Agrees(Take(e, arg).entry, done + [arg])
  {
    hide Tidy, Sets, Take, Get, Clashes, IsPair, NameOf;
    TakeOne(e, arg);
    SetsSnoc(done, arg);
    ClashesSnoc(done, arg);
    var n := NameOf(arg);
    if IsPair(arg) && n != "alias" {
      if Get(e, n).Some? {
        assert Sets(done, n, Get(e, n).value);
      } else if v :| Sets(done, n, v) {
        assert false;
      }
    }
  }

  /** The entry built says exactly what the arguments set; it is refused exactly when they clash. */
  lemma {:induction false} TakeAllMeaning(e: Entry, args: seq<string>, done: seq<string>)
    requires e.Device? && Agrees(e, done)
    ensures TakeAll(e, args).Refused? <==> Clashes(done + args)
    ensures TakeAll(e, args).Made? ==> Agrees(TakeAll(e, args).entry, done + args)
    decreases |args|
  {
    hide Agrees, Clashes, Take;
    if args == [] {
      assert done + args == done;
      NoClash(e, done);
    } else {
      var arg, done' := args[0], done + [args[0]];
      assert done + args == done' + args[1..];
      AgreesStep(e, arg, done);
      if Take(e, arg).Refused? {
        ClashesOn(done', args[1..]);
      } else {
        TakeAllMeaning(Take(e, arg).entry, args[1..], done');
      }
    }
  }

  lemma NoClash(e: Entry, done: seq<string>)
    requires e.Device? && Agrees(e, done)
    ensures !Clashes(done)
  {
  }

  /** What `mkdevtabent` builds from nothing. */
  lemma MadeMeaning(alias: string, args: seq<string>)
    ensures TakeAll(Blank(alias), args).Refused? <==> Clashes(args)
    ensures TakeAll(Blank(alias), args).Made? ==>
              var e := TakeAll(Blank(alias), args).entry;
              Tidy(e.attrs) && forall n, v :: n != "alias" ==> (Get(e, n) == Some(v) <==> Sets(args, n, v))
  {
    assert Agrees(Blank(alias), []);
    assert [] + args == args;
    TakeAllMeaning(Blank(alias), args, []);
  }

  /** The pairs that are attributes and not fields, in their order. */
  function AttributesOf(args: seq<string>): seq<Attribute> {
    if args == [] then []
    else
      (if IsPair(args[0]) && NameOf(args[0]) !in RESERVED then [Attribute(NameOf(args[0]), ValueOf(args[0]))] else [])
      + AttributesOf(args[1..])
  }

  /** They end up behind the attributes there were, in that order. */
  lemma {:induction false} TakenInOrder(e: Entry, args: seq<string>)
    requires e.Device? && TakeAll(e, args).Made?
    ensures TakeAll(e, args).entry.attrs == e.attrs + AttributesOf(args)
    decreases |args|
  {
    hide Names, Equals;
    if args == [] {
      assert e.attrs + [] == e.attrs;
    } else {
      var e' := Take(e, args[0]).entry;
      TakenInOrder(e', args[1..]);
      var here := if IsPair(args[0]) && NameOf(args[0]) !in RESERVED then [Attribute(NameOf(args[0]), ValueOf(args[0]))] else [];
      assert e'.attrs == e.attrs + here;
      Associate(e.attrs, here, AttributesOf(args[1..]));
    }
  }
}
