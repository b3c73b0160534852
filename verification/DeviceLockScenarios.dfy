/**
 Runs of the system from the empty table that go wrong: why the conditions on deaths
 and on the lists of a call are there.  Every event of these runs is possible, and
 every event but the one named is fair.
 */
module DeviceLockScenarios {
  import opened DeviceLocks
  import opened DeviceLockRuns
  import opened DeviceLockDeaths
  import opened DeviceLockHistory
  import opened DeviceLockCalls

  /** A device that goes by its alias. */
  predicate Device(d: string, devattr: string -> Naming) {
    d != "" && devattr(d) == Alias(d)
  }

  /** Nobody is in a call, and these processes live. */
  function Idle(f: File, live: set<int>, born: set<int>): System {
    System(f, NOBODY, map[], live, born)
  }

  // ----- single calls

  /** One more list of one device, which is free. */
  lemma Wish(list: seq<Slot>, d: string, rest: seq<seq<string>>, picks: seq<string>, devattr: string -> Naming, live: set<int>, turn: nat)
    requires devattr(d) == Alias(d) && Check(list, d, live).0
    ensures ScanAll(Scan(list, [[d]] + rest, false, picks), devattr, Always(live), turn) ==
            ScanAll(Scan(Check(list, d, live).1, rest, false, picks + [d]), devattr, Always(live), turn + 1)
  {
    ScanDevice(list, [d], rest, false, picks, devattr, Always(live), turn);
  }

  lemma OneWish(list: seq<Slot>, key: int, d: string, devattr: string -> Naming, live: set<int>)
    requires devattr(d) == Alias(d) && Check(list, d, live).0
    ensures Choice(Reserve(key, [[d]]), list, devattr, live) == Picked(Check(list, d, live).1, [d])
    ensures Apart([[d]], [], devattr)
  {
    hide Check, ScanAll;
    assert [[d]] + [] == [[d]] && [] + [d] == [d];
    Wish(list, d, [], [], devattr, live, 0);
    ScanDone(Check(list, d, live).1, [d], devattr, Always(live), 1);
  }

  lemma TwoWishes(list: seq<Slot>, key: int, d: string, e: string, devattr: string -> Naming, live: set<int>)
    requires devattr(d) == Alias(d) && devattr(e) == Alias(e) && d != e
    requires Check(list, d, live).0 && Check(Check(list, d, live).1, e, live).0
    ensures Choice(Reserve(key, [[d], [e]]), list, devattr, live) == Picked(Check(Check(list, d, live).1, e, live).1, [d, e])
    ensures Apart([[d], [e]], [], devattr)
  {
    hide Check, ScanAll;
    assert [[d]] + [[e]] == [[d], [e]] && [] + [d] == [d] && [d] + [e] == [d, e] && [[e]] + [] == [[e]];
    Wish(list, d, [[e]], [], devattr, live, 0);
    Wish(Check(list, d, live).1, e, [], [d], devattr, live, 1);
    ScanDone(Check(Check(list, d, live).1, e, live).1, [d, e], devattr, Always(live), 2);
    OffersOne(d, devattr);
    OffersOne(e, devattr);
  }

  lemma OffersOne(d: string, devattr: string -> Naming)
    requires devattr(d) == Alias(d)
    ensures Offers([d], devattr) == {d}
  {
    assert d in [d];
  }

  /** A whole call with a known outcome. */
  lemma Complete(s: System, p: int, call: Call, f: File, devattr: string -> Naming) returns (run: seq<Event>)
    requires Ready(s, p, call) && Outcome(s.file, call, devattr, s.live) == f && (call.Reserve? ==> Apart(call.lists, [], devattr))
    ensures Mild(s, run, call, devattr) && Run(s, run, devattr) == s.(file := f)
  {
    hide Mild, Run, Outcome, Next, Apart;
    var rest := Undisturbed(s, p, call, devattr);
    MildPossible(Next(s, Start(p, call), devattr), rest, call, devattr);
    Whole(s, p, call, rest, devattr);
    run := [Start(p, call)] + rest;
  }

  /** A call up to its n-th write. */
  lemma Partial(s: System, p: int, call: Call, list: seq<Slot>, picks: seq<string>, n: nat, devattr: string -> Naming) returns (run: seq<Event>)
    requires Ready(s, p, call) && Readable(s.file) && Choice(call, Contents(s.file), devattr, s.live) == Picked(list, picks)
    requires n <= |PutPlan(list, picks, call.key)| && (call.Reserve? ==> Apart(call.lists, [], devattr))
    ensures var plan := PutPlan(list, picks, call.key);
            && Mild(s, run, call, devattr)
            && Run(s, run, devattr) ==
               s.(lock := p, file := DoAll(s.file, plan[..n]),
                  phases := s.phases[p := Writing(call, Contents(s.file), list, picks, plan[n..], n > 0)])
  {
    hide Mild, Run, Choice, Next, Apart, PutPlan, DoAll;
    var rest := UpTo(s, p, call, n, devattr);
    MildPossible(Next(s, Start(p, call), devattr), rest, call, devattr);
    Whole(s, p, call, rest, devattr);
    run := [Start(p, call)] + rest;
  }

  lemma TwoParts(s: System, a: seq<Event>, b: seq<Event>, call: Call, devattr: string -> Naming)
    requires Possible(s, a, devattr) && KeepingRun(s, a, devattr) && Mild(Run(s, a, devattr), b, call, devattr)
    ensures Possible(s, a + b, devattr) && KeepingRun(s, a + b, devattr)
    ensures Run(s, a + b, devattr) == Run(Run(s, a, devattr), b, devattr)
  {
    Join(s, a, b, devattr);
  }

  /** The file a call leaves, from the table it puts. */
  lemma PlanOutcome(f: File, call: Call, list: seq<Slot>, picks: seq<string>, table: seq<Slot>, g: File, devattr: string -> Naming, live: set<int>)
    requires Readable(f) && Choice(call, Contents(f), devattr, live) == Picked(list, picks)
    requires Put(list, picks, call.key) == table && g == File(|table|, Overlay(f.slots, 0, table))
    ensures Outcome(f, call, devattr, live) == g
  {
    hide Choice, Put, PutPlan, DoAll, Overlay;
    PlanFile(f, list, picks, call.key);
  }

  lemma PutMore(picks: seq<string>, pid: int)
    requires picks != []
    ensures Put([], picks, pid) == New(picks, pid)
  {
    FillNothing([], picks, pid);
  }

  lemma PutLess(e: Slot, list: seq<Slot>, pid: int)
    requires NoneEmpty(list) && e.alias == ""
    ensures Put([e] + list, [], pid) == list
  {
    FillNothing([e] + list, [], pid);
    UsedUnused(e, list);
    UsedAll(list);
  }

  /** The plan of a call that needs one more slot. */
  lemma GrowingPlan(list: seq<Slot>, d: string, pid: int)
    requires NoneEmpty(list) && d != ""
    ensures Put(list, [d], pid) == list + [Slot(pid, d)]
    ensures var plan := PutPlan(list, [d], pid); |plan| > 1 && plan[0] == Count(|list| + 1)
  {
    NoRoom(list, [d], pid);
    assert New([d], pid) == [Slot(pid, d)];
  }

  lemma {:induction false} NoRoom(list: seq<Slot>, picks: seq<string>, pid: int)
    requires NoneEmpty(list)
    ensures Fill(list, picks, pid) == (list, picks)
  {
    if list != [] && picks != [] {
      assert list[0] in list && [list[0]] + list[1..] == list;
      NoRoom(list[1..], picks, pid);
    }
  }

  // ----- a death that brings an old lock back

  /** Key 1 takes a and c and gives both back, then key 3 takes c: an old lock on c is behind the table. */
  lemma StaleSlot(a: string, c: string, live: set<int>, devattr: string -> Naming) returns (run: seq<Event>)
    requires Device(a, devattr) && Device(c, devattr) && a != c && 1 in live && 3 in live
    ensures var s := Idle(File(0, []), live, live);
            && Possible(s, run, devattr) && KeepingRun(s, run, devattr)
            && Run(s, run, devattr) == Idle(File(1, [Slot(3, c), Slot(1, c)]), live, live)
  {
    hide Mild, Run, Next, Apart, Possible, KeepingRun, Outcome, Choice, Put;
    var f0, f1, f2, f3, f4 := File(0, []), File(2, [Slot(1, a), Slot(1, c)]), File(1, [Slot(1, c), Slot(1, c)]),
      File(0, [Slot(1, c), Slot(1, c)]), File(1, [Slot(3, c), Slot(1, c)]);
    var s := Idle(f0, live, live);
    TakesBoth(a, c, devattr, live);
    var r1 := Complete(s, 1, Reserve(1, [[a], [c]]), f1, devattr);
    MildPossible(s, r1, Reserve(1, [[a], [c]]), devattr);
    MildKeeping(s, r1, Reserve(1, [[a], [c]]), devattr);
    GivesFirst(a, c, devattr, live);
    var r2 := Complete(Idle(f1, live, live), 1, Free(1, a), f2, devattr);
    TwoParts(s, r1, r2, Free(1, a), devattr);
    GivesLast(c, devattr, live);
    var r3 := Complete(Idle(f2, live, live), 1, Free(1, c), f3, devattr);
    TwoParts(s, r1 + r2, r3, Free(1, c), devattr);
    TakesAgain(c, devattr, live);
    var r4 := Complete(Idle(f3, live, live), 3, Reserve(3, [[c]]), f4, devattr);
    TwoParts(s, r1 + r2 + r3, r4, Reserve(3, [[c]]), devattr);
    run := r1 + r2 + r3 + r4;
  }

  lemma MildKeeping(s: System, run: seq<Event>, call: Call, devattr: string -> Naming)
    requires Mild(s, run, call, devattr)
    ensures Possible(s, run, devattr) && KeepingRun(s, run, devattr)
  {
  }

  lemma TakesBoth(a: string, c: string, devattr: string -> Naming, live: set<int>)
    requires Device(a, devattr) && Device(c, devattr) && a != c
    ensures Outcome(File(0, []), Reserve(1, [[a], [c]]), devattr, live) == File(2, [Slot(1, a), Slot(1, c)])
    ensures Apart([[a], [c]], [], devattr)
  {
    hide Choice, Put, Outcome;
    TwoWishes([], 1, a, c, devattr, live);
    PutMore([a, c], 1);
    assert New([a, c], 1) == [Slot(1, a), Slot(1, c)];
    PlanOutcome(File(0, []), Reserve(1, [[a], [c]]), [], [a, c], [Slot(1, a), Slot(1, c)], File(2, [Slot(1, a), Slot(1, c)]), devattr, live);
  }

  lemma GivesFirst(a: string, c: string, devattr: string -> Naming, live: set<int>)
    requires Device(a, devattr) && Device(c, devattr)
    ensures Outcome(File(2, [Slot(1, a), Slot(1, c)]), Free(1, a), devattr, live) == File(1, [Slot(1, c), Slot(1, c)])
  {
    hide Put, Outcome;
    var f := File(2, [Slot(1, a), Slot(1, c)]);
    assert Contents(f) == f.slots && f.slots[0 := Slot(1, "")] == [Slot(1, "")] + [Slot(1, c)];
    PutLess(Slot(1, ""), [Slot(1, c)], 1);
    PlanOutcome(f, Free(1, a), [Slot(1, "")] + [Slot(1, c)], [], [Slot(1, c)], File(1, [Slot(1, c), Slot(1, c)]), devattr, live);
  }

  lemma GivesLast(c: string, devattr: string -> Naming, live: set<int>)
    requires Device(c, devattr)
    ensures Outcome(File(1, [Slot(1, c), Slot(1, c)]), Free(1, c), devattr, live) == File(0, [Slot(1, c), Slot(1, c)])
  {
    hide Put, Outcome;
    var f := File(1, [Slot(1, c), Slot(1, c)]);
    assert Contents(f) == [Slot(1, c)] && [Slot(1, c)][0 := Slot(1, "")] == [Slot(1, "")] + [];
    PutLess(Slot(1, ""), [], 1);
    PlanOutcome(f, Free(1, c), [Slot(1, "")] + [], [], [], File(0, f.slots), devattr, live);
  }

  lemma TakesAgain(c: string, devattr: string -> Naming, live: set<int>)
    requires Device(c, devattr)
    ensures Outcome(File(0, [Slot(1, c), Slot(1, c)]), Reserve(3, [[c]]), devattr, live) == File(1, [Slot(3, c), Slot(1, c)])
    ensures Apart([[c]], [], devattr)
  {
    hide Choice, Put, Outcome;
    var f := File(0, [Slot(1, c), Slot(1, c)]);
    assert Contents(f) == [];
    OneWish([], 3, c, devattr, live);
    PutMore([c], 3);
    assert New([c], 3) == [Slot(3, c)];
    PlanOutcome(f, Reserve(3, [[c]]), [], [c], [Slot(3, c)], File(1, [Slot(3, c), Slot(1, c)]), devattr, live);
  }

  /**
   After that, process 4 asks for b and dies when it has written the new count: the
   living keys 1 and 3 both hold c.  All but the death are fair, and keeping.
   */
  lemma DeathMidWrite(a: string, b: string, c: string, devattr: string -> Naming) returns (s: System, run: seq<Event>)
    requires Device(a, devattr) && Device(b, devattr) && Device(c, devattr) && a != c && b != c
    ensures Initial(s) && Possible(s, run, devattr) && KeepingRun(s, run, devattr)
    ensures var t := Run(s, run, devattr);
            Enabled(t, Die(4)) && !Fair(t, Die(4), devattr) && HeldTwice(Next(t, Die(4), devattr), c)
  {
    hide Mild, Run, Apart, Possible, KeepingRun, Choice, Put, PutPlan, Initial;
    var live, f := {1, 3, 4}, File(1, [Slot(3, c), Slot(1, c)]);
    s := Idle(File(0, []), live, live);
    assert Initial(s) by {
      IdleInitial(live);
    }
    var r1 := StaleSlot(a, c, live, devattr);
    var s1 := Idle(f, live, live);
    assert Contents(f) == [Slot(3, c)] && Check([Slot(3, c)], b, live) == (true, [Slot(3, c)]);
    OneWish([Slot(3, c)], 4, b, devattr, live);
    GrowingPlan([Slot(3, c)], b, 4);
    var r2 := Partial(s1, 4, Reserve(4, [[b]]), [Slot(3, c)], [b], 1, devattr);
    TwoParts(s, r1, r2, Reserve(4, [[b]]), devattr);
    run := r1 + r2;
    FirstWrite(f, PutPlan([Slot(3, c)], [b], 4));
    var u := Next(Run(s, run, devattr), Die(4), devattr);
    assert Contents(u.file)[0] == Slot(3, c) && Contents(u.file)[1] == Slot(1, c);
  }

  lemma FirstWrite(f: File, plan: seq<Write>)
    requires plan != [] && plan[0].Count?
    ensures DoAll(f, plan[..1]) == f.(count := plan[0].n)
  {
    assert plan[..1] == [plan[0]];
    OneWrite(f, plan[0], []);
  }

  lemma IdleInitial(live: set<int>)
    requires NOBODY !in live
    ensures Initial(Idle(File(0, []), live, live))
  {
  }

  // ----- a call that picks a device for two of its lists

  lemma ThreeWishes(list: seq<Slot>, key: int, a: string, b: string, devattr: string -> Naming, live: set<int>)
    requires Device(a, devattr) && Device(b, devattr) && a != b && list == []
    ensures Choice(Reserve(key, [[a], [a], [b]]), list, devattr, live) == Picked(list, [a, a, b])
    ensures !Apart([[a], [a], [b]], [], devattr)
  {
    hide ScanAll;
    assert [[a]] + [[a], [b]] == [[a], [a], [b]] && [[a]] + [[b]] == [[a], [b]] && [[b]] + [] == [[b]];
    assert [] + [a] == [a] && [a] + [a] == [a, a] && [a, a] + [b] == [a, a, b];
    Wish(list, a, [[a], [b]], [], devattr, live, 0);
    Wish(list, a, [[b]], [a], devattr, live, 1);
    Wish(list, b, [], [a, a], devattr, live, 2);
    ScanDone(list, [a, a, b], devattr, Always(live), 3);
    OffersOne(a, devattr);
    var lists := [[a], [a], [b]];
    assert a in Offers(lists[0], devattr) && a in Offers(lists[1], devattr);
  }

  lemma DeadLock(list: seq<Slot>, alias: string, k: nat, live: set<int>)
    requires k < |list| && list[k].alias == alias && list[k].pid !in live && forall i :: 0 <= i < k ==> list[i].alias != alias
    ensures Check(list, alias, live) == (true, list[k := Empty(list[k])])
  {
  }

  lemma FillTwo(a: string, b: string)
    requires a != "" && b != ""
    ensures Put([Slot(1, ""), Slot(1, a), Slot(1, "")], [b, a], 2) == [Slot(2, b), Slot(1, a), Slot(2, a)]
  {
    hide Fill, Used;
    var x, y, z := Slot(1, ""), Slot(1, a), Slot(1, "");
    assert [a][1..] == [] && [b, a][1..] == [a] && [z][1..] == [] && [y, z][1..] == [z] && [x, y, z][1..] == [y, z];
    FillStep([z], [a], 2);
    FillNothing([], [], 2);
    var r := Fill([z], [a], 2);
    assert r.0 == [Slot(2, a)] && r.1 == [];
    FillStep([y, z], [a], 2);
    r := Fill([y, z], [a], 2);
    assert r.0 == [y, Slot(2, a)] && r.1 == [];
    FillStep([x, y, z], [b, a], 2);
    r := Fill([x, y, z], [b, a], 2);
    assert r.0 == [Slot(2, b), y, Slot(2, a)] && r.1 == [];
    UsedAll([Slot(2, b), y, Slot(2, a)]);
  }

  lemma FillOne(a: string, b: string)
    requires a != "" && b != ""
    ensures Put([Slot(2, b), Slot(1, ""), Slot(2, a)], [a], 3) == [Slot(2, b), Slot(3, a), Slot(2, a)]
  {
    hide Fill, Used;
    var x, y, z := Slot(2, b), Slot(1, ""), Slot(2, a);
    assert [a][1..] == [] && [y, z][1..] == [z] && [x, y, z][1..] == [y, z];
    FillNothing([z], [], 3);
    FillStep([y, z], [a], 3);
    var r := Fill([y, z], [a], 3);
    assert r.0 == [Slot(3, a), z] && r.1 == [];
    FillStep([x, y, z], [a], 3);
    r := Fill([x, y, z], [a], 3);
    assert r.0 == [x, Slot(3, a), z] && r.1 == [];
    UsedAll([x, Slot(3, a), z]);
  }

  lemma TakesTwice(a: string, b: string, devattr: string -> Naming, live: set<int>)
    requires Device(a, devattr) && Device(b, devattr) && a != b
    ensures Outcome(File(0, []), Reserve(1, [[a], [a], [b]]), devattr, live) == File(3, [Slot(1, a), Slot(1, a), Slot(1, b)])
  {
    hide Choice, Put, Outcome;
    var t := [Slot(1, a), Slot(1, a), Slot(1, b)];
    assert Contents(File(0, [])) == [];
    ThreeWishes([], 1, a, b, devattr, live);
    PutMore([a, a, b], 1);
    assert New([a, a, b], 1) == t;
    PlanOutcome(File(0, []), Reserve(1, [[a], [a], [b]]), [], [a, a, b], t, File(3, t), devattr, live);
  }

  lemma TakesSecond(a: string, b: string, devattr: string -> Naming, live: set<int>)
    requires Device(a, devattr) && Device(b, devattr) && a != b && 1 !in live
    ensures Outcome(File(3, [Slot(1, a), Slot(1, a), Slot(1, b)]), Reserve(2, [[b], [a]]), devattr, live)
         == File(3, [Slot(2, b), Slot(1, a), Slot(2, a)])
    ensures Apart([[b], [a]], [], devattr)
  {
    hide Choice, Put, Outcome, Check;
    var t, u := [Slot(1, a), Slot(1, a), Slot(1, b)], [Slot(2, b), Slot(1, a), Slot(2, a)];
    DeadLock(t, b, 2, live);
    var l1 := [Slot(1, a), Slot(1, a), Slot(1, "")];
    assert t[2 := Empty(t[2])] == l1;
    DeadLock(l1, a, 0, live);
    var l2 := [Slot(1, ""), Slot(1, a), Slot(1, "")];
    assert l1[0 := Empty(l1[0])] == l2;
    TwoWishes(t, 2, b, a, devattr, live);
    FillTwo(a, b);
    assert Contents(File(3, t)) == t;
    PlanOutcome(File(3, t), Reserve(2, [[b], [a]]), l2, [b, a], u, File(3, u), devattr, live);
  }

  lemma TakesThird(a: string, b: string, devattr: string -> Naming, live: set<int>)
    requires Device(a, devattr) && Device(b, devattr) && a != b && 1 !in live
    ensures Outcome(File(3, [Slot(2, b), Slot(1, a), Slot(2, a)]), Reserve(3, [[a]]), devattr, live)
         == File(3, [Slot(2, b), Slot(3, a), Slot(2, a)])
    ensures Apart([[a]], [], devattr)
  {
    hide Choice, Put, Outcome, Check;
    var t, u := [Slot(2, b), Slot(1, a), Slot(2, a)], [Slot(2, b), Slot(3, a), Slot(2, a)];
    DeadLock(t, a, 1, live);
    var l := [Slot(2, b), Slot(1, ""), Slot(2, a)];
    assert t[1 := Empty(t[1])] == l;
    OneWish(t, 3, a, devattr, live);
    FillOne(a, b);
    assert Contents(File(3, t)) == t;
    PlanOutcome(File(3, t), Reserve(3, [[a]]), l, [a], u, File(3, u), devattr, live);
  }

  /**
   Process 1 asks for a, a and b, and gets all three, then dies; 2 takes b and a, and
   3 takes a: the living keys 2 and 3 hold a.  All but the first event are fair, and keeping.
   */
  lemma SharedDevice(a: string, b: string, devattr: string -> Naming) returns (s: System, run: seq<Event>)
    requires Device(a, devattr) && Device(b, devattr) && a != b
    ensures Initial(s) && Possible(s, run, devattr)
    ensures run != [] && !Fair(s, run[0], devattr) && KeepingRun(Next(s, run[0], devattr), run[1..], devattr)
    ensures HeldTwice(Run(s, run, devattr), a)
  {
    hide Mild, Run, Apart, Possible, KeepingRun, Choice, Put, PutPlan, Initial, Outcome;
    var live, born := {2, 3}, {1, 2, 3};
    var f1, f2, f3 := File(3, [Slot(1, a), Slot(1, a), Slot(1, b)]), File(3, [Slot(2, b), Slot(1, a), Slot(2, a)]),
      File(3, [Slot(2, b), Slot(3, a), Slot(2, a)]);
    s := Idle(File(0, []), born, born);
    assert Initial(s) by {
      IdleInitial(born);
    }
    var call := Reserve(1, [[a], [a], [b]]);
    ThreeWishes([], 1, a, b, devattr, born);
    TakesTwice(a, b, devattr, born);
    var s1 := Next(s, Start(1, call), devattr);
    var r1 := Undisturbed(s, 1, call, devattr);
    MildKeeping(s1, r1, call, devattr);
    var u := Idle(f1, born, born);
    MildDeath(u, 1, devattr);
    assert Next(u, Die(1), devattr) == Idle(f1, live, born);
    Join(s1, r1, [Die(1)], devattr);
    TakesSecond(a, b, devattr, live);
    var r2 := Complete(Idle(f1, live, born), 2, Reserve(2, [[b], [a]]), f2, devattr);
    TwoParts(s1, r1 + [Die(1)], r2, Reserve(2, [[b], [a]]), devattr);
    TakesThird(a, b, devattr, live);
    var r3 := Complete(Idle(f2, live, born), 3, Reserve(3, [[a]]), f3, devattr);
    TwoParts(s1, r1 + [Die(1)] + r2, r3, Reserve(3, [[a]]), devattr);
    var rest := r1 + [Die(1)] + r2 + r3;
    Whole(s, 1, call, rest, devattr);
    run := [Start(1, call)] + rest;
    assert run[1..] == rest;
    assert Contents(f3)[1] == Slot(3, a) && Contents(f3)[2] == Slot(2, a);
  }

  lemma MildDeath(s: System, p: int, devattr: string -> Naming)
    requires p in s.live && p !in s.phases
    ensures Possible(s, [Die(p)], devattr) && KeepingRun(s, [Die(p)], devattr)
    ensures Run(s, [Die(p)], devattr) == Next(s, Die(p), devattr)
  {
    One(s, Die(p), devattr);
  }

  // ----- a death that makes the file unreadable

  /** Process 1 asks for a and dies when it has written the count: all events are keeping, and nobody can read the file any more. */
  lemma DeathFreezes(a: string, devattr: string -> Naming) returns (s: System, run: seq<Event>)
    requires Device(a, devattr)
    ensures Initial(s) && Possible(s, run, devattr) && KeepingRun(s, run, devattr) && Frozen(Run(s, run, devattr))
  {
    hide Mild, Run, Apart, Possible, KeepingRun, Choice, Put, PutPlan, Initial;
    var f := File(0, []);
    s := Idle(f, {1}, {1});
    assert Initial(s) by {
      IdleInitial({1});
    }
    assert Contents(f) == [] && Check([], a, {1}) == (true, []);
    OneWish([], 1, a, devattr, {1});
    GrowingPlan([], a, 1);
    var call := Reserve(1, [[a]]);
    var r1 := Partial(s, 1, call, [], [a], 1, devattr);
    MildKeeping(s, r1, call, devattr);
    FirstWrite(f, PutPlan([], [a], 1));
    var t := Run(s, r1, devattr);
    One(t, Die(1), devattr);
    Join(s, r1, [Die(1)], devattr);
    run := r1 + [Die(1)];
  }

  // ----- a death that loses the lock of another key

  /** A possible run of fair events that gives nothing back for x. */
  ghost predicate Proper(s: System, run: seq<Event>, x: Slot, devattr: string -> Naming) {
    Possible(s, run, devattr) && FairRun(s, run, devattr) && !FreedIn(s, run, x, devattr)
  }

  lemma ProperThen(s: System, a: seq<Event>, b: seq<Event>, x: Slot, devattr: string -> Naming)
    requires Proper(s, a, x, devattr) && Proper(Run(s, a, devattr), b, x, devattr)
    ensures Proper(s, a + b, x, devattr) && Run(s, a + b, devattr) == Run(Run(s, a, devattr), b, devattr)
  {
    Join(s, a, b, devattr);
  }

  lemma ProperOne(s: System, e: Event, x: Slot, devattr: string -> Naming)
    requires Enabled(s, e) && Fair(s, e, devattr) && !Frees(s, e, x, devattr)
    ensures Proper(s, [e], x, devattr) && Run(s, [e], devattr) == Next(s, e, devattr)
  {
    One(s, e, devattr);
  }

  lemma MildProper(s: System, run: seq<Event>, call: Call, x: Slot, devattr: string -> Naming)
    requires Mild(s, run, call, devattr) && call.key != x.pid
    ensures Proper(s, run, x, devattr)
  {
    KeepingIsFair(s, run, devattr);
  }

  /** Until the last write of a call. */
  lemma AlmostAll(s: System, p: int, call: Call, list: seq<Slot>, picks: seq<string>, devattr: string -> Naming)
    returns (run: seq<Event>, last: Write)
    requires Ready(s, p, call) && Readable(s.file) && Choice(call, Contents(s.file), devattr, s.live) == Picked(list, picks)
    requires |PutPlan(list, picks, call.key)| > 1 && (call.Reserve? ==> Apart(call.lists, [], devattr))
    ensures Mild(s, run, call, devattr)
    ensures var file := Run(s, run, devattr).file;
            && Run(s, run, devattr) ==
               s.(lock := p, file := file, phases := s.phases[p := Writing(call, Contents(s.file), list, picks, [last], true)])
            && DoWrite(file, last) == DoAll(s.file, PutPlan(list, picks, call.key))
  {
    hide Mild, Run, Choice, Apart, PutPlan, DoAll, DoWrite;
    var plan := PutPlan(list, picks, call.key);
    var n := |plan| - 1;
    run := Partial(s, p, call, list, picks, n, devattr);
    MildPossible(s, run, call, devattr);
    last := plan[n];
    assert plan[n..] == [last] && plan == plan[..n] + [last];
    DoAllParts(s.file, plan[..n], [last]);
    OneWrite(DoAll(s.file, plan[..n]), last, []);
  }

  /** One more lock at the end of a table that is all of the file. */
  lemma Grows(f: File, key: int, d: string, devattr: string -> Naming, live: set<int>)
    requires Device(d, devattr) && Readable(f) && NoneEmpty(Contents(f)) && forall s :: s in Contents(f) ==> s.alias != d
    ensures Choice(Reserve(key, [[d]]), Contents(f), devattr, live) == Picked(Contents(f), [d])
    ensures var plan, table := PutPlan(Contents(f), [d], key), Contents(f) + [Slot(key, d)];
            && |plan| > 1 && DoAll(f, plan) == File(|table|, Overlay(f.slots, 0, table))
    ensures Apart([[d]], [], devattr)
  {
    hide Choice, PutPlan, DoAll, Overlay, Apart, Contents;
    var k := Index(Contents(f), d);
    assert Check(Contents(f), d, live) == (true, Contents(f));
    OneWish(Contents(f), key, d, devattr, live);
    GrowingPlan(Contents(f), d, key);
    PlanFile(f, Contents(f), [d], key);
  }

  /** Key 1 gives a back, with b behind it in the table, and its process dies when it has written the count. */
  lemma DiesFreeing(a: string, b: string, devattr: string -> Naming) returns (run: seq<Event>)
    requires Device(a, devattr) && Device(b, devattr) && a != b
    ensures var s := Idle(File(2, [Slot(1, a), Slot(2, b)]), {1, 2, 3}, {1, 2, 3});
            && Proper(s, run, Slot(2, b), devattr) && !KeepingRun(s, run, devattr)
            && Run(s, run, devattr) == Idle(File(1, [Slot(1, a), Slot(2, b)]), {2, 3}, {1, 2, 3})
  {
    hide Mild, Run, Possible, KeepingRun, FairRun, FreedIn, Put, PutPlan;
    var f, live := File(2, [Slot(1, a), Slot(2, b)]), {1, 2, 3};
    var s, call, list := Idle(f, live, live), Free(1, a), [Slot(1, "")] + [Slot(2, b)];
    assert Contents(f) == f.slots && f.slots[0 := Slot(1, "")] == list;
    FreeingPlan(b);
    var r := Partial(s, 1, call, list, [], 1, devattr);
    MildProper(s, r, call, Slot(2, b), devattr);
    FirstWrite(f, PutPlan(list, [], 1));
    var t := Run(s, r, devattr);
    ProperOne(t, Die(1), Slot(2, b), devattr);
    ProperThen(s, r, [Die(1)], Slot(2, b), devattr);
    run := r + [Die(1)];
    assert Contents(f)[1] == Slot(2, b) && CutOff(t, 1, Slot(2, b));
    One(t, Die(1), devattr);
    Join(s, r, [Die(1)], devattr);
  }

  lemma FreeingPlan(b: string)
    requires b != ""
    ensures var plan := PutPlan([Slot(1, "")] + [Slot(2, b)], [], 1); |plan| > 1 && plan[0] == Count(1)
  {
    hide Fill, Used;
    FillNothing([Slot(1, "")] + [Slot(2, b)], [], 1);
    UsedUnused(Slot(1, ""), [Slot(2, b)]);
    UsedAll([Slot(2, b)]);
  }

  /**
   Key 1 has a and key 2 is given b; a call to give a back dies when it has written the
   count, and b is given to key 3, although key 2 lives and has not given it back.  All
   events are fair, and at no time does the table show an alias twice.
   */
  lemma LostLock(a: string, b: string, devattr: string -> Naming)
    returns (s0: System, before: seq<Event>, after: seq<Event>, again: Event)
    requires Device(a, devattr) && Device(b, devattr) && a != b
    ensures Initial(s0) && Possible(s0, before, devattr) && KeepingRun(s0, before, devattr)
    ensures var s := Run(s0, before, devattr);
            && after != [] && Proper(s, after, Slot(2, b), devattr) && !KeepingRun(s, after, devattr)
            && Grants(s, after[0], Slot(2, b)) && 2 in Run(s, after, devattr).live
            && Enabled(Run(s, after, devattr), again) && Grants(Run(s, after, devattr), again, Slot(3, b))
  {
    hide Run, Possible, KeepingRun, FairRun, FreedIn, Initial, Grants, Next, Enabled;
    s0, before := TwoGiven(a, b, devattr);
    var s, x := Run(s0, before, devattr), Slot(2, b);
    var head := [Store(2)] + [Release(2)];
    var r3 := DiesFreeing(a, b, devattr);
    ProperThen(s, head, r3, x, devattr);
    var r4 := ThreeGiven(a, b, devattr);
    ProperThen(s, head + r3, r4, x, devattr);
    NotKeepingParts(s, head, r3, r4, devattr);
    after := head + r3 + r4;
    again := Store(3);
    assert after[0] == Store(2);
  }

  /** Key 1 takes a, and a call is about to give b to key 2. */
  lemma TwoGiven(a: string, b: string, devattr: string -> Naming) returns (s0: System, before: seq<Event>)
    requires Device(a, devattr) && Device(b, devattr) && a != b
    ensures Initial(s0) && Possible(s0, before, devattr) && KeepingRun(s0, before, devattr)
    ensures var s, head := Run(s0, before, devattr), [Store(2)] + [Release(2)];
            && Grants(s, Store(2), Slot(2, b)) && Proper(s, head, Slot(2, b), devattr)
            && Run(s, head, devattr) == Idle(File(2, [Slot(1, a), Slot(2, b)]), {1, 2, 3}, {1, 2, 3})
  {
    hide Mild, Run, Possible, KeepingRun, FairRun, FreedIn, Put, PutPlan, Choice, Outcome, DoAll, Apart, Initial, Proper;
    var live, f1, f2 := {1, 2, 3}, File(1, [Slot(1, a)]), File(2, [Slot(1, a), Slot(2, b)]);
    s0 := Idle(File(0, []), live, live);
    assert Initial(s0) by {
      IdleInitial(live);
    }
    var r1 := FirstTakes(s0, a, devattr);
    var s1 := Idle(f1, live, live);
    assert Contents(f1) == [Slot(1, a)];
    Grows(f1, 2, b, devattr, live);
    var r2, w := AlmostAll(s1, 2, Reserve(2, [[b]]), Contents(f1), [b], devattr);
    TwoParts(s0, r1, r2, Reserve(2, [[b]]), devattr);
    before := r1 + r2;
    var s := Run(s0, before, devattr);
    assert b in [b];
    ProperOne(s, Store(2), Slot(2, b), devattr);
    var s' := Next(s, Store(2), devattr);
    assert Overlay(f1.slots, 0, [Slot(1, a), Slot(2, b)]) == f2.slots && Contents(f1) + [Slot(2, b)] == f2.slots;
    ProperOne(s', Release(2), Slot(2, b), devattr);
    assert Next(s', Release(2), devattr) == Idle(f2, live, live);
    ProperThen(s, [Store(2)], [Release(2)], Slot(2, b), devattr);
  }

  /** With b cut off, a call is about to give b to key 3. */
  lemma ThreeGiven(a: string, b: string, devattr: string -> Naming) returns (run: seq<Event>)
    requires Device(a, devattr) && Device(b, devattr) && a != b
    ensures var s := Idle(File(1, [Slot(1, a), Slot(2, b)]), {2, 3}, {1, 2, 3});
            && Proper(s, run, Slot(2, b), devattr) && Run(s, run, devattr).live == {2, 3}
            && Enabled(Run(s, run, devattr), Store(3)) && Grants(Run(s, run, devattr), Store(3), Slot(3, b))
  {
    hide Mild, Run, Possible, FairRun, FreedIn, Put, PutPlan, Choice, DoAll, Apart, Proper;
    var f := File(1, [Slot(1, a), Slot(2, b)]);
    var s := Idle(f, {2, 3}, {1, 2, 3});
    assert Contents(f) == [Slot(1, a)];
    Grows(f, 3, b, devattr, {2, 3});
    var w;
    run, w := AlmostAll(s, 3, Reserve(3, [[b]]), Contents(f), [b], devattr);
    MildProper(s, run, Reserve(3, [[b]]), Slot(2, b), devattr);
    assert b in [b];
  }

  lemma FirstTakes(s0: System, a: string, devattr: string -> Naming) returns (run: seq<Event>)
    requires Device(a, devattr) && s0 == Idle(File(0, []), {1, 2, 3}, {1, 2, 3})
    ensures Possible(s0, run, devattr) && KeepingRun(s0, run, devattr)
    ensures Run(s0, run, devattr) == Idle(File(1, [Slot(1, a)]), {1, 2, 3}, {1, 2, 3})
  {
    hide Mild, Run, Possible, KeepingRun, Choice, Put, PutPlan, DoAll;
    var f := File(0, []);
    assert Contents(f) == [];
    Grows(f, 1, a, devattr, {1, 2, 3});
    assert [] + [Slot(1, a)] == [Slot(1, a)] && Overlay([], 0, [Slot(1, a)]) == [Slot(1, a)];
    run := Complete(s0, 1, Reserve(1, [[a]]), File(1, [Slot(1, a)]), devattr);
    MildKeeping(s0, run, Reserve(1, [[a]]), devattr);
  }

  lemma NotKeepingParts(s: System, a: seq<Event>, b: seq<Event>, c: seq<Event>, devattr: string -> Naming)
    requires Possible(s, a, devattr) && Possible(Run(s, a, devattr), b, devattr) && Possible(Run(Run(s, a, devattr), b, devattr), c, devattr)
    requires !KeepingRun(Run(s, a, devattr), b, devattr)
    ensures Possible(s, a + b + c, devattr) && !KeepingRun(s, a + b + c, devattr)
  {
    hide Next, Enabled, Keeping;
    Join(s, a, b, devattr);
    Join(s, a + b, c, devattr);
  }
}
