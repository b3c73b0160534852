/**
 A call that no other process disturbs: its steps, one after the other, come to what
 `devreserv` or `devfree` computes on the file it finds.
 */
module DeviceLockCalls {
  import opened DeviceLocks
  import opened DeviceLockLaws
  import opened DeviceLockRuns
  import opened DeviceLockHistory

  function Always(live: set<int>): nat -> set<int> {
    t => live
  }

  /** What the call decides on the list it reads. */
  function Choice(call: Call, list: seq<Slot>, devattr: string -> Naming, live: set<int>): Progress {
    match call
    case Reserve(_, lists) => ScanAll(Scan(list, lists, false, []), devattr, Always(live), 0)
    case Free(key, device) => Unreserve(list, key, AliasOf(device, devattr))
  }

  /** The file it leaves. */
  function Outcome(f: File, call: Call, devattr: string -> Naming, live: set<int>): File {
    if !Readable(f) then f
    else
      match Choice(call, Contents(f), devattr, live)
      case Picked(list, picks) => DoAll(f, PutPlan(list, picks, call.key))
      case _ => f
  }

  function Chosen(call: Call, start: seq<Slot>, r: Progress): Phase {
    match r
    case Picked(list, picks) => Writing(call, start, list, picks, PutPlan(list, picks, call.key), false)
    case _ => Leaving(call, start)
  }

  /** Nobody holds the lock and p is not in a call. */
  predicate Ready(s: System, p: int, call: Call) {
    s.lock == NOBODY && p in s.live && p !in s.phases && call.key in s.born
  }

  /** The run is possible, keeping, and frees at most what the call is to free. */
  ghost predicate Mild(s: System, run: seq<Event>, call: Call, devattr: string -> Naming) {
    && Possible(s, run, devattr) && KeepingRun(s, run, devattr)
    && forall x :: FreedIn(s, run, x, devattr) ==> call.Free? && call.key == x.pid
  }

  lemma {:induction false} Join(s: System, a: seq<Event>, b: seq<Event>, devattr: string -> Naming)
    requires Possible(s, a, devattr) && Possible(Run(s, a, devattr), b, devattr)
    ensures Possible(s, a + b, devattr) && Run(s, a + b, devattr) == Run(Run(s, a, devattr), b, devattr)
    ensures KeepingRun(s, a + b, devattr) <==> KeepingRun(s, a, devattr) && KeepingRun(Run(s, a, devattr), b, devattr)
    ensures FairRun(s, a + b, devattr) <==> FairRun(s, a, devattr) && FairRun(Run(s, a, devattr), b, devattr)
    ensures forall x :: FreedIn(s, a + b, x, devattr) <==> FreedIn(s, a, x, devattr) || FreedIn(Run(s, a, devattr), b, x, devattr)
    decreases |a|
  {
    hide Next, Enabled, Keeping, Frees, Fair;
    if a == [] {
      assert a + b == b;
    } else {
      assert (a + b)[1..] == a[1..] + b;
      Join(Next(s, a[0], devattr), a[1..], b, devattr);
    }
  }

  lemma One(s: System, e: Event, devattr: string -> Naming)
    requires Enabled(s, e)
    ensures Possible(s, [e], devattr) && Run(s, [e], devattr) == Next(s, e, devattr)
    ensures KeepingRun(s, [e], devattr) <==> Keeping(s, e, devattr)
    ensures FairRun(s, [e], devattr) <==> Fair(s, e, devattr)
    ensures forall x :: FreedIn(s, [e], x, devattr) <==> Frees(s, e, x, devattr)
  {
    hide Next, Enabled, Keeping, Frees, Fair;
    assert [e][1..] == [];
  }

  lemma MildPossible(s: System, run: seq<Event>, call: Call, devattr: string -> Naming)
    requires Mild(s, run, call, devattr)
    ensures Possible(s, run, devattr)
  {
  }

  lemma MildOne(s: System, e: Event, call: Call, devattr: string -> Naming)
    requires Enabled(s, e) && !e.Die? && !e.Store? && Fair(s, e, devattr)
    ensures Mild(s, [e], call, devattr) && Run(s, [e], devattr) == Next(s, e, devattr)
  {
    One(s, e, devattr);
  }

  lemma MildThen(s: System, a: seq<Event>, b: seq<Event>, call: Call, devattr: string -> Naming)
    requires Mild(s, a, call, devattr) && Mild(Run(s, a, devattr), b, call, devattr)
    ensures Mild(s, a + b, call, devattr) && Run(s, a + b, devattr) == Run(Run(s, a, devattr), b, devattr)
  {
    Join(s, a, b, devattr);
  }

  lemma MildNone(s: System, call: Call, devattr: string -> Naming)
    ensures Mild(s, [], call, devattr) && Run(s, [], devattr) == s
  {
  }

  /** All turns of the scan. */
  lemma {:induction false} Decides(s: System, p: int, turn: nat, devattr: string -> Naming) returns (run: seq<Event>)
    requires p in s.phases && s.phases[p].Checking? && s.phases[p].call.Reserve?
    ensures var ph := s.phases[p];
            && Mild(s, run, ph.call, devattr)
            && Run(s, run, devattr) ==
               s.(phases := s.phases[p := Chosen(ph.call, ph.start, ScanAll(ph.scan, devattr, Always(s.live), turn))])
    decreases Measure(s.phases[p].scan.todo)
  {
    hide ScanStep, Mild, Possible, Run, PutPlan, Fair;
    var ph := s.phases[p];
    var e := Decide(p);
    var s' := Next(s, e, devattr);
    assert Fair(s, e, devattr) by {
      DecideIsFair(s, p, devattr);
    }
    MildOne(s, e, ph.call, devattr);
    Shorter(ph.scan, devattr, s.live);
    if ScanStep(ph.scan, devattr, s.live).Going? {
      var rest := Decides(s', p, turn + 1, devattr);
      MildThen(s, [e], rest, ph.call, devattr);
      run := [e] + rest;
      SetTwice(s.phases, p, s'.phases[p], Chosen(ph.call, ph.start, ScanAll(ph.scan, devattr, Always(s.live), turn)));
    } else {
      run := [e];
    }
  }

  lemma DecideIsFair(s: System, p: int, devattr: string -> Naming)
    ensures Fair(s, Decide(p), devattr)
  {
  }

  lemma SetTwice(phases: map<int, Phase>, p: int, a: Phase, b: Phase)
    ensures phases[p := a][p := b] == phases[p := b]
  {
  }

  /** Some of the writes. */
  lemma {:induction false} Stores(s: System, p: int, n: nat, devattr: string -> Naming) returns (run: seq<Event>)
    requires p in s.phases && s.phases[p].Writing? && n <= |s.phases[p].todo|
    ensures var ph := s.phases[p];
            && Mild(s, run, ph.call, devattr)
            && Run(s, run, devattr) ==
               s.(file := DoAll(s.file, ph.todo[..n]), phases := s.phases[p := ph.(todo := ph.todo[n..], started := ph.started || n > 0)])
    decreases n
  {
    hide DoAll, DoWrite, Mild, Possible, Run;
    var ph := s.phases[p];
    if n == 0 {
      run := [];
      MildNone(s, ph.call, devattr);
      NoWrites(s.file);
      assert ph.todo[..0] == [] && ph.todo[0..] == ph.todo && s.phases[p := ph] == s.phases;
    } else {
      var e := Store(p);
      var s' := Next(s, e, devattr);
      StoreIsMild(s, p, devattr);
      var rest := Stores(s', p, n - 1, devattr);
      MildThen(s, [e], rest, ph.call, devattr);
      run := [e] + rest;
      assert ph.todo[..n] == [ph.todo[0]] + ph.todo[1..][..n - 1] && ph.todo[n..] == ph.todo[1..][n - 1..];
      OneWrite(s.file, ph.todo[0], ph.todo[1..][..n - 1]);
      SetTwice(s.phases, p, s'.phases[p], ph.(todo := ph.todo[n..], started := true));
    }
  }

  lemma StoreIsMild(s: System, p: int, devattr: string -> Naming)
    requires Enabled(s, Store(p))
    ensures Mild(s, [Store(p)], s.phases[p].call, devattr) && Run(s, [Store(p)], devattr) == Next(s, Store(p), devattr)
  {
    One(s, Store(p), devattr);
  }

  /** From the start of a call to its decision. */
  lemma Begins(s: System, p: int, call: Call, devattr: string -> Naming) returns (rest: seq<Event>)
    requires Ready(s, p, call) && Readable(s.file)
    ensures var s1 := Next(s, Start(p, call), devattr);
            && Mild(s1, rest, call, devattr)
            && Run(s1, rest, devattr) ==
               s.(lock := p, phases := s.phases[p := Chosen(call, Contents(s.file), Choice(call, Contents(s.file), devattr, s.live))])
  {
    hide Mild, Possible, Run, ScanAll, PutPlan;
    var s1 := Next(s, Start(p, call), devattr);
    var s2 := Next(s1, Acquire(p), devattr);
    var s3 := Next(s2, Read(p), devattr);
    MildOne(s1, Acquire(p), call, devattr);
    MildOne(s2, Read(p), call, devattr);
    MildThen(s1, [Acquire(p)], [Read(p)], call, devattr);
    assert s3 == s.(lock := p, phases := s.phases[p := s3.phases[p]]);
    var last;
    if call.Reserve? {
      last := Decides(s3, p, 0, devattr);
    } else {
      last := [Decide(p)];
      MildOne(s3, Decide(p), call, devattr);
    }
    SetTwice(s.phases, p, s3.phases[p], Chosen(call, Contents(s.file), Choice(call, Contents(s.file), devattr, s.live)));
    MildThen(s1, [Acquire(p)] + [Read(p)], last, call, devattr);
    rest := [Acquire(p)] + [Read(p)] + last;
  }

  /** From the start of a call until n of its writes are done. */
  lemma UpTo(s: System, p: int, call: Call, n: nat, devattr: string -> Naming) returns (rest: seq<Event>)
    requires Ready(s, p, call) && Readable(s.file)
    requires var r := Choice(call, Contents(s.file), devattr, s.live); r.Picked? && n <= |PutPlan(r.list, r.picks, call.key)|
    ensures var s1, r := Next(s, Start(p, call), devattr), Choice(call, Contents(s.file), devattr, s.live);
            var plan := PutPlan(r.list, r.picks, call.key);
            && Mild(s1, rest, call, devattr)
            && Run(s1, rest, devattr) ==
               s.(lock := p, file := DoAll(s.file, plan[..n]),
                  phases := s.phases[p := Writing(call, Contents(s.file), r.list, r.picks, plan[n..], n > 0)])
  {
    hide Mild, Possible, Run, ScanAll, Unreserve, PutPlan, DoAll, Next;
    var s1 := Next(s, Start(p, call), devattr);
    var first := Begins(s, p, call, devattr);
    MildPossible(s1, first, call, devattr);
    var t := Run(s1, first, devattr);
    var second := Stores(t, p, n, devattr);
    MildThen(s1, first, second, call, devattr);
    SetTwice(s.phases, p, t.phases[p], t.phases[p].(todo := t.phases[p].todo[n..], started := n > 0));
    rest := first + second;
  }

  /** The whole call: afterwards all is as it was but for the file, which is as the call by itself leaves it. */
  lemma Undisturbed(s: System, p: int, call: Call, devattr: string -> Naming) returns (rest: seq<Event>)
    requires Ready(s, p, call)
    ensures var s1 := Next(s, Start(p, call), devattr);
            && Mild(s1, rest, call, devattr)
            && Run(s1, rest, devattr) == s.(file := Outcome(s.file, call, devattr, s.live))
  {
    hide Mild, Possible, Run, ScanAll, Unreserve, PutPlan, DoAll;
    var s1 := Next(s, Start(p, call), devattr);
    var first;
    if !Readable(s.file) {
      var s2 := Next(s1, Acquire(p), devattr);
      MildOne(s1, Acquire(p), call, devattr);
      MildOne(s2, Read(p), call, devattr);
      MildThen(s1, [Acquire(p)], [Read(p)], call, devattr);
      first := [Acquire(p)] + [Read(p)];
    } else {
      var r := Choice(call, Contents(s.file), devattr, s.live);
      if r.Picked? {
        var plan := PutPlan(r.list, r.picks, call.key);
        assert plan[..|plan|] == plan && plan[|plan|..] == [];
        first := UpTo(s, p, call, |plan|, devattr);
      } else {
        first := Begins(s, p, call, devattr);
      }
    }
    MildPossible(s1, first, call, devattr);
    var t := Run(s1, first, devattr);
    MildOne(t, Release(p), call, devattr);
    MildThen(s1, first, [Release(p)], call, devattr);
    assert t.phases - {p} == s.phases;
    rest := first + [Release(p)];
  }

  /** With the start of the call. */
  lemma Whole(s: System, p: int, call: Call, rest: seq<Event>, devattr: string -> Naming)
    requires Ready(s, p, call) && Possible(Next(s, Start(p, call), devattr), rest, devattr)
    ensures var run, s1 := [Start(p, call)] + rest, Next(s, Start(p, call), devattr);
            && Possible(s, run, devattr) && Run(s, run, devattr) == Run(s1, rest, devattr)
            && (Fair(s, Start(p, call), devattr) && Mild(s1, rest, call, devattr) ==> Mild(s, run, call, devattr))
  {
    hide Run, Possible, KeepingRun, FreedIn;
    One(s, Start(p, call), devattr);
    Join(s, [Start(p, call)], rest, devattr);
  }

  /** An undisturbed release is granted exactly when it should be, and takes away just that lock. */
  lemma FreeOutcome(f: File, key: int, device: string, devattr: string -> Naming, live: set<int>)
    requires Good(f)
    ensures var call := Free(key, device);
            var r := Choice(call, Contents(f), devattr, live);
            ReleaseLaw(f, Outcome(f, call, devattr, live), key, AliasOf(device, devattr), r.Picked?, if r.Denied? then r.errno else OTHER)
  {
    hide Unreserve, ReleaseLaw, DoAll, PutPlan, Unique, NoneEmpty;
    UnreserveMeaning(Contents(f), key, AliasOf(device, devattr));
    ReleaseGranted(f, Outcome(f, Free(key, device), devattr, live), key, AliasOf(device, devattr));
  }

  /** And so is an undisturbed reservation; the aliases it locks are those of the first offers. */
  lemma ReserveOutcome(f: File, key: int, lists: seq<seq<string>>, devattr: string -> Naming, live: set<int>, errno: Errno)
    requires Good(f) && Named(devattr)
    ensures var call := Reserve(key, lists);
            var r := Choice(call, Contents(f), devattr, live);
            && (r.Picked? <==> forall i :: 0 <= i < |lists| ==> Offered(lists[i], Contents(f), live, devattr))
            && (r.Picked? ==> |r.picks| == |lists| && multiset(Seen(Outcome(f, call, devattr, live))) == Locks(r.list) + NewLocks(r.picks, key))
            && (r.Picked? ==> forall i, j: nat :: 0 <= i < |lists| && j < |lists[i]| && Stop(lists[i], j, Contents(f), live, devattr) ==>
                                                   devattr(lists[i][j]) == Alias(r.picks[i]))
            && (r == Denied(errno) ==> exists i :: 0 <= i < |lists| && !Offered(lists[i], Contents(f), live, devattr)
                                                    && Refused(errno, lists[i], Contents(f), live, devattr))
  {
    hide ScanAll, Offered, Stop, Refused, Named, NoneEmpty, Unique, DoAll, PutPlan, Put, Locks, NewLocks;
    var call := Reserve(key, lists);
    var r := Choice(call, Contents(f), devattr, live);
    ScanMeaning(Contents(f), lists, [], devattr, Always(live), 0, live);
    if r.Picked? {
      PlanMeaning(f, r.list, r.picks, key);
      NoEmptyPick(lists, r.picks, Contents(f), live, devattr);
      PutMeaning(r.list, r.picks, key);
    }
  }

  lemma NoEmptyPick(lists: seq<seq<string>>, picks: seq<string>, list: seq<Slot>, live: set<int>, devattr: string -> Naming)
    requires Named(devattr) && |picks| == |lists| && forall i :: 0 <= i < |lists| ==> Offered(lists[i], list, live, devattr)
    requires forall i, j :: 0 <= i < |lists| && 0 <= j < |lists[i]| && Stop(lists[i], j, list, live, devattr) ==> devattr(lists[i][j]) == Alias(picks[i])
    ensures forall i :: 0 <= i < |picks| ==> picks[i] != ""
  {
    hide Stop;
    forall i | 0 <= i < |picks|
      ensures picks[i] != ""
    {
      assert Offered(lists[i], list, live, devattr);
      var j :| 0 <= j < |lists[i]| && Stop(lists[i], j, list, live, devattr) && devattr(lists[i][j]).Alias?;
      assert devattr(lists[i][j]) == Alias(picks[i]);
    }
  }
}
