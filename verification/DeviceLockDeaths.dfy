/**
 What the death of a process in the middle of its writes does to the lock file: the
 file cannot be read, or shows the front of the old table, or shows new slots and
 slots that were behind the old table.
 */
module DeviceLockDeaths {
  import opened DeviceLocks
  import opened DeviceLockRuns

  function NewTable(ph: Phase): seq<Slot>
    requires ph.Writing?
  {
    Put(ph.list, ph.picks, ph.call.key)
  }

  /** The writer p left the file as it is over the file f, m slots of its table being written. */
  ghost predicate LeftBy(s: System, p: int, f: File, m: nat)
    requires MidWrite(s, p)
  {
    Left(s.file, s.phases[p].start, NewTable(s.phases[p]), f, m)
  }

  /** At any time between the first write and the last. */
  lemma Interrupted(s: System, p: int, devattr: string -> Naming) returns (f: File, m: nat)
    requires Inv(s, devattr) && MidWrite(s, p)
    ensures LeftBy(s, p, f, m)
  {
    hide MidPlan, Left, Put;
    var ph := s.phases[p];
    assert GoodPhase(s, ph, devattr);
    f, m := PlanUnderway(s.file, ph.start, ph.list, ph.picks, ph.call.key, ph.todo);
  }

  /** What the next process finds when the writer dies: nothing, the front of the old table, or a mixture. */
  lemma DeathLeaves(s: System, p: int, devattr: string -> Naming, f: File, m: nat)
    requires MidWrite(s, p) && Enabled(s, Die(p)) && LeftBy(s, p, f, m)
    ensures var start, table, g := s.phases[p].start, NewTable(s.phases[p]), Next(s, Die(p), devattr).file;
            && g.count == |table| && (Readable(g) <==> |table| <= |f.slots|)
            && (Readable(g) && |table| <= |start| ==> Contents(g) == start[..|table|])
            && (Readable(g) && |start| < |table| ==> Contents(g) == table[..m] + f.slots[m..|table|])
            && (Readable(g) && |start| < |table| && m == 0 ==> Contents(g) == start + f.slots[|start|..|table|])
  {
    hide Put;
    PartlyWritten(f, NewTable(s.phases[p]), m);
  }

  /** Slots i and k give the alias to two keys, both alive. */
  predicate Clash(slots: seq<Slot>, i: nat, k: nat, alias: string, live: set<int>) {
    && i < k < |slots| && slots[i].alias == slots[k].alias == alias != ""
    && slots[i].pid != slots[k].pid && slots[i].pid in live && slots[k].pid in live
  }

  lemma HeldTwiceMeans(s: System, alias: string)
    ensures HeldTwice(s, alias) <==> Readable(s.file) && exists i: nat, k: nat :: Clash(Contents(s.file), i, k, alias, s.live)
  {
    if HeldTwice(s, alias) {
      var c := Contents(s.file);
      var i, j :| 0 <= i < j < |c| && c[i].alias == c[j].alias == alias && c[i].pid != c[j].pid && c[i].pid in s.live && c[j].pid in s.live;
      assert Clash(c, i, j, alias, s.live);
    }
  }

  lemma UniqueNoClash(list: seq<Slot>, n: nat, i: nat, k: nat, alias: string, live: set<int>)
    requires n <= |list| && Unique(list[..n]) && Clash(list, i, k, alias, live)
    ensures n <= k
  {
    assert forall j :: 0 <= j < n ==> list[..n][j] == list[j];
  }

  /**
   A death gives an alias to two living keys exactly when the new count takes in an
   old slot, behind the old table and not yet written over, that clashes with one
   before it.  When the count alone was written, both are slots of the old file.
   */
  lemma HeldTwiceIff(s: System, p: int, devattr: string -> Naming, alias: string, f: File, m: nat)
    requires Inv(s, devattr) && MidWrite(s, p) && Enabled(s, Die(p)) && LeftBy(s, p, f, m)
    ensures var start, table, s' := s.phases[p].start, NewTable(s.phases[p]), Next(s, Die(p), devattr);
            && (HeldTwice(s', alias) <==>
                |table| <= |f.slots| &&
                exists i: nat, k: nat :: |start| <= k && m <= k && Clash(table[..m] + f.slots[m..|table|], i, k, alias, s'.live))
            && (m == 0 ==>
                (HeldTwice(s', alias) <==>
                 s'.file.count <= |f.slots| &&
                 exists i: nat, k: nat :: |start| <= k && Clash(f.slots[..s'.file.count], i, k, alias, s'.live)))
  {
    hide Put, Clash, HeldTwice, Overlay, Unique, Inv, NoneEmpty;
    var ph := s.phases[p];
    var start, table, s' := ph.start, NewTable(ph), Next(s, Die(p), devattr);
    DeathLeaves(s, p, devattr, f, m);
    PartlyWritten(f, table, m);
    HeldTwiceMeans(s', alias);
    NewTableUnique(s, p, devattr);
    if |table| <= |f.slots| {
      var c := table[..m] + f.slots[m..|table|];
      assert c[..m] == table[..m] && |c| == |table|;
      assert m == 0 ==> c == f.slots[..|table|];
      forall i: nat, k: nat | Clash(c, i, k, alias, s'.live)
        ensures |start| <= k && m <= k
      {
        BeyondOld(start, table, f, m, i, k, alias, s'.live);
      }
    }
  }

  lemma BeyondOld(start: seq<Slot>, table: seq<Slot>, f: File, m: nat, i: nat, k: nat, alias: string, live: set<int>)
    requires Good(f) && Contents(f) == start && m < |table| <= |f.slots| && (m == 0 || |start| <= m) && Unique(table)
    requires Clash(table[..m] + f.slots[m..|table|], i, k, alias, live)
    ensures |start| <= k && m <= k
  {
    hide Clash, Unique, NoneEmpty;
    var c := table[..m] + f.slots[m..|table|];
    ClashBounds(c, i, k, alias, live);
    if m == 0 {
      assert c == f.slots[..|table|];
      var n := if |start| <= |table| then |start| else |table|;
      assert c[..n] == start[..n];
      FrontUnique(start, n);
      UniqueNoClash(c, n, i, k, alias, live);
    } else {
      assert c[..m] == table[..m];
      FrontUnique(table, m);
      UniqueNoClash(c, m, i, k, alias, live);
    }
  }

  lemma ClashBounds(slots: seq<Slot>, i: nat, k: nat, alias: string, live: set<int>)
    requires Clash(slots, i, k, alias, live)
    ensures i < k < |slots|
  {
  }

  lemma FrontUnique(list: seq<Slot>, n: nat)
    requires n <= |list| && Unique(list)
    ensures Unique(list[..n])
  {
  }

  lemma NewTableUnique(s: System, p: int, devattr: string -> Naming)
    requires Inv(s, devattr) && p in s.phases && s.phases[p].Writing?
    ensures var ph := s.phases[p];
            && Unique(NewTable(ph)) && Decided(ph.call, ph.start, ph.list, ph.picks, s.live, devattr)
  {
    hide Put, Unique, Different, Absent, KeepsLive, MidPlan;
    var ph := s.phases[p];
    assert GoodPhase(s, ph, devattr);
    PutUnique(ph.list, ph.picks, ph.call.key);
  }

  /**
   Of the locks the call found, a death takes away that of a living key exactly when
   the new count does not reach it, if the file can be read at all.
   */
  lemma LostIff(s: System, p: int, devattr: string -> Naming, f: File, m: nat, k: nat)
    requires Inv(s, devattr) && MidWrite(s, p) && Enabled(s, Die(p)) && LeftBy(s, p, f, m)
    requires k < |s.phases[p].start| && s.phases[p].start[k].pid in Next(s, Die(p), devattr).live
    ensures var g := Next(s, Die(p), devattr).file;
            Readable(g) ==> (s.phases[p].start[k] !in Contents(g) <==> g.count <= k)
  {
    hide Put, Inv, NoneEmpty, Overlay;
    var ph := s.phases[p];
    var start, table, g := ph.start, NewTable(ph), Next(s, Die(p), devattr).file;
    DeathLeaves(s, p, devattr, f, m);
    NewTableUnique(s, p, devattr);
    if Readable(g) {
      if |table| <= |start| {
        InFront(start, |table|, k);
      } else if m == 0 {
        assert start + f.slots[|start|..|table|] == Contents(g);
        assert (start + f.slots[|start|..|table|])[k] == start[k];
      } else {
        var i := KeptInTable(ph.call, start, ph.list, ph.picks, s.live, devattr, k);
        assert (table[..m] + f.slots[m..|table|])[i] == table[i] == start[k];
      }
    }
  }

  lemma InFront(list: seq<Slot>, n: nat, k: nat)
    requires n <= |list| && k < |list| && Unique(list) && NoneEmpty(list)
    ensures list[k] in list[..n] <==> k < n
  {
    if k < n {
      assert list[..n][k] == list[k];
    }
  }

  /** A growing table keeps the locks of living keys in its first part. */
  lemma KeptInTable(call: Call, start: seq<Slot>, list: seq<Slot>, picks: seq<string>, live: set<int>, devattr: string -> Naming, k: nat)
    returns (i: nat)
    requires Decided(call, start, list, picks, live, devattr) && k < |start| && start[k].pid in live
    requires |start| < |Put(list, picks, call.key)|
    ensures i < |start| && Put(list, picks, call.key)[i] == start[k]
  {
    hide Fill, Unique, Absent, Different, Used;
    var r := Fill(list, picks, call.key);
    if call.Free? {
      FillNothing(list, picks, call.key);
      assert false;
    } else {
      assert start[k] in start;
      i :| 0 <= i < |list| && list[i] == start[k];
      FillKeeps(list, picks, call.key, i);
    }
  }

  // ----- a guard before the call

  /** Nothing is behind the counted slots. */
  predicate Tight(f: File) {
    |f.slots| == f.count
  }

  /** A file with nothing behind its table: whenever the writer dies, the rest is unreadable or a front of the old table. */
  lemma TightFile(f: File, list: seq<Slot>, picks: seq<string>, key: int, j: nat)
    requires Good(f) && Tight(f) && |list| == f.count && 0 < j < |PutPlan(list, picks, key)|
    ensures var g, n := DoAll(f, PutPlan(list, picks, key)[..j]), |Put(list, picks, key)|;
            && Sound(g) && (Readable(g) <==> n <= f.count)
            && (Readable(g) ==> Contents(g) == Contents(f)[..n])
  {
    hide Put, PutPlan, DoAll, Overlay, Unique, NoneEmpty;
    var table := Put(list, picks, key);
    var m := PlanPrefix(f, list, picks, key, j);
    PartlyWritten(f, table, m);
    if |table| <= f.count {
      assert table[..0] + f.slots[0..|table|] == Contents(f)[..|table|];
      FrontGood(Contents(f), |table|);
    }
  }

  /** Process p has the lock, found the file f, and has done some of its writes, if it decided on any. */
  ghost predicate Onto(s: System, p: int, f: File) {
    && s.lock == p && p in s.phases
    && match s.phases[p]
       case Waiting(_) => false
       case Checking(_, start, _) => s.file == f && Readable(f) && Contents(f) == start
       case Writing(call, start, list, picks, todo, _) => Good(f) && Contents(f) == start && |list| == |start| && Done(f, s.file, PutPlan(list, picks, call.key), todo)
       case _ => s.file == f
  }

  /** All writes of the plan but `todo` are done. */
  ghost predicate Done(f: File, file: File, plan: seq<Write>, todo: seq<Write>) {
    exists j: nat :: j <= |plan| && todo == plan[j..] && file == DoAll(f, plan[..j])
  }

  lemma DoneMore(f: File, file: File, plan: seq<Write>, todo: seq<Write>)
    requires Done(f, file, plan, todo) && todo != []
    ensures Done(f, DoWrite(file, todo[0]), plan, todo[1..])
  {
    hide DoAll, DoWrite;
    var j: nat :| j <= |plan| && todo == plan[j..] && file == DoAll(f, plan[..j]);
    assert plan[..j + 1] == plan[..j] + [todo[0]];
    DoAllParts(f, plan[..j], [todo[0]]);
    OneWrite(file, todo[0], []);
    assert todo[1..] == plan[j + 1..] && DoWrite(file, todo[0]) == DoAll(f, plan[..j + 1]);
  }

  lemma DoneNone(f: File, plan: seq<Write>)
    ensures Done(f, f, plan, plan)
  {
    assert plan[0..] == plan && plan[..0] == [] && DoAll(f, plan[..0]) == f;
  }

  /** Until p leaves the lock or dies, whatever the others do. */
  lemma OntoKeeps(s: System, e: Event, p: int, f: File, devattr: string -> Naming)
    requires Inv(s, devattr) && Named(devattr) && Enabled(s, e) && Fair(s, e, devattr) && Onto(s, p, f) && e != Release(p) && e != Die(p)
    ensures Onto(Next(s, e, devattr), p, f)
  {
    hide Done, Put, PutPlan, DoWrite, DoAll, Contents, Unique, NoneEmpty, Answers, Scanning, KeepsLive, AllBorn, MidPlan;
    var ph := s.phases[p];
    assert GoodPhase(s, ph, devattr);
    if e == Store(p) {
      DoneMore(f, s.file, PutPlan(ph.list, ph.picks, ph.call.key), ph.todo);
    } else if e == Decide(p) {
      StepKeeps(s, e, devattr);
      var ph' := Next(s, e, devattr).phases[p];
      assert GoodPhase(Next(s, e, devattr), ph', devattr);
      if ph'.Writing? {
        DoneNone(f, PutPlan(ph'.list, ph'.picks, ph'.call.key));
      }
    }
  }

  /** The process neither leaves the lock nor dies. */
  predicate Stays(run: seq<Event>, p: int) {
    Release(p) !in run && Die(p) !in run
  }

  lemma {:induction false} OntoRun(s: System, run: seq<Event>, p: int, f: File, devattr: string -> Naming)
    requires Inv(s, devattr) && Named(devattr) && Possible(s, run, devattr) && FairRun(s, run, devattr) && Stays(run, p) && Onto(s, p, f)
    ensures Onto(Run(s, run, devattr), p, f)
    decreases |run|
  {
    hide Inv, Next, Enabled, Fair, Onto;
    if run != [] {
      assert run[0] in run && forall e :: e in run[1..] ==> e in run;
      OntoKeeps(s, run[0], p, f, devattr);
      StepKeeps(s, run[0], devattr);
      OntoRun(Next(s, run[0], devattr), run[1..], p, f, devattr);
    }
  }

  /**
   A process that takes the lock when nothing is behind the table is never exposed
   before it gives the lock up: the guard can be checked before the call.
   */
  lemma TightCall(s: System, p: int, run: seq<Event>, devattr: string -> Naming)
    requires Inv(s, devattr) && Named(devattr) && Tight(s.file) && Enabled(s, Acquire(p))
    requires var t := Next(s, Acquire(p), devattr); Possible(t, run, devattr) && FairRun(t, run, devattr) && Stays(run, p)
    ensures !Exposed(Run(Next(s, Acquire(p), devattr), run, devattr), p)
  {
    hide Run, Possible, FairRun, Put, PutPlan, Good, Left, GoodPhase, BornPhase;
    var s1 := Next(s, Acquire(p), devattr);
    LockKeeps(s, Acquire(p), devattr);
    OntoRun(s1, run, p, s.file, devattr);
    var t := Run(s1, run, devattr);
    RunKeeps(s1, run, devattr);
    if MidWrite(t, p) {
      var ph := t.phases[p];
      DoneUnexposed(s.file, t.file, ph.list, ph.picks, ph.call.key, ph.todo);
    }
  }

  lemma DoneUnexposed(f: File, file: File, list: seq<Slot>, picks: seq<string>, key: int, todo: seq<Write>)
    requires Good(f) && Tight(f) && |list| == |Contents(f)| && Done(f, file, PutPlan(list, picks, key), todo) && todo != []
    ensures !(|Contents(f)| < file.count <= |file.slots|)
  {
    hide DoAll, PutPlan, Put, Unique, NoneEmpty, Overlay;
    var plan := PutPlan(list, picks, key);
    var j: nat :| j <= |plan| && todo == plan[j..] && file == DoAll(f, plan[..j]);
    if j == 0 {
      assert plan[..0] == [];
      NoWrites(f);
    } else {
      var m := PlanPrefix(f, list, picks, key, j);
      PartlyWritten(f, Put(list, picks, key), m);
    }
  }

  // ----- a file that cannot be read

  /** Nobody is writing, and nobody can read. */
  predicate Frozen(s: System) {
    Settled(s) && !Readable(s.file)
  }

  /** Nothing happens to such a file any more: every call is refused. */
  lemma FrozenStays(s: System, e: Event, devattr: string -> Naming)
    requires Inv(s, devattr) && Frozen(s) && Enabled(s, e)
    ensures Frozen(Next(s, e, devattr)) && Next(s, e, devattr).file == s.file
    ensures e.Read? ==> Next(s, e, devattr).phases[e.p].Leaving?
  {
    hide MidPlan, Put, Unique, NoneEmpty, AllBorn, Decided, Answers, Scanning, KeepsLive, Contents;
    if s.lock in s.phases {
      assert GoodPhase(s, s.phases[s.lock], devattr);
    }
  }

  lemma {:induction false} FrozenForever(s: System, run: seq<Event>, devattr: string -> Naming)
    requires Inv(s, devattr) && Named(devattr) && Frozen(s) && Possible(s, run, devattr) && FairRun(s, run, devattr)
    ensures Frozen(Run(s, run, devattr)) && Run(s, run, devattr).file == s.file
    decreases |run|
  {
    hide Inv, Next, Enabled, Fair, Frozen;
    if run != [] {
      FrozenStays(s, run[0], devattr);
      StepKeeps(s, run[0], devattr);
      FrozenForever(Next(s, run[0], devattr), run[1..], devattr);
    }
  }

  /** A process dies before the file has grown to the count it wrote. */
  predicate Freezes(s: System, e: Event) {
    e.Die? && MidWrite(s, e.p) && |s.file.slots| < s.file.count
  }

  /** It takes such a death to make the file unreadable. */
  lemma FreezesIff(s: System, e: Event, devattr: string -> Naming)
    requires Inv(s, devattr) && Enabled(s, e) && !Frozen(s)
    ensures Frozen(Next(s, e, devattr)) <==> Freezes(s, e)
  {
    hide MidPlan, Put, PutPlan, Unique, NoneEmpty, AllBorn, Answers, Scanning, KeepsLive, Contents, Decided, Good, Sound, Decision;
    if !e.Birth? && !e.Start? && e.p in s.phases {
      var ph := s.phases[e.p];
      assert GoodPhase(s, ph, devattr) && BornPhase(ph, s.born);
      if ph.Writing? && !MidWrite(s, e.p) {
        WrittenGood(s, ph, devattr);
        SoundGood(s.file);
      }
      if ph.Checking? {
        SoundGood(s.file);
      }
    }
  }

  predicate FreezesIn(s: System, run: seq<Event>, devattr: string -> Naming)
    requires Possible(s, run, devattr)
    decreases |run|
  {
    run != [] && (Freezes(s, run[0]) || FreezesIn(Next(s, run[0], devattr), run[1..], devattr))
  }

  /** So the file is unreadable after a fair run exactly when there was one. */
  lemma {:induction false} FrozenIff(s: System, run: seq<Event>, devattr: string -> Naming)
    requires Inv(s, devattr) && Named(devattr) && !Frozen(s) && Possible(s, run, devattr) && FairRun(s, run, devattr)
    ensures Frozen(Run(s, run, devattr)) <==> FreezesIn(s, run, devattr)
    decreases |run|
  {
    hide Inv, Next, Enabled, Fair, Frozen, Freezes;
    if run != [] {
      var s' := Next(s, run[0], devattr);
      StepKeeps(s, run[0], devattr);
      FreezesIff(s, run[0], devattr);
      if Frozen(s') {
        FrozenForever(s', run[1..], devattr);
      } else {
        FrozenIff(s', run[1..], devattr);
      }
    }
  }

  // ----- a call that picks a device twice

  /** A reservation leaves an alias twice exactly when it picked one twice. */
  lemma SharedIff(list: seq<Slot>, picks: seq<string>, pid: int)
    requires Unique(list) && Absent(picks, list) && forall i :: 0 <= i < |picks| ==> picks[i] != ""
    ensures Unique(Put(list, picks, pid)) <==> Different(picks)
  {
    hide Put, Used, New, Absent;
    if Different(picks) {
      PutUnique(list, picks, pid);
    } else {
      var i, j :| 0 <= i < j < |picks| && picks[i] == picks[j];
      var n, t := New(picks, pid), Put(list, picks, pid);
      Twice(n, i, j);
      PutMeaning(list, picks, pid);
      assert multiset(t)[n[i]] >= 2;
      AtTwice(t, n[i]);
    }
  }

  lemma AtTwice(t: seq<Slot>, x: Slot)
    requires multiset(t)[x] >= 2 && x.alias != ""
    ensures !Unique(t)
  {
    var i :| 0 <= i < |t| && t[i] == x;
    assert t == t[..i] + [x] + t[i + 1..];
    assert x in multiset(t[..i] + t[i + 1..]);
    if x in t[..i] {
      var j :| 0 <= j < i && t[j] == x;
    } else {
      var j :| 0 <= j < |t[i + 1..]| && t[i + 1..][j] == x;
      assert t[i + 1 + j] == x;
    }
  }
}
