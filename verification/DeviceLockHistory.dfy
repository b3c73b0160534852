/**
 How long a lock lasts: over any run in which no death takes a lock from a living key,
 a key that was granted a device keeps it until the key dies or gives it back, and
 until then the device is granted to nobody.
 */
module DeviceLockHistory {
  import opened DeviceLocks
  import opened DeviceLockLaws
  import opened DeviceLockRuns
  import opened DeviceLockDeaths

  /** The last write of a call, which commits it. */
  predicate Commits(s: System, e: Event) {
    e.Store? && e.p in s.phases && s.phases[e.p].Writing? && |s.phases[e.p].todo| == 1
  }

  /** The call that e commits gives key x.pid the device x.alias. */
  predicate Grants(s: System, e: Event, x: Slot) {
    Commits(s, e) && s.phases[e.p].call.Reserve? && s.phases[e.p].call.key == x.pid && x.alias in s.phases[e.p].picks
  }

  /** The call gives that device back. */
  predicate Releases(ph: Phase, x: Slot, devattr: string -> Naming) {
    && ph.Writing? && ph.call.Free? && ph.call.key == x.pid
    && x.alias == AliasOf(ph.call.device, devattr)
  }

  /** The count that was written does not reach this lock of the old table. */
  predicate CutOff(s: System, p: int, x: Slot) {
    MidWrite(s, p) && Readable(s.file) && exists k: nat :: s.file.count <= k < |s.phases[p].start| && s.phases[p].start[k] == x
  }

  /** A call to give x back commits, or has cut it off when its process dies. */
  predicate Frees(s: System, e: Event, x: Slot, devattr: string -> Naming) {
    (e.Store? || e.Die?) && e.p in s.phases && Releases(s.phases[e.p], x, devattr) && (Commits(s, e) || (e.Die? && CutOff(s, e.p, x)))
  }

  /** A fair event that takes no lock from a living key that has not asked for it. */
  ghost predicate Keeping(s: System, e: Event, devattr: string -> Naming) {
    && Fair(s, e, devattr)
    && (e.Die? ==> forall x :: CutOff(s, e.p, x) ==> x.pid !in s.live - {e.p} || Releases(s.phases[e.p], x, devattr))
  }

  /** The locks in force: the writes of a call count once all are done. */
  function Table(s: System): seq<Slot> {
    if MidWrite(s, s.lock) then s.phases[s.lock].start else Seen(s.file)
  }

  /** Between the writes, and before them, the table is the one the call found. */
  lemma Uncommitted(s: System, p: int, devattr: string -> Naming)
    requires Inv(s, devattr) && p in s.phases && s.phases[p].Writing? && s.phases[p].todo != []
    ensures var ph := s.phases[p];
            && s.lock == p && Table(s) == ph.start && Unique(ph.start) && NoneEmpty(ph.start)
            && Decided(ph.call, ph.start, ph.list, ph.picks, s.live, devattr)
  {
    hide Put, Decided, DoAll, AllBorn, Different, Absent, KeepsLive;
    var ph := s.phases[p];
    assert GoodPhase(s, ph, devattr);
    PlanFound(s.file, ph.start, PutPlan(ph.list, ph.picks, ph.call.key), ph.todo, ph.started);
  }

  lemma PlanFound(file: File, start: seq<Slot>, plan: seq<Write>, todo: seq<Write>, started: bool)
    requires MidPlan(file, start, plan, todo, started)
    ensures Unique(start) && NoneEmpty(start) && (!started ==> Seen(file) == start)
  {
    if !started {
      PlanFresh(file, start, plan, todo);
    }
  }

  /** After the last write the file holds the new table. */
  lemma Committed(s: System, e: Event, devattr: string -> Naming)
    requires Inv(s, devattr) && Enabled(s, e) && Commits(s, e)
    ensures var ph := s.phases[e.p]; Table(Next(s, e, devattr)) == Put(ph.list, ph.picks, ph.call.key)
  {
    hide Put, Decided, AllBorn, DoWrite, MidPlan, Contents, Good, PutPlan;
    var ph := s.phases[e.p];
    assert GoodPhase(s, ph, devattr);
    PlanStep(s.file, ph.start, PutPlan(ph.list, ph.picks, ph.call.key), ph.todo, ph.started);
    assert ph.todo[1..] == [];
    PlanDone(Next(s, e, devattr).file, ph.start, ph.list, ph.picks, ph.call.key, true);
  }

  /** Apart from the events that commit a call, only a death between the writes changes the table. */
  lemma OnlyCommits(s: System, e: Event, devattr: string -> Naming)
    requires Inv(s, devattr) && Enabled(s, e) && !Commits(s, e) && !(e.Die? && MidWrite(s, e.p))
    ensures Table(Next(s, e, devattr)) == Table(s)
  {
    hide Put, Decided, Contents, AllBorn, GoodPhase, BornPhase, Good, Decision, Seen, DoWrite;
    if e.Store? {
      Uncommitted(s, e.p, devattr);
    }
    if e.Decide? {
      DecisionUnstarted(s.phases[e.p], devattr, s.live);
    }
  }

  lemma DecisionUnstarted(ph: Phase, devattr: string -> Naming, live: set<int>)
    requires ph.Checking?
    ensures var d := Decision(ph.call, ph.start, ph.scan, devattr, live); d.Writing? ==> !d.started
  {
  }

  /** A fair death between the writes cuts the table off, if the file can still be read. */
  lemma DeathCuts(s: System, p: int, devattr: string -> Naming, x: Slot)
    requires Inv(s, devattr) && Enabled(s, Die(p)) && MidWrite(s, p) && !Exposed(s, p) && Readable(s.file)
    ensures x in Table(Next(s, Die(p), devattr)) <==> x in Table(s) && !CutOff(s, p, x)
  {
    hide Put, Inv, Left, Decided, Sound, Unique, NoneEmpty, PutPlan;
    var ph := s.phases[p];
    var f, m := Interrupted(s, p, devattr);
    CutTable(s.file, ph.start, NewTable(ph), f, m);
    Uncommitted(s, p, devattr);
    assert Table(Next(s, Die(p), devattr)) == ph.start[..s.file.count] by {
      LeftCount(s.file, ph.start, NewTable(ph), f, m);
      NobodyLocks(s, p, devattr);
    }
    if x in ph.start {
      var k: nat :| k < |ph.start| && ph.start[k] == x;
      InFront(ph.start, s.file.count, k);
      if CutOff(s, p, x) {
        var i: nat :| s.file.count <= i < |ph.start| && ph.start[i] == x;
        InFront(ph.start, s.file.count, i);
      }
    }
  }

  lemma LeftCount(file: File, start: seq<Slot>, table: seq<Slot>, f: File, m: nat)
    requires Left(file, start, table, f, m)
    ensures file.count == |table|
  {
  }

  lemma NobodyLocks(s: System, p: int, devattr: string -> Naming)
    requires Inv(s, devattr) && p in s.phases && s.phases[p].Writing? && Enabled(s, Die(p))
    ensures !MidWrite(Next(s, Die(p), devattr), Next(s, Die(p), devattr).lock)
  {
    hide GoodPhase, BornPhase;
  }

  /**
   A fair death between the writes that leaves the file readable leaves every living
   key the locks it has not asked to give back exactly when it is a keeping one.
   */
  lemma KeepingIff(s: System, p: int, devattr: string -> Naming)
    requires Inv(s, devattr) && Enabled(s, Die(p)) && MidWrite(s, p) && !Exposed(s, p) && Readable(s.file)
    ensures Keeping(s, Die(p), devattr) <==>
            forall x :: x in Table(s) && x.pid in Next(s, Die(p), devattr).live && !Releases(s.phases[p], x, devattr) ==>
                          x in Table(Next(s, Die(p), devattr))
  {
    hide Put, Inv, Releases, Table, CutOff;
    var ph, s' := s.phases[p], Next(s, Die(p), devattr);
    Uncommitted(s, p, devattr);
    forall x
      ensures x in Table(s') <==> x in Table(s) && !CutOff(s, p, x)
      ensures CutOff(s, p, x) ==> x in Table(s)
    {
      DeathCuts(s, p, devattr, x);
      CutFromStart(s, p, x);
    }
  }

  lemma CutFromStart(s: System, p: int, x: Slot)
    ensures CutOff(s, p, x) ==> MidWrite(s, p) && x in s.phases[p].start
  {
  }

  /** A reservation commits to all locks of living keys, and the new ones. */
  lemma CommitReserve(s: System, e: Event, devattr: string -> Naming)
    requires Inv(s, devattr) && Enabled(s, e) && Commits(s, e) && s.phases[e.p].call.Reserve?
    ensures var t := Table(Next(s, e, devattr));
            && (forall x :: x in Table(s) && x.pid in s.live ==> x in t)
            && (forall x :: x in t <==> Grants(s, e, x) || (x in Table(s) && x in s.phases[e.p].list))
            && (forall x, y :: Grants(s, e, y) && x in Table(s) && x.pid in s.live ==> x.alias != y.alias)
  {
    hide Put, Unique, Table, Seen, Contents, Mutex, Good, Inv, GoodPhase, DoWrite, Used;
    var ph := s.phases[e.p];
    Uncommitted(s, e.p, devattr);
    Committed(s, e, devattr);
    PutMeaning(ph.list, ph.picks, ph.call.key);
    var t := Put(ph.list, ph.picks, ph.call.key);
    forall x
      ensures x in t <==> Grants(s, e, x) || (x in ph.start && x in ph.list)
    {
      assert x in t <==> x in multiset(t);
      assert x in Used(ph.list) <==> x in ph.list && x.alias != "";
      assert x in New(ph.picks, ph.call.key) <==> Grants(s, e, x) by {
        PickedSlots(ph.picks, ph.call.key, x);
      }
    }
  }

  lemma PickedSlots(picks: seq<string>, pid: int, x: Slot)
    ensures x in New(picks, pid) <==> x.pid == pid && x.alias in picks
  {
    if x.pid == pid && x.alias in picks {
      var i :| 0 <= i < |picks| && picks[i] == x.alias;
      assert New(picks, pid)[i] == x;
    }
  }

  /** A release commits to all other locks. */
  lemma CommitFree(s: System, e: Event, devattr: string -> Naming)
    requires Inv(s, devattr) && Enabled(s, e) && Commits(s, e) && s.phases[e.p].call.Free?
    ensures var t := Table(Next(s, e, devattr));
            && (forall x :: x in t ==> x in Table(s))
            && (forall x :: x in Table(s) ==> (x in t <==> !Frees(s, e, x, devattr)))
  {
    hide Table, Seen, Contents, Mutex, Good, Inv, GoodPhase, DoWrite, Used, Fill, Index, Unique;
    var ph := s.phases[e.p];
    Uncommitted(s, e.p, devattr);
    Committed(s, e, devattr);
    var alias := AliasOf(ph.call.device, devattr);
    var k := Index(ph.start, alias);
    FillNothing(ph.list, [], ph.call.key);
    Freed(ph.start, k);
    WithoutOne(ph.start, k);
  }

  lemma WithoutOne(list: seq<Slot>, k: nat)
    requires Unique(list) && NoneEmpty(list) && k < |list|
    ensures forall x :: x in list[..k] + list[k + 1..] <==> x in list && x != list[k]
    ensures forall x :: x in list && x.alias == list[k].alias ==> x == list[k]
  {
    forall x
      ensures x in list[..k] + list[k + 1..] <==> x in list && x != list[k]
    {
      if x in list && x != list[k] {
        var i :| 0 <= i < |list| && list[i] == x;
        assert i < k ==> list[..k][i] == x;
        assert i > k ==> list[k + 1..][i - k - 1] == x;
      }
      if x in list[..k] + list[k + 1..] {
        var i :| 0 <= i < |list| && i != k && list[i] == x;
      }
    }
  }

  /** Every lock is on a key that was born. */
  lemma TableBorn(s: System, devattr: string -> Naming)
    requires Inv(s, devattr)
    ensures AllBorn(Table(s), s.born)
  {
    hide Put, Decided, DoAll, AllBorn, Contents, Seen, MidPlan, Good, Sound;
    if s.lock in s.phases {
      var ph := s.phases[s.lock];
      assert GoodPhase(s, ph, devattr) && BornPhase(ph, s.born);
      if ph.Writing? && !MidWrite(s, s.lock) {
        DiesWriting(s, s.lock, devattr);
      }
    }
  }

  /** A process that has not died yet may still be born, and is then new. */
  predicate MayLive(s: System, key: int) {
    key in s.live || key !in s.born
  }

  lemma LivedBefore(s: System, e: Event, devattr: string -> Naming, key: int)
    requires Enabled(s, e) && MayLive(Next(s, e, devattr), key)
    ensures MayLive(s, key)
  {
  }

  lemma {:induction false} LivedAlong(s: System, run: seq<Event>, devattr: string -> Naming, key: int)
    requires Possible(s, run, devattr) && MayLive(Run(s, run, devattr), key)
    ensures MayLive(s, key)
    decreases |run|
  {
    hide Next, Enabled, MayLive;
    if run != [] {
      LivedAlong(Next(s, run[0], devattr), run[1..], devattr, key);
      LivedBefore(s, run[0], devattr, key);
    }
  }

  /** Whether x is held after an event, given whether it was held before. */
  predicate StillHeld(s: System, e: Event, x: Slot, devattr: string -> Naming, held: bool) {
    Grants(s, e, x) || (held && !Frees(s, e, x, devattr))
  }

  /**
   One step changes the locks of a key that has not died as the calls it commits say,
   and in no other way, unless nobody can read them any more.
   */
  lemma StepHistory(s: System, e: Event, devattr: string -> Naming, x: Slot)
    requires Inv(s, devattr) && Enabled(s, e) && Keeping(s, e, devattr)
    requires MayLive(Next(s, e, devattr), x.pid) && !Frozen(Next(s, e, devattr))
    ensures x in Table(Next(s, e, devattr)) <==> StillHeld(s, e, x, devattr, x in Table(s))
  {
    hide Table, GoodPhase, Mutex, Good, Contents, AllBorn, CutOff, Decision, DoWrite, Seen;
    TableBorn(s, devattr);
    Unborn(Table(s), s.born, x);
    if Commits(s, e) {
      assert BornPhase(s.phases[e.p], s.born);
      LivedBefore(s, e, devattr, x.pid);
      if s.phases[e.p].call.Reserve? {
        CommitReserve(s, e, devattr);
      } else {
        CommitFree(s, e, devattr);
      }
    } else if e.Die? && MidWrite(s, e.p) {
      Uncommitted(s, e.p, devattr);
      CutFromStart(s, e.p, x);
      DeathReadable(s, e.p, devattr);
      DeathCuts(s, e.p, devattr, x);
    } else {
      CutFromStart(s, e.p, x);
      OnlyCommits(s, e, devattr);
    }
  }

  lemma DeathReadable(s: System, p: int, devattr: string -> Naming)
    requires Inv(s, devattr) && Enabled(s, Die(p)) && MidWrite(s, p) && !Frozen(Next(s, Die(p), devattr))
    ensures Readable(s.file)
  {
    hide GoodPhase, BornPhase;
  }

  lemma Unborn(table: seq<Slot>, born: set<int>, x: Slot)
    requires AllBorn(table, born)
    ensures x in table ==> x.pid in born
  {
  }

  /** Whether x is held after a run: granted and not given back since. */
  predicate HeldAfter(s: System, run: seq<Event>, x: Slot, devattr: string -> Naming, held: bool)
    requires Possible(s, run, devattr)
    decreases |run|
  {
    if run == [] then held
    else HeldAfter(Next(s, run[0], devattr), run[1..], x, devattr, StillHeld(s, run[0], x, devattr, held))
  }

  ghost predicate KeepingRun(s: System, run: seq<Event>, devattr: string -> Naming)
    requires Possible(s, run, devattr)
    decreases |run|
  {
    run == [] || (Keeping(s, run[0], devattr) && KeepingRun(Next(s, run[0], devattr), run[1..], devattr))
  }

  lemma {:induction false} KeepingIsFair(s: System, run: seq<Event>, devattr: string -> Naming)
    requires Possible(s, run, devattr) && KeepingRun(s, run, devattr)
    ensures FairRun(s, run, devattr)
    decreases |run|
  {
    hide Fair, Next, Enabled, CutOff, Releases;
    if run != [] {
      KeepingIsFair(Next(s, run[0], devattr), run[1..], devattr);
    }
  }

  lemma {:induction false} RunHistory(s: System, run: seq<Event>, devattr: string -> Naming, x: Slot)
    requires Inv(s, devattr) && Named(devattr) && Possible(s, run, devattr) && KeepingRun(s, run, devattr)
    requires MayLive(Run(s, run, devattr), x.pid) && !Frozen(Run(s, run, devattr))
    ensures x in Table(Run(s, run, devattr)) <==> HeldAfter(s, run, x, devattr, x in Table(s))
    decreases |run|
  {
    hide Inv, Next, Enabled, Fair, Table, StillHeld, MayLive, Frozen, CutOff, Releases;
    if run != [] {
      var s' := Next(s, run[0], devattr);
      LivedAlong(s', run[1..], devattr, x.pid);
      StepKeeps(s, run[0], devattr);
      KeepingIsFair(s', run[1..], devattr);
      if Frozen(s') {
        FrozenForever(s', run[1..], devattr);
      }
      StepHistory(s, run[0], devattr, x);
      RunHistory(s', run[1..], devattr, x);
    }
  }

  /**
   After any run of keeping events from the empty table, whenever no process is writing
   and the file can be read, it shows a living key to hold a device exactly when a call
   of the run gave it the device and no later one gave it back.
   */
  lemma TableTellsHistory(s: System, run: seq<Event>, devattr: string -> Naming, x: Slot)
    requires Initial(s) && Named(devattr) && Possible(s, run, devattr) && KeepingRun(s, run, devattr)
    requires x.pid in Run(s, run, devattr).live
    ensures var t := Run(s, run, devattr);
            Settled(t) && Readable(t.file) ==> (x in Contents(t.file) <==> HeldAfter(s, run, x, devattr, false))
  {
    hide Next, Enabled, Fair, GoodPhase, Possible, FairRun, KeepingRun, Run, HeldAfter;
    InitialInv(s, devattr);
    KeepingIsFair(s, run, devattr);
    RunKeeps(s, run, devattr);
    if Readable(Run(s, run, devattr).file) {
      RunHistory(s, run, devattr, x);
    }
  }

  /** Some event of the run gives x back. */
  predicate FreedIn(s: System, run: seq<Event>, x: Slot, devattr: string -> Naming)
    requires Possible(s, run, devattr)
    decreases |run|
  {
    run != [] && (Frees(s, run[0], x, devattr) || FreedIn(Next(s, run[0], devattr), run[1..], x, devattr))
  }

  lemma {:induction false} HeldUntilFreed(s: System, run: seq<Event>, x: Slot, devattr: string -> Naming)
    requires Possible(s, run, devattr) && !FreedIn(s, run, x, devattr)
    ensures HeldAfter(s, run, x, devattr, true)
    decreases |run|
  {
    hide Next, Enabled;
    if run != [] {
      HeldUntilFreed(Next(s, run[0], devattr), run[1..], x, devattr);
    }
  }

  /**
   A device that was given to a key is given to nobody, not even that key, as long as
   the key lives and has not given it back.
   */
  lemma GrantedOnce(s0: System, before: seq<Event>, after: seq<Event>, again: Event, devattr: string -> Naming, x: Slot, y: Slot)
    requires Initial(s0) && Named(devattr) && Possible(s0, before, devattr) && KeepingRun(s0, before, devattr)
    requires var s := Run(s0, before, devattr);
             && Possible(s, after, devattr) && KeepingRun(s, after, devattr)
             && after != [] && Grants(s, after[0], x)
             && Enabled(Run(s, after, devattr), again) && Grants(Run(s, after, devattr), again, y)
    requires x.alias == y.alias
    ensures var s := Run(s0, before, devattr);
            x.pid !in Run(s, after, devattr).live || FreedIn(s, after, x, devattr)
  {
    hide Inv, Next, Enabled, Fair, Table, Initial, MayLive, CutOff, Releases;
    InitialInv(s0, devattr);
    KeepingIsFair(s0, before, devattr);
    RunKeeps(s0, before, devattr);
    var s := Run(s0, before, devattr);
    var t := Run(s, after, devattr);
    KeepingIsFair(s, after, devattr);
    RunKeeps(s, after, devattr);
    if x.pid in t.live && !FreedIn(s, after, x, devattr) {
      Uncommitted(t, again.p, devattr);
      WriterNotFrozen(t, again.p, devattr);
      assert MayLive(t, x.pid) by {
        LivesOn(t, x.pid);
      }
      RunHistory(s, after, devattr, x);
      HeldUntilFreed(Next(s, after[0], devattr), after[1..], x, devattr);
      CommitReserve(t, again, devattr);
      assert false;
    }
  }

  lemma WriterNotFrozen(s: System, p: int, devattr: string -> Naming)
    requires Inv(s, devattr) && p in s.phases && s.phases[p].Writing?
    ensures !Frozen(s)
  {
    hide GoodPhase, BornPhase;
  }

  lemma LivesOn(s: System, key: int)
    requires key in s.live
    ensures MayLive(s, key)
  {
  }
}
