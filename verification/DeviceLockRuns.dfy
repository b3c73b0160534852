/**
 Processes that reserve and free devices under the file lock, one step at a time:
 any step of any process may come next, and any process may die at any time.
 */
module DeviceLockRuns {
  import opened DeviceLocks
  import opened DeviceLockLaws

  datatype Call = Reserve(key: int, lists: seq<seq<string>>) | Free(key: int, device: string)

  /**
   Where a process is in its call.  `start` is the table it read, `list` and `picks`
   are what it decided, `todo` is what it has yet to write.
   */
  datatype Phase =
    | Waiting(call: Call)
    | Holding(call: Call)
    | Checking(call: Call, start: seq<Slot>, scan: Scan)
    | Writing(call: Call, start: seq<Slot>, list: seq<Slot>, picks: seq<string>, todo: seq<Write>, started: bool)
    | Leaving(call: Call, start: seq<Slot>)

  /** The file, who holds its lock, the calls under way, the processes alive, and all there ever were. */
  datatype System = System(file: File, lock: int, phases: map<int, Phase>, live: set<int>, born: set<int>)

  const NOBODY: int := -1

  datatype Event = Birth(p: int) | Start(p: int, call: Call) | Acquire(p: int) | Read(p: int) | Decide(p: int) | Store(p: int) | Release(p: int) | Die(p: int)

  predicate Enabled(s: System, e: Event) {
    match e
    case Birth(p) => p >= 0 && p !in s.born
    case Start(p, call) => p in s.live && p !in s.phases && call.key in s.born
    case Acquire(p) => p in s.phases && s.phases[p].Waiting? && s.lock == NOBODY
    case Read(p) => p in s.phases && s.phases[p].Holding?
    case Decide(p) => p in s.phases && s.phases[p].Checking?
    case Store(p) => p in s.phases && s.phases[p].Writing? && s.phases[p].todo != []
    case Release(p) => p in s.phases && (s.phases[p].Leaving? || (s.phases[p].Writing? && s.phases[p].todo == []))
    case Die(p) => p in s.live
  }

  /** What a process finds out next from the table it read. */
  function Decision(call: Call, start: seq<Slot>, scan: Scan, devattr: string -> Naming, live: set<int>): Phase {
    match call
    case Reserve(key, _) =>
      (match ScanStep(scan, devattr, live)
       case Going(sc) => Checking(call, start, sc)
       case Denied(_) => Leaving(call, start)
       case Picked(list, picks) => Writing(call, start, list, picks, PutPlan(list, picks, key), false))
    case Free(key, device) =>
      var alias := AliasOf(device, devattr);
      match Unreserve(scan.list, key, alias)
      case Picked(list, _) => Writing(call, start, list, [], PutPlan(list, [], key), false)
      case _ => Leaving(call, start)
  }

  function Next(s: System, e: Event, devattr: string -> Naming): System
    requires Enabled(s, e)
  {
    match e
    case Birth(p) => s.(live := s.live + {p}, born := s.born + {p})
    case Start(p, call) => s.(phases := s.phases[p := Waiting(call)])
    case Acquire(p) => s.(lock := p, phases := s.phases[p := Holding(s.phases[p].call)])
    case Read(p) =>
      var call := s.phases[p].call;
      if Readable(s.file) then
        var list := Contents(s.file);
        s.(phases := s.phases[p := Checking(call, list, Scan(list, if call.Reserve? then call.lists else [], false, []))])
      else s.(phases := s.phases[p := Leaving(call, [])])
    case Decide(p) =>
      var ph := s.phases[p];
      s.(phases := s.phases[p := Decision(ph.call, ph.start, ph.scan, devattr, s.live)])
    case Store(p) =>
      var ph := s.phases[p];
      s.(file := DoWrite(s.file, ph.todo[0]), phases := s.phases[p := ph.(todo := ph.todo[1..], started := true)])
    case Release(p) => s.(lock := NOBODY, phases := s.phases - {p})
    case Die(p) =>
      s.(lock := if s.lock == p then NOBODY else s.lock, phases := s.phases - {p}, live := s.live - {p})
  }

  /** A process between its first write and its last. */
  predicate MidWrite(s: System, p: int) {
    p in s.phases && s.phases[p].Writing? && s.phases[p].started && s.phases[p].todo != []
  }

  /** The new count takes in slots that were in the file, but behind the old count. */
  predicate Exposed(s: System, p: int) {
    MidWrite(s, p) && |s.phases[p].start| < s.file.count <= |s.file.slots|
  }

  /**
   The events of a run that the safety of the protocol rests on: no death between the
   first write and the last when the count already takes in old slots, and no call two
   of whose lists can offer the same device.
   */
  ghost predicate Fair(s: System, e: Event, devattr: string -> Naming) {
    match e
    case Die(p) => !Exposed(s, p)
    case Start(_, Reserve(_, lists)) => Apart(lists, [], devattr)
    case _ => true
  }

  // ----- the invariant

  /** The picks so far answer the first lists, one each; `todo` is what is left of the rest. */
  ghost predicate Answers(lists: seq<seq<string>>, sc: Scan, devattr: string -> Naming) {
    && |sc.picks| + |sc.todo| == |lists|
    && (forall i :: 0 <= i < |sc.picks| ==> sc.picks[i] in Offers(lists[i], devattr))
    && (sc.todo != [] ==> forall d :: d in sc.todo[0] ==> d in lists[|sc.picks|])
    && (forall i :: 1 <= i < |sc.todo| ==> sc.todo[i] == lists[|sc.picks| + i])
  }

  /** Every lock of `start` is still in the list, unless its key has died. */
  ghost predicate KeepsLive(start: seq<Slot>, list: seq<Slot>, live: set<int>) {
    && (forall s :: s in start ==> s in list || s.pid !in live)
    && (forall s :: s in list && s.alias != "" ==> s in start)
  }

  /** What a call has decided to write. */
  ghost predicate Decided(call: Call, start: seq<Slot>, list: seq<Slot>, picks: seq<string>, live: set<int>, devattr: string -> Naming) {
    && Unique(list) && Different(picks) && Absent(picks, list) && NoneEmpty(start) && |list| == |start|
    && match call
       case Reserve(_, lists) =>
         && KeepsLive(start, list, live) && |picks| == |lists|
         && forall i :: 0 <= i < |picks| ==> picks[i] in Offers(lists[i], devattr)
       case Free(key, device) =>
         var alias := AliasOf(device, devattr);
         var k := Index(start, alias);
         picks == [] && k < |start| && start[k].pid == key && list == start[k := Empty(start[k])]
  }

  ghost predicate Base(f: File, start: seq<Slot>) {
    Good(f) && Contents(f) == start
  }

  /** Of the writes planned for the table `start`, all but `todo` are done. */
  ghost predicate MidPlan(file: File, start: seq<Slot>, plan: seq<Write>, todo: seq<Write>, started: bool) {
    exists f: File, j: nat :: j <= |plan| && todo == plan[j..] && file == DoAll(f, plan[..j])
      && Base(f, start) && (started <==> j > 0)
  }

  ghost predicate GoodPhase(s: System, ph: Phase, devattr: string -> Naming) {
    match ph
    case Waiting(call) => call.Reserve? ==> Apart(call.lists, [], devattr)
    case Holding(call) => Sound(s.file) && (call.Reserve? ==> Apart(call.lists, [], devattr))
    case Checking(call, start, sc) =>
      && Good(s.file) && Contents(s.file) == start
      && (if call.Reserve? then Scanning(sc, start, devattr) && KeepsLive(start, sc.list, s.live) && Answers(call.lists, sc, devattr)
          else sc.list == start)
    case Writing(call, start, list, picks, todo, started) =>
      && Decided(call, start, list, picks, s.live, devattr)
      && MidPlan(s.file, start, PutPlan(list, picks, call.key), todo, started)
    case Leaving(_, start) => Sound(s.file) && Seen(s.file) == start
  }

  predicate AllBorn(list: seq<Slot>, born: set<int>) {
    forall x :: x in list ==> x.pid in born
  }

  predicate BornPhase(ph: Phase, born: set<int>) {
    && ph.call.key in born
    && (!ph.Waiting? && !ph.Holding? ==> AllBorn(ph.start, born))
  }

  /** Only the holder of the lock is past waiting. */
  predicate Mutex(s: System) {
    && (forall p :: p in s.phases && !s.phases[p].Waiting? ==> p == s.lock)
    && (s.lock != NOBODY ==> s.lock in s.phases && !s.phases[s.lock].Waiting?)
    && s.live <= s.born && NOBODY !in s.born && s.phases.Keys <= s.live
  }

  /** Nobody is writing. */
  predicate Settled(s: System) {
    s.lock == NOBODY || (s.lock in s.phases && !s.phases[s.lock].Writing?)
  }

  ghost predicate Inv(s: System, devattr: string -> Naming) {
    && Mutex(s)
    && (forall p :: p in s.phases ==> GoodPhase(s, s.phases[p], devattr) && BornPhase(s.phases[p], s.born))
    && (Settled(s) ==> Sound(s.file) && AllBorn(Seen(s.file), s.born))
  }

  predicate Initial(s: System) {
    s.file == File(0, []) && s.lock == NOBODY && s.phases == map[] && s.live <= s.born && NOBODY !in s.born
  }

  lemma PlanStart(file: File, start: seq<Slot>, plan: seq<Write>)
    requires Good(file) && Contents(file) == start
    ensures MidPlan(file, start, plan, plan, false)
  {
    assert plan[0..] == plan && DoAll(file, plan[..0]) == file && Base(file, start);
  }

  lemma PlanStep(file: File, start: seq<Slot>, plan: seq<Write>, todo: seq<Write>, started: bool)
    requires MidPlan(file, start, plan, todo, started) && todo != []
    ensures MidPlan(DoWrite(file, todo[0]), start, plan, todo[1..], true)
  {
    hide DoAll, DoWrite, Base;
    var f: File, j: nat :| j <= |plan| && todo == plan[j..] && file == DoAll(f, plan[..j])
      && Base(f, start) && (started <==> j > 0);
    assert plan[..j + 1] == plan[..j] + [todo[0]];
    DoAllParts(f, plan[..j], [todo[0]]);
    OneWrite(file, todo[0], []);
    assert todo[1..] == plan[j + 1..] && DoWrite(file, todo[0]) == DoAll(f, plan[..j + 1]);
  }

  /** Before the first write. */
  lemma PlanFresh(file: File, start: seq<Slot>, plan: seq<Write>, todo: seq<Write>)
    requires MidPlan(file, start, plan, todo, false)
    ensures Good(file) && Contents(file) == start && todo == plan
  {
    hide Good, Contents;
    var f: File, j: nat :| j <= |plan| && todo == plan[j..] && file == DoAll(f, plan[..j])
      && Base(f, start) && (false <==> j > 0);
    assert plan[..j] == [];
  }

  /** After the last write. */
  lemma PlanDone(file: File, start: seq<Slot>, list: seq<Slot>, picks: seq<string>, key: int, started: bool)
    requires MidPlan(file, start, PutPlan(list, picks, key), [], started)
    ensures Readable(file) && Contents(file) == Put(list, picks, key)
  {
    hide DoAll, Base, PutPlan, Put;
    var plan := PutPlan(list, picks, key);
    var f: File, j: nat :| j <= |plan| && [] == plan[j..] && file == DoAll(f, plan[..j])
      && Base(f, start) && (started <==> j > 0);
    assert plan[..j] == plan;
    PlanMeaning(f, list, picks, key);
  }

  /** The file holds the new count and the first m slots of the new table, over the file f the call found. */
  ghost predicate Left(file: File, start: seq<Slot>, table: seq<Slot>, f: File, m: nat) {
    && Base(f, start) && m < |table| && (m == 0 || |start| <= m)
    && file == File(|table|, Overlay(f.slots, 0, table[..m]))
  }

  /** In between. */
  lemma PlanUnderway(file: File, start: seq<Slot>, list: seq<Slot>, picks: seq<string>, key: int, todo: seq<Write>)
    returns (f: File, m: nat)
    requires MidPlan(file, start, PutPlan(list, picks, key), todo, true) && todo != [] && |list| == |start|
    ensures Left(file, start, Put(list, picks, key), f, m)
  {
    hide DoAll, Base, PutPlan, Put, Overlay;
    var plan := PutPlan(list, picks, key);
    var j: nat;
    f, j :| j <= |plan| && todo == plan[j..] && file == DoAll(f, plan[..j])
      && Base(f, start) && (true <==> j > 0);
    m := PlanPrefix(f, list, picks, key, j);
  }

  /** Unless old slots come in, what can be read is the front of the old table. */
  lemma CutTable(file: File, start: seq<Slot>, table: seq<Slot>, f: File, m: nat)
    requires Left(file, start, table, f, m) && !(|start| < file.count <= |file.slots|)
    ensures Readable(file) ==> |table| <= |start| && Contents(file) == start[..|table|]
    ensures Sound(file) && forall x :: x in Seen(file) ==> x in start
  {
    hide Overlay, Unique, NoneEmpty;
    PartlyWritten(f, table, m);
    if Readable(file) {
      assert table[..0] + f.slots[0..|table|] == start[..|table|];
      FrontGood(start, |table|);
    }
  }

  lemma SoundGood(f: File)
    requires Good(f)
    ensures Readable(f) && Sound(f) && Seen(f) == Contents(f)
  {
  }

  lemma FrontGood(list: seq<Slot>, n: nat)
    requires n <= |list| && Unique(list) && NoneEmpty(list)
    ensures Unique(list[..n]) && NoneEmpty(list[..n]) && forall x :: x in list[..n] ==> x in list
  {
  }

  lemma InitialInv(s: System, devattr: string -> Naming)
    requires Initial(s)
    ensures Inv(s, devattr)
  {
  }

  lemma BirthKeeps(s: System, e: Event, devattr: string -> Naming)
    requires Inv(s, devattr) && Enabled(s, e) && (e.Birth? || e.Start?) && Fair(s, e, devattr)
    ensures Inv(Next(s, e, devattr), devattr)
  {
    hide Scanning, Good, Put, DoAll, Apart, Unique, Different, Absent, Answers;
    var s' := Next(s, e, devattr);
    forall p | p in s'.phases
      ensures GoodPhase(s', s'.phases[p], devattr) && BornPhase(s'.phases[p], s'.born)
    {
      if p in s.phases {
        assert GoodPhase(s, s.phases[p], devattr) && BornPhase(s.phases[p], s.born);
      }
    }
  }

  /** The other processes, which wait, are not touched by a step of the holder. */
  lemma OthersWait(s: System, s': System, p: int, devattr: string -> Naming)
    requires Inv(s, devattr) && s'.born == s.born && (forall q :: q in s'.phases && q != p ==> q in s.phases && s'.phases[q] == s.phases[q])
    requires s.lock == p || s.lock == NOBODY
    ensures forall q :: q in s'.phases && q != p ==> GoodPhase(s', s'.phases[q], devattr) && BornPhase(s'.phases[q], s'.born)
  {
    hide Scanning, Good, Put, DoAll, Apart, Unique, Different, Absent, Answers;
    forall q | q in s'.phases && q != p
      ensures GoodPhase(s', s'.phases[q], devattr) && BornPhase(s'.phases[q], s'.born)
    {
      assert GoodPhase(s, s.phases[q], devattr) && BornPhase(s.phases[q], s.born);
    }
  }

  lemma LockKeeps(s: System, e: Event, devattr: string -> Naming)
    requires Inv(s, devattr) && Enabled(s, e) && e.Acquire?
    ensures Inv(Next(s, e, devattr), devattr)
  {
    hide Scanning, Good, Put, DoAll, Apart, Unique, Different, Absent, Answers, Decided, KeepsLive, AllBorn;
    assert GoodPhase(s, s.phases[e.p], devattr) && BornPhase(s.phases[e.p], s.born);
    OthersWait(s, Next(s, e, devattr), e.p, devattr);
  }

  lemma ReadKeeps(s: System, e: Event, devattr: string -> Naming)
    requires Inv(s, devattr) && Enabled(s, e) && e.Read?
    ensures Inv(Next(s, e, devattr), devattr)
  {
    hide Put, DoAll, Decided, AllBorn;
    assert GoodPhase(s, s.phases[e.p], devattr) && BornPhase(s.phases[e.p], s.born);
    OthersWait(s, Next(s, e, devattr), e.p, devattr);
  }

  /** One turn of the scan keeps the answers in step with the lists. */
  lemma AnswersKeep(lists: seq<seq<string>>, sc: Scan, devattr: string -> Naming, live: set<int>)
    requires Answers(lists, sc, devattr)
    ensures var r := ScanStep(sc, devattr, live);
            && (r.Going? ==> Answers(lists, r.scan, devattr))
            && (r.Picked? ==> r.list == sc.list && r.picks == sc.picks && |r.picks| == |lists|)
  {
    hide Check;
    var r := ScanStep(sc, devattr, live);
    if r.Going? {
      var d := sc.todo[0][0];
      assert d in sc.todo[0];
      if |r.scan.picks| > |sc.picks| {
        assert r.scan.picks == sc.picks + [devattr(d).name];
        assert devattr(d).name in Offers(lists[|sc.picks|], devattr);
      }
    }
  }

  /** And trashes no lock whose key lives. */
  lemma LiveKept(sc: Scan, start: seq<Slot>, devattr: string -> Naming, live: set<int>)
    requires Unique(sc.list) && Named(devattr) && KeepsLive(start, sc.list, live)
    ensures var r := ScanStep(sc, devattr, live);
            r.Going? ==> KeepsLive(start, r.scan.list, live)
  {
    hide Check, Unique;
    var r := ScanStep(sc, devattr, live);
    if r.Going? && devattr(sc.todo[0][0]).Alias? {
      CheckKeeps(sc.list, devattr(sc.todo[0][0]).name, live);
      Trashed(sc.list, devattr(sc.todo[0][0]).name, live);
    }
  }

  lemma Trashed(list: seq<Slot>, alias: string, live: set<int>)
    requires Unique(list) && alias != ""
    ensures forall s :: s in list ==> s in Check(list, alias, live).1 || s.pid !in live
  {
    CheckKeeps(list, alias, live);
    var k := Index(list, alias);
    forall s | s in list && s.alias == alias
      ensures s in Check(list, alias, live).1 || s.pid !in live
    {
      var i :| 0 <= i < |list| && list[i] == s;
      assert i == k;
    }
  }

  /** A reservation decides on, or gives up, with the file untouched. */
  lemma ReserveDecides(s: System, p: int, devattr: string -> Naming)
    requires Inv(s, devattr) && Named(devattr) && p in s.phases && s.phases[p].Checking? && s.phases[p].call.Reserve?
    ensures var ph := s.phases[p];
            GoodPhase(s, Decision(ph.call, ph.start, ph.scan, devattr, s.live), devattr)
  {
    hide MidPlan, Put, PutPlan, DoAll, Good, AllBorn, Check, Index, Mutex, Answers, Contents;
    var ph := s.phases[p];
    assert GoodPhase(s, ph, devattr);
    ScanKeeps(ph.scan, ph.start, devattr, s.live);
    AnswersKeep(ph.call.lists, ph.scan, devattr, s.live);
    LiveKept(ph.scan, ph.start, devattr, s.live);
    AnswersMeaning(ph.call.lists, ph.scan, devattr);
    GoodStart(s.file);
    PlanStart(s.file, ph.start, PutPlan(ph.scan.list, ph.scan.picks, ph.call.key));
  }

  lemma GoodStart(f: File)
    requires Good(f)
    ensures Readable(f) && NoneEmpty(Contents(f)) && Unique(Contents(f))
  {
  }

  lemma AnswersMeaning(lists: seq<seq<string>>, sc: Scan, devattr: string -> Naming)
    requires Answers(lists, sc, devattr)
    ensures |sc.picks| <= |lists| && forall i :: 0 <= i < |sc.picks| ==> sc.picks[i] in Offers(lists[i], devattr)
  {
  }

  lemma FreeDecides(s: System, p: int, devattr: string -> Naming)
    requires Inv(s, devattr) && p in s.phases && s.phases[p].Checking? && s.phases[p].call.Free?
    ensures var ph := s.phases[p];
            GoodPhase(s, Decision(ph.call, ph.start, ph.scan, devattr, s.live), devattr)
  {
    hide MidPlan, Put, PutPlan, DoAll, AllBorn, Mutex, Contents;
    var ph := s.phases[p];
    assert GoodPhase(s, ph, devattr);
    var d := Decision(ph.call, ph.start, ph.scan, devattr, s.live);
    if d.Writing? {
      PlanStart(s.file, ph.start, PutPlan(d.list, [], ph.call.key));
    }
  }

  lemma DecideKeeps(s: System, e: Event, devattr: string -> Naming)
    requires Inv(s, devattr) && Named(devattr) && Enabled(s, e) && e.Decide?
    ensures Inv(Next(s, e, devattr), devattr)
  {
    hide Put, DoAll, PutPlan, Decided, AllBorn, ScanStep, Unreserve, Answers, KeepsLive, Scanning, Good, Contents;
    var ph := s.phases[e.p];
    assert GoodPhase(s, ph, devattr) && BornPhase(ph, s.born);
    if ph.call.Reserve? {
      ReserveDecides(s, e.p, devattr);
    } else {
      FreeDecides(s, e.p, devattr);
    }
    OthersWait(s, Next(s, e, devattr), e.p, devattr);
    CheckingGood(s, ph, devattr);
    assert GoodPhase(Next(s, e, devattr), Next(s, e, devattr).phases[e.p], devattr) by {
      SameView(s, Next(s, e, devattr), Next(s, e, devattr).phases[e.p], devattr);
    }
  }

  lemma CheckingGood(s: System, ph: Phase, devattr: string -> Naming)
    requires ph.Checking? && GoodPhase(s, ph, devattr)
    ensures Good(s.file)
  {
  }

  /** A phase depends only on the file and on who lives. */
  lemma SameView(s: System, s': System, ph: Phase, devattr: string -> Naming)
    requires GoodPhase(s, ph, devattr) && s'.file == s.file && s'.live == s.live
    ensures GoodPhase(s', ph, devattr)
  {
    hide Put, DoAll, Decided, AllBorn, Answers, KeepsLive, Scanning, Good, Contents;
  }

  lemma StoreKeeps(s: System, e: Event, devattr: string -> Naming)
    requires Inv(s, devattr) && Enabled(s, e) && e.Store?
    ensures Inv(Next(s, e, devattr), devattr)
  {
    hide MidPlan, Put, Decided, AllBorn, Answers, KeepsLive, Scanning, Good, Contents, DoWrite;
    var ph := s.phases[e.p];
    assert GoodPhase(s, ph, devattr) && BornPhase(ph, s.born);
    PlanStep(s.file, ph.start, PutPlan(ph.list, ph.picks, ph.call.key), ph.todo, ph.started);
    OthersWait(s, Next(s, e, devattr), e.p, devattr);
  }

  /** When a call ends, the table is good again. */
  lemma WrittenGood(s: System, ph: Phase, devattr: string -> Naming)
    requires GoodPhase(s, ph, devattr) && BornPhase(ph, s.born) && ph.Writing? && (ph.todo == [] || !ph.started)
    ensures Good(s.file) && AllBorn(Contents(s.file), s.born)
  {
    hide MidPlan, PutPlan, Put, AllBorn, Unique, Absent, Different, KeepsLive;
    if ph.todo == [] {
      PlanDone(s.file, ph.start, ph.list, ph.picks, ph.call.key, ph.started);
      PutUnique(ph.list, ph.picks, ph.call.key);
      Picked(ph.picks);
      PutMeaning(ph.list, ph.picks, ph.call.key);
      PutBorn(ph.call, ph.start, ph.list, ph.picks, s.live, s.born, devattr);
    } else {
      PlanFresh(s.file, ph.start, PutPlan(ph.list, ph.picks, ph.call.key), ph.todo);
    }
  }

  lemma Picked(picks: seq<string>)
    requires Different(picks)
    ensures forall i :: 0 <= i < |picks| ==> picks[i] != ""
  {
  }

  lemma PutBorn(call: Call, start: seq<Slot>, list: seq<Slot>, picks: seq<string>, live: set<int>, born: set<int>, devattr: string -> Naming)
    requires Decided(call, start, list, picks, live, devattr) && AllBorn(start, born) && call.key in born
    ensures AllBorn(Put(list, picks, call.key), born)
  {
    hide Put, Used, New, Unique;
    PutMeaning(list, picks, call.key);
    UsedInStart(call, start, list, picks, live, devattr);
    forall x | x in Put(list, picks, call.key)
      ensures x.pid in born
    {
      assert x in multiset(Put(list, picks, call.key));
      if x in NewLocks(picks, call.key) {
        assert x in New(picks, call.key);
      } else {
        assert x in Used(list);
      }
    }
  }

  lemma UsedInStart(call: Call, start: seq<Slot>, list: seq<Slot>, picks: seq<string>, live: set<int>, devattr: string -> Naming)
    requires Decided(call, start, list, picks, live, devattr)
    ensures forall x :: x in Used(list) ==> x in start
  {
  }

  lemma ReleaseKeeps(s: System, e: Event, devattr: string -> Naming)
    requires Inv(s, devattr) && Enabled(s, e) && e.Release?
    ensures Inv(Next(s, e, devattr), devattr)
  {
    hide MidPlan, Put, DoAll, Decided, AllBorn, Answers, KeepsLive, Scanning, Good, Contents;
    var ph := s.phases[e.p];
    assert GoodPhase(s, ph, devattr) && BornPhase(ph, s.born);
    if ph.Writing? {
      WrittenGood(s, ph, devattr);
      assert Good(s.file) ==> Readable(s.file) by {
        SoundGood(s.file);
      }
    }
    OthersWait(s, Next(s, e, devattr), e.p, devattr);
  }

  /** A death takes nothing from what a call relies on. */
  lemma FewerAlive(s: System, s': System, ph: Phase, devattr: string -> Naming)
    requires GoodPhase(s, ph, devattr) && s'.file == s.file && s'.live <= s.live
    ensures GoodPhase(s', ph, devattr)
  {
    hide Put, DoAll, Answers, Scanning, Good, Contents, Unique, Different, Absent;
  }

  lemma DieKeeps(s: System, e: Event, devattr: string -> Naming)
    requires Inv(s, devattr) && Enabled(s, e) && e.Die? && Fair(s, e, devattr)
    ensures Inv(Next(s, e, devattr), devattr)
  {
    hide MidPlan, Put, PutPlan, DoAll, Decided, AllBorn, Answers, KeepsLive, Scanning, Good, Contents, GoodPhase, BornPhase, Sound, Seen;
    var s' := Next(s, e, devattr);
    forall q | q in s'.phases
      ensures GoodPhase(s', s'.phases[q], devattr) && BornPhase(s'.phases[q], s'.born)
    {
      FewerAlive(s, s', s.phases[q], devattr);
    }
    if s.lock == e.p && s.phases[e.p].Writing? {
      DiesWriting(s, e.p, devattr);
    }
  }

  /** What the death of a writing process leaves can be read by the next. */
  lemma DiesWriting(s: System, p: int, devattr: string -> Naming)
    requires Inv(s, devattr) && p in s.phases && s.phases[p].Writing? && !Exposed(s, p)
    ensures Sound(s.file) && AllBorn(Seen(s.file), s.born)
  {
    hide MidPlan, Put, PutPlan, DoAll, Answers, KeepsLive, Scanning, Good, Contents, Unique, Different, Absent, Left;
    var ph := s.phases[p];
    assert GoodPhase(s, ph, devattr) && BornPhase(ph, s.born);
    if MidWrite(s, p) {
      var f, m := PlanUnderway(s.file, ph.start, ph.list, ph.picks, ph.call.key, ph.todo);
      CutTable(s.file, ph.start, Put(ph.list, ph.picks, ph.call.key), f, m);
    } else {
      WrittenGood(s, ph, devattr);
    }
  }

  /** Every fair step keeps the invariant. */
  lemma StepKeeps(s: System, e: Event, devattr: string -> Naming)
    requires Inv(s, devattr) && Named(devattr) && Enabled(s, e) && Fair(s, e, devattr)
    ensures Inv(Next(s, e, devattr), devattr)
  {
    hide Inv, Next, Enabled, Fair;
    match e
    case Birth(_) => BirthKeeps(s, e, devattr);
    case Start(_, _) => BirthKeeps(s, e, devattr);
    case Acquire(_) => LockKeeps(s, e, devattr);
    case Read(_) => ReadKeeps(s, e, devattr);
    case Decide(_) => DecideKeeps(s, e, devattr);
    case Store(_) => StoreKeeps(s, e, devattr);
    case Release(_) => ReleaseKeeps(s, e, devattr);
    case Die(_) => DieKeeps(s, e, devattr);
  }

  // ----- which calls are granted

  /** A release decides to write exactly when the file shows a lock of its key and alias; otherwise it leaves, with the error saying why. */
  lemma FreeDecision(s: System, p: int, devattr: string -> Naming)
    requires Inv(s, devattr) && p in s.phases && s.phases[p].Checking? && s.phases[p].call.Free?
    ensures Readable(s.file)
    ensures var ph, d := s.phases[p], Next(s, Decide(p), devattr).phases[p];
            var key, alias, list := ph.call.key, AliasOf(ph.call.device, devattr), Contents(s.file);
            && (d.Writing? <==> Slot(key, alias) in list)
            && (!d.Writing? ==> d == Leaving(ph.call, list))
            && (Unreserve(ph.scan.list, key, alias) == Denied(EPERM) <==> exists x :: x in list && x.alias == alias && x.pid != key)
            && (Unreserve(ph.scan.list, key, alias) == Denied(EINVAL) <==> forall x :: x in list ==> x.alias != alias)
  {
    hide Unreserve, PutPlan, Mutex, AllBorn, Unique, NoneEmpty;
    var ph := s.phases[p];
    assert GoodPhase(s, ph, devattr);
    UnreserveMeaning(ph.start, ph.call.key, AliasOf(ph.call.device, devattr));
    UniqueRelease(ph.start, ph.call.key, AliasOf(ph.call.device, devattr));
  }

  /** A reservation picks the device at hand exactly when it is known and, by the file, no living key has it; else it goes on, unless the name could not be looked up. */
  lemma ReserveTurn(s: System, p: int, devattr: string -> Naming)
    requires Inv(s, devattr) && Named(devattr) && p in s.phases && s.phases[p].Checking? && s.phases[p].call.Reserve?
    requires s.phases[p].scan.todo != [] && s.phases[p].scan.todo[0] != []
    ensures Readable(s.file)
    ensures var ph, next := s.phases[p], Next(s, Decide(p), devattr).phases[p];
            var d, picks := ph.scan.todo[0][0], ph.scan.picks;
            && (devattr(d).Alias? ==>
                  (!Taken(Contents(s.file), devattr(d).name, s.live) <==>
                   next.Checking? && next.scan.picks == picks + [devattr(d).name] && next.scan.todo == ph.scan.todo[1..]))
            && (Passed(d, Contents(s.file), s.live, devattr) <==>
                next.Checking? && next.scan.picks == picks && next.scan.todo == [ph.scan.todo[0][1..]] + ph.scan.todo[1..])
            && (devattr(d).Trouble? <==> next == Leaving(ph.call, Contents(s.file)))
  {
    hide ScanStep, PutPlan, Mutex, AllBorn, Unique, NoneEmpty, Answers, Apart, Different, Absent, Taken;
    var ph := s.phases[p];
    assert GoodPhase(s, ph, devattr);
    TurnMeaning(ph.scan, devattr, s.live);
    SameKeys(ph.start, ph.scan.list, s.live);
  }

  /** What the scan has trashed so far is nobody's. */
  lemma SameKeys(start: seq<Slot>, list: seq<Slot>, live: set<int>)
    requires KeepsLive(start, list, live)
    ensures SameTaken(start, list, live)
  {
  }

  // ----- whole runs

  /** A run from s: every event is possible when its turn comes. */
  predicate Possible(s: System, run: seq<Event>, devattr: string -> Naming)
    decreases |run|
  {
    run == [] || (Enabled(s, run[0]) && Possible(Next(s, run[0], devattr), run[1..], devattr))
  }

  ghost predicate FairRun(s: System, run: seq<Event>, devattr: string -> Naming)
    requires Possible(s, run, devattr)
    decreases |run|
  {
    run == [] || (Fair(s, run[0], devattr) && FairRun(Next(s, run[0], devattr), run[1..], devattr))
  }

  function Run(s: System, run: seq<Event>, devattr: string -> Naming): System
    requires Possible(s, run, devattr)
    decreases |run|
  {
    if run == [] then s else Run(Next(s, run[0], devattr), run[1..], devattr)
  }

  lemma {:induction false} RunKeeps(s: System, run: seq<Event>, devattr: string -> Naming)
    requires Inv(s, devattr) && Named(devattr) && Possible(s, run, devattr) && FairRun(s, run, devattr)
    ensures Inv(Run(s, run, devattr), devattr)
    decreases |run|
  {
    hide Inv, Next, Enabled, Fair;
    if run != [] {
      StepKeeps(s, run[0], devattr);
      RunKeeps(Next(s, run[0], devattr), run[1..], devattr);
    }
  }

  /** The alias is locked on two different keys, both alive. */
  ghost predicate HeldTwice(s: System, alias: string) {
    Readable(s.file) && alias != "" && exists i, j ::
      0 <= i < j < |Contents(s.file)| && Contents(s.file)[i].alias == Contents(s.file)[j].alias == alias &&
      Contents(s.file)[i].pid != Contents(s.file)[j].pid && Contents(s.file)[i].pid in s.live && Contents(s.file)[j].pid in s.live
  }

  /**
   In every fair run from the empty table, whenever no process is writing, the file
   cannot be read or its table has no unused slot, and no alias is locked twice.
   */
  lemma Safety(s: System, run: seq<Event>, devattr: string -> Naming, alias: string)
    requires Initial(s) && Named(devattr) && Possible(s, run, devattr) && FairRun(s, run, devattr)
    requires Settled(Run(s, run, devattr))
    ensures Sound(Run(s, run, devattr).file) && !HeldTwice(Run(s, run, devattr), alias)
  {
    InitialInv(s, devattr);
    RunKeeps(s, run, devattr);
  }

  /** A refused call leaves the table as it read it. */
  lemma RefusedUnchanged(s: System, p: int, devattr: string -> Naming)
    requires Inv(s, devattr) && Enabled(s, Release(p)) && s.phases[p].Leaving?
    ensures Sound(s.file) && Seen(s.file) == s.phases[p].start
  {
    assert GoodPhase(s, s.phases[p], devattr);
  }

  lemma WrittenTable(s: System, p: int, devattr: string -> Naming)
    requires Inv(s, devattr) && Enabled(s, Release(p)) && s.phases[p].Writing?
    ensures var ph := s.phases[p];
            && Good(s.file) && Contents(s.file) == Put(ph.list, ph.picks, ph.call.key)
            && Decided(ph.call, ph.start, ph.list, ph.picks, s.live, devattr)
  {
    hide Put, Answers, Scanning, Unique, Contents, Mutex, Decided, AllBorn, KeepsLive;
    var ph := s.phases[p];
    assert GoodPhase(s, ph, devattr) && BornPhase(ph, s.born);
    WrittenGood(s, ph, devattr);
    PlanDone(s.file, ph.start, ph.list, ph.picks, ph.call.key, ph.started);
  }

  /**
   What a reservation has done when it leaves the lock: one new lock for each list, on
   a device of that list; of the locks it found, only those of dead keys are gone.
   */
  lemma ReserveCompleted(s: System, p: int, devattr: string -> Naming)
    requires Inv(s, devattr) && Enabled(s, Release(p)) && s.phases[p].Writing? && s.phases[p].call.Reserve?
    ensures var ph := s.phases[p];
            && Good(s.file) && multiset(Contents(s.file)) == Locks(ph.list) + NewLocks(ph.picks, ph.call.key)
            && |ph.picks| == |ph.call.lists|
            && (forall i :: 0 <= i < |ph.picks| ==> ph.picks[i] in Offers(ph.call.lists[i], devattr))
            && (forall x :: x in ph.start ==> x in Locks(ph.list) || x.pid !in s.live)
            && (forall x :: x in Locks(ph.list) ==> x in ph.start)
  {
    hide Put, Unique, Contents, Mutex, Good, Inv, GoodPhase, Used, Absent, Offers;
    var ph := s.phases[p];
    WrittenTable(s, p, devattr);
    PutMeaning(ph.list, ph.picks, ph.call.key);
    forall x | x in ph.start
      ensures x in Locks(ph.list) || x.pid !in s.live
    {
      if x in ph.list {
        assert x in Used(ph.list);
      }
    }
    forall x | x in Locks(ph.list)
      ensures x in ph.start
    {
      assert x in Used(ph.list);
    }
  }

  /** What a release has done: one lock of the key is gone, the others are in order. */
  lemma FreeCompleted(s: System, p: int, devattr: string -> Naming)
    requires Inv(s, devattr) && Enabled(s, Release(p)) && s.phases[p].Writing? && s.phases[p].call.Free?
    ensures var ph := s.phases[p];
            var alias := AliasOf(ph.call.device, devattr);
            var k := Index(ph.start, alias);
            && Good(s.file) && k < |ph.start| && ph.start[k] == Slot(ph.call.key, alias)
            && Contents(s.file) == ph.start[..k] + ph.start[k + 1..]
  {
    hide Used, Unique, Contents, Mutex, Good, Inv, GoodPhase, Fill, Index;
    var ph := s.phases[p];
    WrittenTable(s, p, devattr);
    var alias := AliasOf(ph.call.device, devattr);
    var k := Index(ph.start, alias);
    FillNothing(ph.list, [], ph.call.key);
    Freed(ph.start, k);
  }

}
