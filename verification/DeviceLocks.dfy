/**
 The device reservation table: looking up, granting and freeing locks in the list
 read from the lock file, and the writes that bring the file up to date.

 A slot with an empty alias is unused.  Aliases are valid ones, so comparing at most
 14 characters of them is comparing them.
 */
module DeviceLocks {
  datatype Slot = Slot(pid: int, alias: string)

  /** What `devattr` says about a device: its alias, ENODEV, or some other error. */
  datatype Naming = Alias(name: string) | NoDevice | Trouble

  datatype Errno = EAGAIN | ENODEV | EPERM | EINVAL | OTHER

  // ----- the list in memory

  /** The first slot with that alias, or |list|. */
  function Index(list: seq<Slot>, alias: string): (k: nat)
    ensures k <= |list| && (k < |list| ==> list[k].alias == alias)
    ensures forall i :: 0 <= i < k ==> list[i].alias != alias
  {
    if list == [] || list[0].alias == alias then 0 else 1 + Index(list[1..], alias)
  }

  function Empty(s: Slot): Slot {
    s.(alias := "")
  }

  /** `islocked`: whether the alias may be granted, and the list with a dead lock trashed. */
  function Check(list: seq<Slot>, alias: string, live: set<int>): (bool, seq<Slot>) {
    var k := Index(list, alias);
    if k == |list| then (true, list)
    else if list[k].pid in live then (false, list)
    else (true, list[k := Empty(list[k])])
  }

  /** The slots in use. */
  function Used(list: seq<Slot>): (r: seq<Slot>)
    ensures |r| <= |list|
    ensures forall s :: s in r <==> s in list && s.alias != ""
  {
    if list == [] then []
    else (if list[0].alias == "" then [] else [list[0]]) + Used(list[1..])
  }

  /** New locks put into unused slots, in order: the list, and the aliases left over. */
  function Fill(list: seq<Slot>, picks: seq<string>, pid: int): (r: (seq<Slot>, seq<string>))
    ensures |r.0| == |list| && |r.1| <= |picks|
  {
    if list == [] || picks == [] then (list, picks)
    else if list[0].alias == "" then
      var r := Fill(list[1..], picks[1..], pid);
      ([Slot(pid, picks[0])] + r.0, r.1)
    else
      var r := Fill(list[1..], picks, pid);
      ([list[0]] + r.0, r.1)
  }

  function New(picks: seq<string>, pid: int): (r: seq<Slot>)
    ensures |r| == |picks| && forall i :: 0 <= i < |r| ==> r[i] == Slot(pid, picks[i])
  {
    seq(|picks|, i requires 0 <= i < |picks| => Slot(pid, picks[i]))
  }

  /** The list `putlocks` brings to the file. */
  function Put(list: seq<Slot>, picks: seq<string>, pid: int): seq<Slot> {
    var r := Fill(list, picks, pid);
    if r.1 == [] then Used(r.0) else r.0 + New(r.1, pid)
  }

  // ----- the scan of `devreserv`

  /**
   The scan under way: the list, the requests still to be met (the first of them from
   its next device on), whether a device of the first was found at all, and the
   aliases picked.
   */
  datatype Scan = Scan(list: seq<Slot>, todo: seq<seq<string>>, found: bool, picks: seq<string>)

  datatype Progress = Going(scan: Scan) | Picked(list: seq<Slot>, picks: seq<string>) | Denied(errno: Errno)

  /** One turn of the loops. */
  function ScanStep(sc: Scan, devattr: string -> Naming, live: set<int>): Progress {
    if sc.todo == [] then Picked(sc.list, sc.picks)
    else if sc.todo[0] == [] then Denied(if sc.found then EAGAIN else ENODEV)
    else
      match devattr(sc.todo[0][0])
      case Trouble => Denied(OTHER)
      case NoDevice => Going(sc.(todo := [sc.todo[0][1..]] + sc.todo[1..]))
      case Alias(a) =>
        var c := Check(sc.list, a, live);
        if c.0 then Going(Scan(c.1, sc.todo[1..], false, sc.picks + [a]))
        else Going(sc.(todo := [sc.todo[0][1..]] + sc.todo[1..], found := true))
  }

  function Measure(todo: seq<seq<string>>): nat {
    if todo == [] then 0 else 1 + |todo[0]| + Measure(todo[1..])
  }

  lemma Shorter(sc: Scan, devattr: string -> Naming, live: set<int>)
    ensures var r := ScanStep(sc, devattr, live); r.Going? ==> Measure(r.scan.todo) < Measure(sc.todo)
  {
    if sc.todo != [] && sc.todo[0] != [] {
      var t := [sc.todo[0][1..]] + sc.todo[1..];
      assert t[1..] == sc.todo[1..];
    }
  }

  /** The whole scan; `alive` tells who lives at each turn. */
  function ScanAll(sc: Scan, devattr: string -> Naming, alive: nat -> set<int>, turn: nat): Progress
    decreases Measure(sc.todo)
  {
    Shorter(sc, devattr, alive(turn));
    match ScanStep(sc, devattr, alive(turn))
    case Going(sc') => ScanAll(sc', devattr, alive, turn + 1)
    case r => r
  }

  /** One device of the first list that is left. */
  lemma ScanDevice(list: seq<Slot>, devices: seq<string>, rest: seq<seq<string>>, found: bool, picks: seq<string>,
                   devattr: string -> Naming, alive: nat -> set<int>, turn: nat)
    requires devices != []
    ensures var whole := ScanAll(Scan(list, [devices] + rest, found, picks), devattr, alive, turn);
            match devattr(devices[0])
            case Alias(a) =>
              var c := Check(list, a, alive(turn));
              whole ==
              (if c.0 then ScanAll(Scan(c.1, rest, false, picks + [a]), devattr, alive, turn + 1)
               else ScanAll(Scan(c.1, [devices[1..]] + rest, true, picks), devattr, alive, turn + 1))
            case NoDevice => whole == ScanAll(Scan(list, [devices[1..]] + rest, found, picks), devattr, alive, turn + 1)
            case Trouble => whole == Denied(OTHER)
  {
    var todo := [devices] + rest;
    assert todo[1..] == rest;
  }

  lemma ScanExhausted(list: seq<Slot>, rest: seq<seq<string>>, found: bool, picks: seq<string>,
                      devattr: string -> Naming, alive: nat -> set<int>, turn: nat)
    ensures ScanAll(Scan(list, [[]] + rest, found, picks), devattr, alive, turn) == Denied(if found then EAGAIN else ENODEV)
  {
  }

  lemma ScanDone(list: seq<Slot>, picks: seq<string>, devattr: string -> Naming, alive: nat -> set<int>, turn: nat)
    ensures ScanAll(Scan(list, [], false, picks), devattr, alive, turn) == Picked(list, picks)
  {
  }

  /** The alias a device goes by; a device that has none is taken for an alias itself. */
  function AliasOf(device: string, devattr: string -> Naming): string {
    if devattr(device).Alias? then devattr(device).name else device
  }

  /** `unreserv`: the list without the lock, or an error. */
  function Unreserve(list: seq<Slot>, key: int, alias: string): Progress {
    var k := Index(list, alias);
    if k == |list| then Denied(EINVAL)
    else if list[k].pid != key then Denied(EPERM)
    else Picked(list[k := Empty(list[k])], [])
  }

  // ----- what the scan keeps

  /** No alias is in two slots. */
  ghost predicate Unique(list: seq<Slot>) {
    forall i, j :: 0 <= i < j < |list| && list[i].alias != "" ==> list[i].alias != list[j].alias
  }

  ghost predicate NoneEmpty(list: seq<Slot>) {
    forall s :: s in list ==> s.alias != ""
  }

  ghost predicate Different(picks: seq<string>) {
    (forall i :: 0 <= i < |picks| ==> picks[i] != "") && (forall i, j :: 0 <= i < j < |picks| ==> picks[i] != picks[j])
  }

  ghost predicate Absent(picks: seq<string>, list: seq<Slot>) {
    forall i, j :: 0 <= i < |picks| && 0 <= j < |list| ==> picks[i] != list[j].alias
  }

  /** Every alias a list can offer. */
  ghost function Offers(list: seq<string>, devattr: string -> Naming): set<string> {
    set d | d in list && devattr(d).Alias? :: devattr(d).name
  }

  /** No two requests can offer the same alias, nor one that is picked already. */
  ghost predicate Apart(todo: seq<seq<string>>, picks: seq<string>, devattr: string -> Naming) {
    && (forall i, j :: 0 <= i < j < |todo| ==> Offers(todo[i], devattr) !! Offers(todo[j], devattr))
    && (forall i, k :: 0 <= i < |todo| && 0 <= k < |picks| ==> picks[k] !in Offers(todo[i], devattr))
  }

  ghost predicate Named(devattr: string -> Naming) {
    forall d :: devattr(d).Alias? ==> devattr(d).name != ""
  }

  lemma CheckKeeps(list: seq<Slot>, alias: string, live: set<int>)
    requires Unique(list) && alias != ""
    ensures Unique(Check(list, alias, live).1)
    ensures Check(list, alias, live).0 ==> forall s :: s in Check(list, alias, live).1 ==> s.alias != alias
    ensures forall s :: s in Check(list, alias, live).1 && s.alias != "" ==> s in list
    ensures forall s :: s in list && (s.alias != alias || s.pid in live) ==> s in Check(list, alias, live).1
    ensures |Check(list, alias, live).1| == |list|
  {
    var k := Index(list, alias);
    if k < |list| {
      var r := list[k := Empty(list[k])];
      forall s | s in list && (s.alias != alias || s.pid in live)
        ensures s in Check(list, alias, live).1
      {
        var i :| 0 <= i < |list| && list[i] == s;
        assert i != k ==> r[i] == s;
      }
    }
  }

  /** The invariant of the scan, from the list `start` it began with. */
  ghost predicate Scanning(sc: Scan, start: seq<Slot>, devattr: string -> Naming) {
    && Unique(sc.list) && Different(sc.picks) && Absent(sc.picks, sc.list) && Apart(sc.todo, sc.picks, devattr)
    && (forall s :: s in sc.list && s.alias != "" ==> s in start) && |sc.list| == |start|
  }

  lemma ScanKeeps(sc: Scan, start: seq<Slot>, devattr: string -> Naming, live: set<int>)
    requires Scanning(sc, start, devattr) && Named(devattr)
    ensures ScanStep(sc, devattr, live).Going? ==> Scanning(ScanStep(sc, devattr, live).scan, start, devattr)
  {
    hide Unique, Check, Apart, Offers, Absent, Different;
    if ScanStep(sc, devattr, live).Going? {
      var d, todo := sc.todo[0][0], sc.todo;
      ApartSteps(todo, sc.picks, devattr);
      if devattr(d).Alias? {
        CheckKeeps(sc.list, devattr(d).name, live);
        PicksGrow(sc.picks, sc.list, Check(sc.list, devattr(d).name, live).1, devattr(d).name);
      }
    }
  }

  /** Going on to the next device of a list, or to the next list with its device picked. */
  lemma ApartSteps(todo: seq<seq<string>>, picks: seq<string>, devattr: string -> Naming)
    requires todo != [] && todo[0] != [] && Apart(todo, picks, devattr)
    ensures Apart([todo[0][1..]] + todo[1..], picks, devattr)
    ensures devattr(todo[0][0]).Alias? ==>
              Apart(todo[1..], picks + [devattr(todo[0][0]).name], devattr) && devattr(todo[0][0]).name !in picks
  {
    var d, rest := todo[0][0], [todo[0][1..]] + todo[1..];
    assert Offers(todo[0][1..], devattr) <= Offers(todo[0], devattr);
    assert d in todo[0];
    assert devattr(d).Alias? ==> devattr(d).name in Offers(todo[0], devattr);
  }

  lemma PicksGrow(picks: seq<string>, list: seq<Slot>, list': seq<Slot>, a: string)
    requires Different(picks) && Absent(picks, list) && a != "" && a !in picks
    requires forall s :: s in list' && s.alias != "" ==> s in list
    ensures Absent(picks, list') && Different(picks + [a])
    ensures (forall s :: s in list' ==> s.alias != a) ==> Absent(picks + [a], list')
  {
    forall i, j | 0 <= i < |picks| && 0 <= j < |list'|
      ensures picks[i] != list'[j].alias
    {
      if list'[j].alias != "" {
        var k :| 0 <= k < |list| && list[k] == list'[j];
      }
    }
  }

  // ----- what ends up in the table

  /** The locks of a list, and the new locks for some picks, as multisets. */
  ghost function Locks(list: seq<Slot>): multiset<Slot> {
    multiset(Used(list))
  }

  ghost function NewLocks(picks: seq<string>, pid: int): multiset<Slot> {
    multiset(New(picks, pid))
  }

  ghost function Lock(s: Slot): multiset<Slot> {
    if s.alias == "" then multiset{} else multiset{s}
  }

  lemma LocksCons(s: Slot, list: seq<Slot>)
    ensures Locks([s] + list) == Lock(s) + Locks(list)
  {
    assert ([s] + list)[1..] == list;
  }

  lemma NewLocksCons(a: string, picks: seq<string>, pid: int)
    requires a != ""
    ensures NewLocks([a] + picks, pid) == Lock(Slot(pid, a)) + NewLocks(picks, pid)
  {
    assert New([a] + picks, pid) == [Slot(pid, a)] + New(picks, pid);
  }

  lemma FillStep(list: seq<Slot>, picks: seq<string>, pid: int)
    requires list != [] && picks != []
    ensures var free := list[0].alias == "";
            var r := Fill(list[1..], if free then picks[1..] else picks, pid);
            Fill(list, picks, pid) == ([if free then Slot(pid, picks[0]) else list[0]] + r.0, r.1)
  {
  }

  /** Filling keeps the locks there are and adds the new ones, as far as there is room. */
  lemma {:induction false} FillMeaning(list: seq<Slot>, picks: seq<string>, pid: int)
    requires forall i :: 0 <= i < |picks| ==> picks[i] != ""
    ensures var r := Fill(list, picks, pid);
            Locks(r.0) + NewLocks(r.1, pid) == Locks(list) + NewLocks(picks, pid)
  {
    hide Locks, NewLocks, Fill, Lock;
    if list != [] && picks != [] {
      var free := list[0].alias == "";
      var picks' := if free then picks[1..] else picks;
      FillStep(list, picks, pid);
      FillMeaning(list[1..], picks', pid);
      assert list == [list[0]] + list[1..] && picks == [picks[0]] + picks[1..];
      LocksCons(list[0], list[1..]);
      LocksCons(if free then Slot(pid, picks[0]) else list[0], Fill(list[1..], picks', pid).0);
      NewLocksCons(picks[0], picks[1..], pid);
      var r := Fill(list[1..], picks', pid);
      Shift(Lock(if free then Slot(pid, picks[0]) else list[0]), Locks(r.0), NewLocks(r.1, pid), Locks(list[1..]), NewLocks(picks', pid));
      if free {
        NoLock(list[0]);
        assert multiset{} + Locks(list[1..]) == Locks(list[1..]);
      }
    } else {
      FillNothing(list, picks, pid);
    }
  }

  lemma Shift(x: multiset<Slot>, a: multiset<Slot>, b: multiset<Slot>, c: multiset<Slot>, d: multiset<Slot>)
    requires a + b == c + d
    ensures (x + a) + b == (x + c) + d == c + (x + d)
  {
    assert (x + a) + b == x + (a + b);
  }

  lemma NoLock(s: Slot)
    requires s.alias == ""
    ensures Lock(s) == multiset{}
  {
  }

  lemma FillNothing(list: seq<Slot>, picks: seq<string>, pid: int)
    requires list == [] || picks == []
    ensures Fill(list, picks, pid) == (list, picks)
  {
  }

  /** Aliases are left over only when every slot is in use. */
  lemma {:induction false} FillsAll(list: seq<Slot>, picks: seq<string>, pid: int)
    requires forall i :: 0 <= i < |picks| ==> picks[i] != ""
    ensures Fill(list, picks, pid).1 != [] ==> NoneEmpty(Fill(list, picks, pid).0)
    ensures forall i :: 0 <= i < |Fill(list, picks, pid).1| ==> Fill(list, picks, pid).1[i] != ""
  {
    hide Fill;
    if list != [] && picks != [] {
      FillStep(list, picks, pid);
      FillsAll(list[1..], if list[0].alias == "" then picks[1..] else picks, pid);
    } else {
      FillNothing(list, picks, pid);
    }
  }

  lemma {:induction false} UsedAll(list: seq<Slot>)
    ensures NoneEmpty(Used(list)) && (NoneEmpty(list) ==> Used(list) == list)
  {
    if list != [] {
      UsedAll(list[1..]);
      assert list[0] in list && forall s :: s in list[1..] ==> s in list;
    }
  }

  lemma UsedStep(e: Slot, list: seq<Slot>)
    ensures Used([e] + list) == (if e.alias == "" then [] else [e]) + Used(list)
  {
    assert ([e] + list)[1..] == list;
  }

  lemma UsedUnused(e: Slot, list: seq<Slot>)
    requires e.alias == ""
    ensures Used([e] + list) == Used(list)
  {
    UsedStep(e, list);
    assert [] + Used(list) == Used(list);
  }

  lemma {:induction false} UsedSplit(a: seq<Slot>, b: seq<Slot>)
    ensures Used(a + b) == Used(a) + Used(b)
  {
    hide Used;
    if a == [] {
      assert a + b == b;
      UsedAll([]);
      assert [] + Used(b) == Used(b);
    } else {
      var rest := a[1..];
      assert a == [a[0]] + rest && a + b == [a[0]] + (rest + b);
      UsedSplit(rest, b);
      UsedStep(a[0], rest);
      UsedStep(a[0], rest + b);
      var here := if a[0].alias == "" then [] else [a[0]];
      assert here + (Used(rest) + Used(b)) == here + Used(rest) + Used(b);
    }
  }

  /** The table written holds exactly the used slots and one new lock for each pick. */
  lemma PutMeaning(list: seq<Slot>, picks: seq<string>, pid: int)
    requires forall i :: 0 <= i < |picks| ==> picks[i] != ""
    ensures multiset(Put(list, picks, pid)) == Locks(list) + NewLocks(picks, pid)
    ensures NoneEmpty(Put(list, picks, pid))
  {
    hide Used, Fill;
    FillMeaning(list, picks, pid);
    FillsAll(list, picks, pid);
    var r := Fill(list, picks, pid);
    UsedAll(r.0);
    if r.1 == [] {
      assert New(r.1, pid) == [];
    }
  }

  lemma Twice(list: seq<Slot>, i: nat, j: nat)
    requires i < j < |list| && list[i] == list[j]
    ensures multiset(list)[list[i]] >= 2
  {
    var a, b := list[..j], list[j..];
    assert list == a + b && list[i] == a[i] && list[j] == b[0];
  }

  /** Among these, an alias belongs to one slot, which occurs once. */
  ghost predicate Singles(m: multiset<Slot>) {
    forall s, t :: s in m && t in m && s.alias == t.alias ==> s == t && m[s] == 1
  }

  lemma UniqueByCount(list: seq<Slot>)
    requires Singles(multiset(list))
    ensures Unique(list)
  {
    forall i, j | 0 <= i < j < |list|
      ensures list[i].alias != list[j].alias
    {
      assert list[i] in multiset(list) && list[j] in multiset(list);
      if list[i] == list[j] {
        Twice(list, i, j);
      }
    }
  }

  lemma {:induction false} UsedOnce(list: seq<Slot>, s: Slot)
    requires Unique(list) && s in list && s.alias != ""
    ensures multiset(Used(list))[s] == 1
  {
    hide Used, Unique;
    var rest := list[1..];
    assert list == [list[0]] + rest;
    UniqueRest(list);
    UsedStep(list[0], rest);
    if list[0] == s {
      assert s !in Used(rest);
    } else {
      UsedOnce(rest, s);
    }
  }

  lemma UniqueRest(list: seq<Slot>)
    requires Unique(list) && list != []
    ensures Unique(list[1..]) && (list[0].alias != "" ==> list[0] !in list[1..])
  {
  }

  lemma UsedSingles(list: seq<Slot>)
    requires Unique(list)
    ensures Singles(multiset(Used(list)))
  {
    forall s, t | s in Used(list) && t in Used(list) && s.alias == t.alias
      ensures s == t && multiset(Used(list))[s] == 1
    {
      var i, j :| 0 <= i < |list| && list[i] == s && 0 <= j < |list| && list[j] == t;
      UsedOnce(list, s);
    }
  }

  lemma NewSingles(picks: seq<string>, pid: int)
    requires Different(picks)
    ensures Singles(multiset(New(picks, pid)))
  {
    hide New;
    var n := New(picks, pid);
    forall s, t | s in n && t in n && s.alias == t.alias
      ensures s == t && multiset(n)[s] == 1
    {
      var i, j :| 0 <= i < |n| && n[i] == s && 0 <= j < |n| && n[j] == t;
      OnceAt(n, i);
    }
  }

  lemma OnceAt(n: seq<Slot>, i: nat)
    requires i < |n| && forall j :: 0 <= j < |n| && j != i ==> n[j] != n[i]
    ensures multiset(n)[n[i]] == 1
  {
    assert n == n[..i] + [n[i]] + n[i + 1..];
    assert n[i] !in n[..i] && n[i] !in n[i + 1..];
  }

  lemma Separate(list: seq<Slot>, picks: seq<string>, pid: int)
    requires Absent(picks, list)
    ensures forall s, t :: s in Used(list) && t in New(picks, pid) ==> s.alias != t.alias
  {
  }

  lemma JoinSingles(a: multiset<Slot>, b: multiset<Slot>)
    requires Singles(a) && Singles(b) && forall s, t :: s in a && t in b ==> s.alias != t.alias
    ensures Singles(a + b)
  {
  }

  /** The table written has no alias twice. */
  lemma PutUnique(list: seq<Slot>, picks: seq<string>, pid: int)
    requires Unique(list) && Different(picks) && Absent(picks, list)
    ensures Unique(Put(list, picks, pid))
  {
    hide Put, Used, Singles, New;
    PutMeaning(list, picks, pid);
    UsedSingles(list);
    NewSingles(picks, pid);
    Separate(list, picks, pid);
    JoinSingles(Locks(list), NewLocks(picks, pid));
    UniqueByCount(Put(list, picks, pid));
  }

  // ----- the lock file

  /** The count and the slots; there may be more slots than the count says. */
  datatype File = File(count: nat, slots: seq<Slot>)

  /** One `write`: the count, or slots from a position on. */
  datatype Write = Count(n: nat) | Slots(at: nat, slots: seq<Slot>)

  /** Writing over slots from a position on cuts nothing off behind them. */
  function Overlay(slots: seq<Slot>, at: nat, ss: seq<Slot>): (r: seq<Slot>)
    requires at <= |slots|
    ensures at + |ss| <= |r| && r[..at] == slots[..at] && r[at..at + |ss|] == ss
  {
    slots[..at] + ss + if at + |ss| < |slots| then slots[at + |ss|..] else []
  }

  function DoWrite(f: File, w: Write): File {
    match w
    case Count(n) => f.(count := n)
    case Slots(at, ss) => if at > |f.slots| then f else f.(slots := Overlay(f.slots, at, ss))
  }

  function DoAll(f: File, ws: seq<Write>): File
    decreases |ws|
  {
    if ws == [] then f else DoAll(DoWrite(f, ws[0]), ws[1..])
  }

  predicate Readable(f: File) {
    f.count <= |f.slots|
  }

  /** What `readlocks` reads. */
  function Contents(f: File): seq<Slot>
    requires Readable(f)
  {
    f.slots[..f.count]
  }

  /** `writelks`: the count of locks there will be, then the table as it is. */
  function WriteTable(count: nat, table: seq<Slot>): seq<Write> {
    [Count(count)] + if table == [] then [] else [Slots(0, table)]
  }

  /** `appendlk` for each alias, the first at position `at`. */
  function Appends(at: nat, picks: seq<string>, pid: int): seq<Write>
    decreases |picks|
  {
    if picks == [] then [] else [Slots(at, [Slot(pid, picks[0])])] + Appends(at + 1, picks[1..], pid)
  }

  /** The writes of `putlocks`. */
  function PutPlan(list: seq<Slot>, picks: seq<string>, pid: int): seq<Write> {
    var r := Fill(list, picks, pid);
    if r.1 != [] then WriteTable(|list| + |r.1|, r.0) + Appends(|list|, r.1, pid)
    else WriteTable(|Used(r.0)|, Used(r.0))
  }

  lemma {:induction false} DoAllParts(f: File, ws: seq<Write>, vs: seq<Write>)
    ensures DoAll(f, ws + vs) == DoAll(DoAll(f, ws), vs)
    decreases |ws|
  {
    if ws == [] {
      assert ws + vs == vs;
    } else {
      assert (ws + vs)[1..] == ws[1..] + vs;
      DoAllParts(DoWrite(f, ws[0]), ws[1..], vs);
    }
  }

  lemma TableWritten(f: File, count: nat, table: seq<Slot>)
    ensures DoAll(f, WriteTable(count, table)) == File(count, Overlay(f.slots, 0, table))
  {
    if table == [] {
      OneWrite(f, Count(count), []);
      assert Overlay(f.slots, 0, []) == f.slots;
    } else {
      OneWrite(f, Count(count), [Slots(0, table)]);
      OneWrite(f.(count := count), Slots(0, table), []);
    }
  }

  lemma OneWrite(f: File, w: Write, rest: seq<Write>)
    ensures DoAll(f, [w] + rest) == DoAll(DoWrite(f, w), rest)
    ensures DoAll(f, [w]) == DoWrite(f, w)
  {
    assert ([w] + rest)[1..] == rest;
    assert DoAll(DoWrite(f, w), [w][1..]) == DoWrite(f, w);
  }

  lemma {:induction false} Appended(f: File, at: nat, picks: seq<string>, pid: int)
    requires at <= |f.slots|
    ensures DoAll(f, Appends(at, picks, pid)) == File(f.count, Overlay(f.slots, at, New(picks, pid)))
    decreases |picks|
  {
    hide DoAll;
    if picks == [] {
      NoWrites(f);
      assert Overlay(f.slots, at, New(picks, pid)) == f.slots;
    } else {
      var one := [Slot(pid, picks[0])];
      var g := DoWrite(f, Slots(at, one));
      OneWrite(f, Slots(at, one), Appends(at + 1, picks[1..], pid));
      Appended(g, at + 1, picks[1..], pid);
      assert New(picks, pid) == one + New(picks[1..], pid);
      OverlayOn(f.slots, at, one, New(picks[1..], pid));
    }
  }

  lemma OverlayOn(slots: seq<Slot>, at: nat, ss: seq<Slot>, ts: seq<Slot>)
    requires at <= |slots|
    ensures Overlay(Overlay(slots, at, ss), at + |ss|, ts) == Overlay(slots, at, ss + ts)
  {
    var o := Overlay(slots, at, ss);
    assert o[..at + |ss|] == slots[..at] + ss;
    if at + |ss| + |ts| < |slots| {
      assert o[at + |ss| + |ts|..] == slots[at + |ss| + |ts|..];
    }
  }

  lemma NoWrites(f: File)
    ensures DoAll(f, []) == f
  {
  }

  /** What is in the file once all writes are done: the new table, and older slots behind it. */
  lemma PlanFile(f: File, list: seq<Slot>, picks: seq<string>, pid: int)
    ensures var table := Put(list, picks, pid);
            DoAll(f, PutPlan(list, picks, pid)) == File(|table|, Overlay(f.slots, 0, table))
  {
    hide DoAll, Appends, WriteTable, Overlay;
    var r := Fill(list, picks, pid);
    if r.1 != [] {
      var head := WriteTable(|list| + |r.1|, r.0);
      DoAllParts(f, head, Appends(|list|, r.1, pid));
      TableWritten(f, |list| + |r.1|, r.0);
      Appended(DoAll(f, head), |list|, r.1, pid);
      OverlayOn(f.slots, 0, r.0, New(r.1, pid));
    } else {
      TableWritten(f, |Used(r.0)|, Used(r.0));
    }
  }

  /** So reading it gives the new table. */
  lemma PlanMeaning(f: File, list: seq<Slot>, picks: seq<string>, pid: int)
    ensures var g := DoAll(f, PutPlan(list, picks, pid));
            Readable(g) && Contents(g) == Put(list, picks, pid)
  {
    hide DoAll, PutPlan, Put;
    PlanFile(f, list, picks, pid);
    var table := Put(list, picks, pid);
    var o := Overlay(f.slots, 0, table);
    assert o[..|table|] == o[0..0 + |table|];
  }

  /** No lock twice, no slot unused, and all slots are there. */
  ghost predicate Good(f: File) {
    Readable(f) && Unique(Contents(f)) && NoneEmpty(Contents(f))
  }

  /** What a process that opens the file sees: nothing when the read fails. */
  function Seen(f: File): seq<Slot> {
    if Readable(f) then Contents(f) else []
  }

  /** The file cannot be read, or all is well with it. */
  ghost predicate Sound(f: File) {
    Readable(f) ==> Good(f)
  }

  // ----- the file between the writes

  lemma {:induction false} AppendsPrefix(at: nat, picks: seq<string>, pid: int, i: nat)
    requires i <= |picks|
    ensures |Appends(at, picks, pid)| == |picks| && Appends(at, picks, pid)[..i] == Appends(at, picks[..i], pid)
    decreases |picks|
  {
    if picks != [] {
      AppendsPrefix(at + 1, picks[1..], pid, if i == 0 then 0 else i - 1);
      if i > 0 {
        assert picks[..i][1..] == picks[1..][..i - 1];
      }
    }
  }

  /** After some appends. */
  lemma SomeAppended(f: File, count: nat, table: seq<Slot>, picks: seq<string>, pid: int, i: nat)
    requires i <= |picks|
    ensures var ws := WriteTable(count, table) + Appends(|table|, picks, pid);
            |WriteTable(count, table)| + i <= |ws| &&
            DoAll(f, ws[..|WriteTable(count, table)| + i]) == File(count, Overlay(f.slots, 0, table + New(picks[..i], pid)))
  {
    hide DoAll, Appends, WriteTable, Overlay, New;
    var head, tail := WriteTable(count, table), Appends(|table|, picks, pid);
    AppendsPrefix(|table|, picks, pid, i);
    assert (head + tail)[..|head| + i] == head + tail[..i];
    DoAllParts(f, head, tail[..i]);
    TableWritten(f, count, table);
    Appended(DoAll(f, head), |table|, picks[..i], pid);
    OverlayOn(f.slots, 0, table, New(picks[..i], pid));
  }

  lemma CountWritten(f: File, count: nat, table: seq<Slot>, rest: seq<Write>)
    ensures var ws := WriteTable(count, table) + rest; |ws| > 0 && DoAll(f, ws[..1]) == f.(count := count)
  {
    assert (WriteTable(count, table) + rest)[..1] == [Count(count)];
    OneWrite(f, Count(count), []);
  }

  /**
   Once some writes are done the count is the new one, and of the new table the first m
   slots are there: none, or at least as many as the list had.
   */
  lemma PlanPrefix(f: File, list: seq<Slot>, picks: seq<string>, pid: int, j: nat) returns (m: nat)
    requires 0 < j <= |PutPlan(list, picks, pid)|
    ensures var table := Put(list, picks, pid);
            && m <= |table| && DoAll(f, PutPlan(list, picks, pid)[..j]) == File(|table|, Overlay(f.slots, 0, table[..m]))
            && (j < |PutPlan(list, picks, pid)| <==> m < |table|)
            && (m == 0 || m == |table| || |list| <= m)
  {
    hide DoAll, Appends, Overlay, New, Used;
    var r := Fill(list, picks, pid);
    var plan, table := PutPlan(list, picks, pid), Put(list, picks, pid);
    assert Overlay(f.slots, 0, []) == f.slots by {
      OverlayNothing(f.slots);
    }
    if r.1 != [] {
      AppendsPrefix(|list|, r.1, pid, 0);
      NewPrefix(r.1, pid);
      var n := |WriteTable(|table|, r.0)|;
      if j < n {
        CountWritten(f, |table|, r.0, Appends(|list|, r.1, pid));
        m := 0;
      } else {
        m := |list| + j - n;
        SomeAppended(f, |table|, r.0, r.1, pid, j - n);
        assert table[..m] == r.0 + New(r.1, pid)[..j - n];
      }
    } else if j == |plan| {
      m := |table|;
      assert plan[..j] == plan && table[..m] == table;
      PlanFile(f, list, picks, pid);
    } else {
      m := 0;
      CountWritten(f, |table|, table, []);
      assert WriteTable(|table|, table) + [] == plan;
    }
  }

  lemma OverlayNothing(slots: seq<Slot>)
    ensures Overlay(slots, 0, []) == slots
  {
  }

  lemma NewPrefix(picks: seq<string>, pid: int)
    ensures |New(picks, pid)| == |picks| && forall i :: 0 <= i <= |picks| ==> New(picks[..i], pid) == New(picks, pid)[..i]
  {
  }

  /** What reading then gives, if it gives anything: new slots, and old ones behind them. */
  lemma PartlyWritten(f: File, table: seq<Slot>, m: nat)
    requires m < |table|
    ensures var g := File(|table|, Overlay(f.slots, 0, table[..m]));
            && (Readable(g) <==> |table| <= |f.slots|)
            && (Readable(g) ==> Contents(g) == table[..m] + f.slots[m..|table|])
  {
    var o := Overlay(f.slots, 0, table[..m]);
    if |table| <= |f.slots| {
      assert o == table[..m] + f.slots[m..];
    }
  }

  /** Filling moves no lock. */
  lemma {:induction false} FillKeeps(list: seq<Slot>, picks: seq<string>, pid: int, k: nat)
    requires k < |list| && list[k].alias != ""
    ensures Fill(list, picks, pid).0[k] == list[k]
  {
    if k > 0 && picks != [] {
      FillKeeps(list[1..], if list[0].alias == "" then picks[1..] else picks, pid, k - 1);
    }
  }
}
