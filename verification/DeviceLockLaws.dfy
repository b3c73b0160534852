/**
 What a caller may expect of one call: which releases and which reservations are
 granted, and with which error the others are refused.
 */
module DeviceLockLaws {
  import opened DeviceLocks

  // ----- releases

  /** A release is granted exactly when the first lock of that alias is the key's, and is refused with the right error. */
  lemma UnreserveMeaning(list: seq<Slot>, key: int, alias: string)
    ensures Unreserve(list, key, alias).Picked? <==>
            exists k :: 0 <= k < |list| && list[k] == Slot(key, alias) && forall i :: 0 <= i < k ==> list[i].alias != alias
    ensures Unreserve(list, key, alias) == Denied(EINVAL) <==> forall s :: s in list ==> s.alias != alias
    ensures !Unreserve(list, key, alias).Picked? ==> Unreserve(list, key, alias) in {Denied(EINVAL), Denied(EPERM)}
    ensures Unreserve(list, key, alias).Picked? ==> Unreserve(list, key, alias).picks == []
  {
    var k := Index(list, alias);
    if k < |list| {
      assert list[k] in list;
      assert list[k] == Slot(list[k].pid, alias);
    }
  }

  /** In a table that has no alias twice, that is any lock of that key and alias. */
  lemma UniqueRelease(list: seq<Slot>, key: int, alias: string)
    requires Unique(list) && (alias != "" || NoneEmpty(list))
    ensures Unreserve(list, key, alias).Picked? <==> Slot(key, alias) in list
    ensures Unreserve(list, key, alias) == Denied(EPERM) <==> exists s :: s in list && s.alias == alias && s.pid != key
  {
    UnreserveMeaning(list, key, alias);
    var k := Index(list, alias);
    forall s | s in list && s.alias == alias
      ensures k < |list| && s == list[k]
    {
      var i :| 0 <= i < |list| && list[i] == s;
      assert k <= i;
    }
    if k < |list| {
      assert list[k] in list;
    }
  }

  /** What is left after a release of the only lock of its alias. */
  lemma Released(list: seq<Slot>, key: int, alias: string, k: nat)
    requires Unique(list) && NoneEmpty(list) && k < |list| && list[k] == Slot(key, alias)
    ensures alias != "" && Index(list, alias) == k && Unreserve(list, key, alias) == Picked(list[k := Empty(list[k])], [])
    ensures Put(list[k := Empty(list[k])], [], key) == list[..k] + list[k + 1..]
  {
    hide Used, Fill;
    assert list[k] in list;
    var j := Index(list, alias);
    assert j <= k;
    FillNothing(list[k := Empty(list[k])], [], key);
    Freed(list, k);
  }

  lemma Freed(list: seq<Slot>, k: nat)
    requires k < |list| && NoneEmpty(list)
    ensures Used(list[k := Empty(list[k])]) == list[..k] + list[k + 1..]
  {
    hide Used;
    var a, e, b := list[..k], Empty(list[k]), list[k + 1..];
    assert list[k := e] == a + ([e] + b);
    UsedSplit(a, [e] + b);
    UsedUnused(e, b);
    UsedAll(a);
    UsedAll(b);
  }

  // ----- reservations

  /** A living key has the alias. */
  ghost predicate Taken(list: seq<Slot>, alias: string, live: set<int>) {
    exists s :: s in list && s.alias == alias && s.pid in live
  }

  /** An alias may be granted exactly when no living key has it; and that does not change for any alias. */
  lemma CheckMeaning(list: seq<Slot>, alias: string, live: set<int>)
    requires Unique(list) && alias != ""
    ensures Check(list, alias, live).0 <==> !Taken(list, alias, live)
    ensures Unique(Check(list, alias, live).1)
    ensures forall a :: a != "" ==> (Taken(Check(list, alias, live).1, a, live) <==> Taken(list, a, live))
  {
    CheckKeeps(list, alias, live);
    var k, after := Index(list, alias), Check(list, alias, live).1;
    forall s | s in list && s.alias == alias
      ensures k < |list| && s == list[k]
    {
      var i :| 0 <= i < |list| && list[i] == s;
      assert k <= i;
    }
    assert k < |list| ==> list[k] in list;
    forall a | a != ""
      ensures Taken(after, a, live) <==> Taken(list, a, live)
    {
      if Taken(list, a, live) {
        var s :| s in list && s.alias == a && s.pid in live;
        assert s in after;
      }
    }
  }

  /** A turn picks the device at hand exactly when it is known and no living key has it. */
  lemma TurnMeaning(sc: Scan, devattr: string -> Naming, live: set<int>)
    requires Unique(sc.list) && Named(devattr) && sc.todo != [] && sc.todo[0] != []
    ensures var d, r := sc.todo[0][0], ScanStep(sc, devattr, live);
            && (devattr(d).Alias? ==>
                  (!Taken(sc.list, devattr(d).name, live) <==>
                   r.Going? && r.scan.picks == sc.picks + [devattr(d).name] && r.scan.todo == sc.todo[1..]))
            && (Passed(d, sc.list, live, devattr) <==> r.Going? && r.scan.picks == sc.picks && r.scan.todo == [sc.todo[0][1..]] + sc.todo[1..])
            && (devattr(d).Trouble? <==> r == Denied(OTHER))
  {
    hide Check;
    var d := sc.todo[0][0];
    assert |[sc.todo[0][1..]] + sc.todo[1..]| == |sc.todo| != |sc.todo[1..]|;
    if devattr(d).Alias? {
      CheckMeaning(sc.list, devattr(d).name, live);
    }
  }

  /** The scan goes on to the next device: this one is not known, or a living key has it. */
  ghost predicate Passed(d: string, list: seq<Slot>, live: set<int>, devattr: string -> Naming) {
    match devattr(d)
    case Alias(a) => Taken(list, a, live)
    case NoDevice => true
    case Trouble => false
  }

  /** The first j devices are passed, and the next, if there is one, is not. */
  ghost predicate Stop(devices: seq<string>, j: nat, list: seq<Slot>, live: set<int>, devattr: string -> Naming) {
    && j <= |devices| && (forall i :: 0 <= i < j ==> Passed(devices[i], list, live, devattr))
    && (j < |devices| ==> !Passed(devices[j], list, live, devattr))
  }

  /** The first device that is not passed is one to be had. */
  ghost predicate Offered(devices: seq<string>, list: seq<Slot>, live: set<int>, devattr: string -> Naming) {
    exists j :: 0 <= j < |devices| && Stop(devices, j, list, live, devattr) && devattr(devices[j]).Alias?
  }

  /** Some device of the list is known. */
  predicate Known(devices: seq<string>, devattr: string -> Naming) {
    exists d :: d in devices && devattr(d).Alias?
  }

  /** The answer to a list that offers nothing. */
  ghost predicate Refused(e: Errno, devices: seq<string>, list: seq<Slot>, live: set<int>, devattr: string -> Naming) {
    if exists j :: 0 <= j < |devices| && Stop(devices, j, list, live, devattr) then e == OTHER
    else if Known(devices, devattr) then e == EAGAIN
    else e == ENODEV
  }

  lemma StopOnce(devices: seq<string>, j: nat, j': nat, list: seq<Slot>, live: set<int>, devattr: string -> Naming)
    requires Stop(devices, j, list, live, devattr) && Stop(devices, j', list, live, devattr)
    ensures j == j'
  {
    hide Passed;
  }

  /** The two lists say the same of every alias. */
  ghost predicate SameTaken(list: seq<Slot>, list': seq<Slot>, live: set<int>) {
    forall a :: a != "" ==> (Taken(list', a, live) <==> Taken(list, a, live))
  }

  /** The rest of one list, while the same processes live. */
  lemma {:induction false} OneList(list: seq<Slot>, devices: seq<string>, rest: seq<seq<string>>, found: bool, picks: seq<string>,
                                   devattr: string -> Naming, alive: nat -> set<int>, turn: nat, live: set<int>)
    returns (j: nat, list': seq<Slot>, turn': nat)
    requires Unique(list) && Named(devattr) && forall t :: alive(t) == live
    ensures Stop(devices, j, list, live, devattr) && Unique(list') && SameTaken(list, list', live)
    ensures var whole := ScanAll(Scan(list, [devices] + rest, found, picks), devattr, alive, turn);
            if j == |devices| then
              whole == Denied(if found || Known(devices, devattr) then EAGAIN else ENODEV)
            else if devattr(devices[j]).Alias? then
              whole == ScanAll(Scan(list', rest, false, picks + [devattr(devices[j]).name]), devattr, alive, turn')
            else whole == Denied(OTHER)
    decreases |devices|
  {
    hide ScanAll, Check, Taken, Unique;
    if devices == [] {
      j, list', turn' := 0, list, turn;
      assert !Known(devices, devattr);
      ScanExhausted(list, rest, found, picks, devattr, alive, turn);
    } else {
      ScanDevice(list, devices, rest, found, picks, devattr, alive, turn);
      match devattr(devices[0]) {
        case Trouble => j, list', turn' := 0, list, turn;
        case NoDevice =>
          j, list', turn' := OneList(list, devices[1..], rest, found, picks, devattr, alive, turn + 1, live);
          j := MoreDevices(devices, j, list, list, live, devattr);
        case Alias(a) =>
          CheckMeaning(list, a, live);
          var c := Check(list, a, live);
          if c.0 {
            j, list', turn' := 0, c.1, turn + 1;
          } else {
            j, list', turn' := OneList(c.1, devices[1..], rest, true, picks, devattr, alive, turn + 1, live);
            j := MoreDevices(devices, j, list, c.1, live, devattr);
          }
      }
    }
  }

  lemma MoreDevices(devices: seq<string>, j: nat, list: seq<Slot>, list': seq<Slot>, live: set<int>, devattr: string -> Naming)
    returns (k: nat)
    requires devices != [] && Passed(devices[0], list, live, devattr) && Stop(devices[1..], j, list', live, devattr)
    requires SameTaken(list, list', live) && Named(devattr)
    ensures k == j + 1 && Stop(devices, k, list, live, devattr) && (j < |devices[1..]| ==> devices[1..][j] == devices[k])
    ensures Known(devices, devattr) <==> devattr(devices[0]).Alias? || Known(devices[1..], devattr)
  {
    hide Taken;
    SamePassed(list, list', live, devattr);
    hide Passed;
    k := j + 1;
    assert forall i :: 0 <= i < |devices[1..]| ==> devices[1..][i] == devices[i + 1];
    assert forall i :: 1 <= i < |devices| ==> devices[i] == devices[1..][i - 1];
    assert devices == [devices[0]] + devices[1..];
  }

  /** The picks for these lists come behind those there were: of each list, the first device that is not passed. */
  ghost predicate PicksOf(ps: seq<string>, todo: seq<seq<string>>, picks: seq<string>, list: seq<Slot>, live: set<int>, devattr: string -> Naming) {
    && |ps| == |picks| + |todo| && ps[..|picks|] == picks
    && forall i: nat, j: nat :: i < |todo| && j < |todo[i]| && Stop(todo[i], j, list, live, devattr) ==> devattr(todo[i][j]) == Alias(ps[|picks| + i])
  }

  /** Granted exactly when every list offers a device; else the first list that offers none decides the error. */
  ghost predicate Answered(r: Progress, todo: seq<seq<string>>, picks: seq<string>, list: seq<Slot>, live: set<int>, devattr: string -> Naming) {
    && (r.Picked? <==> forall i :: 0 <= i < |todo| ==> Offered(todo[i], list, live, devattr))
    && (r.Picked? ==> PicksOf(r.picks, todo, picks, list, live, devattr))
    && (!r.Picked? ==> exists i, e :: 0 <= i < |todo| && (forall k :: 0 <= k < i ==> Offered(todo[k], list, live, devattr))
                                       && !Offered(todo[i], list, live, devattr) && r == Denied(e) && Refused(e, todo[i], list, live, devattr))
  }

  /**
   While the same processes live, a reservation is granted exactly when every list offers
   a device; then it picks of each list the first device that is known and not had by a
   living key.  Otherwise the first list that offers none decides the error.
   */
  lemma {:induction false} ScanMeaning(list: seq<Slot>, todo: seq<seq<string>>, picks: seq<string>, devattr: string -> Naming,
                                       alive: nat -> set<int>, turn: nat, live: set<int>)
    requires Unique(list) && Named(devattr) && forall t :: alive(t) == live
    ensures Answered(ScanAll(Scan(list, todo, false, picks), devattr, alive, turn), todo, picks, list, live, devattr)
    decreases |todo|
  {
    hide ScanAll, Taken, Unique, Passed, Stop, Known;
    if todo == [] {
      ScanDone(list, picks, devattr, alive, turn);
      assert picks[..|picks|] == picks;
    } else {
      assert todo == [todo[0]] + todo[1..];
      var j, list', turn' := OneList(list, todo[0], todo[1..], false, picks, devattr, alive, turn, live);
      OneAnswer(todo[0], j, list, live, devattr);
      if j < |todo[0]| && devattr(todo[0][j]).Alias? {
        var a := devattr(todo[0][j]).name;
        ScanMeaning(list', todo[1..], picks + [a], devattr, alive, turn', live);
        SameAnswers(todo[1..], list, list', live, devattr);
        SameAnswered(ScanAll(Scan(list', todo[1..], false, picks + [a]), devattr, alive, turn'), todo[1..], picks + [a], list, list', live, devattr);
        RestMeaning(ScanAll(Scan(list, todo, false, picks), devattr, alive, turn), todo, picks, a, j, list, live, devattr);
      } else {
        ghost var e := if j < |todo[0]| then OTHER
                       else if Known(todo[0], devattr) then EAGAIN else ENODEV;
        assert ScanAll(Scan(list, todo, false, picks), devattr, alive, turn) == Denied(e);
        assert Refused(e, todo[0], list, live, devattr) && !Offered(todo[0], list, live, devattr);
      }
    }
  }

  lemma SamePassed(list: seq<Slot>, list': seq<Slot>, live: set<int>, devattr: string -> Naming)
    requires SameTaken(list, list', live) && Named(devattr)
    ensures forall d :: Passed(d, list', live, devattr) <==> Passed(d, list, live, devattr)
  {
    hide Taken;
  }

  /** What the place where the scan of a list stops says of the list. */
  lemma OneAnswer(devices: seq<string>, j: nat, list: seq<Slot>, live: set<int>, devattr: string -> Naming)
    requires Stop(devices, j, list, live, devattr)
    ensures j <= |devices| && (Offered(devices, list, live, devattr) <==> j < |devices| && devattr(devices[j]).Alias?)
    ensures forall e :: Refused(e, devices, list, live, devattr) <==>
                        e == if j < |devices| then OTHER
                             else if Known(devices, devattr) then EAGAIN else ENODEV
    ensures forall k: nat :: Stop(devices, k, list, live, devattr) ==> k == j
  {
    hide Passed, Taken;
    forall k: nat | Stop(devices, k, list, live, devattr)
      ensures k == j
    {
      StopOnce(devices, j, k, list, live, devattr);
    }
  }

  lemma SameAnswers(todo: seq<seq<string>>, list: seq<Slot>, list': seq<Slot>, live: set<int>, devattr: string -> Naming)
    requires SameTaken(list, list', live) && Named(devattr)
    ensures forall i, j: nat :: 0 <= i < |todo| ==> (Stop(todo[i], j, list', live, devattr) <==> Stop(todo[i], j, list, live, devattr))
    ensures forall i :: 0 <= i < |todo| ==> (Offered(todo[i], list', live, devattr) <==> Offered(todo[i], list, live, devattr))
    ensures forall i, e :: 0 <= i < |todo| ==> (Refused(e, todo[i], list', live, devattr) <==> Refused(e, todo[i], list, live, devattr))
  {
    hide Taken, Stop;
    forall d
      ensures Passed(d, list', live, devattr) <==> Passed(d, list, live, devattr)
    {
    }
    forall i, j: nat | 0 <= i < |todo|
      ensures Stop(todo[i], j, list', live, devattr) <==> Stop(todo[i], j, list, live, devattr)
    {
      SameStop(todo[i], j, list, list', live, devattr);
    }
  }

  lemma SameAnswered(r: Progress, todo: seq<seq<string>>, picks: seq<string>, list: seq<Slot>, list': seq<Slot>, live: set<int>, devattr: string -> Naming)
    requires Answered(r, todo, picks, list', live, devattr)
    requires forall i, j: nat :: 0 <= i < |todo| ==> (Stop(todo[i], j, list', live, devattr) <==> Stop(todo[i], j, list, live, devattr))
    requires forall i :: 0 <= i < |todo| ==> (Offered(todo[i], list', live, devattr) <==> Offered(todo[i], list, live, devattr))
    requires forall i, e :: 0 <= i < |todo| ==> (Refused(e, todo[i], list', live, devattr) <==> Refused(e, todo[i], list, live, devattr))
    ensures Answered(r, todo, picks, list, live, devattr)
  {
    hide Stop, Offered, Refused;
  }

  lemma SameStop(devices: seq<string>, j: nat, list: seq<Slot>, list': seq<Slot>, live: set<int>, devattr: string -> Naming)
    requires forall d :: Passed(d, list', live, devattr) <==> Passed(d, list, live, devattr)
    ensures Stop(devices, j, list', live, devattr) <==> Stop(devices, j, list, live, devattr)
  {
    hide Passed;
  }

  lemma RestMeaning(r: Progress, todo: seq<seq<string>>, picks: seq<string>, a: string, j: nat, list: seq<Slot>, live: set<int>, devattr: string -> Naming)
    requires todo != [] && j < |todo[0]| && devattr(todo[0][j]) == Alias(a) && Stop(todo[0], j, list, live, devattr)
    requires Offered(todo[0], list, live, devattr) && forall k: nat :: Stop(todo[0], k, list, live, devattr) ==> k == j
    requires Answered(r, todo[1..], picks + [a], list, live, devattr)
    ensures Answered(r, todo, picks, list, live, devattr)
  {
    hide Stop, Offered, Refused;
    var rest := todo[1..];
    assert forall i :: 1 <= i < |todo| ==> todo[i] == rest[i - 1];
    assert forall i :: 0 <= i < |rest| ==> rest[i] == todo[i + 1];
    if r.Picked? {
      PickedMore(r.picks, todo, picks, a, j, list, live, devattr);
    } else {
      var i, e :| 0 <= i < |rest| && (forall k :: 0 <= k < i ==> Offered(rest[k], list, live, devattr))
        && !Offered(rest[i], list, live, devattr) && r == Denied(e) && Refused(e, rest[i], list, live, devattr);
      assert todo[i + 1] == rest[i];
    }
  }

  lemma PickedMore(ps: seq<string>, todo: seq<seq<string>>, picks: seq<string>, a: string, j: nat, list: seq<Slot>, live: set<int>, devattr: string -> Naming)
    requires todo != [] && j < |todo[0]| && devattr(todo[0][j]) == Alias(a)
    requires forall k: nat :: Stop(todo[0], k, list, live, devattr) ==> k == j
    requires PicksOf(ps, todo[1..], picks + [a], list, live, devattr)
    ensures PicksOf(ps, todo, picks, list, live, devattr)
  {
    hide Stop;
    assert ps[..|picks|] == ps[..|picks| + 1][..|picks|] == picks;
    assert ps[|picks|] == ps[..|picks| + 1][|picks|] == a;
    forall i: nat, k: nat | i < |todo| && k < |todo[i]| && Stop(todo[i], k, list, live, devattr)
      ensures devattr(todo[i][k]) == Alias(ps[|picks| + i])
    {
      if i > 0 {
        assert todo[1..][i - 1] == todo[i];
      }
    }
  }

  // ----- whole calls

  /**
   A release is granted exactly when the key has a lock of that alias, and then that
   one lock is gone.  It is refused with EPERM when another key has one, and with
   EINVAL when nobody has.
   */
  ghost predicate ReleaseLaw(f: File, g: File, key: int, alias: string, granted: bool, errno: Errno)
    requires Readable(f)
  {
    && (granted <==> Slot(key, alias) in Contents(f))
    && (granted ==> Readable(g) && forall k: nat :: HasAt(Contents(f), k, key, alias) ==> Contents(g) == Without(Contents(f), k))
    && (!granted ==> g == f && errno == if exists s :: s in Contents(f) && s.alias == alias then EPERM else EINVAL)
  }

  predicate HasAt(list: seq<Slot>, k: nat, key: int, alias: string) {
    k < |list| && list[k] == Slot(key, alias)
  }

  function Without(list: seq<Slot>, k: nat): seq<Slot> {
    if k < |list| then list[..k] + list[k + 1..] else list
  }

  lemma ReleaseGranted(f: File, g: File, key: int, alias: string)
    requires Good(f)
    requires var r := Unreserve(Contents(f), key, alias);
             g == if r.Picked? then DoAll(f, PutPlan(r.list, [], key)) else f
    ensures var r := Unreserve(Contents(f), key, alias); ReleaseLaw(f, g, key, alias, r.Picked?, if r.Denied? then r.errno else OTHER)
  {
    hide Unreserve, DoAll, PutPlan, Put, Unique, NoneEmpty, Contents;
    var list, r := Contents(f), Unreserve(Contents(f), key, alias);
    UnreserveMeaning(list, key, alias);
    UniqueRelease(list, key, alias);
    if r.Picked? {
      PlanMeaning(f, r.list, [], key);
      forall k: nat | HasAt(list, k, key, alias)
        ensures Contents(g) == Without(list, k)
      {
        Released(list, key, alias, k);
      }
    }
  }

  /**
   A reservation is granted exactly when every list offers a device, and then takes of
   each the first that is to be had; otherwise the first list that offers none decides
   the error.
   */
  ghost predicate ReserveLaw(f: File, lists: seq<seq<string>>, devattr: string -> Naming, live: set<int>, granted: bool, errno: Errno,
                             taken: seq<string>)
    requires Readable(f)
  {
    && (granted <==> forall i :: 0 <= i < |lists| ==> Offered(lists[i], Contents(f), live, devattr))
    && (granted ==> |taken| == |lists| && forall i :: 0 <= i < |lists| ==> FirstOffer(lists[i], taken[i], Contents(f), live, devattr))
    && (!granted ==> exists i :: 0 <= i < |lists| && (forall k :: 0 <= k < i ==> Offered(lists[k], Contents(f), live, devattr))
                                 && !Offered(lists[i], Contents(f), live, devattr) && Refused(errno, lists[i], Contents(f), live, devattr))
  }

  /** The device is what the first that is not passed is called. */
  ghost predicate FirstOffer(devices: seq<string>, d: string, list: seq<Slot>, live: set<int>, devattr: string -> Naming) {
    forall j: nat :: j < |devices| && Stop(devices, j, list, live, devattr) ==> devattr(d) == devattr(devices[j])
  }

  lemma ReservationGranted(f: File, lists: seq<seq<string>>, devattr: string -> Naming, alive: nat -> set<int>, granted: bool, errno: Errno, taken: seq<string>)
    requires Good(f) && Named(devattr) && forall t :: alive(t) == alive(0)
    requires var r := ScanAll(Scan(Contents(f), lists, false, []), devattr, alive, 0);
             if granted then r.Picked? && |taken| == |r.picks| && forall i :: 0 <= i < |taken| ==> devattr(taken[i]) == Alias(r.picks[i])
             else r == Denied(errno)
    ensures ReserveLaw(f, lists, devattr, alive(0), granted, errno, taken)
  {
    hide ScanAll, Offered, Stop, Refused, Named, NoneEmpty, Unique;
    ScanMeaning(Contents(f), lists, [], devattr, alive, 0, alive(0));
  }
}
