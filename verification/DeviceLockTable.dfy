/**
 The code that works on the lock table: it changes the list read from the file in
 place and then writes it.  Liveness of a process is asked of `alive`, once a check;
 input and output do not fail.
 */
module DeviceLockTable {
  import opened DeviceLocks
  import opened DeviceLockLaws

  lemma {:induction false} IndexFrom(list: seq<Slot>, alias: string, k: nat)
    requires k <= |list| && (forall i :: 0 <= i < k ==> list[i].alias != alias) && (k < |list| ==> list[k].alias == alias)
    ensures Index(list, alias) == k
  {
    if k > 0 {
      IndexFrom(list[1..], alias, k - 1);
    }
  }

  lemma UsedSnoc(list: seq<Slot>, k: nat)
    requires k < |list|
    ensures list[k].alias == "" ==> Used(list[..k + 1]) == Used(list[..k])
    ensures list[k].alias != "" ==> Used(list[..k + 1]) == Used(list[..k]) + [list[k]]
  {
    hide Used;
    UsedSplit(list[..k], [list[k]]);
    UsedStep(list[k], []);
    UsedAll([]);
    assert [list[k]] + [] == [list[k]];
    assert list[..k + 1] == list[..k] + [list[k]];
    assert list[k].alias != "" ==> [list[k]] + Used([]) == [list[k]];
  }

  class LockTable {
    var file: File
    var locklist: array<Slot>
    var lockcount: nat

    constructor (file: File)
      ensures this.file == file && lockcount == 0 && fresh(locklist)
    {
      this.file := file;
      lockcount := 0;
      locklist := new Slot[0];
    }

    ghost predicate Valid()
      reads this
    {
      lockcount <= locklist.Length
    }

    ghost function List(): seq<Slot>
      requires Valid()
      reads this, locklist
    {
      locklist[..lockcount]
    }

    /** `readlocks`: the counted slots are read into a new list. */
    method ReadLocks() returns (ok: bool)
      modifies this`locklist, this`lockcount
      ensures ok <==> Readable(file)
      ensures ok ==> Valid() && fresh(locklist) && List() == Contents(file)
    {
      lockcount := file.count;
      if file.count > |file.slots| {
        return false;
      }
      var slots := file.slots;
      locklist := new Slot[lockcount](i requires 0 <= i < |slots| => slots[i]);
      return true;
    }

    method FirstSlot(alias: string) returns (locked: bool, k: nat)
      requires Valid()
      ensures k == Index(List(), alias) && (locked <==> k < lockcount)
    {
      locked := false;
      k := 0;
      var i := 0;
      while !locked && i < lockcount
        invariant i <= lockcount && k == (if locked then i - 1 else i)
        invariant forall j :: 0 <= j < k ==> locklist[j].alias != alias
        invariant locked ==> 0 <= k < lockcount && locklist[k].alias == alias
        decreases lockcount - i
      {
        if locklist[k].alias == alias {
          locked := true;
        } else {
          k := k + 1;
        }
        i := i + 1;
      }
      IndexFrom(List(), alias, k);
    }

    /** `islocked`, the alias being known. */
    method IsLocked(alias: string, live: set<int>) returns (free: bool)
      requires Valid()
      modifies locklist
      ensures (free, List()) == Check(old(List()), alias, live)
    {
      var locked, k := FirstSlot(alias);
      free := true;
      if locked {
        if locklist[k].pid in live {
          free := false;
        } else {
          locklist[k] := Empty(locklist[k]);
        }
      }
    }

    /** `unreserv`. */
    method Unreserv(key: int, device: string, devattr: string -> Naming) returns (errno: Progress)
      requires Valid()
      modifies locklist
      ensures var alias := AliasOf(device, devattr);
              match Unreserve(old(List()), key, alias)
              case Picked(list, _) => errno.Picked? && List() == list
              case d => errno == d && List() == old(List())
    {
      var srchalias := AliasOf(device, devattr);
      var locked, k := FirstSlot(srchalias);
      if locked {
        if locklist[k].pid == key {
          locklist[k] := Empty(locklist[k]);
          errno := Picked([], []);
        } else {
          errno := Denied(EPERM);
        }
      } else {
        errno := Denied(EINVAL);
      }
    }

    /** A slot in use moves to the next available one, if there is one before it. */
    method MoveUp(avail0: int, i: nat, ghost used: seq<Slot>) returns (avail: int)
      requires Valid() && |used| <= i < lockcount && locklist[..|used|] == used
      requires avail0 == if |used| == i then -1 else |used|
      modifies locklist
      ensures locklist[..|used| + 1] == used + [old(locklist[i])]
      ensures forall j :: i < j < lockcount ==> locklist[j] == old(locklist[j])
      ensures avail == if |used| == i then -1 else |used| + 1
    {
      avail := avail0;
      if avail != -1 {
        locklist[avail] := locklist[i];
        avail := avail + 1;
      }
      assert locklist[..|used|] == used;
    }

    /** `compresslks`: the used slots move to the front. */
    method CompressLks() returns (nlocks: nat)
      requires Valid()
      modifies locklist
      ensures nlocks <= lockcount && locklist[..nlocks] == Used(old(List()))
    {
      hide Used;
      ghost var list, used := List(), [];
      var avail := -1;
      nlocks := lockcount;
      var i := 0;
      UsedAll([]);
      while i < lockcount
        invariant i <= lockcount <= locklist.Length && nlocks == lockcount - i + |used| && |used| <= i
        invariant used == Used(list[..i]) && avail == if |used| == i then -1 else |used|
        invariant locklist[..|used|] == used && |list| == lockcount
        invariant forall j :: i <= j < lockcount ==> locklist[j] == list[j]
      {
        UsedSnoc(list, i);
        if locklist[i].alias == "" {
          nlocks := nlocks - 1;
          if avail == -1 {
            avail := i;
          }
        } else {
          avail := MoveUp(avail, i, used);
          used := used + [list[i]];
        }
        i := i + 1;
      }
      assert list[..i] == list;
    }

    /** `writelks`. */
    method WriteLks(tblcnt: nat)
      requires tblcnt <= locklist.Length
      modifies this`file
      ensures file == DoAll(old(file), WriteTable(lockcount, locklist[..tblcnt]))
    {
      ghost var f := file;
      file := DoWrite(file, Count(lockcount));
      if tblcnt != 0 {
        OneWrite(f, Count(lockcount), [Slots(0, locklist[..tblcnt])]);
        OneWrite(file, Slots(0, locklist[..tblcnt]), []);
        file := DoWrite(file, Slots(0, locklist[..tblcnt]));
      } else {
        OneWrite(f, Count(lockcount), []);
      }
    }

    /** The first loop of `putlocks`: unused slots take the new locks. */
    method FillSlots(newlist: seq<string>, pid: int) returns (pp: nat)
      requires Valid()
      modifies locklist
      ensures pp <= |newlist| && (List(), newlist[pp..]) == Fill(old(List()), newlist, pid)
    {
      hide Fill, Before;
      ghost var list := List();
      pp := 0;
      var lkndx := 0;
      BeforeNone(Fill(list, newlist, pid));
      assert list[0..] == list && newlist[0..] == newlist;
      while pp < |newlist| && lkndx < lockcount
        invariant lkndx <= lockcount <= locklist.Length && pp <= |newlist|
        invariant forall j :: lkndx <= j < lockcount ==> locklist[j] == list[j]
        invariant Fill(list, newlist, pid) == Before(locklist[..lkndx], Fill(list[lkndx..], newlist[pp..], pid))
        decreases lockcount - lkndx
      {
        ghost var done := locklist[..lkndx];
        FillFrom(done, list, lkndx, newlist, pp, pid);
        if locklist[lkndx].alias == "" {
          locklist[lkndx] := Slot(pid, newlist[pp]);
          pp := pp + 1;
        }
        assert locklist[..lkndx + 1] == done + [locklist[lkndx]];
        lkndx := lkndx + 1;
      }
      FillNothing(list[lkndx..], newlist[pp..], pid);
      BeforeEnd(locklist[..lkndx], list[lkndx..], newlist[pp..]);
      assert locklist[..lkndx] + list[lkndx..] == List();
    }

    /** `putlocks`. */
    method PutLocks(newlist: seq<string>, pid: int)
      requires Valid()
      modifies this, locklist
      ensures file == DoAll(old(file), PutPlan(old(List()), newlist, pid))
    {
      hide Fill, Used, DoAll, WriteTable, Appends;
      ghost var list := List();
      var pp := FillSlots(newlist, pid);
      if pp < |newlist| {
        var lksintbl := lockcount;
        lockcount := lockcount + (|newlist| - pp);
        WriteLks(lksintbl);
        AppendLks(newlist[pp..], pid, lksintbl);
        DoAllParts(old(file), WriteTable(lockcount, locklist[..lksintbl]), Appends(lksintbl, newlist[pp..], pid));
      } else {
        var n := CompressLks();
        lockcount := n;
        WriteLks(lockcount);
      }
    }

    /** `appendlk` for all that is left. */
    method AppendLks(newlist: seq<string>, pid: int, at: nat)
      modifies this`file
      ensures file == DoAll(old(file), Appends(at, newlist, pid))
    {
      hide DoAll;
      NoWrites(file);
      var k := 0;
      assert newlist[0..] == newlist;
      while k < |newlist|
        invariant k <= |newlist| && DoAll(file, Appends(at + k, newlist[k..], pid)) == DoAll(old(file), Appends(at, newlist, pid))
      {
        assert newlist[k..][1..] == newlist[k + 1..];
        OneWrite(file, Slots(at + k, [Slot(pid, newlist[k])]), Appends(at + k + 1, newlist[k + 1..], pid));
        file := DoWrite(file, Slots(at + k, [Slot(pid, newlist[k])]));
        k := k + 1;
      }
      NoWrites(file);
    }

    /** The loop over one list: the first device that is not locked. */
    method PickOne(devices: seq<string>, devattr: string -> Naming, alive: nat -> set<int>, turn0: nat,
                   ghost rest: seq<seq<string>>, ghost picks: seq<string>)
      returns (fail: bool, errno: Errno, device: string, alias: string, turn: nat)
      requires Valid()
      modifies locklist
      ensures !fail ==> device in devices
      ensures var before := ScanAll(Scan(old(List()), [devices] + rest, false, picks), devattr, alive, turn0);
              if fail then before == Denied(errno)
              else devattr(device) == Alias(alias) && before == ScanAll(Scan(List(), rest, false, picks + [alias]), devattr, alive, turn)
    {
      hide ScanStep, Check, ScanAll;
      ghost var whole := ScanAll(Scan(List(), [devices] + rest, false, picks), devattr, alive, turn0);
      fail, errno, device, alias, turn := false, OTHER, "", "", turn0;
      var gotone, foundone := false, false;
      var pp := 0;
      assert devices[0..] == devices;
      while !fail && !gotone && pp < |devices|
        invariant pp <= |devices| && Valid()
        invariant !fail && !gotone ==>
                    whole == ScanAll(Scan(List(), [devices[pp..]] + rest, foundone, picks), devattr, alive, turn)
        invariant gotone ==>
                    device in devices && devattr(device) == Alias(alias) && !fail && whole == ScanAll(Scan(List(), rest, false, picks + [alias]), devattr, alive, turn)
        invariant fail ==> whole == Denied(errno)
        decreases |devices| - pp, !fail && !gotone
      {
        ScanDevice(List(), devices[pp..], rest, foundone, picks, devattr, alive, turn);
        assert devices[pp..][1..] == devices[pp + 1..];
        match devattr(devices[pp]) {
          case Alias(a) =>
            var free := IsLocked(a, alive(turn));
            foundone := true;
            if free {
              gotone := true;
              device, alias := devices[pp], a;
            }
          case NoDevice =>
          case Trouble =>
            fail := true;
        }
        turn := turn + 1;
        pp := pp + 1;
      }
      if !fail && !gotone {
        ScanExhausted(List(), rest, foundone, picks, devattr, alive, turn);
        assert devices[pp..] == [];
        fail := true;
        errno := if foundone then EAGAIN else ENODEV;
      }
    }

    /**
     `devreserv`: the devices reserved, one of each list, or nothing and the table file
     as it was.  While the same processes live, it is granted exactly when every list
     offers a device; then it takes the first one of each list that is to be had.
     */
    method DevReserv(key: int, rsvlst: seq<seq<string>>, devattr: string -> Naming, alive: nat -> set<int>)
      returns (rtnlist: seq<string>, noerr: bool, errno: Errno)
      modifies this
      ensures !noerr ==> file == old(file)
      ensures !Readable(old(file)) ==> !noerr
      ensures noerr ==> |rtnlist| == |rsvlst| && forall i :: 0 <= i < |rsvlst| ==> rtnlist[i] in rsvlst[i]
      ensures Readable(old(file)) ==>
                match ScanAll(Scan(Contents(old(file)), rsvlst, false, []), devattr, alive, 0)
                case Picked(list, picks) =>
                  && noerr && file == DoAll(old(file), PutPlan(list, picks, key))
                  && |rtnlist| == |picks| && forall i :: 0 <= i < |picks| ==> devattr(rtnlist[i]) == Alias(picks[i])
                case Denied(e) => !noerr && errno == e
                case _ => false
      ensures Good(old(file)) && Named(devattr) && (forall t :: alive(t) == alive(0)) ==>
                ReserveLaw(old(file), rsvlst, devattr, alive(0), noerr, errno, rtnlist)
    {
      hide ScanAll, Contents, Readable, PutPlan, DoAll, ReserveLaw, Good, Named;
      rtnlist, errno := [], OTHER;
      noerr := ReadLocks();
      if !noerr {
        GoodReadable(old(file));
        return;
      }
      ghost var whole := ScanAll(Scan(List(), rsvlst, false, []), devattr, alive, 0);
      var aliases: seq<string> := [];
      var ppp, turn := 0, 0;
      assert rsvlst[0..] == rsvlst;
      while noerr && ppp < |rsvlst|
        invariant ppp <= |rsvlst| && Valid() && file == old(file) && fresh(locklist)
        invariant noerr ==> whole == ScanAll(Scan(List(), rsvlst[ppp..], false, aliases), devattr, alive, turn)
        invariant !noerr ==> whole == Denied(errno)
        invariant noerr ==> |rtnlist| == ppp
        invariant |rtnlist| <= ppp && forall i :: 0 <= i < |rtnlist| ==> rtnlist[i] in rsvlst[i]
        invariant |rtnlist| == |aliases| && forall i :: 0 <= i < |aliases| ==> devattr(rtnlist[i]) == Alias(aliases[i])
        decreases |rsvlst| - ppp
      {
        var fail, device, alias;
        assert rsvlst[ppp..] == [rsvlst[ppp]] + rsvlst[ppp + 1..];
        fail, errno, device, alias, turn := PickOne(rsvlst[ppp], devattr, alive, turn, rsvlst[ppp + 1..], aliases);
        if fail {
          noerr := false;
        } else {
          rtnlist := rtnlist + [device];
          aliases := aliases + [alias];
        }
        ppp := ppp + 1;
      }
      if noerr {
        assert rsvlst[ppp..] == [];
        ScanDone(List(), aliases, devattr, alive, turn);
        PutLocks(aliases, key);
      }
      if Good(old(file)) && Named(devattr) && forall t :: alive(t) == alive(0) {
        ReservationGranted(old(file), rsvlst, devattr, alive, noerr, errno, rtnlist);
      }
    }

    /**
     `devfree`: granted exactly when the key has a lock on the device, which then is the
     one lock that is gone; otherwise refused, with the error saying why.
     */
    method DevFree(key: int, device: string, devattr: string -> Naming) returns (noerr: bool, errno: Errno)
      modifies this
      ensures !noerr ==> file == old(file)
      ensures !Readable(old(file)) ==> !noerr
      ensures Good(old(file)) ==> ReleaseLaw(old(file), file, key, AliasOf(device, devattr), noerr, errno)
      ensures Readable(old(file)) ==>
                match Unreserve(Contents(old(file)), key, AliasOf(device, devattr))
                case Picked(list, _) => noerr && file == DoAll(old(file), PutPlan(list, [], key))
                case Denied(e) => !noerr && errno == e
                case _ => false
    {
      hide Unreserve, DoAll, Used, WriteTable, Unique, NoneEmpty, ReleaseLaw;
      errno := OTHER;
      noerr := ReadLocks();
      if !noerr {
        return;
      }
      ghost var before, alias := List(), AliasOf(device, devattr);
      UnreserveMeaning(before, key, alias);
      var r := Unreserv(key, device, devattr);
      if r.Picked? {
        ghost var list := List();
        var n := CompressLks();
        lockcount := n;
        WriteLks(lockcount);
        FillNothing(list, [], key);
      } else {
        noerr := false;
        errno := r.errno;
      }
      if Good(old(file)) {
        ReleaseGranted(old(file), file, key, alias);
      }
    }
  }

  lemma GoodReadable(f: File)
    ensures Good(f) ==> Readable(f)
  {
  }

  ghost function Before(done: seq<Slot>, r: (seq<Slot>, seq<string>)): (seq<Slot>, seq<string>) {
    (done + r.0, r.1)
  }

  lemma BeforeNone(r: (seq<Slot>, seq<string>))
    ensures Before([], r) == r
  {
    assert [] + r.0 == r.0;
  }

  lemma BeforeEnd(done: seq<Slot>, list: seq<Slot>, rest: seq<string>)
    ensures Before(done, (list, rest)) == (done + list, rest)
  {
  }

  /** One slot more. */
  lemma FillFrom(done: seq<Slot>, list: seq<Slot>, k: nat, newlist: seq<string>, p: nat, pid: int)
    requires k < |list| && p < |newlist|
    ensures var whole := Before(done, Fill(list[k..], newlist[p..], pid));
            && (list[k].alias == "" ==> whole == Before(done + [Slot(pid, newlist[p])], Fill(list[k + 1..], newlist[p + 1..], pid)))
            && (list[k].alias != "" ==> whole == Before(done + [list[k]], Fill(list[k + 1..], newlist[p..], pid)))
  {
    hide Fill, Before;
    FillStep(list[k..], newlist[p..], pid);
    assert list[k..][1..] == list[k + 1..] && newlist[p..][1..] == newlist[p + 1..];
    if list[k].alias == "" {
      BeforeOn(done, Slot(pid, newlist[p]), Fill(list[k + 1..], newlist[p + 1..], pid));
    } else {
      BeforeOn(done, list[k], Fill(list[k + 1..], newlist[p..], pid));
    }
  }

  lemma BeforeOn(done: seq<Slot>, s: Slot, r: (seq<Slot>, seq<string>))
    ensures Before(done, ([s] + r.0, r.1)) == Before(done + [s], r)
  {
    assert done + ([s] + r.0) == done + [s] + r.0;
  }
}
