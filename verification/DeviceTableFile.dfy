/**
 The operations that add, change and remove records: they read the whole table and
 write it anew.  The lock on the table makes each of them one step.
 */
module DeviceTableFile {
  import opened Prelude
  import opened DeviceTable
  import opened DeviceTableLine
  import opened DeviceTableWriter
  import opened DeviceTableReader
  import opened DeviceTableEntry
  import opened DeviceTableLists

  type Numbered = (nat, Entry)

  /** `_getdevrec` for an alias: the first data record of that name. */
  function Find(recs: seq<Numbered>, alias: string): (r: Option<Numbered>)
    ensures r.Some? ==> r.value.1.Device? && r.value.1.alias == alias && r.value in recs
    ensures r.None? ==> forall x :: x in recs && x.1.Device? ==> x.1.alias != alias
  {
    if recs == [] then None
    else if recs[0].1.Device? && recs[0].1.alias == alias then Some(recs[0])
    else Find(recs[1..], alias)
  }

  /** What the writer demands of a record. */
  predicate CanWrite(e: Entry) {
    Printable(e) && (e.Device? ==> Plain(e.alias))
  }

  predicate AllCanWrite(recs: seq<Numbered>) {
    forall x :: x in recs ==> CanWrite(x.1)
  }

  function PrintNumbered(recs: seq<Numbered>, no: nat, changed: Option<Entry>): string
    requires AllCanWrite(recs) && (changed.Some? ==> Printable(changed.value))
  {
    if recs == [] then ""
    else
      (if recs[0].0 != no then Print(recs[0].1) else if changed.Some? then Print(changed.value) else "")
      + PrintNumbered(recs[1..], no, changed)
  }

  /** Searching a freshly opened table. */
  method GetDevRec(file: string, alias: string) returns (r: Option<Numbered>)
    requires '\0' !in file
    ensures r == Find(ReadNumbered(file, 0), alias)
  {
    var reader := new Reader(file);
    assert file[0..] == file;
    ghost var recs := ReadNumbered(file, 0);
    while true
      invariant reader.Valid() && fresh(reader) && reader.file == file && fresh(reader.Buffers())
      invariant recs == ReadNumbered(file[reader.pos..], reader.dtabrecnum)
      invariant Find(recs, alias) == Find(ReadNumbered(file, 0), alias)
      decreases |file| - reader.pos
    {
      var ent, no := reader.GetDevTabEnt();
      if ent.None? {
        return None;
      }
      assert recs[0] == (no, ent.value) && recs[1..] == ReadNumbered(file[reader.pos..], reader.dtabrecnum);
      recs := recs[1..];
      if ent.value.Device? && ent.value.alias == alias {
        return Some((no, ent.value));
      }
    }
  }

  /** Copying the table record by record, with record `no` replaced, or left out. */
  method Rewrite(file: string, no: nat, changed: Option<Entry>) returns (out: string)
    requires '\0' !in file && AllCanWrite(ReadNumbered(file, 0)) && (changed.Some? ==> CanWrite(changed.value))
    ensures out == PrintNumbered(ReadNumbered(file, 0), no, changed)
  {
    hide Print, ReadNumbered;
    var reader := new Reader(file);
    assert file[0..] == file;
    ghost var recs := ReadNumbered(file, 0);
    out := "";
    while true
      invariant reader.Valid() && fresh(reader) && reader.file == file && fresh(reader.Buffers())
      invariant recs == ReadNumbered(file[reader.pos..], reader.dtabrecnum) && AllCanWrite(recs)
      invariant out + PrintNumbered(recs, no, changed) == PrintNumbered(ReadNumbered(file, 0), no, changed)
      decreases |file| - reader.pos
    {
      var ent, entryno := reader.GetDevTabEnt();
      if ent.None? {
        return;
      }
      assert recs[0] == (entryno, ent.value) && recs[1..] == ReadNumbered(file[reader.pos..], reader.dtabrecnum);
      var line := "";
      if entryno != no {
        line := PutRecord(ent.value);
      } else if changed.Some? {
        line := PutRecord(changed.value);
      }
      Rejoin(out, line, PrintNumbered(recs[1..], no, changed));
      out := out + line;
      recs := recs[1..];
    }
  }

  // ----- the operations on the file

  datatype Operation =
    | Add(alias: string, attrval: seq<string>)
    | Mod(alias: string, attrval: seq<string>)
    | Rm(alias: string)

  /** The table can be read and written. */
  predicate Sane(file: string) {
    '\0' !in file && AllCanWrite(ReadNumbered(file, 0))
  }

  /** Whether the operation succeeds, and the file it leaves. */
  function Effect(file: string, op: Operation): (bool, string)
    requires '\0' !in file && (op.Add? || (Sane(file) && ValidAlias(op.alias)))
  {
    var found := Find(ReadNumbered(file, 0), op.alias);
    match op
    case Add(alias, attrval) =>
      var made := TakeAll(Blank(alias), attrval);
      if ValidAlias(alias) && found.None? && made.Made? then (true, file + Print(made.entry)) else (false, file)
    case Mod(alias, attrval) =>
      var made := TakeAll(Blank(alias), attrval);
      if found.Some? && made.Made? then
        (true, PrintNumbered(ReadNumbered(file, 0), found.value.0, Some(Modified(found.value.1, made.entry))))
      else (false, file)
    case Rm(alias) =>
      if found.Some? then (true, PrintNumbered(ReadNumbered(file, 0), found.value.0, None)) else (false, file)
  }

  class Table {
    var file: string

    ghost predicate Valid()
      reads this
    {
      '\0' !in file
    }

    /** `_adddevtabrec`. */
    method AddDevTabRec(alias: string, attrval: seq<string>) returns (ok: bool)
      requires Valid()
      modifies this
      ensures (ok, file) == Effect(old(file), Add(alias, attrval))
    {
      if !ValidAlias(alias) {
        return false;
      }
      var devtabent := GetDevRec(file, alias);
      if devtabent.Some? {
        return false;
      }
      var ent, errno := MkDevTabEnt(alias, attrval);
      if ent == null {
        return false;
      }
      var e := Collect(ent, TakeAll(Blank(alias), attrval).entry);
      AliasIsPlain(alias);
      var line := PutRecord(e);
      file := file + line;
      return true;
    }

    /** `_moddevtabrec`, for a device given by its alias. */
    method ModDevTabRec(device: string, attrval: seq<string>) returns (ok: bool)
      requires Valid() && Sane(file) && ValidAlias(device)
      modifies this
      ensures (ok, file) == Effect(old(file), Mod(device, attrval))
    {
      var found := GetDevRec(file, device);
      if found.None? {
        return false;
      }
      var (no, e) := found.value;
      var ent := Build(e);
      var chg, errno := MkDevTabEnt(device, attrval);
      if chg == null {
        return false;
      }
      ghost var c := TakeAll(Blank(device), attrval).entry;
      Modify(ent, chg, e, c);
      var m := Collect(ent, Modified(e, c));
      AliasIsPlain(device);
      file := Rewrite(file, no, Some(m));
      return true;
    }

    /** `_rmdevtabrec`, for a device given by its alias. */
    method RmDevTabRec(device: string) returns (ok: bool)
      requires Valid() && Sane(file) && ValidAlias(device)
      modifies this
      ensures (ok, file) == Effect(old(file), Rm(device))
    {
      var rment := GetDevRec(file, device);
      if rment.None? {
        return false;
      }
      file := Rewrite(file, rment.value.0, None);
      return true;
    }
  }

  lemma AliasIsPlain(alias: string)
    requires ValidAlias(alias)
    ensures Plain(alias)
  {
  }

  // ----- tables the library itself wrote

  ghost predicate AliasesDiffer(es: seq<Entry>) {
    forall i, j :: 0 <= i < j < |es| && es[i].Device? && es[j].Device? ==> es[i].alias != es[j].alias
  }

  /** What a record must satisfy to survive writing and reading. */
  ghost predicate Survives(e: Entry) {
    Writable(e) && Printable(e) && Fits(e) && '\0' !in Print(e)
  }

  ghost predicate AllSurvive(es: seq<Entry>) {
    forall i :: 0 <= i < |es| ==> Survives(es[i])
  }

  lemma SurvivorsFit(es: seq<Entry>)
    requires AllSurvive(es)
    ensures AllWritable(es) && AllFramed(es) && AllPrintable(es) && AllFit(es)
  {
    forall i | 0 <= i < |es|
      ensures Writable(es[i]) && Printable(es[i]) && Fits(es[i])
    {
      assert Survives(es[i]);
    }
  }

  function Number(es: seq<Entry>, n: nat): seq<Numbered> {
    if es == [] then [] else [(n, Normal(es[0]))] + Number(es[1..], n + 1)
  }

  /** The reader delivers the entries in order, numbered from n. */
  lemma {:induction false} NumberedBack(es: seq<Entry>, n: nat)
    requires AllWritable(es) && AllPrintable(es) && AllFit(es)
    ensures ReadNumbered(PrintAll(es), n) == Number(es, n)
    decreases |es|
  {
    hide Framed, Print, ParseRecord, Printable, RecordEnd, Normal;
    if es != [] {
      var e, rest := es[0], es[1..];
      assert Writable(e) && AllWritable(rest);
      FitStep(es);
      RecordFramed(e, PrintAll(rest));
      RecordRead(e);
      NumberedBack(rest, n + 1);
      var file := PrintAll(es);
      assert file[..|Print(e)|] == Print(e) && file[|Print(e)|..] == PrintAll(rest);
    }
  }

  lemma {:induction false} NumberAt(es: seq<Entry>, n: nat)
    ensures |Number(es, n)| == |es|
    ensures forall i :: 0 <= i < |es| ==> Number(es, n)[i] == (n + i, Normal(es[i]))
  {
    if es != [] {
      NumberAt(es[1..], n + 1);
    }
  }

  lemma PrintNormal(e: Entry)
    requires Printable(e)
    ensures Printable(Normal(e)) && Print(Normal(e)) == Print(e)
  {
    if e.Device? {
      assert Text(NoEmpty(e.cdevice)) == Text(e.cdevice) && Text(NoEmpty(e.bdevice)) == Text(e.bdevice);
      assert Text(NoEmpty(e.pathname)) == Text(e.pathname);
    }
  }

  lemma CanWriteSurvivor(e: Entry)
    requires Survives(e)
    ensures CanWrite(Normal(e)) && CanWrite(e)
  {
    PrintNormal(e);
    if e.Device? {
      AliasIsPlain(e.alias);
    }
  }

  /** The position of the device of that alias, or |es|. */
  function Index(es: seq<Entry>, alias: string): (k: nat)
    ensures k <= |es| && (k < |es| ==> es[k].Device? && es[k].alias == alias)
    ensures forall i :: 0 <= i < k ==> !(es[i].Device? && es[i].alias == alias)
  {
    if es == [] || (es[0].Device? && es[0].alias == alias) then 0 else 1 + Index(es[1..], alias)
  }

  lemma {:induction false} FindNumbered(es: seq<Entry>, n: nat, alias: string)
    ensures var k := Index(es, alias);
            Find(Number(es, n), alias) == if k < |es| then Some((n + k, Normal(es[k]))) else None
  {
    hide *;
    FindStep(Number(es, n), alias);
    IndexStep(es, alias);
    if es == [] {
      NumberNone(n);
    } else {
      NormalKind(es[0]);
      NumberStep(es, n);
      FindNumbered(es[1..], n + 1, alias);
    }
  }

  lemma NormalKind(e: Entry)
    ensures Normal(e).Device? <==> e.Device?
    ensures e.Device? ==> Normal(e).alias == e.alias
  {
  }

  lemma FindStep(recs: seq<Numbered>, alias: string)
    ensures Find(recs, alias) ==
            if recs == [] then None
            else if recs[0].1.Device? && recs[0].1.alias == alias then Some(recs[0])
            else Find(recs[1..], alias)
  {
  }

  lemma IndexStep(es: seq<Entry>, alias: string)
    ensures Index(es, alias) ==
            if es == [] || (es[0].Device? && es[0].alias == alias) then 0 else 1 + Index(es[1..], alias)
  {
  }

  lemma NumberNone(n: nat)
    ensures Number([], n) == []
  {
  }

  lemma NumberStep(es: seq<Entry>, n: nat)
    requires es != []
    ensures Number(es, n) != [] && Number(es, n)[0] == (n, Normal(es[0])) && Number(es, n)[1..] == Number(es[1..], n + 1)
  {
  }

  lemma {:induction false} CopyAll(es: seq<Entry>, n: nat, no: nat, changed: Option<Entry>)
    requires AllSurvive(es) && AllPrintable(es) && no < n && (changed.Some? ==> Printable(changed.value))
    ensures AllCanWrite(Number(es, n)) && PrintNumbered(Number(es, n), no, changed) == PrintAll(es)
  {
    hide Print, Survives, CanWrite, Normal;
    if es != [] {
      assert Survives(es[0]);
      CanWriteSurvivor(es[0]);
      NormalPrints(es[0]);
      CopyAll(es[1..], n + 1, no, changed);
      CanWriteStep(es, n);
    }
  }

  lemma NormalPrints(e: Entry)
    requires Survives(e)
    ensures Printable(e) && Printable(Normal(e)) && Print(Normal(e)) == Print(e)
  {
    PrintNormal(e);
  }

  lemma CanWriteStep(es: seq<Entry>, n: nat)
    requires es != [] && CanWrite(Normal(es[0])) && AllCanWrite(Number(es[1..], n + 1))
    ensures AllCanWrite(Number(es, n)) && Number(es, n) == [(n, Normal(es[0]))] + Number(es[1..], n + 1)
    ensures Number(es, n)[1..] == Number(es[1..], n + 1)
  {
  }

  /** The copy with record n + k replaced or left out. */
  lemma {:induction false} CopyBut(es: seq<Entry>, n: nat, k: nat, changed: Option<Entry>)
    requires AllSurvive(es) && k < |es| && (changed.Some? ==> Printable(changed.value))
    ensures AllPrintable(Replaced(es, k, changed)) && AllCanWrite(Number(es, n))
    ensures PrintNumbered(Number(es, n), n + k, changed) == PrintAll(Replaced(es, k, changed))
  {
    hide *;
    var rest := es[1..];
    SurvivorsFit(es);
    SurvivorsStep(es);
    CanWriteSurvivor(es[0]);
    NormalPrints(es[0]);
    ReplacedStep(es, k, changed);
    if k == 0 {
      CopyAll(rest, n + 1, n, changed);
      if changed.Some? {
        PrintAllStep(changed.value, rest);
      }
    } else {
      CopyBut(rest, n + 1, k - 1, changed);
      PrintAllStep(es[0], Replaced(rest, k - 1, changed));
    }
    CanWriteStep(es, n);
    PrintNumberedStep(Number(es, n), n + k, changed);
    assert k == 0 && changed.None? ==> "" + PrintAll(rest) == PrintAll(rest);
  }

  lemma SurvivorsStep(es: seq<Entry>)
    requires AllSurvive(es) && es != []
    ensures Survives(es[0]) && AllSurvive(es[1..]) && AllPrintable(es[1..])
  {
    SurvivorsFit(es[1..]);
  }

  lemma PrintAllStep(e: Entry, es: seq<Entry>)
    requires Printable(e) && AllPrintable(es)
    ensures AllPrintable([e] + es) && PrintAll([e] + es) == Print(e) + PrintAll(es)
  {
    hide Print, Printable;
    assert ([e] + es)[1..] == es;
  }

  lemma PrintNumberedStep(recs: seq<Numbered>, no: nat, changed: Option<Entry>)
    requires recs != [] && AllCanWrite(recs) && (changed.Some? ==> Printable(changed.value))
    ensures Printable(recs[0].1) && AllCanWrite(recs[1..])
    ensures PrintNumbered(recs, no, changed) ==
            (if recs[0].0 != no then Print(recs[0].1) else if changed.Some? then Print(changed.value) else "")
            + PrintNumbered(recs[1..], no, changed)
  {
    hide Print, Printable;
    assert recs[0] in recs;
    CanBePrinted(recs[0].1);
  }

  lemma CanBePrinted(e: Entry)
    requires CanWrite(e)
    ensures Printable(e)
  {
  }

  lemma ReplacedStep(es: seq<Entry>, k: nat, changed: Option<Entry>)
    requires k < |es|
    ensures Replaced(es, k, changed) ==
            if k == 0 then (if changed.Some? then [changed.value] + es[1..] else es[1..])
            else [es[0]] + Replaced(es[1..], k - 1, changed)
  {
  }

  function Replaced(es: seq<Entry>, k: nat, changed: Option<Entry>): seq<Entry>
    requires k < |es|
  {
    es[..k] + (if changed.Some? then [changed.value] else []) + es[k + 1..]
  }

  // ----- runs of operations

  /** The file is the text of these entries, all of which survive, and no alias occurs twice. */
  ghost predicate Kept(file: string, es: seq<Entry>) {
    AllSurvive(es) && AllPrintable(es) && AliasesDiffer(es) && file == PrintAll(es)
  }

  /** The record an operation writes, if any. */
  function Written(es: seq<Entry>, op: Operation): Option<Entry> {
    var k := Index(es, op.alias);
    match op
    case Add(alias, attrval) =>
      var made := TakeAll(Blank(alias), attrval);
      if ValidAlias(alias) && k == |es| && made.Made? then Some(made.entry) else None
    case Mod(alias, attrval) =>
      var made := TakeAll(Blank(alias), attrval);
      if k < |es| && made.Made? then Some(Modified(Normal(es[k]), made.entry)) else None
    case Rm(alias) => None
  }

  /** The entries after an operation. */
  function Apply(es: seq<Entry>, op: Operation): seq<Entry> {
    var k, w := Index(es, op.alias), Written(es, op);
    if op.Add? then (if w.Some? then es + [w.value] else es)
    else if k < |es| && (op.Rm? || w.Some?) then Replaced(es, k, w)
    else es
  }

  lemma {:induction false} PrintSnoc(es: seq<Entry>, e: Entry)
    requires AllPrintable(es) && Printable(e)
    ensures AllPrintable(es + [e]) && PrintAll(es + [e]) == PrintAll(es) + Print(e)
  {
    hide Print, Printable;
    if es == [] {
      assert es + [e] == [e];
    } else {
      PrintSnoc(es[1..], e);
      assert (es + [e])[1..] == es[1..] + [e];
      Rejoin(Print(es[0]), PrintAll(es[1..]), Print(e));
    }
  }

  lemma {:induction false} NoNul(es: seq<Entry>)
    requires AllSurvive(es) && AllPrintable(es)
    ensures '\0' !in PrintAll(es)
  {
    hide Print;
    if es != [] {
      assert Survives(es[0]);
      NoNul(es[1..]);
    }
  }

  /** A kept table is sane, and the search of the file is the search of the entries. */
  lemma KeptSane(file: string, es: seq<Entry>, alias: string)
    requires Kept(file, es)
    ensures Sane(file) && ReadNumbered(file, 0) == Number(es, 0)
    ensures var k := Index(es, alias);
            Find(ReadNumbered(file, 0), alias) == if k < |es| then Some((k, Normal(es[k]))) else None
  {
    hide *;
    KeptParts(file, es);
    SurvivorsFit(es);
    NoNul(es);
    NumberedBack(es, 0);
    SaneParts(file);
    FindNumbered(es, 0, alias);
    NumbersCanBeWritten(es);
  }

  lemma KeptParts(file: string, es: seq<Entry>)
    requires Kept(file, es)
    ensures AllSurvive(es) && AllPrintable(es) && file == PrintAll(es)
  {
  }

  lemma SaneParts(file: string)
    ensures Sane(file) <==> '\0' !in file && AllCanWrite(ReadNumbered(file, 0))
  {
  }

  lemma NumbersCanBeWritten(es: seq<Entry>)
    requires AllSurvive(es)
    ensures AllCanWrite(Number(es, 0))
  {
    hide Survives, CanWrite, Normal;
    if es != [] {
      CopyBut(es, 0, 0, None);
    }
  }

  /** Replacing or adding a record that survives keeps all that the table promises. */
  lemma ReplacedKeeps(es: seq<Entry>, k: nat, w: Option<Entry>)
    requires AllSurvive(es) && AliasesDiffer(es) && k < |es| && es[k].Device?
    requires w.Some? ==> Survives(w.value) && w.value.Device? && w.value.alias == es[k].alias
    ensures AllSurvive(Replaced(es, k, w)) && AliasesDiffer(Replaced(es, k, w))
  {
    hide Survives;
    var r := Replaced(es, k, w);
    if w.Some? {
      assert forall i :: 0 <= i < |r| ==> r[i] == if i == k then w.value else es[i];
    } else {
      assert forall i :: 0 <= i < |r| ==> r[i] == es[if i < k then i else i + 1];
    }
  }

  /**
   Each operation does to the file what it should do to the entries, provided the
   record it writes, if any, survives; all other records come back as they were.
   */
  lemma EffectKept(file: string, es: seq<Entry>, op: Operation)
    requires Kept(file, es) && (op.Add? || ValidAlias(op.alias))
    requires Written(es, op).Some? ==> Survives(Written(es, op).value)
    ensures Sane(file) && Kept(Effect(file, op).1, Apply(es, op))
    ensures Effect(file, op).0 <==> Written(es, op).Some? || (op.Rm? && Index(es, op.alias) < |es|)
  {
    KeptSane(file, es, op.alias);
    hide Survives, Kept, Index, Find, ReadNumbered, Number, Print, AllCanWrite, TakeAll, Modified, Normal;
    if op.Add? {
      if Written(es, op).Some? {
        AddKept(file, es, Written(es, op).value);
      }
    } else if Index(es, op.alias) < |es| && (op.Rm? || Written(es, op).Some?) {
      NormalKind(es[Index(es, op.alias)]);
      ReplaceKept(file, es, Index(es, op.alias), Written(es, op));
    }
  }

  /**
   Whatever record an operation writes, the file is the text of the entries it should
   leave, and they are read back exactly when that record has good names and fits.
   */
  lemma EffectReadBack(file: string, es: seq<Entry>, op: Operation)
    requires Kept(file, es) && (op.Add? || ValidAlias(op.alias))
    ensures Sane(file) && AllPrintable(Apply(es, op)) && Effect(file, op).1 == PrintAll(Apply(es, op))
    ensures var w := Written(es, op);
            ReadAll(Effect(file, op).1) == NormalAll(Apply(es, op)) <==>
            w.Some? ==> Writable(w.value) && Printable(w.value) && Fits(w.value)
  {
    hide Survives, Index, Find, ReadNumbered, Number, Print, AllCanWrite, TakeAll, Modified, Normal, Framed, Writable, Fits,
      AliasesDiffer, AllSurvive, ReadAll, NormalAll, PrintAll, AllFramed, AllWritable, AllFit, AllPrintable;
    KeptSane(file, es, op.alias);
    KeptParts(file, es);
    var k, w := Index(es, op.alias), Written(es, op);
    SurvivorsFit(es);
    if w.Some? {
      WrittenFramed(es, op);
      if op.Add? {
        NoneSurvive();
        WithRecord(es, [], w.value);
        PrintSnoc(es, w.value);
        assert es + [w.value] + [] == es + [w.value];
        ReadBack(es + [w.value]);
      } else {
        CopyBut(es, 0, k, w);
        SurvivorParts(es, k);
        WithRecord(es[..k], es[k + 1..], w.value);
        ReadBack(Replaced(es, k, w));
      }
    } else if op.Rm? && k < |es| {
      CopyBut(es, 0, k, w);
      SurvivorParts(es, k);
      assert es[..k] + [] + es[k + 1..] == es[..k] + es[k + 1..];
      JoinSurvivors(es[..k], es[k + 1..]);
      SurvivorsFit(Replaced(es, k, w));
      ReadBack(Replaced(es, k, w));
    } else {
      ReadBack(es);
    }
  }

  lemma SurvivorParts(es: seq<Entry>, k: nat)
    requires AllSurvive(es) && k < |es|
    ensures AllSurvive(es[..k]) && AllSurvive(es[k + 1..])
  {
    hide Survives;
  }

  lemma NoneSurvive()
    ensures AllSurvive([])
  {
  }

  lemma JoinSurvivors(a: seq<Entry>, b: seq<Entry>)
    requires AllSurvive(a) && AllSurvive(b)
    ensures AllSurvive(a + b)
  {
    hide Survives;
  }

  /** The record an operation writes has a valid alias. */
  lemma WrittenFramed(es: seq<Entry>, op: Operation)
    requires Written(es, op).Some? && (op.Add? || ValidAlias(op.alias))
    ensures var w := Written(es, op).value; w.Device? && Framed(w) && Printable(w)
  {
    hide Index, ValidAlias;
    if op.Mod? {
      NormalKind(es[Index(es, op.alias)]);
    }
  }

  /** One record among others that survive. */
  lemma WithRecord(a: seq<Entry>, b: seq<Entry>, w: Entry)
    requires AllSurvive(a) && AllSurvive(b) && Framed(w) && Printable(w)
    ensures var es := a + [w] + b;
            && AllFramed(es) && AllPrintable(es)
            && (AllFit(es) && AllWritable(es) <==> Fits(w) && Writable(w))
  {
    hide Framed, Fits;
    SurvivorsFit(a);
    SurvivorsFit(b);
    var es := a + [w] + b;
    assert es[|a|] == w;
    forall i | 0 <= i < |es|
      ensures Framed(es[i]) && Printable(es[i]) && (i != |a| ==> Fits(es[i]) && Writable(es[i]))
    {
      assert i < |a| ==> es[i] == a[i];
      assert i > |a| ==> es[i] == b[i - |a| - 1];
    }
  }

  /** A record that does not fit ends the table for the reader; the next rewriting drops all behind it. */
  lemma {:induction false} OverlongEnds(a: seq<Entry>, w: Entry, b: seq<Entry>, n: nat)
    requires AllSurvive(a) && Framed(w) && Printable(w) && !Fits(w) && AllPrintable(b)
    ensures AllPrintable(a + [w] + b) && ReadNumbered(PrintAll(a + [w] + b), n) == Number(a, n)
    decreases |a|
  {
    hide Framed, Print, ParseRecord, Printable, RecordEnd, Normal, Survives;
    if a == [] {
      assert a + [w] + b == [w] + b;
      FirstRead(w, b);
      NumberedFirst(w, b, n);
    } else {
      var rest := a[1..] + [w] + b;
      assert a + [w] + b == [a[0]] + rest;
      SurvivorsStep(a);
      OverlongEnds(a[1..], w, b, n + 1);
      SurvivorIs(a[0]);
      FirstRead(a[0], rest);
      RecordRead(a[0]);
      NumberedFirst(a[0], rest, n);
    }
  }

  lemma SurvivorIs(e: Entry)
    requires Survives(e)
    ensures Framed(e) && Writable(e) && Printable(e) && Fits(e)
  {
  }

  lemma NumberedFirst(e: Entry, rest: seq<Entry>, n: nat)
    requires Framed(e) && Printable(e) && AllPrintable(rest)
    ensures var file := Print(e) + PrintAll(rest);
            && (!Fits(e) ==> ReadNumbered(file, n) == [])
            && (Fits(e) && ParseRecord(Print(e)).Some? ==>
                ReadNumbered(file, n) == [(n, ParseRecord(Print(e)).value)] + ReadNumbered(PrintAll(rest), n + 1))
  {
    hide Framed, Print, ParseRecord, Printable, RecordEnd;
    RecordFramed(e, PrintAll(rest));
    var file := Print(e) + PrintAll(rest);
    assert file[..|Print(e)|] == Print(e) && file[|Print(e)|..] == PrintAll(rest);
  }

  lemma AddKept(file: string, es: seq<Entry>, e: Entry)
    requires Kept(file, es) && Survives(e) && e.Device? && Index(es, e.alias) == |es|
    ensures Printable(e) && Kept(file + Print(e), es + [e])
  {
    hide Survives, Print, Index, AliasesDiffer, AllSurvive;
    WrittenPrintable(Some(e));
    PrintSnoc(es, e);
    AddedKeeps(es, e);
  }

  lemma ReplaceKept(file: string, es: seq<Entry>, k: nat, w: Option<Entry>)
    requires Kept(file, es) && k < |es| && es[k].Device?
    requires w.Some? ==> Survives(w.value) && w.value.Device? && w.value.alias == es[k].alias
    ensures (w.Some? ==> Printable(w.value)) && AllCanWrite(Number(es, 0))
    ensures Kept(PrintNumbered(Number(es, 0), k, w), Replaced(es, k, w))
  {
    hide Survives, Print, Number, PrintNumbered, Replaced, AliasesDiffer, AllSurvive, AllCanWrite, Normal;
    WrittenPrintable(w);
    ReplacedKeeps(es, k, w);
    CopyBut(es, 0, k, w);
  }

  lemma WrittenPrintable(w: Option<Entry>)
    requires w.Some? ==> Survives(w.value)
    ensures w.Some? ==> Printable(w.value)
  {
  }

  lemma AddedKeeps(es: seq<Entry>, e: Entry)
    requires AllSurvive(es) && AliasesDiffer(es) && Survives(e) && e.Device? && Index(es, e.alias) == |es|
    ensures AllSurvive(es + [e]) && AliasesDiffer(es + [e])
  {
    hide Survives;
    assert forall i :: 0 <= i < |es| ==> (es + [e])[i] == es[i];
  }

  /** A run of operations on the file, and on the entries. */
  function RunEntries(es: seq<Entry>, ops: seq<Operation>): seq<Entry>
    decreases |ops|
  {
    if ops == [] then es else RunEntries(Apply(es, ops[0]), ops[1..])
  }

  ghost predicate RunFile(file: string, ops: seq<Operation>, end: string)
    decreases |ops|
  {
    if ops == [] then file == end
    else Sane(file) && (ops[0].Add? || ValidAlias(ops[0].alias)) && RunFile(Effect(file, ops[0]).1, ops[1..], end)
  }

  /** Every record written on the way survives. */
  ghost predicate AllWrittenSurvive(es: seq<Entry>, ops: seq<Operation>)
    decreases |ops|
  {
    ops == [] ||
    ((Written(es, ops[0]).Some? ==> Survives(Written(es, ops[0]).value)) && AllWrittenSurvive(Apply(es, ops[0]), ops[1..]))
  }

  /** After any run from a kept table, reading the file gives the entries of the run. */
  lemma {:induction false} RunKept(file: string, es: seq<Entry>, ops: seq<Operation>, end: string)
    requires Kept(file, es) && RunFile(file, ops, end) && AllWrittenSurvive(es, ops)
    ensures Kept(end, RunEntries(es, ops)) && ReadAll(end) == NormalAll(RunEntries(es, ops))
    decreases |ops|
  {
    hide Kept, Apply, Effect, Written, Survives;
    if ops == [] {
      KeptReads(file, es);
    } else {
      EffectKept(file, es, ops[0]);
      RunKept(Effect(file, ops[0]).1, Apply(es, ops[0]), ops[1..], end);
    }
  }

  lemma KeptReads(file: string, es: seq<Entry>)
    requires Kept(file, es)
    ensures ReadAll(file) == NormalAll(es)
  {
    SurvivorsFit(es);
    ReadBack(es);
  }

  /** A modified record has good names when the old ones and the added ones are good. */
  lemma ModifiedWritable(e: Entry, c: Entry)
    requires e.Device? && c.Device? && Writable(e) && GoodNames(c.attrs)
    ensures Writable(Modified(e, c))
  {
    MergedGood(e.attrs, c.attrs);
  }

  lemma {:induction false} MergedGood(attrs: seq<Attribute>, changes: seq<Attribute>)
    requires GoodNames(attrs) && GoodNames(changes)
    ensures GoodNames(Merged(attrs, changes))
    decreases |changes|
  {
    hide GoodName;
    if attrs != [] && changes != [] {
      var a := changes[0];
      MergeOneMeaning(attrs, a);
      if a.name in Names(attrs) {
        OverrideMeaning(attrs, a);
      }
      MergedGood(MergeOne(attrs, a), changes[1..]);
    }
  }
}
