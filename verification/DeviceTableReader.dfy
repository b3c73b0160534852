/**
 The reader of the device table: `getnextrec` frames a record in a growing buffer,
 `getfld` and its callers take it apart in place.  A position of -1 is a null
 pointer; the stream is the file's text and a position in it.
 */
module DeviceTableReader {
  import opened Prelude
  import opened DeviceTable

  /** The entries with their record numbers, the first record being number n. */
  function ReadNumbered(file: string, n: nat): seq<(nat, Entry)>
    decreases |file|
  {
    match NextRecord(file)
    case None => []
    case Some(k) =>
      (match ParseRecord(file[..k]) case None => [] case Some(e) => [(n, e)]) + ReadNumbered(file[k..], n + 1)
  }

  /** The first record of the rest of the file, and what follows it. */
  lemma NumberedFrom(file: string, pos: nat, n: nat)
    requires pos <= |file|
    ensures var rest := ReadNumbered(file[pos..], n);
            match NextRecord(file[pos..])
            case None => rest == []
            case Some(k) =>
              var behind := ReadNumbered(file[pos + k..], n + 1);
              match ParseRecord(file[pos..pos + k])
              case None => rest == behind
              case Some(e) => rest == [(n, e)] + behind
  {
    hide NextRecord, ParseRecord;
    var rest := file[pos..];
    if NextRecord(rest).Some? {
      var k := NextRecord(rest).value;
      assert rest[..k] == file[pos..pos + k] && rest[k..] == file[pos + k..];
      assert [] + ReadNumbered(rest[k..], n + 1) == ReadNumbered(rest[k..], n + 1);
    }
  }

  lemma OntoOnto(a: string, b: string, r: Option<(string, string)>)
    ensures Onto(a, Onto(b, r)) == Onto(a + b, r)
  {
    if r.Some? {
      Rejoin(a, b, r.value.0);
    }
  }

  /** The split of s seen from position i. */
  function SplitFrom(s: string, i: nat, delims: set<char>): Option<(string, string)>
    requires i <= |s|
  {
    Onto(s[..i], Split(s[i..], delims))
  }

  /** One step of the scan in `getfld`. */
  lemma ScanOn(s: string, i: nat, delims: set<char>)
    requires i < |s| && '\\' !in delims
    ensures s[i] == '\\' && i + 1 < |s| ==> SplitFrom(s, i, delims) == SplitFrom(s, i + 2, delims)
    ensures s[i] == '\\' && i + 1 == |s| ==> SplitFrom(s, i, delims) == SplitFrom(s, i + 1, delims)
    ensures s[i] != '\\' && s[i] !in delims ==> SplitFrom(s, i, delims) == SplitFrom(s, i + 1, delims)
    ensures s[i] in delims ==> SplitFrom(s, i, delims) == Some((s[..i], s[i + 1..]))
  {
    var t := s[i..];
    assert t[1..] == s[i + 1..] && [t[0]] == s[i..i + 1];
    OntoOnto(s[..i], s[i..i + 1], Split(s[i + 1..], delims));
    assert s[..i] + s[i..i + 1] == s[..i + 1];
    assert s[..i] + "" == s[..i];
    if i + 1 < |s| {
      assert t[2..] == s[i + 2..] && t[..2] == s[i..i + 2];
      OntoOnto(s[..i], s[i..i + 2], Split(s[i + 2..], delims));
      assert s[..i] + s[i..i + 2] == s[..i + 2];
    }
  }

  lemma SplitEnds(s: string, delims: set<char>)
    ensures Split(s, delims) == SplitFrom(s, 0, delims)
    ensures SplitFrom(s, |s|, delims).None?
  {
    assert s[0..] == s;
    if Split(s, delims).Some? {
      assert s[..0] + Split(s, delims).value.0 == Split(s, delims).value.0;
    }
  }

  lemma UnescapeOn(s: string, i: nat, out: string)
    requires i < |s|
    ensures s[i] == '\\' && i + 1 < |s| ==> out + Unescape(s[i..]) == out + [s[i + 1]] + Unescape(s[i + 2..])
    ensures s[i] == '\\' && i + 1 == |s| ==> Unescape(s[i..]) == ""
    ensures s[i] != '\\' ==> out + Unescape(s[i..]) == out + [s[i]] + Unescape(s[i + 1..])
  {
    var t := s[i..];
    assert t[1..] == s[i + 1..];
    if s[i] != '\\' {
      Rejoin(out, [s[i]], Unescape(s[i + 1..]));
    } else if i + 1 < |s| {
      assert t[2..] == s[i + 2..];
      Rejoin(out, [s[i + 1]], Unescape(s[i + 2..]));
    }
  }

  class Reader {
    var file: string
    var pos: nat
    var recbuf: array?<char>
    var xtndcnt: nat
    var leftoff: int
    var dtabrecnum: nat

    constructor (table: string)
      requires '\0' !in table
      ensures Valid() && file == table && pos == 0 && dtabrecnum == 0 && recbuf == null
    {
      file, pos, recbuf, xtndcnt, leftoff, dtabrecnum := table, 0, null, 0, -1, 0;
    }

    ghost predicate Valid()
      reads this
    {
      && '\0' !in file && pos <= |file|
      && (recbuf != null ==> recbuf.Length == BUFSIZ + xtndcnt * BUFINC && xtndcnt <= MAXCNT)
    }

    ghost function Buffers(): set<object>
      reads this
    {
      if recbuf == null then {} else {recbuf}
    }

    /** The buffer holds the NUL-terminated string s at p. */
    ghost predicate Holds(p: int, s: string)
      reads this`recbuf, recbuf
    {
      && recbuf != null && 0 <= p && p + |s| < recbuf.Length
      && recbuf[p..p + |s|] == s && recbuf[p + |s|] == '\0' && '\0' !in s
    }

    // ----- taking a record apart

    /** The character at offset i of the string at p, the NUL included. */
    lemma CharOf(p: int, s: string, i: nat)
      requires Holds(p, s) && i <= |s|
      ensures if i < |s| then recbuf[p + i] == s[i] != '\0' else recbuf[p + i] == '\0'
    {
      if i < |s| {
        assert recbuf[p + i] == recbuf[p..p + |s|][i] && s[i] in s;
      }
    }

    /** The search of `getfld`: the delimiter that ends the token, or the final NUL. */
    method FindDelimiter(p: nat, delims: set<char>, ghost s: string) returns (q: nat)
      requires '\\' !in delims && Holds(p, s)
      ensures p <= q <= p + |s|
      ensures Split(s, delims) == if q < p + |s| then Some((s[..q - p], s[q - p + 1..])) else None
    {
      hide Split, SplitFrom, Holds;
      q := p;
      var done := false;
      SplitEnds(s, delims);
      CharOf(p, s, 0);
      InBuffer(p, s);
      while recbuf[q] != '\0' && !done
        invariant p <= q <= p + |s|
        invariant done ==> q < p + |s| && s[q - p] in delims
        invariant Split(s, delims) == SplitFrom(s, q - p, delims)
        decreases p + |s| - q, !done
      {
        CharOf(p, s, q - p);
        ScanOn(s, q - p, delims);
        if recbuf[q] == '\\' {
          q := q + 1;
          CharOf(p, s, q - p);
          if recbuf[q] != '\0' {
            q := q + 1;
          }
        } else if recbuf[q] !in delims {
          q := q + 1;
        } else {
          done := true;
        }
      }
      CharOf(p, s, q - p);
      if q < p + |s| {
        ScanOn(s, q - p, delims);
      }
    }

    lemma InBuffer(p: int, s: string)
      requires Holds(p, s)
      ensures recbuf != null && 0 <= p && p + |s| < recbuf.Length
    {
    }

    /** `getfld`. */
    method GetField(ptr: int, delims: set<char>, ghost s: string) returns (p: int)
      requires '\\' !in delims && recbuf != null && Holds(if ptr >= 0 then ptr else leftoff, s)
      modifies this`leftoff, recbuf
      ensures match Split(s, delims)
              case None => p == -1 && leftoff == -1
              case Some(t) =>
                && p == (if ptr >= 0 then ptr else old(leftoff)) && leftoff == p + |t.0| + 1
                && Holds(p, t.0) && Holds(leftoff, t.1)
    {
      hide Split;
      p := if ptr >= 0 then ptr else leftoff;
      var q := FindDelimiter(p, delims, s);
      CharOf(p, s, q - p);
      ghost var was := recbuf[..];
      if recbuf[q] != '\0' {
        assert was[p..p + |s|] == s;
        recbuf[q] := '\0';
        leftoff := q + 1;
        CutAt(recbuf[..], was, p, q, s);
      } else {
        leftoff, p := -1, -1;
      }
    }

    lemma CutAt(now: seq<char>, was: seq<char>, p: nat, q: nat, s: string)
      requires p <= q < p + |s| < |was| == |now| && was[p..p + |s|] == s && now == was[q := '\0']
      ensures now[p..q] == s[..q - p] && now[q + 1..p + |s|] == s[q - p + 1..]
    {
      assert was[p..q] == was[p..p + |s|][..q - p] && was[q + 1..p + |s|] == was[p..p + |s|][q - p + 1..];
    }

    /** Copying a token out of the buffer without its escapes. */
    method CopyUnescaped(p0: nat, ghost s: string) returns (out: string)
      requires Holds(p0, s)
      ensures out == Unescape(s)
    {
      hide Unescape, Holds;
      out := "";
      var p := p0;
      InBuffer(p0, s);
      assert s[0..] == s;
      UnescapeNone();
      while true
        invariant p0 <= p <= p0 + |s|
        invariant out + Unescape(s[p - p0..]) == Unescape(s)
        decreases p0 + |s| - p
      {
        CharOf(p0, s, p - p0);
        if p < p0 + |s| {
          UnescapeOn(s, p - p0, out);
        }
        if recbuf[p] == '\\' {
          p := p + 1;
          CharOf(p0, s, p - p0);
        }
        var c := recbuf[p];
        if c == '\0' {
          break;
        }
        out := out + [c];
        p := p + 1;
      }
    }

    /** `getquoted` from where the last token ended. */
    method GetQuoted(ghost s: string) returns (r: Option<string>)
      requires recbuf != null && Holds(leftoff, s)
      modifies this`leftoff, recbuf
      ensures match Quoted(s)
              case None => r.None? && leftoff == -1
              case Some(p) => r == Some(p.0) && Holds(leftoff, p.1)
    {
      hide Split, Unescape;
      CharOf(leftoff, s, 0);
      var p := leftoff;
      if recbuf[p] != '"' {
        leftoff := -1;
        return None;
      }
      assert recbuf[p + 1..p + 1 + |s[1..]|] == s[1..];
      p := GetField(p + 1, {'"'}, s[1..]);
      if p < 0 {
        return None;
      }
      var out := CopyUnescaped(p, Split(s[1..], {'"'}).value.0);
      r := Some(out);
    }

    /** `getattrval` from where the last token ended. */
    method GetAttrVal(ghost s: string) returns (r: Option<Attribute>)
      requires recbuf != null && Holds(leftoff, s)
      modifies this`leftoff, recbuf
      ensures match ParseAttr(s)
              case None => r.None? && leftoff == -1
              case Some(p) => r == Some(p.0) && Holds(leftoff, p.1)
    {
      hide Split, Unescape, Quoted;
      var p := EatBlanks(leftoff, s);
      ghost var t := SkipBlanks(s);
      CharOf(p, t, 0);
      if recbuf[p] == '\0' {
        leftoff := -1;
        return None;
      }
      p := GetField(p, {'='}, t);
      if p < 0 {
        return None;
      }
      var name := CopyUnescaped(p, Split(t, {'='}).value.0);
      var val := GetQuoted(Split(t, {'='}).value.1);
      r := if val.None? then None else Some(Attribute(name, val.value));
    }

    method EatBlanks(p0: nat, ghost s: string) returns (p: nat)
      requires Holds(p0, s)
      ensures Holds(p, SkipBlanks(s))
    {
      p := p0;
      ghost var t := s;
      CharOf(p, t, 0);
      while recbuf[p] != '\0' && IsSpace(recbuf[p])
        invariant Holds(p, t) && SkipBlanks(t) == SkipBlanks(s)
        decreases |t|
      {
        CharOf(p, t, 0);
        assert recbuf[p + 1..p + 1 + |t[1..]|] == t[1..];
        t := t[1..];
        p := p + 1;
      }
      CharOf(p, t, 0);
    }

    // ----- framing a record

    /** `fgets(recbuf + from, n, stream)`: at most n - 1 characters, through the first newline. */
    method Fgets(from: nat, n: nat) returns (ok: bool)
      requires Valid() && recbuf != null && n >= 2 && from + n <= recbuf.Length
      modifies this`pos, recbuf
      ensures Valid() && recbuf[..from] == old(recbuf[..from]) && (ok <==> old(pos) < |file|) && (!ok ==> pos == old(pos))
      ensures ok ==> old(pos) < pos <= |file| && pos - old(pos) <= n - 1
      ensures ok ==> '\n' !in file[old(pos)..pos - 1]
      ensures ok ==> pos - old(pos) == n - 1 || file[pos - 1] == '\n' || pos == |file|
      ensures ok ==> recbuf[from..from + (pos - old(pos))] == file[old(pos)..pos] && recbuf[from + (pos - old(pos))] == '\0'
    {
      ghost var start := pos;
      if pos == |file| {
        return false;
      }
      var k := 0;
      while k < n - 1 && pos < |file| && (k == 0 || file[pos - 1] != '\n')
        invariant k <= n - 1 && pos == start + k <= |file| && recbuf[..from] == old(recbuf[..from])
        invariant recbuf[from..from + k] == file[start..pos]
        invariant forall j :: start <= j < pos - 1 ==> file[j] != '\n'
        decreases n - k
      {
        recbuf[from + k] := file[pos];
        assert recbuf[from..from + k + 1] == recbuf[from..from + k] + [file[pos]];
        k := k + 1;
        pos := pos + 1;
      }
      recbuf[from + k] := '\0';
      ok := true;
    }

    /** `strlen(recbuf)`. */
    method StrLen(ghost s: string) returns (n: nat)
      requires Holds(0, s)
      ensures n == |s|
    {
      n := 0;
      CharOf(0, s, 0);
      while recbuf[n] != '\0'
        invariant n <= |s|
        decreases |s| - n
      {
        CharOf(0, s, n);
        n := n + 1;
        CharOf(0, s, n);
      }
      CharOf(0, s, n);
    }

    /** `realloc` of the record buffer. */
    method Extend(ghost s: string)
      requires Valid() && Holds(0, s) && xtndcnt < MAXCNT
      modifies this`recbuf, this`xtndcnt
      ensures Valid() && Holds(0, s) && fresh(recbuf) && recbuf.Length == old(recbuf.Length) + BUFINC
    {
      var p := new char[recbuf.Length + BUFINC];
      forall i | 0 <= i < recbuf.Length {
        p[i] := recbuf[i];
      }
      assert p[..|s|] == recbuf[..|s|] == s;
      xtndcnt := xtndcnt + 1;
      recbuf := p;
    }

    /** Whether the record in the buffer ends with a newline that is not escaped. */
    method IsComplete(reclen: nat, ghost s: string) returns (done: bool)
      requires Holds(0, s) && reclen == |s| > 0
      ensures done <==> Complete(s)
    {
      CharOf(0, s, reclen - 1);
      if reclen > 1 {
        CharOf(0, s, reclen - 2);
      }
      done := recbuf[reclen - 1] == '\n' && (reclen == 1 || recbuf[reclen - 2] != '\\');
    }

    /** The record that starts at `start` is being read: reclen characters of it are in the buffer. */
    ghost predicate Reading(start: nat, reclen: nat)
      reads this, Buffers()
    {
      && Valid() && start < pos && reclen == pos - start && Holds(0, file[start..pos])
      && RecordEnd(file[start..], 0) == RecordEnd(file[start..], reclen - 1)
    }

    /** Another `fgets` behind the reclen characters already in the buffer. */
    method ReadMore(reclen: nat, ghost start: nat) returns (ok: bool, len: nat)
      requires Valid() && start <= pos && recbuf != null && reclen + 2 <= recbuf.Length
      requires pos == start + reclen && recbuf[..reclen] == file[start..pos]
      requires RecordEnd(file[start..], 0) == RecordEnd(file[start..], reclen)
      modifies this`pos, recbuf
      ensures Valid()
      ensures if ok then old(pos) < pos && Reading(start, len) else pos == old(pos) && NextRecord(file[start..]).None?
    {
      hide RecordEnd, NextRecord;
      ghost var before := pos;
      ok := Fgets(reclen, recbuf.Length - reclen);
      len := reclen;
      if ok {
        ghost var s := file[start..pos];
        ReadBehind(recbuf[..], file, start, before, pos);
        assert recbuf[..|s|] == recbuf[..][..|s|];
        SkipTo(file[start..], reclen, |s| - 1);
        len := StrLen(s);
      } else {
        NothingMore(file[start..]);
      }
    }

    /** The check at the end of every read: the record is complete, or its end is further on. */
    method CheckComplete(reclen: nat, ghost start: nat) returns (done: bool)
      requires recbuf != null && Reading(start, reclen)
      ensures done ==> NextRecord(file[start..]) == Some(reclen)
      ensures !done ==> RecordEnd(file[start..], 0) == RecordEnd(file[start..], reclen)
    {
      hide RecordEnd, Complete;
      ghost var s := file[start..pos];
      assert s == file[start..][..reclen];
      EndsHere(file[start..], reclen - 1);
      done := IsComplete(reclen, s);
    }

    /** A full buffer is extended, as long as it may be. */
    method MakeRoom(reclen: nat, ghost start: nat) returns (ok: bool)
      requires recbuf != null && Reading(start, reclen)
      requires RecordEnd(file[start..], 0) == RecordEnd(file[start..], reclen)
      modifies this`recbuf, this`xtndcnt
      ensures Valid() && recbuf != null && (recbuf == old(recbuf) || fresh(recbuf))
      ensures if ok then reclen + 2 <= recbuf.Length && recbuf[..reclen] == file[start..pos] else NextRecord(file[start..]).None?
    {
      hide RecordEnd;
      ok := true;
      if reclen == recbuf.Length - 1 {
        if xtndcnt < MAXCNT {
          Extend(file[start..pos]);
        } else {
          ok := false;
        }
      }
    }

    /** `getnextrec`: the next record is at the start of the buffer, NUL-terminated. */
    method GetNextRec() returns (ok: bool)
      requires Valid()
      modifies this`pos, this`recbuf, this`xtndcnt, Buffers()
      ensures Valid() && old(pos) <= pos && (recbuf == old(recbuf) || fresh(recbuf))
      ensures match NextRecord(file[old(pos)..])
              case None => !ok
              case Some(n) => ok && pos == old(pos) + n && Holds(0, file[old(pos)..pos])
    {
      hide RecordEnd, NextRecord, Holds;
      if recbuf == null {
        recbuf := new char[BUFSIZ];
        xtndcnt := 0;
      }
      ghost var start := pos;
      var reclen;
      ok, reclen := ReadMore(0, start);
      while ok
        invariant Valid() && recbuf != null && (recbuf == old(recbuf) || fresh(recbuf)) && start <= pos
        invariant if ok then Reading(start, reclen) else NextRecord(file[start..]).None?
        decreases if ok then |file| - pos + 1 else 0
      {
        var done := CheckComplete(reclen, start);
        if done {
          return;
        }
        ok := MakeRoom(reclen, start);
        if ok {
          ok, reclen := ReadMore(reclen, start);
        }
      }
    }

    // ----- an entry

    method CopyField(p: nat, ghost s: string) returns (r: Option<string>)
      requires Holds(p, s)
      ensures r == Field(s)
    {
      hide Unescape;
      CharOf(p, s, 0);
      r := None;
      if recbuf[p] != '\0' {
        var t := CopyUnescaped(p, s);
        r := Some(t);
      }
    }

    /** All attributes from where the last token ended. */
    method GetAttrs(ghost s: string) returns (attrs: seq<Attribute>)
      requires recbuf != null && Holds(leftoff, s)
      modifies this`leftoff, recbuf
      ensures attrs == ParseAttrs(s)
    {
      hide ParseAttr, Holds;
      attrs := [];
      ghost var t := s;
      var a := GetAttrVal(t);
      while a.Some?
        invariant a.Some? ==> ParseAttr(t).Some? && a.value == ParseAttr(t).value.0 && Holds(leftoff, ParseAttr(t).value.1)
        invariant a.None? ==> ParseAttr(t).None?
        invariant attrs + ParseAttrs(t) == ParseAttrs(s)
        decreases |t|, a.Some?
      {
        ghost var next := ParseAttr(t).value.1;
        assert attrs + ParseAttrs(t) == attrs + [a.value] + ParseAttrs(next);
        attrs := attrs + [a.value];
        t := next;
        a := GetAttrVal(t);
      }
      assert attrs + [] == attrs;
    }

    /** A data record at the start of the buffer. */
    method GetDevice(ghost s: string) returns (ent: Option<Entry>)
      requires recbuf != null && Holds(0, s) && !Commented(s)
      modifies this`leftoff, recbuf
      ensures ent == ParseRecord(s)
    {
      hide Split, Holds, Unescape, Field, ParseAttrs, Commented;
      var p := GetField(0, {':'}, s);
      if p < 0 {
        return None;
      }
      ghost var t := Split(s, {':'}).value;
      var alias := CopyUnescaped(p, t.0);
      p := GetField(-1, {':'}, t.1);
      if p < 0 {
        return None;
      }
      t := Split(t.1, {':'}).value;
      var cdevice := CopyField(p, t.0);
      p := GetField(-1, {':'}, t.1);
      if p < 0 {
        return None;
      }
      t := Split(t.1, {':'}).value;
      var bdevice := CopyField(p, t.0);
      p := GetField(-1, {':', '\n'}, t.1);
      if p < 0 {
        return None;
      }
      t := Split(t.1, {':', '\n'}).value;
      var pathname := CopyField(p, t.0);
      var attrs := GetAttrs(t.1);
      ent := Some(Device(alias, cdevice, bdevice, pathname, attrs));
    }

    /** The record at the start of the buffer. */
    method GetRecord(ghost s: string) returns (ent: Option<Entry>)
      requires recbuf != null && Holds(0, s) && s != ""
      modifies this`leftoff, recbuf
      ensures ent == ParseRecord(s)
    {
      hide Unescape, Holds;
      CharOf(0, s, 0);
      InBuffer(0, s);
      if recbuf[0] in {'#', '\n'} || IsSpace(recbuf[0]) {
        var text := CopyUnescaped(0, s);
        ent := Some(Comment(text));
      } else {
        ent := GetDevice(s);
      }
    }

    /** `_getdevtabent`: the next entry with its record number; records that are no entries are skipped. */
    method GetDevTabEnt() returns (ent: Option<Entry>, entryno: nat)
      requires Valid()
      modifies this`pos, this`recbuf, this`xtndcnt, this`leftoff, this`dtabrecnum, Buffers()
      ensures Valid() && old(pos) <= pos && (recbuf == old(recbuf) || fresh(recbuf))
      ensures var rest := ReadNumbered(file[old(pos)..], old(dtabrecnum));
              match ent
              case None => rest == []
              case Some(e) => old(pos) < pos && rest == [(entryno, e)] + ReadNumbered(file[pos..], dtabrecnum)
    {
      hide NextRecord, ParseRecord, Holds, ReadNumbered;
      ent := None;
      entryno := 0;
      ghost var start, num := pos, dtabrecnum;
      ghost var whole := ReadNumbered(file[pos..], dtabrecnum);
      while true
        invariant Valid() && start <= pos && (recbuf == old(recbuf) || fresh(recbuf)) && ent.None?
        invariant ReadNumbered(file[pos..], dtabrecnum) == whole
        decreases |file| - pos
      {
        ghost var before := pos;
        NumberedFrom(file, pos, dtabrecnum);
        var ok := GetNextRec();
        if !ok {
          return;
        }
        ghost var s := file[before..pos];
        InBuffer(0, s);
        entryno := dtabrecnum;
        dtabrecnum := dtabrecnum + 1;
        ent := GetRecord(s);
        if ent.Some? {
          return;
        }
      }
    }
  }

  /** A record ends with a newline that is not escaped. */
  predicate Complete(s: string) {
    s != "" && s[|s| - 1] == '\n' && (|s| == 1 || s[|s| - 2] != '\\')
  }

  lemma EndsHere(s: string, i: nat)
    requires i < |s|
    ensures RecordEnd(s, i) == if Complete(s[..i + 1]) then i + 1 else RecordEnd(s, i + 1)
  {
  }

  lemma {:induction false} SkipTo(s: string, i: nat, j: nat)
    requires i <= j <= |s| && '\n' !in s[i..j]
    ensures RecordEnd(s, i) == RecordEnd(s, j)
    decreases j - i
  {
    if i < j {
      assert s[i] == s[i..j][0] && s[i + 1..j] == s[i..j][1..];
      SkipTo(s, i + 1, j);
    }
  }

  lemma NothingMore(s: string)
    requires RecordEnd(s, 0) == RecordEnd(s, |s|)
    ensures NextRecord(s).None?
  {
    NoRecord(s);
  }

  /** What was in the buffer, and what was read behind it. */
  lemma ReadBehind(buf: seq<char>, file: string, start: nat, before: nat, pos: nat)
    requires start <= before <= pos <= |file| && pos - start <= |buf|
    requires buf[..before - start] == file[start..before] && buf[before - start..pos - start] == file[before..pos]
    ensures buf[..pos - start] == file[start..pos]
    ensures before < pos ==> file[start..][before - start..pos - start - 1] == file[before..pos - 1]
  {
    assert buf[..pos - start] == buf[..before - start] + buf[before - start..pos - start];
    assert file[start..pos] == file[start..before] + file[before..pos];
  }

  lemma NoRecord(s: string)
    ensures RecordEnd(s, |s|) == 0
  {
  }
}
