/**
 The text form of the device table: how a record is written, how it is read back,
 and how the file is cut into records.

 Strings hold no NUL.  A missing field is a null pointer in the code and None here;
 an empty one is written the same way and so reads back as None.
 */
module DeviceTable {
  import opened Prelude

  datatype Attribute = Attribute(name: string, value: string)

  /** An alias that is a null pointer in the code is the empty string here. */
  datatype Entry =
    | Comment(text: string)
    | Device(alias: string, cdevice: Option<string>, bdevice: Option<string>, pathname: Option<string>, attrs: seq<Attribute>)

  /** `DTAB_ESCS`. */
  const ESCS: set<char> := {':', '\\', '"', '\n'}

  /** DTAB_BUFSIZ, DTAB_BUFINC and XTND_MAXCNT, and the longest record they leave room for. */
  const BUFSIZ: nat := 512
  const BUFINC: nat := 512
  const MAXCNT: nat := 16
  const LONGEST: nat := 8703

  predicate IsSpace(c: char) {
    c in {' ', '\t', '\n', '\r', '\U{0B}', '\U{0C}'}
  }

  predicate IsAlnum(c: char) {
    '0' <= c <= '9' || 'A' <= c <= 'Z' || 'a' <= c <= 'z'
  }

  /** `_validalias`. */
  predicate ValidAlias(alias: string) {
    && 0 < |alias| <= 14
    && (IsAlnum(alias[0]) || alias[0] in {'@', '$', '_', '.'})
    && forall i :: 1 <= i < |alias| ==> IsAlnum(alias[i]) || alias[i] in {'@', '#', '$', '_', '-', '+', '.'}
  }

  // ----- writing

  /** `strcatesc`. */
  function Escape(s: string): (r: string)
    ensures |s| <= |r| <= 2 * |s|
  {
    if s == "" then "" else EscapeChar(s[0]) + Escape(s[1..])
  }

  function EscapeChar(c: char): (r: string)
    ensures 1 <= |r| <= 2
  {
    if c in ESCS then ['\\', c] else [c]
  }

  function ShowAttr(a: Attribute, tail: string): string {
    Escape(a.name) + ("=" + ("\"" + (Escape(a.value) + ("\"" + tail))))
  }

  /** The attributes, separated by blanks, and what follows them. */
  function ShowAttrs(attrs: seq<Attribute>, tail: string): string
    decreases |attrs|, 0
  {
    if attrs == [] then tail else ShowAttr(attrs[0], After(attrs[1..], tail))
  }

  function After(attrs: seq<Attribute>, tail: string): string
    decreases |attrs|, 1
  {
    if attrs == [] then tail else " " + ShowAttrs(attrs, tail)
  }

  function ShowField(field: string, tail: string): string {
    Escape(field) + (":" + tail)
  }

  function Text(field: Option<string>): string {
    if field.None? then "" else field.value
  }

  /** A comment must end with a newline, which alone is not escaped. */
  predicate Printable(e: Entry) {
    e.Comment? ==> e.text != "" && e.text[|e.text| - 1] == '\n'
  }

  function Print(e: Entry): string
    requires Printable(e)
  {
    match e
    case Comment(t) => Escape(t[..|t| - 1]) + "\n"
    case Device(alias, cdevice, bdevice, pathname, attrs) =>
      ShowField(alias, ShowField(Text(cdevice), ShowField(Text(bdevice), ShowField(Text(pathname), ShowAttrs(attrs, "\n")))))
  }

  predicate AllPrintable(es: seq<Entry>) {
    forall i :: 0 <= i < |es| ==> Printable(es[i])
  }

  function PrintAll(es: seq<Entry>): string
    requires AllPrintable(es)
  {
    if es == [] then "" else Print(es[0]) + PrintAll(es[1..])
  }

  // ----- reading

  /** A token up to the first delimiter that is not escaped, and what is behind it: `getfld`. */
  function Split(s: string, delims: set<char>): (r: Option<(string, string)>)
    ensures r.Some? ==> |r.value.0| + 1 + |r.value.1| == |s| && s[..|r.value.0|] == r.value.0 && s[|r.value.0| + 1..] == r.value.1
  {
    if s == "" then None
    else if s[0] == '\\' then
      if |s| == 1 then None else Onto(s[..2], Split(s[2..], delims))
    else if s[0] in delims then Some(("", s[1..]))
    else Onto([s[0]], Split(s[1..], delims))
  }

  function Onto(front: string, r: Option<(string, string)>): Option<(string, string)> {
    if r.None? then None else Some((front + r.value.0, r.value.1))
  }

  function Unescape(s: string): (r: string)
    ensures |r| <= |s|
  {
    if s == "" then ""
    else if s[0] == '\\' then (if |s| == 1 then "" else [s[1]] + Unescape(s[2..]))
    else [s[0]] + Unescape(s[1..])
  }

  function SkipBlanks(s: string): (r: string)
    ensures |r| <= |s|
  {
    if s != "" && IsSpace(s[0]) then SkipBlanks(s[1..]) else s
  }

  /** `getquoted`. */
  function Quoted(s: string): (r: Option<(string, string)>)
    ensures r.Some? ==> |r.value.1| < |s|
  {
    if s == "" || s[0] != '"' then None
    else match Split(s[1..], {'"'})
      case None => None
      case Some(p) => Some((Unescape(p.0), p.1))
  }

  /** `getattrval`. */
  function ParseAttr(s: string): (r: Option<(Attribute, string)>)
    ensures r.Some? ==> |r.value.1| < |s|
  {
    var t := SkipBlanks(s);
    if t == "" then None
    else match Split(t, {'='})
      case None => None
      case Some(p) =>
        match Quoted(p.1)
        case None => None
        case Some(q) => Some((Attribute(Unescape(p.0), q.0), q.1))
  }

  function ParseAttrs(s: string): seq<Attribute>
    decreases |s|
  {
    match ParseAttr(s)
    case None => []
    case Some(p) => [p.0] + ParseAttrs(p.1)
  }

  function Field(s: string): Option<string> {
    if s == "" then None else Some(Unescape(s))
  }

  predicate Commented(s: string) {
    s != "" && (s[0] == '#' || IsSpace(s[0]))
  }

  /** One record as read by `_getdevtabent`; None for a data record without its four fields. */
  function ParseRecord(s: string): Option<Entry> {
    if Commented(s) then Some(Comment(Unescape(s)))
    else match Split(s, {':'})
      case None => None
      case Some(a) =>
        match Split(a.1, {':'})
        case None => None
        case Some(c) =>
          match Split(c.1, {':'})
          case None => None
          case Some(b) =>
            match Split(b.1, {':', '\n'})
            case None => None
            case Some(p) => Some(Device(Unescape(a.0), Field(c.0), Field(b.0), Field(p.0), ParseAttrs(p.1)))
  }

  /** Just behind the first newline from i on that is not escaped, or 0. */
  function RecordEnd(file: string, i: nat): (n: nat)
    ensures n == 0 || i < n <= |file|
    decreases |file| - i
  {
    if i >= |file| then 0
    else if file[i] == '\n' && (i == 0 || file[i - 1] != '\\') then i + 1
    else RecordEnd(file, i + 1)
  }

  /** The length of the next record `getnextrec` delivers. */
  function NextRecord(file: string): (r: Option<nat>)
    ensures r.Some? ==> 0 < r.value <= |file|
  {
    var n := RecordEnd(file, 0);
    if n == 0 || n > LONGEST then None else Some(n)
  }

  /** All entries `_getdevtabent` delivers until it returns null. */
  function ReadAll(file: string): seq<Entry>
    decreases |file|
  {
    match NextRecord(file)
    case None => []
    case Some(n) =>
      (match ParseRecord(file[..n]) case None => [] case Some(e) => [e]) + ReadAll(file[n..])
  }

  // ----- what comes back

  function NoEmpty(field: Option<string>): Option<string> {
    if field == Some("") then None else field
  }

  /** An entry with its empty fields missing. */
  function Normal(e: Entry): Entry {
    match e
    case Comment(_) => e
    case Device(alias, c, b, p, attrs) => Device(alias, NoEmpty(c), NoEmpty(b), NoEmpty(p), attrs)
  }

  function NormalAll(es: seq<Entry>): seq<Entry> {
    seq(|es|, i requires 0 <= i < |es| => Normal(es[i]))
  }

  /** No '=', and no blank in front other than a newline, which is escaped. */
  predicate GoodName(name: string) {
    '=' !in name && (name != "" && IsSpace(name[0]) ==> name[0] == '\n')
  }

  predicate GoodNames(attrs: seq<Attribute>) {
    forall i :: 0 <= i < |attrs| ==> GoodName(attrs[i].name)
  }

  /** The comments the reader can have delivered, and data records with a valid alias. */
  predicate Framed(e: Entry) {
    match e
    case Comment(t) =>
      && Printable(e) && Commented(t) && (t[0] == '\n' ==> t == "\n")
      && (|t| > 1 ==> t[|t| - 2] != '\\')
    case Device(alias, _, _, _, _) => ValidAlias(alias)
  }

  /** Those, with good attribute names. */
  predicate Writable(e: Entry) {
    Framed(e) && (e.Device? ==> GoodNames(e.attrs))
  }

  lemma Rejoin(a: string, b: string, c: string)
    ensures (a + b) + c == a + (b + c)
    ensures |a| == 1 ==> (a + b)[1..] == b
    ensures |a| == 2 ==> (a + b)[2..] == b
  {
  }

  lemma UnescapeStep(c: char, rest: string)
    ensures Unescape(EscapeChar(c) + rest) == [c] + Unescape(rest)
  {
    Rejoin(EscapeChar(c), rest, "");
  }

  lemma {:induction false} UnescapeEscape(s: string)
    ensures Unescape(Escape(s)) == s
  {
    hide EscapeChar, Unescape;
    if s == "" {
      assert Unescape("") == "" by {
        UnescapeNone();
      }
    } else {
      UnescapeEscape(s[1..]);
      UnescapeStep(s[0], Escape(s[1..]));
    }
  }

  lemma UnescapeNone()
    ensures Unescape("") == ""
  {
  }

  lemma SplitStep(c: char, rest: string, delims: set<char>)
    requires '\\' !in delims && (c in delims ==> c in ESCS)
    ensures Split(EscapeChar(c) + rest, delims) == Onto(EscapeChar(c), Split(rest, delims))
  {
    Rejoin(EscapeChar(c), rest, "");
    var s := EscapeChar(c) + rest;
    assert s[..|EscapeChar(c)|] == EscapeChar(c);
  }

  lemma SplitHere(d: char, tail: string, delims: set<char>)
    requires d in delims && '\\' !in delims
    ensures Split([d] + tail, delims) == Some(("", tail))
  {
    Rejoin([d], tail, "");
  }

  /** An escaped field ends at the delimiter written behind it. */
  lemma {:induction false} SplitField(t: string, d: char, tail: string, delims: set<char>)
    requires d in delims && '\\' !in delims && forall c :: c in t && c in delims ==> c in ESCS
    ensures Split(Escape(t) + ([d] + tail), delims) == Some((Escape(t), tail))
    decreases |t|
  {
    hide Split, EscapeChar;
    if t == "" {
      SplitHere(d, tail, delims);
      assert "" + ([d] + tail) == [d] + tail;
    } else {
      SplitField(t[1..], d, tail, delims);
      Rejoin(EscapeChar(t[0]), Escape(t[1..]), [d] + tail);
      SplitStep(t[0], Escape(t[1..]) + ([d] + tail), delims);
    }
  }

  // ----- attributes

  lemma {:induction false} EscapeParts(s: string, t: string)
    ensures Escape(s + t) == Escape(s) + Escape(t)
  {
    hide EscapeChar;
    if s == "" {
      assert s + t == t;
    } else {
      EscapeParts(s[1..], t);
      assert (s + t)[1..] == s[1..] + t;
      Rejoin(EscapeChar(s[0]), Escape(s[1..]), Escape(t));
    }
  }

  /** What is read from one attribute: its name up to the first '=', without leading blanks. */
  lemma AttrRead(name: string, value: string, tail: string)
    requires GoodName(name)
    ensures ParseAttr(ShowAttr(Attribute(name, value), tail)) == Some((Attribute(name, value), tail))
  {
    hide Escape, Unescape, Split, SkipBlanks;
    var inner := "\"" + (Escape(value) + ("\"" + tail));
    var s := Escape(name) + ("=" + inner);
    assert s == ShowAttr(Attribute(name, value), tail);
    NoBlanks(name, "=" + inner);
    SplitField(name, '=', inner, {'='});
    SplitField(value, '"', tail, {'"'});
    assert inner[1..] == Escape(value) + ("\"" + tail);
    UnescapeEscape(name);
    UnescapeEscape(value);
  }

  lemma NoBlanks(name: string, tail: string)
    requires GoodName(name) && tail != "" && tail[0] == '='
    ensures SkipBlanks(Escape(name) + tail) == Escape(name) + tail != ""
  {
    var s := Escape(name) + tail;
    if name != "" {
      assert s[0] == Escape(name)[0];
    }
  }

  lemma {:induction false} AttrsRead(attrs: seq<Attribute>)
    requires GoodNames(attrs)
    ensures ParseAttrs(ShowAttrs(attrs, "\n")) == attrs
  {
    hide ShowAttr, ParseAttr, GoodName;
    if attrs == [] {
      NothingLeft();
    } else {
      var a, rest := attrs[0], attrs[1..];
      AttrRead(a.name, a.value, After(rest, "\n"));
      assert a == Attribute(a.name, a.value);
      AttrsRead(rest);
      AfterBlank(rest);
    }
  }

  lemma NothingLeft()
    ensures ParseAttr("\n").None?
  {
    assert SkipBlanks("\n") == SkipBlanks("");
  }

  lemma AfterBlank(attrs: seq<Attribute>)
    ensures ParseAttrs(After(attrs, "\n")) == ParseAttrs(ShowAttrs(attrs, "\n"))
  {
    hide ShowAttrs;
    var s := ShowAttrs(attrs, "\n");
    if attrs != [] {
      assert (" " + s)[1..] == s;
    } else {
      assert s == "\n" by {
        ShowNone();
      }
    }
  }

  lemma ShowNone()
    ensures ShowAttrs([], "\n") == "\n"
  {
  }

  function DropBlanks(s: string): (r: string)
    ensures |r| <= |s| && (r != "" ==> !IsSpace(r[0]) || r[0] == '\n')
    ensures |r| < |s| <==> s != "" && IsSpace(s[0]) && s[0] != '\n'
  {
    if s != "" && IsSpace(s[0]) && s[0] != '\n' then DropBlanks(s[1..]) else s
  }

  lemma {:induction false} BlanksSkipped(name: string, tail: string)
    requires tail != "" && tail[0] == '='
    ensures SkipBlanks(Escape(name) + tail) == Escape(DropBlanks(name)) + tail != ""
    decreases |name|
  {
    hide EscapeChar;
    var s := Escape(name) + tail;
    if name == "" {
      assert s == tail;
    } else {
      Rejoin(EscapeChar(name[0]), Escape(name[1..]), tail);
      BlankStep(name[0], Escape(name[1..]) + tail);
      if IsSpace(name[0]) && name[0] != '\n' {
        BlanksSkipped(name[1..], tail);
      }
    }
  }

  lemma BlankStep(c: char, rest: string)
    ensures var s := EscapeChar(c) + rest;
            SkipBlanks(s) == if IsSpace(c) && c != '\n' then SkipBlanks(rest) else s
  {
    Rejoin(EscapeChar(c), rest, "");
  }

  /** A name with '=' in it is read up to there, and leading blanks are dropped. */
  lemma BadNameRead(a: Attribute, tail: string)
    requires !GoodName(a.name)
    ensures var r := ParseAttr(ShowAttr(a, tail)); r.Some? ==> |r.value.0.name| < |a.name|
  {
    hide Escape, Split, SkipBlanks, Quoted;
    var inner := "\"" + (Escape(a.value) + ("\"" + tail));
    var t := DropBlanks(a.name);
    BlanksSkipped(a.name, "=" + inner);
    if '=' in t {
      var k := FirstEquals(t);
      Rejoin(Escape(t[..k]), "=" + Escape(t[k + 1..]), "=" + inner);
      Rejoin("=", Escape(t[k + 1..]), "=" + inner);
      SplitField(t[..k], '=', Escape(t[k + 1..]) + ("=" + inner), {'='});
      UnescapeEscape(t[..k]);
    } else {
      SplitField(t, '=', inner, {'='});
      UnescapeEscape(t);
    }
  }

  lemma FirstEquals(t: string) returns (k: nat)
    requires '=' in t
    ensures k < |t| && '=' !in t[..k]
    ensures Escape(t) == Escape(t[..k]) + ("=" + Escape(t[k + 1..]))
  {
    k := 0;
    while t[k] != '='
      invariant k < |t| && '=' !in t[..k] && '=' in t[k..]
      decreases |t| - k
    {
      assert t[..k + 1] == t[..k] + [t[k]];
      k := k + 1;
    }
    assert t == t[..k] + t[k..];
    EscapeParts(t[..k], t[k..]);
    assert Escape(t[k..]) == "=" + Escape(t[k + 1..]);
  }

  /** The attributes come back exactly when all names are good. */
  lemma {:induction false} AttrsReadIff(attrs: seq<Attribute>)
    ensures ParseAttrs(ShowAttrs(attrs, "\n")) == attrs <==> GoodNames(attrs)
  {
    hide ShowAttr, ParseAttr, GoodName;
    if attrs == [] {
      NothingLeft();
    } else {
      var a, rest := attrs[0], attrs[1..];
      if GoodName(a.name) {
        AttrRead(a.name, a.value, After(rest, "\n"));
        assert a == Attribute(a.name, a.value);
        AttrsReadIff(rest);
        AfterBlank(rest);
      } else {
        BadNameRead(a, After(rest, "\n"));
      }
    }
  }

  // ----- records

  lemma FieldRead(field: Option<string>)
    ensures Field(Escape(Text(field))) == NoEmpty(field)
  {
    UnescapeEscape(Text(field));
  }

  lemma AliasShown(alias: string, tail: string)
    requires ValidAlias(alias)
    ensures !Commented(ShowField(alias, tail))
  {
    assert ShowField(alias, tail)[0] == Escape(alias)[0] == alias[0];
  }

  /** A data record comes back, empty fields missing, exactly when its attribute names are good. */
  lemma DeviceRead(e: Entry)
    requires e.Device? && ValidAlias(e.alias)
    ensures ParseRecord(Print(e)) == Some(Normal(e)) <==> GoodNames(e.attrs)
  {
    hide Escape, Unescape, Split, ParseAttrs, ShowAttrs, ValidAlias, GoodNames, Field, NoEmpty, Commented;
    var attrs := ShowAttrs(e.attrs, "\n");
    var paths := ShowField(Text(e.pathname), attrs);
    var blocks := ShowField(Text(e.bdevice), paths);
    var chars := ShowField(Text(e.cdevice), blocks);
    AliasShown(e.alias, chars);
    SplitField(e.alias, ':', chars, {':'});
    SplitField(Text(e.cdevice), ':', blocks, {':'});
    SplitField(Text(e.bdevice), ':', paths, {':'});
    SplitField(Text(e.pathname), ':', attrs, {':', '\n'});
    UnescapeEscape(e.alias);
    FieldRead(e.cdevice);
    FieldRead(e.bdevice);
    FieldRead(e.pathname);
    AttrsReadIff(e.attrs);
  }

  lemma CommentRead(t: string)
    requires Writable(Comment(t))
    ensures ParseRecord(Print(Comment(t))) == Some(Comment(t))
  {
    var front := t[..|t| - 1];
    assert t == front + "\n";
    UnescapeEscape(front);
    UnescapeTail(front);
    if front != "" {
      assert Print(Comment(t))[0] == Escape(front)[0] == t[0];
    }
  }

  lemma {:induction false} UnescapeTail(s: string)
    ensures Unescape(Escape(s) + "\n") == s + "\n"
  {
    hide EscapeChar, Unescape;
    if s == "" {
      assert Unescape("" + "\n") == "\n" by {
        UnescapeNewline();
      }
    } else {
      UnescapeTail(s[1..]);
      Rejoin(EscapeChar(s[0]), Escape(s[1..]), "\n");
      UnescapeStep(s[0], Escape(s[1..]) + "\n");
      assert s + "\n" == [s[0]] + (s[1..] + "\n");
    }
  }

  lemma UnescapeNewline()
    ensures Unescape("" + "\n") == "\n"
  {
    assert "" + "\n" == "\n";
    assert Unescape("\n"[1..]) == "";
  }

  /** What is read from a record is the entry, empty fields missing, exactly when its names are good. */
  lemma RecordRead(e: Entry)
    requires Framed(e)
    ensures ParseRecord(Print(e)) == Some(Normal(e)) <==> Writable(e)
  {
    hide ParseRecord, Print;
    if e.Comment? {
      CommentRead(e.text);
    } else {
      DeviceRead(e);
    }
  }

  // ----- the file

  /** Every newline of s is escaped, given the character before s. */
  predicate NoBreak(s: string) {
    forall i :: 0 <= i < |s| && s[i] == '\n' ==> i > 0 && s[i - 1] == '\\'
  }

  lemma NoBreakParts(s: string, t: string)
    requires NoBreak(s) && NoBreak(t)
    ensures NoBreak(s + t)
  {
    var r := s + t;
    forall i | 0 <= i < |r| && r[i] == '\n'
      ensures i > 0 && r[i - 1] == '\\'
    {
      if i >= |s| {
        assert t[i - |s|] == '\n';
      }
    }
  }

  lemma {:induction false} EscapeNoBreak(s: string)
    ensures NoBreak(Escape(s))
    ensures s != "" ==> Escape(s)[|Escape(s)| - 1] == s[|s| - 1]
  {
    if s != "" {
      EscapeNoBreak(s[1..]);
      NoBreakParts(EscapeChar(s[0]), Escape(s[1..]));
    }
  }

  /** A text whose only newline that is not escaped is the last character is one record. */
  lemma {:induction false} OneRecord(s: string, i: nat, rest: string)
    requires i <= |s| && NoBreak(s) && (s != "" ==> s[|s| - 1] != '\\')
    ensures RecordEnd(s + "\n" + rest, i) == |s| + 1
    decreases |s| - i
  {
    var f := s + "\n" + rest;
    if i < |s| {
      assert f[i] == s[i] && (i > 0 ==> f[i - 1] == s[i - 1]);
      OneRecord(s, i + 1, rest);
    } else {
      assert f[i] == '\n' && (i > 0 ==> f[i - 1] == s[i - 1]);
    }
  }

  lemma {:induction false} AttrsNoBreak(attrs: seq<Attribute>) returns (s: string)
    ensures ShowAttrs(attrs, "\n") == s + "\n" && NoBreak(s) && (s != "" ==> s[|s| - 1] != '\\')
  {
    hide Escape, NoBreak;
    if attrs == [] {
      s := "";
      EmptyNoBreak();
    } else {
      var a := attrs[0];
      var t := AttrsNoBreak(attrs[1..]);
      s := AttrNoBreak(a, attrs[1..], t);
    }
  }

  lemma EmptyNoBreak()
    ensures NoBreak("")
  {
  }

  lemma AttrNoBreak(a: Attribute, attrs: seq<Attribute>, t: string) returns (s: string)
    requires ShowAttrs(attrs, "\n") == t + "\n" && NoBreak(t) && (t != "" ==> t[|t| - 1] != '\\')
    ensures ShowAttr(a, After(attrs, "\n")) == s + "\n" && NoBreak(s) && s != "" && s[|s| - 1] != '\\'
  {
    hide Escape, NoBreak, ShowAttrs;
    var u := if attrs == [] then "" else " " + t;
    assert After(attrs, "\n") == u + "\n";
    PlainNoBreak();
    if attrs != [] {
      NoBreakParts(" ", t);
    }
    EscapeNoBreak(a.name);
    EscapeNoBreak(a.value);
    NoBreakParts("\"", u);
    NoBreakParts(Escape(a.value), "\"" + u);
    NoBreakParts("=\"", Escape(a.value) + ("\"" + u));
    s := Escape(a.name) + ("=\"" + (Escape(a.value) + ("\"" + u)));
    NoBreakParts(Escape(a.name), "=\"" + (Escape(a.value) + ("\"" + u)));
    AttrTail(a, u);
  }

  lemma AttrTail(a: Attribute, u: string)
    ensures ShowAttr(a, u + "\n") == Escape(a.name) + ("=\"" + (Escape(a.value) + ("\"" + u))) + "\n"
  {
    hide Escape;
    var n, v := Escape(a.name), Escape(a.value);
    Rejoin("\"", u, "\n");
    Rejoin(v, "\"" + u, "\n");
    Rejoin("=\"", v + ("\"" + u), "\n");
    Rejoin("=", "\"", v + ("\"" + u) + "\n");
    Rejoin(n, "=\"" + (v + ("\"" + u)), "\n");
  }

  lemma PlainNoBreak()
    ensures NoBreak("") && NoBreak("\"") && NoBreak(" ") && NoBreak("=\"") && NoBreak(":")
  {
  }

  lemma FieldNoBreak(field: string, tail: string, t: string) returns (s: string)
    requires tail == t + "\n" && NoBreak(t) && (t != "" ==> t[|t| - 1] != '\\')
    ensures ShowField(field, tail) == s + "\n" && NoBreak(s) && s != "" && s[|s| - 1] != '\\'
  {
    hide Escape, NoBreak;
    PlainNoBreak();
    EscapeNoBreak(field);
    NoBreakParts(":", t);
    s := Escape(field) + (":" + t);
    NoBreakParts(Escape(field), ":" + t);
    Rejoin(":", t, "\n");
    Rejoin(Escape(field), ":" + t, "\n");
  }

  /** Wherever a written record stands in a file, reading there takes exactly that record. */
  lemma RecordFramed(e: Entry, rest: string)
    requires Framed(e)
    ensures RecordEnd(Print(e) + rest, 0) == |Print(e)| > 0
  {
    hide Escape, NoBreak, RecordEnd, ShowAttrs, ShowField, ValidAlias, Commented;
    var s: string;
    if e.Comment? {
      s := Escape(e.text[..|e.text| - 1]);
      EscapeNoBreak(e.text[..|e.text| - 1]);
    } else {
      s := AttrsNoBreak(e.attrs);
      var attrs := ShowAttrs(e.attrs, "\n");
      s := FieldNoBreak(Text(e.pathname), attrs, s);
      var paths := ShowField(Text(e.pathname), attrs);
      s := FieldNoBreak(Text(e.bdevice), paths, s);
      var blocks := ShowField(Text(e.bdevice), paths);
      s := FieldNoBreak(Text(e.cdevice), blocks, s);
      s := FieldNoBreak(e.alias, ShowField(Text(e.cdevice), blocks), s);
    }
    OneRecord(s, 0, rest);
  }

  ghost predicate AllFramed(es: seq<Entry>) {
    forall i :: 0 <= i < |es| ==> Framed(es[i])
  }

  ghost predicate AllWritable(es: seq<Entry>) {
    forall i :: 0 <= i < |es| ==> Writable(es[i])
  }

  ghost predicate Fits(e: Entry)
    requires Printable(e)
  {
    |Print(e)| <= LONGEST
  }

  ghost predicate AllFit(es: seq<Entry>)
    requires AllPrintable(es)
  {
    forall i :: 0 <= i < |es| ==> Fits(es[i])
  }

  /** Such a list is printable. */
  lemma FramedPrintable(es: seq<Entry>)
    requires AllFramed(es)
    ensures AllPrintable(es)
  {
    forall i | 0 <= i < |es|
      ensures Printable(es[i])
    {
      assert Framed(es[i]);
    }
  }

  /**
   Reading undoes writing: the entries come back, empty fields missing, exactly when all
   attribute names are good and every record fits the reader's largest buffer.
   */
  lemma {:induction false} ReadBack(es: seq<Entry>)
    requires AllFramed(es) && AllPrintable(es)
    ensures ReadAll(PrintAll(es)) == NormalAll(es) <==> AllFit(es) && AllWritable(es)
    ensures |ReadAll(PrintAll(es))| <= |es|
  {
    hide Writable, Framed, Print, ParseRecord, Printable, RecordEnd, Normal;
    if es != [] {
      var e, rest := es[0], es[1..];
      assert Framed(e) && AllFramed(rest);
      ReadBack(rest);
      FirstRead(e, rest);
      RecordRead(e);
      FitStep(es);
      assert NormalAll(es) == [Normal(e)] + NormalAll(rest);
      var file, behind := PrintAll(es), ReadAll(PrintAll(rest));
      if Fits(e) && ParseRecord(Print(e)).Some? {
        var e' := ParseRecord(Print(e)).value;
        assert ReadAll(file) == [e'] + behind && ReadAll(file)[0] == e' && ReadAll(file)[1..] == behind;
        assert NormalAll(es)[0] == Normal(e) && NormalAll(es)[1..] == NormalAll(rest);
      } else {
        assert |ReadAll(file)| < |NormalAll(es)|;
      }
    }
  }

  /** What reading a written file begins with. */
  lemma FirstRead(e: Entry, rest: seq<Entry>)
    requires Framed(e) && Printable(e) && AllPrintable(rest)
    ensures AllPrintable([e] + rest) && PrintAll([e] + rest) == Print(e) + PrintAll(rest)
    ensures var file := Print(e) + PrintAll(rest);
            && (!Fits(e) ==> ReadAll(file) == [])
            && (Fits(e) ==> ReadAll(file) == (match ParseRecord(Print(e)) case None => [] case Some(e') => [e']) + ReadAll(PrintAll(rest)))
  {
    hide Framed, Print, ParseRecord, Printable, RecordEnd;
    RecordFramed(e, PrintAll(rest));
    assert ([e] + rest)[1..] == rest;
    var file := Print(e) + PrintAll(rest);
    assert file[..|Print(e)|] == Print(e) && file[|Print(e)|..] == PrintAll(rest);
  }

  lemma FitStep(es: seq<Entry>)
    requires AllPrintable(es) && es != []
    ensures AllPrintable(es[1..]) && (AllFit(es) <==> Fits(es[0]) && AllFit(es[1..]))
    ensures AllWritable(es) <==> Writable(es[0]) && AllWritable(es[1..])
    ensures es == [es[0]] + es[1..]
  {
    hide Print, Printable, Writable;
    assert es == [es[0]] + es[1..];
  }

  lemma {:induction false} UnescapeEnd(s: string)
    requires s != "" && s[|s| - 1] == '\n' && (|s| > 1 ==> s[|s| - 2] != '\\')
    ensures var t := Unescape(s); t != "" && t[|t| - 1] == '\n' && (|t| > 1 ==> t[|t| - 2] != '\\')
    ensures s[0] != '\\' ==> Unescape(s)[0] == s[0]
    decreases |s|
  {
    if s[0] == '\\' {
      UnescapeEnd(s[2..]);
      assert |s| == 3 ==> Unescape(s[2..]) == "\n";
    } else if |s| > 1 {
      UnescapeEnd(s[1..]);
    }
  }

  /** A comment cut out of any file can be written back, and then reads the same. */
  lemma CommentsComeBack(s: string)
    requires Commented(s) && RecordEnd(s, 0) == |s|
    ensures ParseRecord(s).Some? && Writable(ParseRecord(s).value)
  {
    EndsUnescaped(s, 0);
    UnescapeEnd(s);
    if s[0] == '\n' {
      assert s == "\n";
    }
  }

  lemma {:induction false} EndsUnescaped(s: string, i: nat)
    requires i < |s| && RecordEnd(s, i) == |s|
    ensures s[|s| - 1] == '\n' && (|s| > 1 ==> s[|s| - 2] != '\\')
    decreases |s| - i
  {
    if !(s[i] == '\n' && (i == 0 || s[i - 1] != '\\')) {
      EndsUnescaped(s, i + 1);
    }
  }
}
