/**
 What a line of the device table looks like: the alias, the character device, the block
 device and the path, each with a colon behind it, and pairs `name="value"`.
 */
module DeviceTableLine {
  import opened Prelude
  import opened DeviceTable

  function Line(alias: string, cdevice: string, bdevice: string, pathname: string, rest: string): string {
    alias + ":" + cdevice + ":" + bdevice + ":" + pathname + ":" + rest
  }

  /** The attributes with a blank between any two. */
  function Pairs(attrs: seq<Attribute>): string {
    if attrs == [] then ""
    else attrs[0].name + "=\"" + attrs[0].value + "\"" + (if |attrs| == 1 then "" else " " + Pairs(attrs[1..]))
  }

  // ----- writing

  /** Escaping goes character by character, and puts a backslash before a colon, a backslash, a quote and a newline alone. */
  lemma EscapeEach(s: string, c: char, t: string)
    ensures Escape("") == "" && Escape(s + [c] + t) == Escape(s) + Escape([c]) + Escape(t)
    ensures Escape([c]) == if c == ':' || c == '\\' || c == '"' || c == '\n' then ['\\', c] else [c]
  {
    EscapeParts(s + [c], t);
    EscapeParts(s, [c]);
    assert [c][1..] == "" && EscapeChar(c) + "" == EscapeChar(c);
  }

  /** Nothing to escape. */
  predicate Plain(s: string) {
    forall c :: c in s ==> c !in ESCS
  }

  lemma {:induction false} EscapePlain(s: string)
    requires Plain(s)
    ensures Escape(s) == s
  {
    if s != "" {
      assert s[0] in s;
      EscapePlain(s[1..]);
    }
  }

  predicate PlainEntry(e: Entry)
    requires e.Device?
  {
    && Plain(e.alias) && Plain(Text(e.cdevice)) && Plain(Text(e.bdevice)) && Plain(Text(e.pathname))
    && forall i :: 0 <= i < |e.attrs| ==> Plain(e.attrs[i].name) && Plain(e.attrs[i].value)
  }

  /** A data record without anything to escape is written as that line. */
  lemma PlainLine(e: Entry)
    requires e.Device? && PlainEntry(e)
    ensures Print(e) == Line(e.alias, Text(e.cdevice), Text(e.bdevice), Text(e.pathname), Pairs(e.attrs) + "\n")
  {
    hide Escape, Plain, Pairs, ShowAttrs;
    EscapePlain(e.alias);
    EscapePlain(Text(e.cdevice));
    EscapePlain(Text(e.bdevice));
    EscapePlain(Text(e.pathname));
    PlainPairs(e.attrs);
    FiveParts(e.alias, Text(e.cdevice), Text(e.bdevice), Text(e.pathname), Pairs(e.attrs) + "\n");
  }

  lemma FiveParts(a: string, c: string, b: string, p: string, rest: string)
    ensures Line(a, c, b, p, rest) == a + (":" + (c + (":" + (b + (":" + (p + (":" + rest)))))))
  {
  }

  lemma {:induction false} PlainPairs(attrs: seq<Attribute>)
    requires forall i :: 0 <= i < |attrs| ==> Plain(attrs[i].name) && Plain(attrs[i].value)
    ensures ShowAttrs(attrs, "\n") == Pairs(attrs) + "\n"
  {
    hide Escape, Plain;
    if attrs == [] {
      assert Pairs(attrs) + "\n" == "\n";
    } else {
      var a, rest := attrs[0], attrs[1..];
      EscapePlain(a.name);
      EscapePlain(a.value);
      PlainPairs(rest);
      var behind := if rest == [] then "" else " " + Pairs(rest);
      assert After(rest, "\n") == behind + "\n";
      PairParts(a.name, a.value, behind);
    }
  }

  lemma PairParts(n: string, v: string, behind: string)
    ensures n + "=\"" + v + "\"" + behind + "\n" == n + ("=" + ("\"" + (v + ("\"" + (behind + "\n")))))
  {
  }

  /** A comment without anything to escape but its newline is written as it is. */
  lemma PlainComment(t: string)
    requires Plain(t)
    ensures Printable(Comment(t + "\n")) && Print(Comment(t + "\n")) == t + "\n"
  {
    assert (t + "\n")[..|t + "\n"| - 1] == t;
    EscapePlain(t);
  }

  // ----- reading

  lemma {:induction false} SplitPlain(t: string, d: char, tail: string, delims: set<char>)
    requires d in delims && '\\' !in delims && '\\' !in t && forall c :: c in t ==> c !in delims
    ensures Split(t + [d] + tail, delims) == Some((t, tail))
  {
    if t == "" {
      assert t + [d] + tail == [d] + tail;
    } else {
      assert t + [d] + tail == [t[0]] + (t[1..] + [d] + tail) && t[0] in t;
      SplitPlain(t[1..], d, tail, delims);
      assert [t[0]] + t[1..] == t;
    }
  }

  lemma {:induction false} UnescapePlain(s: string)
    requires '\\' !in s
    ensures Unescape(s) == s
  {
    if s != "" {
      UnescapePlain(s[1..]);
    }
  }

  /** A field that is empty is missing. */
  function Given(s: string): Option<string> {
    if s == "" then None else Some(s)
  }

  /** No backslash and no colon. */
  predicate Bare(s: string) {
    '\\' !in s && ':' !in s
  }

  /** That line is read as a data record with these fields, whatever follows them. */
  lemma LineRead(alias: string, cdevice: string, bdevice: string, pathname: string, rest: string)
    requires Bare(alias) && Bare(cdevice) && Bare(bdevice) && Bare(pathname) && '\n' !in pathname
    requires alias == "" || (alias[0] != '#' && !IsSpace(alias[0]))
    ensures ParseRecord(Line(alias, cdevice, bdevice, pathname, rest)) ==
            Some(Device(alias, Given(cdevice), Given(bdevice), Given(pathname), ParseAttrs(rest)))
  {
    hide Split, Unescape, ParseAttrs, Line, IsSpace, Commented;
    var third := pathname + ":" + rest;
    var second := bdevice + ":" + third;
    var first := cdevice + ":" + second;
    LineParts(alias, cdevice, bdevice, pathname, rest);
    NoComment(alias, first);
    SplitPlain(alias, ':', first, {':'});
    SplitPlain(cdevice, ':', second, {':'});
    SplitPlain(bdevice, ':', third, {':'});
    SplitPlain(pathname, ':', rest, {':', '\n'});
    UnescapePlain(alias);
    UnescapePlain(cdevice);
    UnescapePlain(bdevice);
    UnescapePlain(pathname);
  }

  lemma LineParts(a: string, c: string, b: string, p: string, rest: string)
    ensures Line(a, c, b, p, rest) == a + ":" + (c + ":" + (b + ":" + (p + ":" + rest)))
  {
  }

  lemma NoComment(alias: string, rest: string)
    requires alias == "" || (alias[0] != '#' && !IsSpace(alias[0]))
    ensures !Commented(alias + ":" + rest)
  {
    assert alias != "" ==> (alias + ":" + rest)[0] == alias[0];
  }

  /** Names and values that need no escape, the names without an equals sign or a blank in front. */
  predicate PlainPair(a: Attribute) {
    && '\\' !in a.name && '=' !in a.name && (a.name == "" || !IsSpace(a.name[0]))
    && '\\' !in a.value && '"' !in a.value
  }

  lemma PairRead(a: Attribute, tail: string)
    requires PlainPair(a)
    ensures ParseAttr(a.name + "=\"" + a.value + "\"" + tail) == Some((a, tail))
    ensures ParseAttr(" " + (a.name + "=\"" + a.value + "\"" + tail)) == Some((a, tail))
  {
    hide Split, Unescape;
    var behind := a.value + "\"" + tail;
    var t := a.name + "=\"" + a.value + "\"" + tail;
    assert t == a.name + "=" + ("\"" + behind) && ("\"" + behind)[1..] == behind;
    assert SkipBlanks(t) == t;
    assert (" " + t)[1..] == t && SkipBlanks(" " + t) == SkipBlanks(t);
    SplitPlain(a.name, '=', "\"" + behind, {'='});
    SplitPlain(a.value, '"', tail, {'"'});
    UnescapePlain(a.name);
    UnescapePlain(a.value);
  }

  /** The pairs are read as these attributes. */
  lemma {:induction false} PairsRead(attrs: seq<Attribute>)
    requires forall i :: 0 <= i < |attrs| ==> PlainPair(attrs[i])
    ensures ParseAttrs(Pairs(attrs) + "\n") == attrs
    ensures attrs != [] ==> ParseAttrs(" " + Pairs(attrs) + "\n") == attrs
  {
    hide ParseAttr, PlainPair;
    if attrs == [] {
      assert Pairs(attrs) + "\n" == "\n";
      NothingLeft();
    } else {
      var a, rest := attrs[0], attrs[1..];
      PairsRead(rest);
      var behind := if rest == [] then "" else " " + Pairs(rest);
      PairRead(a, behind + "\n");
      var t := a.name + "=\"" + a.value + "\"" + (behind + "\n");
      assert Pairs(attrs) + "\n" == t && " " + Pairs(attrs) + "\n" == " " + t;
      assert ParseAttrs(behind + "\n") == rest;
      assert [a] + rest == attrs;
    }
  }
}
