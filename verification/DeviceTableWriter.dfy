/**
 `_putdevtabrec`: a record is put together in a buffer whose size is worked out
 beforehand.
 */
module DeviceTableWriter {
  import opened DeviceTable
  import opened DeviceTableLine

  /** The sizes `_putdevtabrec` adds up for the attributes, or for the newline alone. */
  function AttrsSize(attrs: seq<Attribute>): nat {
    if attrs == [] then 0 else 2 * |attrs[0].name| + 2 * |attrs[0].value| + 4 + AttrsSize(attrs[1..])
  }

  lemma {:induction false} AttrsSizeBound(attrs: seq<Attribute>)
    ensures |ShowAttrs(attrs, "\n")| <= if attrs == [] then 1 else AttrsSize(attrs)
  {
    if attrs != [] {
      AttrsSizeBound(attrs[1..]);
    }
  }

  lemma {:induction false} AttrsSizeSnoc(attrs: seq<Attribute>, k: nat)
    requires k < |attrs|
    ensures AttrsSize(attrs[..k + 1]) == AttrsSize(attrs[..k]) + 2 * |attrs[k].name| + 2 * |attrs[k].value| + 4
  {
    if k == 0 {
      assert attrs[..1][1..] == [];
    } else {
      AttrsSizeSnoc(attrs[1..], k - 1);
      assert attrs[..k + 1][1..] == attrs[1..][..k] && attrs[..k][1..] == attrs[1..][..k - 1];
    }
  }

  method PutChar(buf: array<char>, p0: nat, c: char) returns (p: nat)
    requires p0 < buf.Length
    modifies buf
    ensures p == p0 + 1 && buf[..p] == old(buf[..p0]) + [c]
  {
    buf[p0] := c;
    p := p0 + 1;
  }

  lemma EscapeAt(q: string, i: nat)
    requires i < |q|
    ensures Escape(q[i..]) == EscapeChar(q[i]) + Escape(q[i + 1..])
  {
    assert q[i..][1..] == q[i + 1..];
  }

  method PutEscaped(buf: array<char>, p0: nat, c: char, ghost rest: string) returns (p: nat)
    requires p0 + |EscapeChar(c)| <= buf.Length
    modifies buf
    ensures p == p0 + |EscapeChar(c)| && buf[..p] + rest == old(buf[..p0]) + (EscapeChar(c) + rest)
  {
    ghost var start := buf[..p0];
    Rejoin(start, EscapeChar(c), rest);
    p := p0;
    if c in ESCS {
      p := PutChar(buf, p, '\\');
    }
    p := PutChar(buf, p, c);
    assert buf[..p] == start + EscapeChar(c);
  }

  /** `strcatesc`. */
  method StrCatEsc(buf: array<char>, p0: nat, q: string) returns (p: nat)
    requires p0 + |Escape(q)| <= buf.Length
    modifies buf
    ensures p == p0 + |Escape(q)| && buf[..p] == old(buf[..p0]) + Escape(q)
  {
    hide Escape, EscapeChar;
    p := p0;
    var i := 0;
    assert q[0..] == q;
    while i < |q|
      invariant i <= |q| && p0 <= p && p + |Escape(q[i..])| == p0 + |Escape(q)|
      invariant buf[..p] + Escape(q[i..]) == old(buf[..p0]) + Escape(q)
    {
      EscapeAt(q, i);
      p := PutEscaped(buf, p, q[i], Escape(q[i + 1..]));
      i := i + 1;
    }
    EscapeNone();
  }

  lemma EscapeNone()
    ensures Escape("") == ""
  {
  }

  /** An escaped field and the colon behind it. */
  method PutField(buf: array<char>, p0: nat, field: string, ghost tail: string) returns (p: nat)
    requires p0 + |ShowField(field, tail)| <= buf.Length
    modifies buf
    ensures p <= buf.Length && buf[..p] + tail == old(buf[..p0]) + ShowField(field, tail)
  {
    hide Escape;
    p := StrCatEsc(buf, p0, field);
    p := PutChar(buf, p, ':');
    Rejoin(old(buf[..p0]), Escape(field), [':']);
    Rejoin(old(buf[..p0]), Escape(field) + [':'], tail);
    Rejoin(Escape(field), [':'], tail);
  }

  /** One attribute. */
  method PutAttr(buf: array<char>, p0: nat, a: Attribute, ghost tail: string) returns (p: nat)
    requires p0 + |ShowAttr(a, tail)| <= buf.Length
    modifies buf
    ensures p <= buf.Length && buf[..p] + tail == old(buf[..p0]) + ShowAttr(a, tail)
  {
    hide Escape;
    p := StrCatEsc(buf, p0, a.name);
    p := PutChar(buf, p, '=');
    p := PutChar(buf, p, '"');
    p := StrCatEsc(buf, p, a.value);
    p := PutChar(buf, p, '"');
    AttrJoin(old(buf[..p0]), Escape(a.name), Escape(a.value), tail);
  }

  lemma AttrJoin(front: string, n: string, v: string, tail: string)
    ensures front + n + ['='] + ['"'] + v + ['"'] + tail == front + (n + ("=" + ("\"" + (v + ("\"" + tail)))))
  {
    Rejoin(front + n + ['='] + ['"'] + v, ['"'], tail);
    Rejoin(front + n + ['='] + ['"'], v, ['"'] + tail);
    Rejoin(front + n + ['='], ['"'], v + (['"'] + tail));
    Rejoin(front + n, ['='], ['"'] + (v + (['"'] + tail)));
    Rejoin(front, n, ['='] + (['"'] + (v + (['"'] + tail))));
  }

  /** The attributes, with a blank between any two. */
  method PutAttrs(buf: array<char>, p0: nat, attrs: seq<Attribute>) returns (p: nat)
    requires p0 + |ShowAttrs(attrs, "\n")| <= buf.Length
    modifies buf
    ensures p < buf.Length && buf[..p] + "\n" == old(buf[..p0]) + ShowAttrs(attrs, "\n")
  {
    hide Escape, ShowAttr;
    p := p0;
    var k := 0;
    ghost var whole := buf[..p0] + ShowAttrs(attrs, "\n");
    assert attrs[0..] == attrs;
    while k < |attrs|
      invariant k <= |attrs| && p <= buf.Length
      invariant buf[..p] + ShowAttrs(attrs[k..], "\n") == whole
    {
      ghost var rest := attrs[k + 1..];
      assert attrs[k..][1..] == rest && attrs[k..][0] == attrs[k];
      p := PutAttr(buf, p, attrs[k], After(rest, "\n"));
      k := k + 1;
      if k < |attrs| {
        ghost var before := buf[..p];
        p := PutChar(buf, p, ' ');
        Rejoin(before, [' '], ShowAttrs(rest, "\n"));
      }
    }
    assert |buf[..p] + "\n"| == p + 1;
  }

  /** `_putdevtabrec`, returning what it writes to the stream. */
  method PutRecord(e: Entry) returns (out: string)
    requires Printable(e) && (e.Device? ==> Plain(e.alias))
    ensures out == Print(e)
    ensures e.Device? && PlainEntry(e) ==>
              out == Line(e.alias, Text(e.cdevice), Text(e.bdevice), Text(e.pathname), Pairs(e.attrs) + "\n")
    ensures e.Comment? && Plain(e.text[..|e.text| - 1]) ==> out == e.text
  {
    hide Print, Plain, Pairs, Line;
    match e {
      case Comment(text) =>
        out := PutComment(text);
        if Plain(text[..|text| - 1]) {
          PlainComment(text[..|text| - 1]);
          assert text[..|text| - 1] + "\n" == text;
        }
      case Device(_, _, _, _, _) =>
        out := PutDevice(e);
        if PlainEntry(e) {
          PlainLine(e);
        }
    }
  }

  method PutComment(text: string) returns (out: string)
    requires Printable(Comment(text))
    ensures out == Print(Comment(text))
  {
    hide Escape;
    var size := |text| * 2 + 1;
    var buf := new char[size + 1];
    EscapedEnd(text);
    ghost var front := Escape(text[..|text| - 1]);
    var p := StrCatEsc(buf, 0, text);
    assert buf[..0] == [] && buf[..p] == Escape(text);
    assert buf[..p - 2] == buf[..p][..p - 2] == front;
    buf[p - 2] := '\n';
    buf[p - 1] := '\0';
    assert buf[..p - 1] == buf[..p - 2] + "\n";
    out := buf[..p - 1];
  }

  lemma EscapedEnd(text: string)
    requires Printable(Comment(text))
    ensures var front := Escape(text[..|text| - 1]);
            |Escape(text)| == |front| + 2 && Escape(text)[..|front|] == front
  {
    var front := text[..|text| - 1];
    assert text == front + "\n";
    EscapeParts(front, "\n");
    NewlineEscape();
  }

  lemma NewlineEscape()
    ensures Escape("\n") == "\\\n"
  {
  }

  /** The space a data record is given, not counting the NUL. */
  method DeviceSize(e: Entry) returns (size: nat)
    requires e.Device?
    ensures size == |e.alias| + 2 * (|Text(e.cdevice)| + |Text(e.bdevice)| + |Text(e.pathname)|) + 4
                    + (if e.attrs == [] then 1 else AttrsSize(e.attrs))
  {
    size := |e.alias| + 1;
    size := size + |Text(e.cdevice)| * 2 + 1;
    size := size + |Text(e.bdevice)| * 2 + 1;
    size := size + |Text(e.pathname)| * 2 + 1;
    ghost var fields := size;
    if e.attrs != [] {
      var k := 0;
      while k < |e.attrs|
        invariant k <= |e.attrs| && size == fields + AttrsSize(e.attrs[..k])
      {
        AttrsSizeSnoc(e.attrs, k);
        size := size + |e.attrs[k].name| * 2;
        size := size + |e.attrs[k].value| * 2 + 4;
        k := k + 1;
      }
      assert e.attrs[..k] == e.attrs;
    } else {
      size := size + 1;
    }
  }

  method PutDevice(e: Entry) returns (out: string)
    requires e.Device? && Plain(e.alias)
    ensures out == Print(e)
  {
    hide Escape, ShowAttrs, ShowField;
    var size := DeviceSize(e);
    AttrsSizeBound(e.attrs);
    ghost var attrs := ShowAttrs(e.attrs, "\n");
    ghost var paths := ShowField(Text(e.pathname), attrs);
    ghost var blocks := ShowField(Text(e.bdevice), paths);
    ghost var chars := ShowField(Text(e.cdevice), blocks);
    EscapePlain(e.alias);
    FieldSize(e.alias, chars);
    FieldSize(Text(e.cdevice), blocks);
    FieldSize(Text(e.bdevice), paths);
    FieldSize(Text(e.pathname), attrs);
    var buf := new char[size + 1];
    var p := PutField(buf, 0, e.alias, chars);
    p := PutField(buf, p, Text(e.cdevice), blocks);
    p := PutField(buf, p, Text(e.bdevice), paths);
    p := PutField(buf, p, Text(e.pathname), attrs);
    p := PutAttrs(buf, p, e.attrs);
    p := PutChar(buf, p, '\n');
    buf[p] := '\0';
    out := buf[..p];
  }

  lemma FieldSize(field: string, tail: string)
    ensures |ShowField(field, tail)| == |Escape(field)| + 1 + |tail|
  {
  }
}
