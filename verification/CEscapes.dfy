/**
 `streadd` and `strcadd`: expanding characters to C escape sequences and compressing
 them back.  Characters are unsigned bytes, strings hold no NUL, and which characters
 print is a parameter, as it depends on the locale.
 */
module CEscapes {
  type Byte = x: int | 0 <= x < 256

  const BACKSLASH: Byte := 92
  const ZERO: Byte := 48
  const SEVEN: Byte := 55

  // ----- expanding

  /** The letter of a named escape, or 0. */
  function Letter(c: Byte): Byte {
    if c == 10 then 110
    else if c == 9 then 116
    else if c == 8 then 98
    else if c == 13 then 114
    else if c == 12 then 102
    else if c == 11 then 118
    else if c == 7 then 97
    else 0
  }

  /** What one character is expanded to. */
  function Escape(c: Byte, printable: set<Byte>, except: set<Byte>): (r: seq<Byte>)
    ensures 1 <= |r| <= 4
  {
    if c !in printable && c !in except then
      if Letter(c) != 0 then [BACKSLASH, Letter(c)]
      else if c == BACKSLASH then [BACKSLASH]
      else [BACKSLASH, ZERO as int + c / 64, ZERO as int + (c / 8) % 8, ZERO as int + c % 8]
    else if c == BACKSLASH && c !in except then [BACKSLASH, BACKSLASH]
    else [c]
  }

  function Expand(s: seq<Byte>, printable: set<Byte>, except: set<Byte>): (r: seq<Byte>)
    ensures |s| <= |r| <= 4 * |s|
  {
    if s == [] then [] else Escape(s[0], printable, except) + Expand(s[1..], printable, except)
  }

  // ----- compressing

  predicate Octal(c: Byte) {
    ZERO <= c <= SEVEN
  }

  /** The character a letter stands for behind a backslash, or 0. */
  function Named(c: Byte): Byte {
    if c == 110 then 10
    else if c == 116 then 9
    else if c == 98 then 8
    else if c == 114 then 13
    else if c == 102 then 12
    else if c == 118 then 11
    else if c == 97 then 7
    else if c == BACKSLASH then BACKSLASH
    else 0
  }

  /** The number of octal digits at the start, at most n. */
  function Digits(t: seq<Byte>, n: nat): (k: nat)
    ensures k <= n && k <= |t|
  {
    if n == 0 || t == [] || !Octal(t[0]) then 0 else 1 + Digits(t[1..], n - 1)
  }

  function Value(t: seq<Byte>): nat
    requires forall i :: 0 <= i < |t| ==> Octal(t[i])
  {
    if t == [] then 0 else
      var last := t[|t| - 1];
      assert Octal(last);
      8 * Value(t[..|t| - 1]) + (last as int - ZERO as int)
  }

  lemma {:induction false} DigitsOctal(t: seq<Byte>, n: nat)
    ensures forall i :: 0 <= i < Digits(t, n) ==> Octal(t[i])
    ensures Digits(t, n) == n || Digits(t, n) == |t| || !Octal(t[Digits(t, n)])
    decreases n
  {
    if n > 0 && t != [] && Octal(t[0]) {
      DigitsOctal(t[1..], n - 1);
    }
  }

  /** One character or escape at the start: the character, and what it takes up. */
  function Take(t: seq<Byte>): (r: (Byte, nat))
    requires t != []
    ensures 1 <= r.1 <= |t|
  {
    if t[0] != BACKSLASH || |t| == 1 then (t[0], 1)
    else if Named(t[1]) != 0 then (Named(t[1]), 2)
    else if Octal(t[1]) then
      DigitsOctal(t[1..], 3);
      var k := Digits(t[1..], 3);
      (Value(t[1..][..k]) % 256, 1 + k)
    else (t[1], 2)
  }

  /** A backslash at the end is not followed by anything to take. */
  predicate Whole(t: seq<Byte>)
    decreases |t|
  {
    t == [] || (t != [BACKSLASH] && Whole(t[Take(t).1..]))
  }

  function Compress(t: seq<Byte>): seq<Byte>
    decreases |t|
  {
    if t == [] then [] else [Take(t).0] + Compress(t[Take(t).1..])
  }

  // ----- which escapes they are

  /** The seven characters from the bell to the carriage return are the ones with a letter: a, b, t, n, v, f and r. */
  lemma NamedEscapes(c: Byte)
    ensures 7 <= c <= 13 ==> Letter(c) == "abtnvfr"[c - 7] as int && Named(Letter(c)) == c
    ensures Letter(c) != 0 <==> 7 <= c <= 13
    ensures Named(c) != 0 <==> c == BACKSLASH || exists i :: 0 <= i < 7 && c == "abtnvfr"[i] as int
  {
    assert "abtnvfr"[0] == 'a' && "abtnvfr"[1] == 'b' && "abtnvfr"[2] == 't' && "abtnvfr"[3] == 'n';
    assert "abtnvfr"[4] == 'v' && "abtnvfr"[5] == 'f' && "abtnvfr"[6] == 'r';
  }

  /** Other characters that do not print are three octal digits, the most significant first. */
  lemma OctalEscapes(c: Byte, printable: set<Byte>, except: set<Byte>)
    requires c !in printable && c !in except && !(7 <= c <= 13) && c != BACKSLASH
    ensures var e := Escape(c, printable, except);
            && |e| == 4 && e[0] == BACKSLASH && Octal(e[1]) && Octal(e[2]) && Octal(e[3])
            && c as int == 64 * (e[1] as int - ZERO as int) + 8 * (e[2] as int - ZERO as int) + (e[3] as int - ZERO as int)
  {
    Eighths(c);
    NamedEscapes(c);
  }

  // ----- the round trip

  lemma NamedLetter(c: Byte)
    ensures Letter(c) != 0 ==> Named(Letter(c)) == c && !Octal(Letter(c))
  {
  }

  lemma ThreeDigits(c: Byte, rest: seq<Byte>)
    ensures var d := [ZERO as int + c / 64, ZERO as int + (c / 8) % 8, ZERO as int + c % 8];
            && Octal(d[0]) && Octal(d[1]) && Octal(d[2]) && Named(d[0]) == 0
            && Digits(d + rest, 3) == 3 && (d + rest)[..3] == d && Value(d) == c
  {
    var d := [ZERO as int + c / 64, ZERO as int + (c / 8) % 8, ZERO as int + c % 8];
    var t := d + rest;
    assert t[1..][0] == d[1] && t[1..][1..][0] == d[2];
    assert Digits(t[1..][1..], 1) == 1 && Digits(t[1..], 2) == 2;
    assert d[..2] == [d[0], d[1]] && d[..2][..1] == [d[0]] && [d[0]][..0] == [];
    assert Value([d[0]]) == c / 64;
    assert Value(d[..2]) == 8 * (c / 64) + (c / 8) % 8;
    Eighths(c);
  }

  lemma Eighths(c: Byte)
    ensures 8 * (8 * (c / 64) + (c / 8) % 8) + c % 8 == c
  {
  }

  /** What one character expands to is taken as that character, whatever follows. */
  lemma TakeEscape(c: Byte, printable: set<Byte>, except: set<Byte>, rest: seq<Byte>)
    requires c != 0 && BACKSLASH in printable && (c == BACKSLASH ==> c !in except)
    ensures Take(Escape(c, printable, except) + rest) == (c, |Escape(c, printable, except)|)
    ensures Escape(c, printable, except) + rest != [BACKSLASH]
    ensures (Escape(c, printable, except) + rest)[|Escape(c, printable, except)|..] == rest
  {
    var e := Escape(c, printable, except);
    var t := e + rest;
    if c !in printable && c !in except {
      NamedLetter(c);
      if Letter(c) == 0 {
        ThreeDigits(c, rest);
        assert t[1..] == e[1..] + rest;
      }
    }
  }

  /** Compressing undoes expanding, unless the string has a backslash that is excepted. */
  lemma {:induction false} RoundTrip(s: seq<Byte>, printable: set<Byte>, except: set<Byte>)
    requires 0 !in s && BACKSLASH in printable && (BACKSLASH in except ==> BACKSLASH !in s)
    ensures Compress(Expand(s, printable, except)) == s && Whole(Expand(s, printable, except))
  {
    hide Take, Escape;
    if s != [] {
      var rest := Expand(s[1..], printable, except);
      RoundTrip(s[1..], printable, except);
      TakeEscape(s[0], printable, except, rest);
      assert s == [s[0]] + s[1..];
    }
  }

  ghost predicate ComesBack(s: seq<Byte>, printable: set<Byte>, except: set<Byte>) {
    Compress(Expand(s, printable, except)) == s
  }

  /** A backslash and an n, with the backslash excepted, come back as a newline. */
  lemma ExceptedBackslash(printable: set<Byte>, except: set<Byte>)
    requires BACKSLASH in except && (110 in printable || 110 in except)
    ensures Compress(Expand([BACKSLASH, 110], printable, except)) == [10]
  {
    var s: seq<Byte> := [BACKSLASH, 110];
    assert s[1..] == [110] && [110][1..] == [];
    assert Expand([110], printable, except) == [110] + [];
    var e := Expand(s, printable, except);
    assert e == [BACKSLASH] + [110];
    assert Take(e) == (10, 2);
    assert e[2..] == [];
    assert Compress(e[2..]) == [];
  }

  /** So every string comes back exactly when the backslash is not excepted. */
  lemma AllComeBack(printable: set<Byte>, except: set<Byte>)
    requires BACKSLASH in printable && 110 in printable
    ensures (forall s: seq<Byte> :: 0 !in s ==> ComesBack(s, printable, except)) <==> BACKSLASH !in except
  {
    if BACKSLASH in except {
      ExceptedBackslash(printable, except);
      assert !ComesBack([BACKSLASH, 110], printable, except);
    } else {
      forall s: seq<Byte> | 0 !in s
        ensures ComesBack(s, printable, except)
      {
        RoundTrip(s, printable, except);
      }
    }
  }

  // ----- single strings

  /** The octal digits and the letters of the named escapes are written as they are, as in every locale. */
  ghost predicate PlainDigits(printable: set<Byte>, except: set<Byte>) {
    forall c: Byte :: Octal(c) || (Named(c) != 0 && c != BACKSLASH) ==> c in printable || c in except
  }

  /** Backslashes, and characters that are written as an escape, count. */
  function Mark(c: Byte, printable: set<Byte>, except: set<Byte>): nat {
    if c == BACKSLASH || (c !in printable && c !in except) then 1 else 0
  }

  function Weight(s: seq<Byte>, printable: set<Byte>, except: set<Byte>): nat {
    if s == [] then 0 else Mark(s[0], printable, except) + Weight(s[1..], printable, except)
  }

  lemma {:induction false} WeightJoin(s: seq<Byte>, t: seq<Byte>, printable: set<Byte>, except: set<Byte>)
    ensures Weight(s + t, printable, except) == Weight(s, printable, except) + Weight(t, printable, except)
  {
    if s == [] {
      assert s + t == t;
    } else {
      assert (s + t)[1..] == s[1..] + t;
      WeightJoin(s[1..], t, printable, except);
    }
  }

  function Back(s: seq<Byte>, printable: set<Byte>, except: set<Byte>): seq<Byte> {
    Compress(Expand(s, printable, except))
  }

  /** Octal digits at the start of an expansion are characters of the string. */
  lemma {:induction false} DigitsKept(s: seq<Byte>, n: nat, printable: set<Byte>, except: set<Byte>)
    requires PlainDigits(printable, except)
    ensures var t := Expand(s, printable, except);
            var k := Digits(t, n);
            k <= |s| && t[k..] == Expand(s[k..], printable, except)
    decreases n
  {
    hide Expand;
    var t := Expand(s, printable, except);
    if n > 0 && t != [] && Octal(t[0]) {
      FirstDigit(s, printable, except);
      assert t[1..] == Expand(s[1..], printable, except);
      DigitsKept(s[1..], n - 1, printable, except);
      var k := Digits(t[1..], n - 1);
      assert t[1 + k..] == t[1..][k..] && s[1 + k..] == s[1..][k..];
    }
  }

  lemma FirstDigit(s: seq<Byte>, printable: set<Byte>, except: set<Byte>)
    requires s != [] && Octal(Expand(s, printable, except)[0])
    ensures Expand(s, printable, except) == [s[0]] + Expand(s[1..], printable, except)
  {
    assert Expand(s, printable, except)[0] == Escape(s[0], printable, except)[0];
  }

  /** An excepted backslash, with what it takes: h comes back for the first n characters, with less weight or shorter. */
  lemma BackslashBack(s: seq<Byte>, printable: set<Byte>, except: set<Byte>) returns (h: seq<Byte>, n: nat)
    requires |s| >= 2 && s[0] == BACKSLASH && BACKSLASH in except && PlainDigits(printable, except)
    ensures 2 <= n <= |s| && Back(s, printable, except) == h + Back(s[n..], printable, except)
    ensures Weight(h, printable, except) <= Weight(s[..n], printable, except)
    ensures Weight(h, printable, except) < Weight(s[..n], printable, except) || |h| < n
  {
    hide Expand, Compress, Escape, Mark, Weight, Octal, Named, Digits, PlainDigits;
    var c, rest := s[1], Expand(s[2..], printable, except);
    WeightTwo(s, printable, except);
    MarkRange(c, printable, except);
    ExpandTwo(s, printable, except);
    if c != BACKSLASH && Mark(c, printable, except) == 1 {
      var e := Escape(c, printable, except);
      h, n := [BACKSLASH] + e[1..], 2;
      EscapedBack(c, rest, printable, except);
      PlainWeight(e[1..], printable, except);
      WeightJoin([BACKSLASH], e[1..], printable, except);
      OneWeight(BACKSLASH, printable, except);
      MarkRange(BACKSLASH, printable, except);
    } else {
      n := PlainBack(s, printable, except);
      h := [Take(Expand(s, printable, except)).0];
      OneWeight(h[0], printable, except);
      MarkRange(h[0], printable, except);
      WeightJoin(s[..2], s[2..n], printable, except);
      assert s[..n] == s[..2] + s[2..n];
    }
  }

  lemma MarkRange(c: Byte, printable: set<Byte>, except: set<Byte>)
    ensures Mark(c, printable, except) <= 1 && Mark(BACKSLASH, printable, except) == 1
  {
  }

  /** A backslash before a character that is written as it is: one character comes back for both, or for more. */
  lemma PlainBack(s: seq<Byte>, printable: set<Byte>, except: set<Byte>) returns (n: nat)
    requires |s| >= 2 && s[0] == BACKSLASH && BACKSLASH in except && PlainDigits(printable, except)
    requires s[1] == BACKSLASH || Mark(s[1], printable, except) == 0
    ensures 2 <= n <= |s| && Back(s, printable, except) == [Take(Expand(s, printable, except)).0] + Back(s[n..], printable, except)
  {
    hide Expand, Value, PlainDigits, Digits, Named;
    var t, u := Expand(s, printable, except), Expand(s[1..], printable, except);
    ExpandTwo(s, printable, except);
    assert Escape(s[1], printable, except) == [s[1]];
    assert t == [BACKSLASH] + u && t[1..] == u && t[1] == s[1];
    var k := Take(t).1;
    if Named(s[1]) == 0 && Octal(s[1]) {
      DigitsKept(s[1..], 3, printable, except);
      n := k;
      SomeDigit(u);
      assert t[k..] == u[k - 1..] && s[1..][k - 1..] == s[k..];
    } else {
      n := 2;
      assert t[2..] == Expand(s[2..], printable, except);
    }
  }

  lemma SomeDigit(u: seq<Byte>)
    requires u != [] && Octal(u[0])
    ensures Digits(u, 3) >= 1
  {
  }

  lemma ExpandTwo(s: seq<Byte>, printable: set<Byte>, except: set<Byte>)
    requires |s| >= 2 && s[0] == BACKSLASH && BACKSLASH in except
    ensures var e, rest := Escape(s[1], printable, except), Expand(s[2..], printable, except);
            && Expand(s, printable, except) == [BACKSLASH] + e + rest
            && Expand(s[1..], printable, except) == e + rest
  {
    assert s[1..][1..] == s[2..];
  }

  lemma WeightTwo(s: seq<Byte>, printable: set<Byte>, except: set<Byte>)
    requires |s| >= 2 && s[0] == BACKSLASH
    ensures Weight(s[..2], printable, except) == 1 + Mark(s[1], printable, except)
  {
    assert s[..2] == [s[0]] + [s[1]];
    WeightJoin([s[0]], [s[1]], printable, except);
    OneWeight(s[0], printable, except);
    OneWeight(s[1], printable, except);
  }

  lemma OneWeight(c: Byte, printable: set<Byte>, except: set<Byte>)
    ensures Weight([c], printable, except) == Mark(c, printable, except)
  {
    assert [c][1..] == [];
  }

  /** The escape of a character behind a backslash: two backslashes, and the rest as it is. */
  lemma EscapedBack(c: Byte, rest: seq<Byte>, printable: set<Byte>, except: set<Byte>)
    requires c != BACKSLASH && Mark(c, printable, except) == 1
    ensures var e := Escape(c, printable, except);
            && e[0] == BACKSLASH && (forall i :: 1 <= i < |e| ==> Octal(e[i]) || (Named(e[i]) != 0 && e[i] != BACKSLASH))
            && Compress([BACKSLASH] + e + rest) == [BACKSLASH] + e[1..] + Compress(rest)
  {
    var e := Escape(c, printable, except);
    NamedLetter(c);
    var t := [BACKSLASH] + e + rest;
    assert Take(t) == (BACKSLASH, 2) && t[2..] == e[1..] + rest;
    Literals(e[1..], rest);
    assert [BACKSLASH] + (e[1..] + Compress(rest)) == [BACKSLASH] + e[1..] + Compress(rest);
  }

  lemma {:induction false} Literals(s: seq<Byte>, rest: seq<Byte>)
    requires BACKSLASH !in s
    ensures Compress(s + rest) == s + Compress(rest)
  {
    if s == [] {
      assert s + rest == rest;
    } else {
      assert (s + rest)[1..] == s[1..] + rest;
      Literals(s[1..], rest);
    }
  }

  lemma {:induction false} PlainWeight(s: seq<Byte>, printable: set<Byte>, except: set<Byte>)
    requires PlainDigits(printable, except)
    requires forall i :: 0 <= i < |s| ==> Octal(s[i]) || (Named(s[i]) != 0 && s[i] != BACKSLASH)
    ensures Weight(s, printable, except) == 0
  {
    if s != [] {
      PlainWeight(s[1..], printable, except);
    }
  }

  /** What comes back is no heavier, and if as heavy no longer; with a backslash before the end, one of both is strict. */
  lemma {:induction false} Lighter(s: seq<Byte>, printable: set<Byte>, except: set<Byte>)
    requires 0 !in s && BACKSLASH in except && BACKSLASH in printable && PlainDigits(printable, except)
    ensures var b := Back(s, printable, except);
            var v, w := Weight(b, printable, except), Weight(s, printable, except);
            && v <= w && (v == w ==> |b| <= |s|)
            && ((exists i :: 0 <= i < |s| - 1 && s[i] == BACKSLASH) ==> v < w || |b| < |s|)
    decreases |s|
  {
    hide Compress, Take, Escape, Weight, Mark;
    if s == [] || s == [BACKSLASH] {
      LastBack(s, printable, except);
    } else {
      var h, n;
      if s[0] == BACKSLASH {
        h, n := BackslashBack(s, printable, except);
      } else {
        h, n := s[..1], 1;
        OtherBack(s, printable, except);
      }
      Lighter(s[n..], printable, except);
      WeightJoin(h, Back(s[n..], printable, except), printable, except);
      WeightJoin(s[..n], s[n..], printable, except);
      assert s == s[..n] + s[n..];
      if i :| 0 <= i < |s| - 1 && s[i] == BACKSLASH && s[0] != BACKSLASH {
        assert s[n..][i - 1] == BACKSLASH;
      }
    }
  }

  lemma LastBack(s: seq<Byte>, printable: set<Byte>, except: set<Byte>)
    requires (s == [] || s == [BACKSLASH]) && BACKSLASH in except
    ensures Back(s, printable, except) == s
  {
    assert Expand([], printable, except) == [] && Compress([]) == [];
    if s != [] {
      assert s[1..] == [] && [BACKSLASH] + [] == s && Expand(s, printable, except) == s;
      assert Take(s) == (BACKSLASH, 1) && Compress(s) == [BACKSLASH] + Compress([]);
    }
  }

  lemma OtherBack(s: seq<Byte>, printable: set<Byte>, except: set<Byte>)
    requires s != [] && s[0] != BACKSLASH && s[0] != 0 && BACKSLASH in printable
    ensures Back(s, printable, except) == s[..1] + Back(s[1..], printable, except)
  {
    hide Take, Escape;
    TakeEscape(s[0], printable, except, Expand(s[1..], printable, except));
  }

  /** A string that does not end in a backslash comes back exactly when it has no excepted one. */
  lemma OneComesBack(s: seq<Byte>, printable: set<Byte>, except: set<Byte>)
    requires 0 !in s && BACKSLASH in printable && PlainDigits(printable, except)
    requires s != [] ==> s[|s| - 1] != BACKSLASH
    ensures ComesBack(s, printable, except) <==> (BACKSLASH in except ==> BACKSLASH !in s)
  {
    if BACKSLASH in except && BACKSLASH in s {
      Lighter(s, printable, except);
    } else {
      RoundTrip(s, printable, except);
    }
  }

  // ----- the code

  /** `streadd`: the position of the NUL it ends the output with. */
  method StrEAdd(out: array<Byte>, pin: seq<Byte>, printable: set<Byte>, except: set<Byte>) returns (pout: nat)
    requires 0 !in pin && |Expand(pin, printable, except)| < out.Length
    modifies out
    ensures pout < out.Length && out[..pout] == Expand(pin, printable, except) && out[pout] == 0
  {
    hide Escape, Expand;
    pout := 0;
    var i := 0;
    ExpandParts(pin, 0, printable, except);
    while i < |pin|
      invariant i <= |pin| && pout == |Expand(pin[..i], printable, except)| && pout <= out.Length
      invariant out[..pout] == Expand(pin[..i], printable, except)
    {
      ExpandParts(pin, i, printable, except);
      ExpandParts(pin, i + 1, printable, except);
      pout := PutEscape(out, pout, pin[i], printable, except);
      i := i + 1;
    }
    assert pin[..i] == pin;
    out[pout] := 0;
  }

  /** One turn of the loop. */
  method PutEscape(out: array<Byte>, pout0: nat, c: Byte, printable: set<Byte>, except: set<Byte>) returns (pout: nat)
    requires pout0 + |Escape(c, printable, except)| <= out.Length
    modifies out
    ensures pout == pout0 + |Escape(c, printable, except)| && out[..pout] == old(out[..pout0]) + Escape(c, printable, except)
  {
    pout := pout0;
    if c !in printable && c !in except {
      out[pout] := BACKSLASH;
      pout := pout + 1;
      if Letter(c) != 0 {
        out[pout] := Letter(c);
        pout := pout + 1;
      } else if c != BACKSLASH {
        out[pout], out[pout + 1], out[pout + 2] := ZERO as int + c / 64, ZERO as int + (c / 8) % 8, ZERO as int + c % 8;
        pout := pout + 3;
      }
      return;
    }
    if c == BACKSLASH && c !in except {
      out[pout] := BACKSLASH;
      pout := pout + 1;
    }
    out[pout] := c;
    pout := pout + 1;
  }

  /** The expansion of a prefix, and of one character more. */
  lemma {:induction false} ExpandJoin(s: seq<Byte>, t: seq<Byte>, printable: set<Byte>, except: set<Byte>)
    ensures Expand(s + t, printable, except) == Expand(s, printable, except) + Expand(t, printable, except)
  {
    hide Escape, Expand;
    if s == [] {
      assert s + t == t;
      ExpandCons([], printable, except);
      assert [] + Expand(t, printable, except) == Expand(t, printable, except);
    } else {
      ExpandJoin(s[1..], t, printable, except);
      assert (s + t)[1..] == s[1..] + t;
      ExpandCons(s, printable, except);
      ExpandCons(s + t, printable, except);
      var e, a, b := Escape(s[0], printable, except), Expand(s[1..], printable, except), Expand(t, printable, except);
      assert e + (a + b) == e + a + b;
    }
  }

  lemma ExpandCons(s: seq<Byte>, printable: set<Byte>, except: set<Byte>)
    ensures Expand(s, printable, except) == if s == [] then [] else Escape(s[0], printable, except) + Expand(s[1..], printable, except)
  {
  }

  lemma ExpandParts(s: seq<Byte>, i: nat, printable: set<Byte>, except: set<Byte>)
    requires i <= |s|
    ensures |Expand(s[..i], printable, except)| <= |Expand(s, printable, except)|
    ensures i == 0 ==> Expand(s[..i], printable, except) == []
    ensures i < |s| ==>
              Expand(s[..i + 1], printable, except) == Expand(s[..i], printable, except) + Escape(s[i], printable, except)
  {
    hide Escape;
    ExpandJoin(s[..i], s[i..], printable, except);
    assert s == s[..i] + s[i..];
    if i < |s| {
      ExpandJoin(s[..i], [s[i]], printable, except);
      assert s[..i + 1] == s[..i] + [s[i]];
      assert Expand([s[i]], printable, except) == Escape(s[i], printable, except) + [];
    }
  }

  /** `strcadd`, for a string without a backslash at its end. */
  method StrCAdd(out: array<Byte>, pin: seq<Byte>) returns (pout: nat)
    requires 0 !in pin && Whole(pin) && |pin| < out.Length
    modifies out
    ensures pout < out.Length && out[..pout] == Compress(pin) && out[pout] == 0
  {
    hide Take, Compress, Whole;
    pout := 0;
    var i := 0;
    assert pin[0..] == pin;
    while i < |pin|
      invariant pout <= i <= |pin| && Whole(pin[i..])
      invariant out[..pout] + Compress(pin[i..]) == Compress(pin)
      decreases |pin| - i
    {
      ghost var t := pin[i..];
      ghost var done := out[..pout];
      Taken(t);
      assert t[Take(t).1..] == pin[i + Take(t).1..];
      var c;
      c, i := TakeOne(pin, i);
      out[pout] := c;
      pout := pout + 1;
      assert out[..pout] == done + [c];
      assert done + ([c] + Compress(pin[i..])) == done + [c] + Compress(pin[i..]);
    }
    out[pout] := 0;
    assert pin[i..] == [] && Compress([]) == [] by {
      NoneTaken();
    }
    assert out[..pout] + [] == out[..pout];
  }

  lemma Taken(t: seq<Byte>)
    requires t != [] && Whole(t)
    ensures t != [BACKSLASH] && Compress(t) == [Take(t).0] + Compress(t[Take(t).1..]) && Whole(t[Take(t).1..])
  {
  }

  lemma NoneTaken()
    ensures Compress([]) == []
  {
  }

  /** The character at position i, with its escape. */
  method TakeOne(pin: seq<Byte>, i0: nat) returns (c: Byte, i: nat)
    requires i0 < |pin| && pin[i0..] != [BACKSLASH]
    ensures c == Take(pin[i0..]).0 && i == i0 + Take(pin[i0..]).1
  {
    ghost var t := pin[i0..];
    c := pin[i0];
    i := i0 + 1;
    if c != BACKSLASH {
      return;
    }
    c := pin[i];
    i := i + 1;
    assert t[1] == c;
    if Named(c) != 0 {
      c := Named(c);
    } else if Octal(c) {
      DigitsOctal(t[1..], 3);
      var wd := c as int - ZERO as int;
      var count := 0;
      assert t[1..][..1] == [c] && [c][..0] == [];
      while i < |pin| && Octal(pin[i]) && count < 2
        invariant count <= 2 && i == i0 + 2 + count && i <= |pin| && count + 1 <= Digits(t[1..], 3)
        invariant wd == Value(t[1..][..count + 1])
        decreases 2 - count
      {
        DigitsMore(t[1..], count + 1, 3);
        ValueSnoc(t[1..], count + 1);
        wd := 8 * wd + (pin[i] as int - ZERO as int);
        i := i + 1;
        count := count + 1;
      }
      if i < |pin| {
        assert pin[i] == t[1..][count + 1];
      }
      c := wd % 256;
    }
  }

  lemma {:induction false} DigitsMore(t: seq<Byte>, k: nat, n: nat)
    requires k < n && k < |t| && k <= Digits(t, n) && Octal(t[k])
    ensures k + 1 <= Digits(t, n)
  {
    DigitsOctal(t, n);
  }

  lemma ValueSnoc(t: seq<Byte>, k: nat)
    requires k < |t| && forall i :: 0 <= i <= k ==> Octal(t[i])
    ensures Value(t[..k + 1]) == 8 * Value(t[..k]) + (t[k] as int - ZERO as int)
  {
    assert t[..k + 1][..k] == t[..k];
  }
}
