/**
 `compile` of regexp.h: fills a buffer with byte code while it reads the pattern
 once, going back only to set repetition flags and class bits in place.
 */
module RegexpCompile {
  import opened Prelude
  import opened Regexp
  import opened RegexpCode
  import opened RegexpSyntax

  // ----- bits in place

  /** `b | bittab[k]`. */
  function SetBit(b: Byte, k: int): (r: Byte)
    requires 0 <= k < 8
  {
    if HasBit(b, k) then b
    else
      RoomForBit(b, Bittab(k));
      b + Bittab(k)
  }

  lemma RoomForBit(b: Byte, t: Byte)
    requires t in {1, 2, 4, 8, 16, 32, 64, 128} && (b / t) % 2 == 0
    ensures b + t < 256
  {
    var n :=
      if t == 1 then 256 else if t == 2 then 128 else if t == 4 then 64 else if t == 8 then 32
      else if t == 16 then 16 else if t == 32 then 8 else if t == 64 then 4 else 2;
    EvenQuotient(b, t, n);
  }

  lemma EvenQuotient(b: int, t: int, n: int)
    requires t > 0 && t * n == 256 && 0 <= b < 256 && (b / t) % 2 == 0 && n % 2 == 0
    ensures b + t < 256
  {
    var q := b / t;
    assert t * q <= b < t * q + t;
    if q >= n {
      Times(t, n, q);
    } else {
      Times(t, q + 2, n);
      assert t * (q + 2) == t * q + 2 * t;
    }
  }

  lemma Times(t: int, a: int, b: int)
    requires t > 0 && a <= b
    ensures t * a <= t * b
  {
  }

  /** `op |= STAR` and `op |= RNGE`. */
  function SetStar(op: Byte): Byte {
    if op % 2 == 0 then op + 1 else op
  }

  function SetRange(op: Byte): (r: Byte) {
    op - op % 4 + 3
  }

  lemma PlaceByte(s: set<Byte>, c: Byte, i: int)
    requires 0 <= i < 32
    ensures MapByte(s + {c}, i) == if i == c / 8 then SetBit(MapByte(s, i), c % 8) else MapByte(s, i)
  {
    hide MapByte, HasBit, Bittab;
    MapBit(s, c);
    if i == c / 8 {
      SameByte(s, i, c % 8);
    } else {
      OtherByte(s, c, i);
    }
  }

  lemma SameByte(s: set<Byte>, i: int, k: int)
    requires 0 <= i < 32 && 0 <= k < 8
    ensures MapByte(s + {8 * i + k}, i) == MapByte(s, i) + (if Bit(s, 8 * i + k) == 0 then Bittab(k) else 0)
  {
    hide Bit, Bittab;
    BitAdded(s, 8 * i + k);
    Bittabs();
  }

  lemma OtherByte(s: set<Byte>, c: Byte, i: int)
    requires 0 <= i < 32 && i != c / 8
    ensures MapByte(s + {c}, i) == MapByte(s, i)
  {
    hide Bit;
    BitAdded(s, c);
  }

  lemma Bittabs()
    ensures Bittab(0) == 1 && Bittab(1) == 2 && Bittab(2) == 4 && Bittab(3) == 8
    ensures Bittab(4) == 16 && Bittab(5) == 32 && Bittab(6) == 64 && Bittab(7) == 128
  {
  }

  lemma BitAdded(s: set<Byte>, c: Byte)
    ensures Bit(s + {c}, c) == 1
    ensures forall j :: j != c ==> Bit(s + {c}, j) == Bit(s, j)
  {
  }

  lemma BitRemoved(s: set<Byte>, c: Byte)
    ensures Bit(s - {c}, c) == 0
    ensures forall j :: j != c ==> Bit(s - {c}, j) == Bit(s, j)
  {
  }

  /** The n bytes from ep on are the bit map of `members`. */
  ghost predicate MapAt(b: seq<Byte>, ep: nat, n: nat, members: set<Byte>) {
    ep + n <= |b| && forall i :: 0 <= i < n ==> b[ep + i] == MapByte(members, i)
  }

  /** `PLACE(c)`. */
  method Place(buf: array<Byte>, ep: nat, c: Byte, ghost n: nat, ghost members: set<Byte>)
    requires n <= 32 && c / 8 < n && MapAt(buf[..], ep, n, members)
    modifies buf
    ensures MapAt(buf[..], ep, n, members + {c}) && buf[..ep] == old(buf[..ep])
  {
    hide MapByte, SetBit;
    forall i | 0 <= i < 32
      ensures MapByte(members + {c}, i) == if i == c / 8 then SetBit(MapByte(members, i), c % 8) else MapByte(members, i)
    {
      PlaceByte(members, c, i);
    }
    ghost var b := buf[..];
    assert b[ep + c / 8] == MapByte(members, c / 8);
    buf[ep + c / 8] := SetBit(buf[ep + c / 8], c % 8);
  }

  /** The switch to a 32-byte map at the first character with the high bit set. */
  method Widen(buf: array<Byte>, ep: nat, ghost members: set<Byte>)
    requires 1 <= ep && ep + 32 <= buf.Length && MapAt(buf[..], ep, 16, members) && !Wide(members)
    modifies buf
    ensures MapAt(buf[..], ep, 32, members) && buf[ep - 1] == CXCL && buf[..ep - 1] == old(buf[..ep - 1])
  {
    buf[ep - 1] := CXCL;
    var i := 16;
    while i < 32
      invariant 16 <= i <= 32
      invariant buf[ep - 1] == CXCL && buf[..ep - 1] == old(buf[..ep - 1])
      invariant MapAt(buf[..], ep, i, members)
    {
      EmptyByte(members, i);
      buf[ep + i] := 0;
      i := i + 1;
    }
  }

  lemma EmptyByte(members: set<Byte>, i: int)
    requires !Wide(members) && 16 <= i < 32
    ensures MapByte(members, i) == 0
  {
  }

  lemma NoMembers(i: int)
    ensures MapByte({}, i) == 0
  {
  }

  ghost function Others(members: set<Byte>): set<Byte> {
    set c: Byte | 0 <= c < 256 && c !in members
  }

  lemma ComplementByte(members: set<Byte>, i: int)
    requires 0 <= i < 32
    ensures MapByte(Others(members), i) == 255 - MapByte(members, i)
  {
    hide Bit, Others;
    var k := 8 * i;
    OtherBit(members, k);
    OtherBit(members, k + 1);
    OtherBit(members, k + 2);
    OtherBit(members, k + 3);
    OtherBit(members, k + 4);
    OtherBit(members, k + 5);
    OtherBit(members, k + 6);
    OtherBit(members, k + 7);
  }

  lemma OtherBit(members: set<Byte>, c: int)
    requires 0 <= c < 256
    ensures Bit(Others(members), c) == 1 - Bit(members, c)
  {
  }

  lemma Complement(members: set<Byte>)
    ensures forall i :: 0 <= i < 32 ==> MapByte(Others(members), i) == 255 - MapByte(members, i)
  {
    forall i | 0 <= i < 32
      ensures MapByte(Others(members), i) == 255 - MapByte(members, i)
    {
      ComplementByte(members, i);
    }
  }

  /** Clearing and setting the bit of NUL. */
  lemma NulBit(members: set<Byte>)
    ensures MapByte(members - {0}, 0) == MapByte(members, 0) - MapByte(members, 0) % 2
    ensures MapByte(members + {0}, 0) == SetBit(MapByte(members, 0), 0)
    ensures forall i :: 0 < i < 32 ==> MapByte(members - {0}, i) == MapByte(members + {0}, i) == MapByte(members, i)
  {
    hide Bit, SetBit;
    PlaceByte(members, 0, 0);
    BitAdded(members, 0);
    BitRemoved(members, 0);
    assert MapByte(members, 0) % 2 == Bit(members, 0);
  }

  lemma MarkedWide(members: set<Byte>)
    requires Wide(members)
    ensures Marked(true, members) == Others(members) - {0}
  {
  }

  lemma MarkedNarrow(members: set<Byte>)
    requires !Wide(members)
    ensures Marked(true, members) == members + {0}
  {
  }

  /** `ep[cclcnt] ^= 0377` for all 32 bytes. */
  method FlipAll(buf: array<Byte>, ep: nat, ghost members: set<Byte>)
    requires 1 <= ep && MapAt(buf[..], ep, 32, members)
    modifies buf
    ensures MapAt(buf[..], ep, 32, Others(members)) && buf[..ep] == old(buf[..ep])
  {
    hide MapByte, Others;
    Complement(members);
    ghost var b := buf[..];
    var i := 0;
    while i < 32
      invariant 0 <= i <= 32 && buf[..ep] == b[..ep]
      invariant forall j :: 0 <= j < i ==> buf[ep + j] == MapByte(Others(members), j)
      invariant forall j :: ep + i <= j < ep + 32 ==> buf[j] == b[j]
    {
      assert b[ep + i] == MapByte(members, i);
      buf[ep + i] := 255 - buf[ep + i];
      i := i + 1;
    }
  }

  /** What `[^` does to the finished map. */
  method Negate(buf: array<Byte>, ep: nat, wide: bool, ghost members: set<Byte>)
    requires 1 <= ep && wide == Wide(members) && 0 !in members
    requires MapAt(buf[..], ep, if wide then 32 else 16, members)
    modifies buf
    ensures MapAt(buf[..], ep, if wide then 32 else 16, Marked(true, members))
    ensures buf[..ep - 1] == old(buf[..ep - 1])
    ensures buf[ep - 1] == if wide then old(buf[ep - 1]) else NCCL
  {
    hide MapByte, Marked, Wide, Others, SetBit;
    ghost var b := buf[..];
    if wide {
      MarkedWide(members);
      NulBit(Others(members));
      FlipAll(buf, ep, members);
      assert buf[ep + 0] == MapByte(Others(members), 0) && buf[..ep - 1] == buf[..ep][..ep - 1] && buf[ep - 1] == buf[..ep][ep - 1];
      buf[ep] := buf[ep] - buf[ep] % 2;
    } else {
      MarkedNarrow(members);
      NulBit(members);
      assert buf[ep + 0] == MapByte(members, 0);
      buf[ep - 1] := NCCL;
      buf[ep] := SetBit(buf[ep], 0);
    }
  }

  /** No error, or the number ERROR was called with. */
  datatype Status = Fine | Failed(code: ErrorCode)

  /** The buffer check of `compile`. */
  const NO_SPACE: ErrorCode := 50

  /** `while(lc < c) { PLACE(lc); lc++; }`. */
  method PlaceInterval(buf: array<Byte>, ep: nat, lc0: Byte, c: Byte, ghost n: nat, ghost members: set<Byte>)
    requires n <= 32 && c / 8 < n && ep <= buf.Length && MapAt(buf[..], ep, n, members)
    modifies buf
    ensures MapAt(buf[..], ep, n, members + Interval(lc0, c)) && buf[..ep] == old(buf[..ep])
  {
    hide MapAt;
    var lc := lc0;
    assert members + Interval(lc0, lc) == members;
    while lc < c
      invariant lc0 <= lc && (lc <= c || lc == lc0)
      invariant MapAt(buf[..], ep, n, members + Interval(lc0, lc)) && buf[..ep] == old(buf[..ep])
    {
      Place(buf, ep, lc, n, members + Interval(lc0, lc));
      assert members + Interval(lc0, lc + 1) == members + Interval(lc0, lc) + {lc};
      lc := lc + 1;
    }
    assert members + Interval(lc0, c) == members + Interval(lc0, lc);
  }

  /** The loop over the members of a bracket expression; the opcode is at ep - 1, the map at ep. */
  method ClassLoop(p: Text, sp0: nat, c0: Byte, buf: array<Byte>, ep: nat, endbuf: nat)
    returns (r: Status, sp: nat, wide: bool, ghost members: set<Byte>)
    requires sp0 <= |p| + 1 && (sp0 == |p| + 1 ==> c0 == 0) && endbuf <= buf.Length && 1 <= ep <= endbuf
    requires MapAt(buf[..], ep, 16, {}) && buf[ep - 1] == CCL
    requires ClassFrom(p, sp0, c0, 0, {}) != ClassOutside
    modifies buf
    ensures buf[..ep - 1] == old(buf[..ep - 1])
    ensures r.Failed? ==> (r.code == NO_SPACE && endbuf <= ep + 32) || ClassFrom(p, sp0, c0, 0, {}) == BadClass(r.code)
    ensures r.Fine? ==>
              && ClassFrom(p, sp0, c0, 0, {}) == Members(members, sp) && 0 !in members
              && wide == Wide(members) && (wide ==> ep + 32 < endbuf)
              && MapAt(buf[..], ep, if wide then 32 else 16, members)
              && buf[ep - 1] == if wide then CXCL else CCL
  {
    hide MapAt, MapByte, Map;
    sp := sp0;
    var c, lc: Byte := c0, 0;
    members := {};
    wide := false;
    ghost var parse := ClassFrom(p, sp, c, 0, {});
    while true
      invariant sp <= |p| + 1 && (sp == |p| + 1 ==> c == 0)
      invariant ClassFrom(p, sp, c, lc, members) == parse && 0 !in members
      invariant wide == Wide(members) && (wide ==> ep + 32 < endbuf)
      invariant MapAt(buf[..], ep, if wide then 32 else 16, members)
      invariant buf[ep - 1] == if wide then CXCL else CCL
      invariant buf[..ep - 1] == old(buf[..ep - 1])
      decreases |p| + 1 - sp
    {
      if c == 0 || c == NEWLINE {
        r := Failed(49);
        return;
      }
      if c >= 128 && !wide {
        if ep + 32 >= endbuf {
          r := Failed(NO_SPACE);
          return;
        }
        Widen(buf, ep, members);
        wide := true;
      }
      if c == HYPHEN && lc != 0 {
        c := At(p, sp);
        sp := sp + 1;
        if c == RBRACKET {
          Place(buf, ep, HYPHEN, if wide then 32 else 16, members);
          members := members + {HYPHEN};
          break;
        }
        if c >= 128 && !wide {
          if ep + 32 >= endbuf {
            r := Failed(NO_SPACE);
            return;
          }
          Widen(buf, ep, members);
          wide := true;
        }
        PlaceInterval(buf, ep, lc, c, if wide then 32 else 16, members);
        members := members + Interval(lc, c);
      }
      lc := c;
      Place(buf, ep, c, if wide then 32 else 16, members);
      members := members + {c};
      c := At(p, sp);
      sp := sp + 1;
      if c == RBRACKET {
        break;
      }
    }
    r := Fine;
  }

  /** `[`: sp is behind the bracket, ep where the opcode goes. */
  method CompileClass(p: Text, sp0: nat, buf: array<Byte>, ep0: nat, endbuf: nat)
    returns (r: Status, sp: nat, ep: nat, ghost negated: bool, ghost members: set<Byte>)
    requires sp0 <= |p| && ep0 <= endbuf <= buf.Length
    requires var sp1 := if At(p, sp0) == CARET then sp0 + 1 else sp0;
             ClassFrom(p, sp1 + 1, At(p, sp1), 0, {}) != ClassOutside
    modifies buf
    ensures buf[..ep0] == old(buf[..ep0]) && negated == (At(p, sp0) == CARET)
    ensures var sp1 := if negated then sp0 + 1 else sp0;
            var parse := ClassFrom(p, sp1 + 1, At(p, sp1), 0, {});
            match r
            case Failed(e) => (e == NO_SPACE && endbuf <= ep0 + 33) || parse == BadClass(e)
            case Fine =>
              && parse == Members(members, sp) && 0 !in members && ep0 + 17 <= ep <= ep0 + 33 && ep <= endbuf
              && buf[ep0..ep] == EncodeNode(Item(Class(negated, members), One))
  {
    hide MapAt, MapByte, Map, ClassFrom, EncodeNode, Wide, Interval;
    sp, ep := sp0, ep0;
    negated := At(p, sp0) == CARET;
    members := {};
    if ep + 17 >= endbuf {
      r := Failed(NO_SPACE);
      return;
    }
    buf[ep] := CCL;
    ep := ep + 1;
    ghost var before := buf[..ep];
    ClearMap(buf, ep);
    assert buf[..ep0] == buf[..ep][..ep0] == before[..ep0] == old(buf[..ep0]) && buf[ep0] == buf[..ep][ep0];
    var neg := false;
    var c := At(p, sp);
    sp := sp + 1;
    if c == CARET {
      neg := true;
      c := At(p, sp);
      sp := sp + 1;
    }
    var wide;
    r, sp, wide, members := ClassLoop(p, sp, c, buf, ep, endbuf);
    if r.Failed? {
      return;
    }
    var n := if wide then 32 else 16;
    if neg {
      Negate(buf, ep, wide, members);
    }
    ClassCode(buf[..], ep0, wide, neg, members);
    ep := ep + n;
  }

  lemma ClassCode(b: seq<Byte>, ep0: nat, wide: bool, negated: bool, members: set<Byte>)
    requires wide == Wide(members) && 0 !in members
    requires MapAt(b, ep0 + 1, if wide then 32 else 16, Marked(negated, members))
    requires b[ep0] == Base(Class(negated, members))
    ensures b[ep0..ep0 + 1 + (if wide then 32 else 16)] == EncodeNode(Item(Class(negated, members), One))
  {
    hide MapByte, Marked;
    var n := if wide then 32 else 16;
    var m := Map(Marked(negated, members), n);
    assert b[ep0 + 1..ep0 + 1 + n] == m by {
      forall i | 0 <= i < n
        ensures b[ep0 + 1..ep0 + 1 + n][i] == m[i]
      {
        assert b[ep0 + 1 + i] == m[i];
      }
    }
  }

  method ClearMap(buf: array<Byte>, ep: nat)
    requires ep + 16 <= buf.Length
    modifies buf
    ensures MapAt(buf[..], ep, 16, {}) && buf[..ep] == old(buf[..ep])
  {
    var i := 0;
    while i < 16
      invariant 0 <= i <= 16 && MapAt(buf[..], ep, i, {}) && buf[..ep] == old(buf[..ep])
    {
      NoMembers(i);
      buf[ep + i] := 0;
      i := i + 1;
    }
  }

  // ----- ranges

  /** The digits of a bound, up to the backslash or comma that ends it. */
  method ReadNumber(p: Text, sp0: nat) returns (r: Status, i: nat, c: Byte, sp: nat)
    requires sp0 <= |p|
    ensures match NumberFrom(p, sp0, 0)
            case BadNumber(e) => r == Failed(e)
            case Number(n, end, sp') => r == Fine && i == n && c == end && sp == sp'
  {
    sp := sp0;
    c := At(p, sp);
    sp := sp + 1;
    i := 0;
    while true
      invariant sp0 < sp <= |p| + 1 && c == At(p, sp - 1)
      invariant NumberFrom(p, sp - 1, i) == NumberFrom(p, sp0, 0)
      decreases |p| + 1 - sp
    {
      if !Digit(c) {
        return Failed(16), i, c, sp;
      }
      i := 10 * i + c - ZERO;
      c := At(p, sp);
      sp := sp + 1;
      if c == BACKSLASH || c == COMMA {
        break;
      }
    }
    if i >= 255 {
      return Failed(11), i, c, sp;
    }
    r := Fine;
  }

  /** The two bytes of a range, sp being behind `\{`. */
  method CompileRange(p: Text, sp0: nat, buf: array<Byte>, ep0: nat) returns (r: Status, sp: nat, ep: nat)
    requires sp0 <= |p| && ep0 + 2 <= buf.Length
    modifies buf
    ensures buf[..ep0] == old(buf[..ep0])
    ensures match RangeFrom(p, sp0)
            case BadRange(e) => r == Failed(e)
            case Bounded(low, high, sp') => r == Fine && sp == sp' && ep == ep0 + 2 && buf[ep0] == low && buf[ep0 + 1] == high
  {
    hide NumberFrom;
    ep := ep0;
    var i, c;
    r, i, c, sp := ReadNumber(p, sp0);
    if r.Failed? {
      return;
    }
    buf[ep] := i;
    ep := ep + 1;
    var cflg := 0;
    if c == COMMA {
      cflg := 1;
      c := At(p, sp);
      if c == BACKSLASH {
        sp := sp + 1;
        buf[ep] := 255;
        ep := ep + 1;
      } else {
        r, i, c, sp := ReadNumber(p, sp);
        if r.Failed? {
          return;
        }
        buf[ep] := i;
        ep := ep + 1;
        if c == COMMA {
          r := Failed(44);
          return;
        }
      }
    }
    c := At(p, sp);
    sp := sp + 1;
    if c != RBRACE {
      r := Failed(45);
    } else if cflg == 0 {
      buf[ep] := i;
      ep := ep + 1;
    } else if buf[ep - 1] < buf[ep - 2] {
      r := Failed(46);
    }
  }

  // ----- the code emitted so far

  /** buf[..ep] is the code of `nodes`, and lastep, if any, points to the last opcode (-1 for a null pointer). */
  ghost predicate Emitted(b: seq<Byte>, ep: nat, lastep: int, nodes: seq<Node>) {
    && WellFormed(nodes) && ep <= |b| && b[..ep] == EncodeAll(nodes)
    && lastep == (if nodes == [] then -1 else Offset(nodes, |nodes| - 1))
  }

  lemma EncodeSnoc(nodes: seq<Node>, x: Node)
    requires WellFormed(nodes) && WellFormedNode(x)
    ensures WellFormed(nodes + [x]) && EncodeAll(nodes + [x]) == EncodeAll(nodes) + EncodeNode(x)
    ensures Offset(nodes + [x], |nodes|) == |EncodeAll(nodes)|
  {
    assert (nodes + [x])[..|nodes|] == nodes;
  }

  /** Appending the code of one more node. */
  lemma EmittedSnoc(b: seq<Byte>, ep: nat, lastep: int, nodes: seq<Node>, x: Node, b': seq<Byte>, ep': nat)
    requires Emitted(b, ep, lastep, nodes) && WellFormedNode(x)
    requires ep <= ep' <= |b'| && b'[..ep] == b[..ep] && b'[ep..ep'] == EncodeNode(x)
    ensures Emitted(b', ep', ep, nodes + [x])
  {
    EncodeSnoc(nodes, x);
    assert b'[..ep'] == b'[..ep] + b'[ep..ep'];
  }

  method Emit1(buf: array<Byte>, ep: nat, op: Byte, ghost lastep: int, ghost nodes: seq<Node>, ghost x: Node)
    requires ep < buf.Length && Emitted(buf[..], ep, lastep, nodes) && WellFormedNode(x) && EncodeNode(x) == [op]
    modifies buf
    ensures Emitted(buf[..], ep + 1, ep, nodes + [x])
  {
    hide Emitted, EncodeNode;
    ghost var b := buf[..];
    buf[ep] := op;
    EmittedSnoc(b, ep, lastep, nodes, x, buf[..], ep + 1);
  }

  method Emit2(buf: array<Byte>, ep: nat, op: Byte, arg: Byte, ghost lastep: int, ghost nodes: seq<Node>, ghost x: Node)
    requires ep + 1 < buf.Length && Emitted(buf[..], ep, lastep, nodes) && WellFormedNode(x) && EncodeNode(x) == [op, arg]
    modifies buf
    ensures Emitted(buf[..], ep + 2, ep, nodes + [x])
  {
    hide Emitted, EncodeNode;
    ghost var b := buf[..];
    buf[ep] := op;
    buf[ep + 1] := arg;
    EmittedSnoc(b, ep, lastep, nodes, x, buf[..], ep + 2);
  }

  /** Setting the repetition flags of the last opcode, with the bytes of a range appended. */
  lemma EmittedRepeat(b: seq<Byte>, ep: nat, lastep: int, nodes: seq<Node>, r: Repeat, b': seq<Byte>, ep': nat)
    requires Emitted(b, ep, lastep, nodes) && Repeatable(nodes)
    requires nodes[|nodes| - 1].rep == r || !nodes[|nodes| - 1].rep.Count?
    requires r.Count? ==> r.low <= r.high && r.low < 255
    requires |b'| == |b| && ep' <= |b| && ep' == if nodes[|nodes| - 1].rep.Count? then ep else ep + |Bounds(r)|
    requires b'[lastep] == Base(nodes[|nodes| - 1].atom) + Flag(r)
    requires forall i :: 0 <= i < ep && i != lastep ==> b'[i] == b[i]
    requires ep' > ep ==> b'[ep..ep'] == Bounds(r)
    ensures Emitted(b', ep', lastep, nodes[..|nodes| - 1] + [nodes[|nodes| - 1].(rep := r)])
  {
    hide Emitted, EncodeAll, EncodeNode, Operand, Base, Bounds, Flag, WellFormed, WellFormedNode, Offset;
    var init, last := nodes[..|nodes| - 1], nodes[|nodes| - 1];
    var x := last.(rep := r);
    LastParts(b, ep, lastep, nodes);
    Repeated(last, r);
    OpFits(last.atom, last.rep);
    var op, tail := Base(last.atom) as int + Flag(last.rep), Operand(last.atom) + Bounds(last.rep);
    var more := b'[ep..ep'];
    ItemBytes(last);
    ItemBytes(x);
    assert last.rep.Count? ==> ep' == ep && more == [];
    BoundsMore(last.rep, r, more);
    Associate(Operand(last.atom), Bounds(last.rep), more);
    Splice(b, b', ep, ep', EncodeAll(init), op, b'[lastep], tail, more);
    Rebuilt(b', ep', lastep, init, x);
  }

  lemma OpFits(a: Atom, r: Repeat)
    ensures Base(a) as int + Flag(r) < 256
  {
  }

  lemma Repeated(x: Node, r: Repeat)
    requires WellFormedNode(x) && x.Item? && (r.Count? ==> r.low <= r.high && r.low < 255)
    ensures WellFormedNode(x.(rep := r))
  {
  }

  /** The code up to the last item, and that item's. */
  lemma LastParts(b: seq<Byte>, ep: nat, lastep: int, nodes: seq<Node>)
    requires Emitted(b, ep, lastep, nodes) && Repeatable(nodes)
    ensures var init, last := nodes[..|nodes| - 1], nodes[|nodes| - 1];
            && last.Item? && WellFormed(init) && WellFormedNode(last) && ep <= |b|
            && lastep == |EncodeAll(init)| && b[..ep] == EncodeAll(init) + EncodeNode(last)
  {
    hide EncodeNode;
    assert WellFormedNode(nodes[|nodes| - 1]);
    SplitLast(nodes);
    EncodeSnoc(nodes[..|nodes| - 1], nodes[|nodes| - 1]);
  }

  lemma Rebuilt(b: seq<Byte>, ep: nat, lastep: int, init: seq<Node>, x: Node)
    requires WellFormed(init) && WellFormedNode(x) && ep <= |b|
    requires lastep == |EncodeAll(init)| && b[..ep] == EncodeAll(init) + EncodeNode(x)
    ensures Emitted(b, ep, lastep, init + [x])
  {
    hide EncodeNode;
    EncodeSnoc(init, x);
  }

  lemma SplitLast(nodes: seq<Node>)
    requires nodes != []
    ensures nodes == nodes[..|nodes| - 1] + [nodes[|nodes| - 1]]
  {
  }

  lemma ItemBytes(x: Node)
    requires WellFormedNode(x) && x.Item?
    ensures EncodeNode(x) == [Base(x.atom) + Flag(x.rep)] + (Operand(x.atom) + Bounds(x.rep))
  {
  }

  lemma BoundsMore(r0: Repeat, r: Repeat, more: seq<Byte>)
    requires r0 == r || !r0.Count?
    requires more == if r0.Count? then [] else Bounds(r)
    ensures Bounds(r) == Bounds(r0) + more
  {
  }

  lemma Splice(b: seq<Byte>, b': seq<Byte>, ep: nat, ep': nat, head: seq<Byte>, op: Byte, op': Byte, tail: seq<Byte>, more: seq<Byte>)
    requires ep <= ep' <= |b| == |b'| && b[..ep] == head + ([op] + tail)
    requires b'[|head|] == op' && b'[ep..ep'] == more
    requires forall i :: 0 <= i < ep && i != |head| ==> b'[i] == b[i]
    ensures b'[..ep'] == head + ([op'] + (tail + more))
  {
    var want := head + ([op'] + (tail + more));
    forall i | 0 <= i < ep'
      ensures b'[i] == want[i]
    {
      if i < ep {
        assert b[i] == b[..ep][i];
      } else {
        assert b'[i] == b'[ep..ep'][i - ep];
      }
    }
  }

  /** What `*lastep` says about the last node. */
  lemma LastOpcode(b: seq<Byte>, ep: nat, lastep: int, nodes: seq<Node>)
    requires Emitted(b, ep, lastep, nodes)
    ensures lastep == -1 <==> nodes == []
    ensures nodes != [] ==>
              && 0 <= lastep < ep
              && (b[lastep] == CBRA <==> nodes[|nodes| - 1].Open?) && (b[lastep] == CKET <==> nodes[|nodes| - 1].Close?)
              && (nodes[|nodes| - 1].Item? ==> b[lastep] == Base(nodes[|nodes| - 1].atom) + Flag(nodes[|nodes| - 1].rep))
  {
    if nodes != [] {
      var init, last := nodes[..|nodes| - 1], nodes[|nodes| - 1];
      SplitLast(nodes);
      assert WellFormedNode(last);
      EncodeSnoc(init, last);
      assert b[lastep] == b[..ep][lastep] == EncodeNode(last)[0];
    }
  }

  /** `*lastep |= STAR`. */
  method StarLast(buf: array<Byte>, ep: nat, lastep: int, ghost nodes: seq<Node>)
    requires Emitted(buf[..], ep, lastep, nodes) && Repeatable(nodes) && 0 <= lastep < buf.Length
    modifies buf
    ensures Emitted(buf[..], ep, lastep, Starred(nodes))
  {
    hide Emitted, Base, EncodeNode;
    ghost var last := nodes[|nodes| - 1];
    ghost var rep := if last.rep.Count? then last.rep else Star;
    LastOpcode(buf[..], ep, lastep, nodes);
    ghost var b := buf[..];
    StarOp(last.atom, last.rep);
    RepIsBounded(b, ep, lastep, nodes);
    buf[lastep] := SetStar(buf[lastep]);
    EmittedRepeat(b, ep, lastep, nodes, rep, buf[..], ep);
    assert Starred(nodes) == nodes[..|nodes| - 1] + [last.(rep := rep)];
  }

  lemma StarOp(a: Atom, r: Repeat)
    ensures Base(a) + STAR < 256 && Base(a) + RNGE < 256
    ensures SetStar(Base(a) + Flag(r)) == Base(a) + (if r.Count? then RNGE else STAR)
    ensures SetRange(Base(a) + Flag(r)) == Base(a) + RNGE
  {
    hide Base, Flag;
    BaseIs(a);
    FlagIs(r);
  }

  lemma BaseIs(a: Atom)
    ensures Base(a) in {CCHR, CDOT, CXCL, NCCL, CCL}
  {
  }

  lemma FlagIs(r: Repeat)
    ensures Flag(r) == match r case One => 0 case Star => STAR case Count(_, _) => RNGE
  {
  }

  lemma RepIsBounded(b: seq<Byte>, ep: nat, lastep: int, nodes: seq<Node>)
    requires Emitted(b, ep, lastep, nodes) && Repeatable(nodes)
    ensures var r := nodes[|nodes| - 1].rep; r.Count? ==> r.low <= r.high && r.low < 255
    ensures lastep < ep <= |b|
  {
    assert WellFormedNode(nodes[|nodes| - 1]);
    LastOpcode(b, ep, lastep, nodes);
  }

  /** `\{`: the flags of the last opcode, then the two bytes; sp is behind the brace. */
  method RangeLast(p: Text, sp0: nat, buf: array<Byte>, ep0: nat, lastep: int, ghost nodes: seq<Node>)
    returns (r: Status, sp: nat, ep: nat)
    requires sp0 <= |p| && ep0 + 2 <= buf.Length && Emitted(buf[..], ep0, lastep, nodes)
    requires Repeatable(nodes) && !nodes[|nodes| - 1].rep.Count? && 0 <= lastep < buf.Length
    modifies buf
    ensures match RangeFrom(p, sp0)
            case BadRange(e) => r == Failed(e)
            case Bounded(low, high, sp') =>
              r == Fine && sp == sp' && ep == ep0 + 2 && buf[ep0] == low && buf[ep0 + 1] == high &&
              Emitted(buf[..], ep, lastep, Ranged(nodes, low, high))
  {
    hide Emitted, Base, RangeFrom;
    ghost var last := nodes[|nodes| - 1];
    LastOpcode(buf[..], ep0, lastep, nodes);
    RepIsBounded(buf[..], ep0, lastep, nodes);
    StarOp(last.atom, last.rep);
    ghost var b := buf[..];
    buf[lastep] := SetRange(buf[lastep]);
    ghost var b1 := buf[..];
    r, sp, ep := CompileRange(p, sp0, buf, ep0);
    if r.Fine? {
      ghost var low, high := buf[ep0], buf[ep0 + 1];
      assert buf[ep0..ep] == Bounds(Count(low, high));
      forall i | 0 <= i < ep0
        ensures buf[..][i] == b1[i]
      {
        assert buf[..ep0][i] == b1[..ep0][i];
      }
      EmittedRepeat(b, ep0, lastep, nodes, Count(low, high), buf[..], ep);
      assert Ranged(nodes, low, high) == nodes[..|nodes| - 1] + [last.(rep := Count(low, high))];
    }
  }

  /** The state between two tokens: `nodes` are compiled, and the rest of the parse is ahead. */
  ghost predicate Underway(p: Text, eof: Byte, sed: bool, parse: Parsed, sp: nat, b: seq<Byte>, ep: nat, lastep: int,
                           nodes: seq<Node>, bracket: seq<nat>, bracketp: nat, nbra: nat, closed: nat) {
    && sp <= |p| && bracketp <= nbra <= 9 && |bracket| == 9
    && (forall i :: 0 <= i < bracketp ==> bracket[i] < 9)
    && Emitted(b, ep, lastep, nodes)
    && ParseFrom(p, eof, sed, sp, nodes, bracket[..bracketp], nbra, closed) == parse
    && (nodes != [] && nodes[|nodes| - 1].EndText? ==> At(p, sp) in {eof, NEWLINE})
  }

  /** A token was dealt with, or it is to be taken literally (`goto defchar`), or it is wrong. */
  datatype Token = Stored | Literally(c: Byte) | Wrong(code: ErrorCode)

  /** The inner switch: sp0 is behind a backslash. */
  method CompileEscape(p: Text, sp0: nat, buf: array<Byte>, ep0: nat, lastep0: int, bracket: array<nat>, bracketp0: nat,
                       nbra0: nat, closed0: nat, eof: Byte, sed: bool, ghost nodes0: seq<Node>)
    returns (t: Token, sp: nat, ep: nat, lastep: int, bracketp: nat, nbra: nat, closed: nat, ghost nodes: seq<Node>)
    requires 1 <= sp0 <= |p| && p[sp0 - 1] == BACKSLASH != eof && ep0 + 2 <= buf.Length && bracketp0 <= bracket.Length == 9
    requires var parse := ParseFrom(p, eof, sed, sp0 - 1, nodes0, bracket[..][..bracketp0], nbra0, closed0);
             parse != Outside && Underway(p, eof, sed, parse, sp0 - 1, buf[..], ep0, lastep0, nodes0, bracket[..], bracketp0, nbra0, closed0)
    modifies buf, bracket
    ensures sp0 < sp && ep0 <= ep <= ep0 + 2
    ensures var parse := ParseFrom(p, eof, sed, sp0 - 1, nodes0, old(bracket[..])[..bracketp0], nbra0, closed0);
            match t
            case Wrong(e) => parse == Bad(e)
            case Stored => Underway(p, eof, sed, parse, sp, buf[..], ep, lastep, nodes, bracket[..], bracketp, nbra, closed)
            case Literally(c) =>
              && c != 0 && sp <= |p| && buf[..] == old(buf[..]) && bracket[..] == old(bracket[..])
              && (ep, lastep, bracketp, nbra, closed, nodes) == (ep0, lastep0, bracketp0, nbra0, closed0, nodes0)
              && parse == ParseFrom(p, eof, sed, sp, nodes + [Literal(c)], bracket[..bracketp], nbra, closed)
    ensures nbra <= 9
  {
    hide Emitted, EncodeNode, EncodeAll, Base, RangeFrom, ClassFrom, Ranged, Starred, Interval;
    ep, lastep, bracketp, nbra, closed, nodes := ep0, lastep0, bracketp0, nbra0, closed0, nodes0;
    LastOpcode(buf[..], ep, lastep, nodes);
    assert bracket[..bracketp] == bracket[..][..bracketp];
    sp := sp0 + 1;
    var c := At(p, sp0);
    if c == LPAREN {
      if nbra >= 9 {
        return Wrong(43), sp, ep, lastep, bracketp, nbra, closed, nodes;
      }
      ghost var open := bracket[..bracketp];
      bracket[bracketp] := nbra;
      bracketp := bracketp + 1;
      assert bracket[..][..bracketp] == open + [nbra];
      ShortCodes(nbra);
      Emit2(buf, ep, CBRA, nbra, lastep, nodes, Open(nbra));
      lastep, ep, nodes := ep, ep + 2, nodes + [Open(nbra)];
      nbra := nbra + 1;
      t := Stored;
    } else if c == RPAREN {
      if bracketp == 0 {
        return Wrong(42), sp, ep, lastep, bracketp, nbra, closed, nodes;
      }
      bracketp := bracketp - 1;
      assert bracket[..bracketp + 1][..bracketp] == bracket[..][..bracketp];
      ShortCodes(bracket[bracketp]);
      Emit2(buf, ep, CKET, bracket[bracketp], lastep, nodes, Close(bracket[bracketp]));
      lastep, ep, nodes := ep, ep + 2, nodes + [Close(bracket[bracketp])];
      closed := closed + 1;
      t := Stored;
    } else if c == LBRACE && lastep != -1 {
      var r;
      r, sp, ep := RangeLast(p, sp, buf, ep, lastep, nodes);
      if r.Failed? {
        return Wrong(r.code), sp0 + 1, ep0, lastep, bracketp, nbra, closed, nodes;
      }
      nodes := Ranged(nodes, buf[ep - 2], buf[ep - 1]);
      t := Stored;
    } else if c == NEWLINE {
      t := Wrong(36);
    } else if c == LETTER_N {
      t := Literally(NEWLINE);
    } else if ONE <= c <= NINE {
      t := Wrong(25);
    } else {
      t := Literally(c);
    }
  }

  /** The bracket expression as a token; sp0 is behind the bracket. */
  method CompileBracket(p: Text, sp0: nat, buf: array<Byte>, ep0: nat, endbuf: nat, lastep0: int, eof: Byte, sed: bool,
                        ghost bracket: seq<nat>, ghost bracketp: nat, ghost nbra: nat, ghost closed: nat, ghost nodes0: seq<Node>)
    returns (t: Token, sp: nat, ep: nat, lastep: int, ghost nodes: seq<Node>)
    requires 1 <= sp0 <= |p| && p[sp0 - 1] == LBRACKET != eof && ep0 <= endbuf < buf.Length && bracketp <= |bracket|
    requires var parse := ParseFrom(p, eof, sed, sp0 - 1, nodes0, bracket[..bracketp], nbra, closed);
             parse != Outside && Underway(p, eof, sed, parse, sp0 - 1, buf[..], ep0, lastep0, nodes0, bracket, bracketp, nbra, closed)
    modifies buf
    ensures !t.Literally?
    ensures var parse := ParseFrom(p, eof, sed, sp0 - 1, nodes0, bracket[..bracketp], nbra, closed);
            match t
            case Wrong(e) => parse == Bad(e) || (e == NO_SPACE && endbuf <= ep0 + 33)
            case _ =>
              && sp0 < sp && ep0 <= ep <= ep0 + 33 && ep <= endbuf
              && Underway(p, eof, sed, parse, sp, buf[..], ep, lastep, nodes, bracket, bracketp, nbra, closed)
  {
    hide Emitted, EncodeNode, ClassFrom;
    ghost var b := buf[..];
    ghost var negated, members;
    lastep, nodes := ep0, nodes0;
    var r;
    r, sp, ep, negated, members := CompileClass(p, sp0, buf, ep0, endbuf);
    if r.Failed? {
      return Wrong(r.code), sp, ep, lastep, nodes;
    }
    ghost var x := Item(Class(negated, members), One);
    EmittedSnoc(b, ep0, lastep0, nodes, x, buf[..], ep);
    nodes := nodes + [x];
    t := Stored;
  }

  /** The outer switch, for a character that does not end the pattern. */
  method CompileToken(p: Text, sp0: nat, buf: array<Byte>, ep0: nat, endbuf: nat, lastep0: int, bracket: array<nat>, bracketp0: nat,
                      nbra0: nat, closed0: nat, eof: Byte, sed: bool, ghost nodes0: seq<Node>)
    returns (t: Token, sp: nat, ep: nat, lastep: int, bracketp: nat, nbra: nat, closed: nat, ghost nodes: seq<Node>)
    requires sp0 < |p| && p[sp0] != eof && p[sp0] != NEWLINE && ep0 < endbuf < buf.Length && bracketp0 <= bracket.Length == 9
    requires var parse := ParseFrom(p, eof, sed, sp0, nodes0, bracket[..][..bracketp0], nbra0, closed0);
             parse != Outside && Underway(p, eof, sed, parse, sp0, buf[..], ep0, lastep0, nodes0, bracket[..], bracketp0, nbra0, closed0)
    modifies buf, bracket
    ensures nbra <= 9 && !t.Literally?
    ensures var parse := ParseFrom(p, eof, sed, sp0, nodes0, old(bracket[..])[..bracketp0], nbra0, closed0);
            match t
            case Wrong(e) => parse == Bad(e) || (e == NO_SPACE && endbuf <= ep0 + 33)
            case _ =>
              && sp0 < sp && ep0 <= ep <= ep0 + 33 && ep <= endbuf + 1
              && Underway(p, eof, sed, parse, sp, buf[..], ep, lastep, nodes, bracket[..], bracketp, nbra, closed)
  {
    hide Emitted, EncodeNode, EncodeAll, Base, ClassFrom, RangeFrom;
    ep, lastep, bracketp, nbra, closed, nodes := ep0, lastep0, bracketp0, nbra0, closed0, nodes0;
    LastOpcode(buf[..], ep, lastep, nodes);
    ShortCodes(0);
    t := Stored;
    var c := At(p, sp0);
    sp := sp0 + 1;
    if c == DOT {
      Emit1(buf, ep, CDOT, lastep, nodes, Item(Any, One));
      lastep, ep, nodes := ep, ep + 1, nodes + [Item(Any, One)];
    } else if c == ASTERISK && !(lastep == -1 || buf[lastep] == CBRA || buf[lastep] == CKET) {
      StarLast(buf, ep, lastep, nodes);
      nodes := Starred(nodes);
    } else if c == DOLLAR && At(p, sp) in {eof, NEWLINE} {
      Emit1(buf, ep, CDOL, lastep, nodes, EndText);
      lastep, ep, nodes := ep, ep + 1, nodes + [EndText];
    } else if c == LBRACKET {
      t, sp, ep, lastep, nodes :=
        CompileBracket(p, sp, buf, ep, endbuf, lastep, eof, sed, bracket[..], bracketp, nbra, closed, nodes);
    } else {
      if c == BACKSLASH {
        t, sp, ep, lastep, bracketp, nbra, closed, nodes :=
          CompileEscape(p, sp, buf, ep, lastep, bracket, bracketp, nbra, closed, eof, sed, nodes);
        if !t.Literally? {
          return;
        }
        c := t.c;
        t := Stored;
      }
      ShortCodes(c);
      Emit2(buf, ep, CCHR, c, lastep, nodes, Literal(c));
      lastep, ep, nodes := ep, ep + 2, nodes + [Literal(c)];
    }
  }

  /**
   `compile` on a pattern that is not empty.  A failure reports the error of the
   grammar or a buffer too small; otherwise the code is the code of the parsed
   pattern.  One byte beyond endbuf may be written.
   */
  method Compile(p: Text, buf: array<Byte>, endbuf: nat, eof: Byte, sed: bool)
    returns (r: Status, ep: nat, circf: bool, nbra: nat, ghost nodes: seq<Node>)
    requires At(p, 0) != eof && At(p, 0) != NEWLINE && endbuf < buf.Length
    requires Parse(p, eof, sed) != Outside
    modifies buf
    ensures r.Fine? ==> Parse(p, eof, sed) == Pattern(nodes) && WellFormed(nodes) && ep <= buf.Length && buf[..ep] == Code(nodes)
    ensures r.Failed? ==> Parse(p, eof, sed) == Bad(r.code) || (r.code == NO_SPACE && endbuf <= 33 * (|p| + 1))
    ensures circf == Anchored(p) && nbra <= 9
  {
    hide Emitted, Code, ClassFrom, RangeFrom, Starred, Ranged;
    var bracket := new nat[9];
    var bracketp: nat, closed: nat, sp: nat, lastep := 0, 0, 0, -1;
    ep, nbra := 0, 0;
    nodes := [];
    ghost var parse := Parse(p, eof, sed);
    circf := At(p, 0) == CARET;
    if circf {
      sp := 1;
    }
    EmittedNone(buf[..]);
    while true
      invariant ep <= 33 * sp && ep <= endbuf + 1 && nbra <= 9
      invariant Underway(p, eof, sed, parse, sp, buf[..], ep, lastep, nodes, bracket[..], bracketp, nbra, closed)
      decreases |p| - sp
    {
      if ep >= endbuf {
        r := Failed(NO_SPACE);
        return;
      }
      var c := At(p, sp);
      if c == eof || (c == NEWLINE && !sed) {
        FinishCode(buf, ep, lastep, nodes);
        ep := ep + 1;
        r := if bracketp != 0 then Failed(42) else Fine;
        return;
      }
      if c == NEWLINE {
        r := Failed(36);
        return;
      }
      var t;
      t, sp, ep, lastep, bracketp, nbra, closed, nodes :=
        CompileToken(p, sp, buf, ep, endbuf, lastep, bracket, bracketp, nbra, closed, eof, sed, nodes);
      if t.Wrong? {
        r := Failed(t.code);
        return;
      }
    }
  }

  /** The codes of at most two bytes. */
  lemma ShortCodes(n: Byte)
    ensures EncodeNode(EndText) == [CDOL] && EncodeNode(Item(Any, One)) == [CDOT]
    ensures n < 9 ==> EncodeNode(Open(n)) == [CBRA, n] && EncodeNode(Close(n)) == [CKET, n]
    ensures n != 0 ==> EncodeNode(Literal(n)) == [CCHR, n]
  {
  }

  lemma EmittedNone(b: seq<Byte>)
    ensures Emitted(b, 0, -1, [])
  {
  }

  /** The end mark. */
  method FinishCode(buf: array<Byte>, ep: nat, ghost lastep: int, ghost nodes: seq<Node>)
    requires ep < buf.Length && Emitted(buf[..], ep, lastep, nodes)
    modifies buf
    ensures WellFormed(nodes) && buf[..ep + 1] == Code(nodes)
  {
    buf[ep] := CCEOF;
  }
}
