/**
 The byte code of regexp.h: an opcode with repetition flags, its operand, and the
 two bytes of a range.
 */
module RegexpCode {
  import opened Regexp

  const CBRA: Byte := 2
  const CCHR: Byte := 4
  const CDOT: Byte := 8
  const CCL: Byte := 12
  const CXCL: Byte := 16
  const CDOL: Byte := 20
  const CCEOF: Byte := 22
  const CKET: Byte := 24
  const NCCL: Byte := 40

  const STAR: Byte := 1
  const RNGE: Byte := 3

  // ----- bit maps

  function Bittab(k: int): (b: Byte)
    requires 0 <= k < 8
    ensures b in {1, 2, 4, 8, 16, 32, 64, 128}
  {
    if k == 0 then 1 else if k == 1 then 2 else if k == 2 then 4 else if k == 3 then 8
    else if k == 4 then 16 else if k == 5 then 32 else if k == 6 then 64 else 128
  }

  predicate HasBit(b: Byte, k: int)
    requires 0 <= k < 8
  {
    (b / Bittab(k)) % 2 == 1
  }

  function Bit(s: set<Byte>, c: int): (b: int)
    ensures 0 <= b <= 1
  {
    if 0 <= c < 256 && c in s then 1 else 0
  }

  /** The byte of the map that holds the characters 8i to 8i + 7. */
  function MapByte(s: set<Byte>, i: int): Byte {
    Bit(s, 8 * i) + 2 * Bit(s, 8 * i + 1) + 4 * Bit(s, 8 * i + 2) + 8 * Bit(s, 8 * i + 3) +
    16 * Bit(s, 8 * i + 4) + 32 * Bit(s, 8 * i + 5) + 64 * Bit(s, 8 * i + 6) + 128 * Bit(s, 8 * i + 7)
  }

  function Map(s: set<Byte>, n: nat): (m: seq<Byte>)
    ensures |m| == n && forall i :: 0 <= i < n ==> m[i] == MapByte(s, i)
  {
    seq(n, i => MapByte(s, i))
  }

  lemma Half(b: int, d: int, h: int)
    requires b == d + 2 * h && 0 <= d <= 1
    ensures b / 2 == h && b % 2 == d
  {
  }

  lemma Halves(b: int)
    requires 0 <= b
    ensures b / 4 == b / 2 / 2 && b / 8 == b / 4 / 2 && b / 16 == b / 8 / 2
    ensures b / 32 == b / 16 / 2 && b / 64 == b / 32 / 2 && b / 128 == b / 64 / 2
  {
  }

  /** Eight binary digits and the byte they make up. */
  lemma BitOfSum(k: int, d: seq<int>, b: int)
    requires |d| == 8 && 0 <= k < 8 && forall i :: 0 <= i < 8 ==> 0 <= d[i] <= 1
    requires b == d[0] + 2 * d[1] + 4 * d[2] + 8 * d[3] + 16 * d[4] + 32 * d[5] + 64 * d[6] + 128 * d[7]
    ensures (b / Bittab(k)) % 2 == d[k]
  {
    var h6 := d[6] + 2 * d[7];
    var h5 := d[5] + 2 * h6;
    var h4 := d[4] + 2 * h5;
    var h3 := d[3] + 2 * h4;
    var h2 := d[2] + 2 * h3;
    var h1 := d[1] + 2 * h2;
    Halves(b);
    Half(b, d[0], h1);
    Half(h1, d[1], h2);
    Half(h2, d[2], h3);
    Half(h3, d[3], h4);
    Half(h4, d[4], h5);
    Half(h5, d[5], h6);
    Half(h6, d[6], d[7]);
  }

  lemma MapBit(s: set<Byte>, c: Byte)
    ensures HasBit(MapByte(s, c / 8), c % 8) <==> Bit(s, c) == 1
    ensures Bit(s, c) == 1 <==> c in s
  {
    hide Bit, HasBit;
    var i, k := c / 8, c % 8;
    var d := [Bit(s, 8 * i), Bit(s, 8 * i + 1), Bit(s, 8 * i + 2), Bit(s, 8 * i + 3)]
           + [Bit(s, 8 * i + 4), Bit(s, 8 * i + 5), Bit(s, 8 * i + 6), Bit(s, 8 * i + 7)];
    assert c == 8 * i + k && d[k] == Bit(s, c);
    BitOfSum(k, d, MapByte(s, i));
    BitMeaning(s, c);
    HasBitMeaning(MapByte(s, i), k);
  }

  lemma BitMeaning(s: set<Byte>, c: Byte)
    ensures Bit(s, c) == 1 <==> c in s
  {
  }

  lemma HasBitMeaning(b: Byte, k: int)
    requires 0 <= k < 8
    ensures HasBit(b, k) <==> (b / Bittab(k)) % 2 == 1
  {
  }

  // ----- encoding

  predicate Wide(members: set<Byte>) {
    exists c :: c in members && c >= 128
  }

  /** The characters marked in the map of a class. */
  function Marked(negated: bool, members: set<Byte>): set<Byte> {
    if !negated then members
    else if Wide(members) then set c: Byte | 0 < c < 256 && c !in members
    else members + {0}
  }

  function Base(a: Atom): Byte {
    match a
    case Char(_) => CCHR
    case Any => CDOT
    case Class(negated, members) => if Wide(members) then CXCL else if negated then NCCL else CCL
  }

  /** The size of the operand that follows an opcode. */
  function Width(base: Byte): nat {
    if base == CCHR then 1 else if base == CXCL then 32 else if base == CCL || base == NCCL then 16 else 0
  }

  function Operand(a: Atom): (o: seq<Byte>)
    ensures |o| == Width(Base(a))
  {
    match a
    case Char(c) => [c]
    case Any => []
    case Class(negated, members) => Map(Marked(negated, members), if Wide(members) then 32 else 16)
  }

  function Flag(r: Repeat): Byte {
    match r case One => 0 case Star => STAR case Count(_, _) => RNGE
  }

  function Bounds(r: Repeat): seq<Byte> {
    match r case Count(low, high) => [low, high] case _ => []
  }

  ghost function EncodeNode(x: Node): seq<Byte>
    requires WellFormedNode(x)
  {
    match x
    case Item(a, r) => [Base(a) + Flag(r)] + Operand(a) + Bounds(r)
    case Open(n) => [CBRA, n]
    case Close(n) => [CKET, n]
    case EndText => [CDOL]
  }

  ghost function EncodeAll(nodes: seq<Node>): seq<Byte>
    requires WellFormed(nodes)
  {
    if nodes == [] then [] else EncodeAll(nodes[..|nodes| - 1]) + EncodeNode(nodes[|nodes| - 1])
  }

  ghost function Code(nodes: seq<Node>): seq<Byte>
    requires WellFormed(nodes)
  {
    EncodeAll(nodes) + [CCEOF]
  }

  /** Where the code of nodes[k..] begins. */
  ghost function Offset(nodes: seq<Node>, k: nat): nat
    requires WellFormed(nodes) && k <= |nodes|
  {
    |EncodeAll(nodes[..k])|
  }

  lemma {:induction false} PrefixCode(nodes: seq<Node>, k: nat)
    requires WellFormed(nodes) && k <= |nodes|
    ensures EncodeAll(nodes[..k]) <= EncodeAll(nodes)
    decreases |nodes| - k
  {
    if k == |nodes| {
      assert nodes[..k] == nodes;
    } else {
      PrefixCode(nodes, k + 1);
      assert nodes[..k + 1][..k] == nodes[..k];
    }
  }

  /** The code of node k sits between its offset and the next. */
  lemma NodeCode(nodes: seq<Node>, k: nat, code: seq<Byte>)
    requires WellFormed(nodes) && k < |nodes| && Code(nodes) <= code
    ensures var o, e := Offset(nodes, k), EncodeNode(nodes[k]);
            Offset(nodes, k + 1) == o + |e| < |code| && code[o..o + |e|] == e
  {
    PrefixCode(nodes, k + 1);
    PrefixCode(nodes, k);
    assert nodes[..k + 1][..k] == nodes[..k];
    var c := EncodeAll(nodes[..k + 1]);
    assert c <= code;
    assert c == EncodeAll(nodes[..k]) + EncodeNode(nodes[k]);
  }

  lemma EndCode(nodes: seq<Node>, code: seq<Byte>)
    requires WellFormed(nodes) && Code(nodes) <= code
    ensures Offset(nodes, |nodes|) < |code| && code[Offset(nodes, |nodes|)] == CCEOF
  {
    assert nodes[..|nodes|] == nodes;
  }

  // ----- what the tests of `advance` mean

  predicate IsThere(code: seq<Byte>, ep: nat, c: Byte)
    requires ep + c / 8 < |code|
  {
    HasBit(code[ep + c / 8], c % 8)
  }

  /** The test an opcode applies to one character of the text, its operand being at ep. */
  predicate Test(code: seq<Byte>, base: Byte, ep: nat, c: Byte)
    requires ep + Width(base) <= |code|
  {
    if base == CCHR then code[ep] == c
    else if base == CDOT then c != 0
    else if base == CXCL then IsThere(code, ep, c)
    else if base == NCCL then !(c < 128 && IsThere(code, ep, c))
    else base == CCL && c < 128 && IsThere(code, ep, c)
  }

  lemma TestMeaning(a: Atom, code: seq<Byte>, ep: nat, c: Byte)
    requires a.Char? ==> a.c != 0
    requires a.Class? ==> 0 !in a.members
    requires ep + Width(Base(a)) <= |code| && code[ep..ep + Width(Base(a))] == Operand(a)
    ensures Test(code, Base(a), ep, c) <==> Accepts(a, c)
  {
    match a
    case Char(x) =>
      assert code[ep] == code[ep..ep + 1][0];
    case Any =>
    case Class(negated, members) =>
      var w := Width(Base(a));
      if c / 8 < w {
        assert code[ep + c / 8] == code[ep..ep + w][c / 8];
        MapBit(Marked(negated, members), c);
      }
  }
}
