/**
 The block cipher of des_encrypt.c: sixteen Feistel rounds on a 64-entry bit array.

 The tables are parameters here as they are in the C function: what is proved holds
 for every substitution table and every permutation P.
 */
module Des {
  type Bit = x: int | 0 <= x <= 1

  type Bits = seq<Bit>

  /** The constant tables `des_encrypt1` is given; entries are 1-origin positions. */
  datatype Tables = Tables(ip: seq<int>, s: seq<seq<int>>, p: seq<int>, fp: seq<int>)

  ghost predicate Selects(t: seq<int>, n: int) {
    forall j :: 0 <= j < |t| ==> 1 <= t[j] <= n
  }

  ghost predicate WellFormed(t: Tables) {
    && |t.ip| == |t.fp| == 64 && Selects(t.ip, 64) && Selects(t.fp, 64)
    && |t.p| == 32 && Selects(t.p, 32)
    && |t.s| == 8 && forall j :: 0 <= j < 8 ==> |t.s[j]| == 64
  }

  /** FP = IP^-1. */
  ghost predicate Inverse(t: Tables)
    requires WellFormed(t)
  {
    && (forall j :: 0 <= j < 64 ==> t.ip[t.fp[j] - 1] == j + 1)
    && (forall j :: 0 <= j < 64 ==> t.fp[t.ip[j] - 1] == j + 1)
  }

  ghost predicate KeySchedule(ks: seq<Bits>) {
    |ks| == 16 && forall i :: 0 <= i < 16 ==> |ks[i]| == 48
  }

  // ----- the cipher as a function

  function Xor(a: Bit, b: Bit): Bit {
    if a == b then 0 else 1
  }

  ghost function XorBits(a: Bits, b: Bits): (r: Bits)
    requires |a| == |b|
    ensures |r| == |a|
  {
    seq(|a|, j requires 0 <= j < |a| => Xor(a[j], b[j]))
  }

  ghost function Select(s: Bits, t: seq<int>): (r: Bits)
    requires Selects(t, |s|)
    ensures |r| == |t|
  {
    seq(|t|, j requires 0 <= j < |t| => s[t[j] - 1])
  }

  /** The peculiar index: the outer two of the six bits name the row. */
  function SIndex(b0: Bit, b1: Bit, b2: Bit, b3: Bit, b4: Bit, b5: Bit): (k: int)
    ensures 0 <= k < 64
  {
    b0 * 32 + b1 * 8 + b2 * 4 + b3 * 2 + b4 + b5 * 16
  }

  /** Bit c of a four-bit quantity, most significant first. */
  function NibbleBit(k: int, c: int): Bit {
    if c == 0 then (k / 8) % 2 else if c == 1 then (k / 4) % 2 else if c == 2 then (k / 2) % 2 else k % 2
  }

  ghost function Group(preS: Bits, j: int): int
    requires |preS| == 48 && 0 <= j < 8
  {
    SIndex(preS[6 * j], preS[6 * j + 1], preS[6 * j + 2], preS[6 * j + 3], preS[6 * j + 4], preS[6 * j + 5])
  }

  ghost function Substitute(preS: Bits, s: seq<seq<int>>): (f: Bits)
    requires |preS| == 48 && |s| == 8 && forall j :: 0 <= j < 8 ==> |s[j]| == 64
    ensures |f| == 32
  {
    seq(32, i requires 0 <= i < 32 => NibbleBit(s[i / 4][Group(preS, i / 4)], i % 4))
  }

  /** f(R, K) with the permutation P applied. */
  ghost function CipherF(t: Tables, e: seq<int>, r: Bits, k: Bits): (f: Bits)
    requires WellFormed(t) && |e| == 48 && Selects(e, 32) && |r| == 32 && |k| == 48
    ensures |f| == 32
  {
    Select(Substitute(XorBits(Select(r, e), k), t.s), t.p)
  }

  /** The halves after the first n rounds. */
  ghost function Rounds(t: Tables, e: seq<int>, ks: seq<Bits>, n: nat, l: Bits, r: Bits): (h: (Bits, Bits))
    requires WellFormed(t) && |e| == 48 && Selects(e, 32) && |l| == |r| == 32
    requires n <= |ks| && forall i :: 0 <= i < |ks| ==> |ks[i]| == 48
    ensures |h.0| == |h.1| == 32
  {
    if n == 0 then (l, r)
    else
      var (l', r') := Rounds(t, e, ks, n - 1, l, r);
      (r', XorBits(l', CipherF(t, e, r', ks[n - 1])))
  }

  ghost function Encrypt(t: Tables, e: seq<int>, ks: seq<Bits>, block: Bits): (out: Bits)
    requires WellFormed(t) && |e| == 48 && Selects(e, 32) && KeySchedule(ks) && |block| == 64
    ensures |out| == 64
  {
    var b := Select(block, t.ip);
    var (l, r) := Rounds(t, e, ks, 16, b[..32], b[32..]);
    Select(r + l, t.fp)
  }

  ghost function Reverse(ks: seq<Bits>): (r: seq<Bits>)
    ensures |r| == |ks| && forall i :: 0 <= i < |ks| ==> r[i] == ks[|ks| - 1 - i]
  {
    seq(|ks|, i requires 0 <= i < |ks| => ks[|ks| - 1 - i])
  }

  // ----- decryption

  lemma XorTwice(a: Bits, b: Bits)
    requires |a| == |b|
    ensures XorBits(XorBits(a, b), b) == a
  {
  }

  /** Running the last n rounds again, in reverse order on swapped halves, leads back n rounds. */
  lemma {:induction false} RoundsBack(t: Tables, e: seq<int>, ks: seq<Bits>, n: nat, l: Bits, r: Bits)
    requires WellFormed(t) && |e| == 48 && Selects(e, 32) && |l| == |r| == 32 && n <= |ks|
    requires forall i :: 0 <= i < |ks| ==> |ks[i]| == 48
    ensures var (a, b) := Rounds(t, e, ks, |ks|, l, r);
            var (c, d) := Rounds(t, e, ks, |ks| - n, l, r);
            Rounds(t, e, Reverse(ks), n, b, a) == (d, c)
  {
    if n > 0 {
      RoundsBack(t, e, ks, n - 1, l, r);
      var m := |ks| - n;
      var (c, d) := Rounds(t, e, ks, m, l, r);
      XorTwice(c, CipherF(t, e, d, ks[m]));
      assert Reverse(ks)[n - 1] == ks[m];
    }
  }

  lemma SelectInverse(s: Bits, p: seq<int>, q: seq<int>)
    requires |p| == |q| == |s| && Selects(p, |s|) && Selects(q, |s|)
    requires forall j :: 0 <= j < |s| ==> p[q[j] - 1] == j + 1
    ensures Select(Select(s, p), q) == s
  {
  }

  /** Running the cipher with the round keys in reverse order undoes it. */
  lemma DecryptEncrypt(t: Tables, e: seq<int>, ks: seq<Bits>, block: Bits)
    requires WellFormed(t) && Inverse(t) && |e| == 48 && Selects(e, 32) && KeySchedule(ks) && |block| == 64
    ensures Encrypt(t, e, Reverse(ks), Encrypt(t, e, ks, block)) == block
  {
    var b := Select(block, t.ip);
    var (l, r) := Rounds(t, e, ks, 16, b[..32], b[32..]);
    SelectInverse(r + l, t.fp, t.ip);
    assert (r + l)[..32] == r && (r + l)[32..] == l;
    RoundsBack(t, e, ks, 16, b[..32], b[32..]);
    assert b[..32] + b[32..] == b;
    SelectInverse(block, t.ip, t.fp);
  }

  // ----- complementation

  ghost function Not(s: Bits): (r: Bits)
    ensures |r| == |s| && forall j :: 0 <= j < |s| ==> r[j] == 1 - s[j]
  {
    seq(|s|, j requires 0 <= j < |s| => 1 - s[j])
  }

  ghost function NotAll(ks: seq<Bits>): (r: seq<Bits>)
    ensures |r| == |ks| && forall i :: 0 <= i < |ks| ==> r[i] == Not(ks[i])
  {
    seq(|ks|, i requires 0 <= i < |ks| => Not(ks[i]))
  }

  /** The complements of the half-block and of the round key cancel before the substitution. */
  lemma CipherFNot(t: Tables, e: seq<int>, r: Bits, k: Bits)
    requires WellFormed(t) && |e| == 48 && Selects(e, 32) && |r| == 32 && |k| == 48
    ensures CipherF(t, e, Not(r), Not(k)) == CipherF(t, e, r, k)
  {
    assert XorBits(Select(Not(r), e), Not(k)) == XorBits(Select(r, e), k);
  }

  lemma {:induction false} RoundsNot(t: Tables, e: seq<int>, ks: seq<Bits>, n: nat, l: Bits, r: Bits)
    requires WellFormed(t) && |e| == 48 && Selects(e, 32) && |l| == |r| == 32
    requires n <= |ks| && forall i :: 0 <= i < |ks| ==> |ks[i]| == 48
    ensures var (a, b) := Rounds(t, e, ks, n, l, r);
            Rounds(t, e, NotAll(ks), n, Not(l), Not(r)) == (Not(a), Not(b))
  {
    hide CipherF, Not, NotAll, XorBits;
    if n > 0 {
      RoundsNot(t, e, ks, n - 1, l, r);
      var (a, b) := Rounds(t, e, ks, n - 1, l, r);
      CipherFNot(t, e, b, ks[n - 1]);
      XorNot(a, CipherF(t, e, b, ks[n - 1]));
    }
  }

  lemma XorNot(a: Bits, f: Bits)
    requires |a| == |f|
    ensures XorBits(Not(a), f) == Not(XorBits(a, f))
  {
  }

  /** Complementing every round key and the block complements the output. */
  lemma EncryptNot(t: Tables, e: seq<int>, ks: seq<Bits>, block: Bits)
    requires WellFormed(t) && |e| == 48 && Selects(e, 32) && KeySchedule(ks) && |block| == 64
    ensures Encrypt(t, e, NotAll(ks), Not(block)) == Not(Encrypt(t, e, ks, block))
  {
    hide Rounds, Select, Not, Selects;
    var b := Select(block, t.ip);
    var (l, r) := Rounds(t, e, ks, 16, b[..32], b[32..]);
    RoundsNot(t, e, ks, 16, b[..32], b[32..]);
    SelectNot(block, t.ip);
    NotHalves(b);
    NotJoined(r, l);
    SelectNot(r + l, t.fp);
  }

  lemma SelectNot(s: Bits, t: seq<int>)
    requires Selects(t, |s|)
    ensures Select(Not(s), t) == Not(Select(s, t))
  {
  }

  lemma NotHalves(b: Bits)
    requires |b| == 64
    ensures Not(b)[..32] == Not(b[..32]) && Not(b)[32..] == Not(b[32..])
  {
  }

  lemma NotJoined(a: Bits, b: Bits)
    ensures Not(a + b) == Not(a) + Not(b)
  {
  }

  // ----- the cipher in the terms of the standard

  /** Four bits, the most significant first, as a number. */
  function Four(f: Bits, i: nat): int
    requires i + 4 <= |f|
  {
    8 * (f[i] as int) + 4 * (f[i + 1] as int) + 2 * (f[i + 2] as int) + f[i + 3] as int
  }

  /** Where the six bits from i on are looked up: the outer two name the row of sixteen, the inner four the column. */
  function RowColumn(b: Bits, i: nat): (k: int)
    requires i + 6 <= |b|
    ensures 0 <= k < 64
  {
    16 * (2 * (b[i] as int) + b[i + 5] as int) + 8 * (b[i + 1] as int) + 4 * (b[i + 2] as int) + 2 * (b[i + 3] as int) + b[i + 4] as int
  }

  /** Every group of six bits is replaced by the four low bits of the entry of its own table. */
  ghost predicate Substituted(b: Bits, s: seq<seq<int>>, f: Bits)
    requires |b| == 48 && |f| == 32 && |s| == 8 && forall j :: 0 <= j < 8 ==> |s[j]| == 64
  {
    forall j: nat :: j < 8 ==> Four(f, 4 * j) == s[j][RowColumn(b, 6 * j)] % 16
  }

  /** In particular, by the entry itself when the tables hold numbers from 0 to 15. */
  lemma SubstitutedEntry(b: Bits, s: seq<seq<int>>, f: Bits, j: nat)
    requires |b| == 48 && |f| == 32 && |s| == 8 && forall j :: 0 <= j < 8 ==> |s[j]| == 64
    requires j < 8 && Substituted(b, s, f) && forall k :: 0 <= k < 64 ==> 0 <= s[j][k] < 16
    ensures Four(f, 4 * j) == s[j][RowColumn(b, 6 * j)]
  {
    assert Four(f, 4 * j) == s[j][RowColumn(b, 6 * j)] % 16;
  }

  lemma NibbleBits(k: int)
    ensures 8 * NibbleBit(k, 0) + 4 * NibbleBit(k, 1) + 2 * NibbleBit(k, 2) + NibbleBit(k, 3) == k % 16
  {
    DivTwice(k);
    Digits(k, k / 2, k / 4, k / 8, k / 16);
  }

  lemma DivTwice(k: int)
    ensures k / 4 == k / 2 / 2 && k / 8 == k / 4 / 2 && k / 16 == k / 8 / 2
  {
  }

  lemma Digits(k: int, a: int, b: int, c: int, m: int)
    requires a == k / 2 && b == a / 2 && c == b / 2 && m == c / 2 && m == k / 16
    ensures 8 * (c % 2) + 4 * (b % 2) + 2 * (a % 2) + k % 2 == k % 16
  {
  }

  lemma BitsOfFour(f: Bits, g: Bits, i: nat)
    requires i + 4 <= |f| && i + 4 <= |g| && Four(f, i) == Four(g, i)
    ensures f[i..i + 4] == g[i..i + 4]
  {
  }

  /** The substitution of the cipher does that, and nothing else does. */
  lemma SubstituteMeaning(b: Bits, s: seq<seq<int>>, f: Bits)
    requires |b| == 48 && |f| == 32 && |s| == 8 && forall j :: 0 <= j < 8 ==> |s[j]| == 64
    ensures Substituted(b, s, f) <==> f == Substitute(b, s)
  {
    hide Four, RowColumn, Substitute;
    var g := Substitute(b, s);
    forall j: nat | j < 8
      ensures Four(g, 4 * j) == s[j][RowColumn(b, 6 * j)] % 16
    {
      SubstitutedFour(b, s, j);
    }
    if Substituted(b, s, f) {
      forall i | 0 <= i < 32
        ensures f[i] == g[i]
      {
        var j: nat := i / 4;
        assert Four(f, 4 * j) == Four(g, 4 * j);
        BitsOfFour(f, g, 4 * j);
        assert f[i] == f[4 * j..4 * j + 4][i - 4 * j] && g[i] == g[4 * j..4 * j + 4][i - 4 * j];
      }
    }
  }

  lemma SubstitutedFour(b: Bits, s: seq<seq<int>>, j: nat)
    requires |b| == 48 && |s| == 8 && forall j :: 0 <= j < 8 ==> |s[j]| == 64
    requires j < 8
    ensures Four(Substitute(b, s), 4 * j) == s[j][RowColumn(b, 6 * j)] % 16
  {
    hide NibbleBit, Substitute, Four, Group, RowColumn;
    SubstituteAt(b, s, j, 0);
    SubstituteAt(b, s, j, 1);
    SubstituteAt(b, s, j, 2);
    SubstituteAt(b, s, j, 3);
    GroupIs(b, j);
    FourBits(Substitute(b, s), 4 * j, s[j][Group(b, j)]);
  }

  lemma FourBits(f: Bits, i: nat, k: int)
    requires i + 4 <= |f| && f[i] == NibbleBit(k, 0) && f[i + 1] == NibbleBit(k, 1) && f[i + 2] == NibbleBit(k, 2) && f[i + 3] == NibbleBit(k, 3)
    ensures Four(f, i) == k % 16
  {
    hide NibbleBit;
    NibbleBits(k);
  }

  lemma GroupIs(b: Bits, j: nat)
    requires |b| == 48 && j < 8
    ensures Group(b, j) == RowColumn(b, 6 * j)
  {
  }

  /** Bit by bit, the sum modulo 2. */
  ghost predicate Sum(a: Bits, b: Bits, c: Bits) {
    |a| == |b| == |c| && forall j :: 0 <= j < |a| ==> c[j] == (a[j] as int + b[j] as int) % 2
  }

  lemma XorIsSum(a: Bits, b: Bits, c: Bits)
    requires |a| == |b|
    ensures Sum(a, b, c) <==> c == XorBits(a, b)
  {
  }

  /** The bits of s that a table names, in its order. */
  ghost predicate Picks(s: Bits, t: seq<int>, r: Bits)
    requires Selects(t, |s|)
  {
    |r| == |t| && forall j :: 0 <= j < |t| ==> r[j] == s[t[j] - 1]
  }

  lemma SelectPicks(s: Bits, t: seq<int>, r: Bits)
    requires Selects(t, |s|)
    ensures Picks(s, t, r) <==> r == Select(s, t)
  {
  }

  /** f(R, K): x is E of r, b its sum with the key, g the substitution of that, and f is P of g. */
  ghost predicate Steps(t: Tables, e: seq<int>, r: Bits, k: Bits, x: Bits, b: Bits, g: Bits, f: Bits)
    requires WellFormed(t) && |e| == 48 && Selects(e, 32) && |r| == 32 && |k| == 48
  {
    Picks(r, e, x) && Sum(x, k, b) && |g| == 32 && Substituted(b, t.s, g) && Picks(g, t.p, f)
  }

  ghost predicate Ciphers(t: Tables, e: seq<int>, r: Bits, k: Bits, f: Bits)
    requires WellFormed(t) && |e| == 48 && Selects(e, 32) && |r| == 32 && |k| == 48
  {
    exists x: Bits, b: Bits, g: Bits :: Steps(t, e, r, k, x, b, g, f)
  }

  lemma CipherFMeaning(t: Tables, e: seq<int>, r: Bits, k: Bits, f: Bits)
    requires WellFormed(t) && |e| == 48 && Selects(e, 32) && |r| == 32 && |k| == 48
    ensures Ciphers(t, e, r, k, f) <==> f == CipherF(t, e, r, k)
  {
    hide Substituted, Substitute, Sum, XorBits, Picks, Select;
    var x := Select(r, e);
    var b := XorBits(x, k);
    var g := Substitute(b, t.s);
    SelectPicks(r, e, x);
    XorIsSum(x, k, b);
    SubstituteMeaning(b, t.s, g);
    SelectPicks(g, t.p, f);
    if f == CipherF(t, e, r, k) {
      assert Steps(t, e, r, k, x, b, g, f);
    }
    if Ciphers(t, e, r, k, f) {
      var x': Bits, b': Bits, g': Bits :| Steps(t, e, r, k, x', b', g', f);
      SelectPicks(r, e, x');
      XorIsSum(x, k, b');
      SubstituteMeaning(b, t.s, g');
    }
  }

  /** Round i: the right half moves left, and the new right half is the left one summed with f(R, K). */
  ghost predicate RoundOf(t: Tables, e: seq<int>, k: Bits, l: Bits, r: Bits, l': Bits, r': Bits)
    requires WellFormed(t) && |e| == 48 && Selects(e, 32) && |k| == 48
  {
    |l| == |r| == 32 && l' == r && exists f :: Ciphers(t, e, r, k, f) && Sum(l, f, r')
  }

  lemma RoundMeaning(t: Tables, e: seq<int>, k: Bits, l: Bits, r: Bits, l': Bits, r': Bits)
    requires WellFormed(t) && |e| == 48 && Selects(e, 32) && |k| == 48 && |l| == |r| == 32
    ensures RoundOf(t, e, k, l, r, l', r') <==> l' == r && r' == XorBits(l, CipherF(t, e, r, k))
  {
    hide Ciphers, CipherF, Sum, XorBits;
    var f := CipherF(t, e, r, k);
    CipherFMeaning(t, e, r, k, f);
    XorIsSum(l, f, r');
    if RoundOf(t, e, k, l, r, l', r') {
      var f' :| Ciphers(t, e, r, k, f') && Sum(l, f', r');
      CipherFMeaning(t, e, r, k, f');
    }
  }

  /** The halves through sixteen rounds, from the permuted block on. */
  ghost predicate Trace(t: Tables, e: seq<int>, ks: seq<Bits>, block: Bits, ls: seq<Bits>, rs: seq<Bits>)
    requires WellFormed(t) && |e| == 48 && Selects(e, 32) && KeySchedule(ks) && |block| == 64
  {
    && |ls| == |rs| == 17 && |ls[0]| == |rs[0]| == 32 && Picks(block, t.ip, ls[0] + rs[0])
    && forall i: nat :: i < 16 ==> RoundOf(t, e, ks[i], ls[i], rs[i], ls[i + 1], rs[i + 1])
  }

  /** The output is the final permutation of the exchanged halves. */
  ghost predicate Ends(t: Tables, l: Bits, r: Bits, out: Bits)
    requires WellFormed(t)
  {
    |l| == |r| == 32 && Picks(r + l, t.fp, out)
  }

  ghost predicate Enciphers(t: Tables, e: seq<int>, ks: seq<Bits>, block: Bits, out: Bits)
    requires WellFormed(t) && |e| == 48 && Selects(e, 32) && KeySchedule(ks) && |block| == 64
  {
    exists ls: seq<Bits>, rs: seq<Bits> :: Trace(t, e, ks, block, ls, rs) && Ends(t, ls[16], rs[16], out)
  }

  /** The cipher function is that, and nothing else is. */
  lemma EncryptMeaning(t: Tables, e: seq<int>, ks: seq<Bits>, block: Bits, out: Bits)
    requires WellFormed(t) && |e| == 48 && Selects(e, 32) && KeySchedule(ks) && |block| == 64
    ensures Enciphers(t, e, ks, block, out) <==> out == Encrypt(t, e, ks, block)
  {
    hide Rounds, RoundOf, Picks, Select;
    var b := Select(block, t.ip);
    if Enciphers(t, e, ks, block, out) {
      var ls: seq<Bits>, rs: seq<Bits> :| Trace(t, e, ks, block, ls, rs) && Ends(t, ls[16], rs[16], out);
      TraceIs(t, e, ks, block, ls, rs, 16);
      SelectPicks(rs[16] + ls[16], t.fp, out);
    }
    if out == Encrypt(t, e, ks, block) {
      var ls, rs := TraceOf(t, e, ks, block);
      TraceIs(t, e, ks, block, ls, rs, 16);
      SelectPicks(rs[16] + ls[16], t.fp, out);
      assert Ends(t, ls[16], rs[16], out);
    }
  }

  lemma {:induction false} TraceIs(t: Tables, e: seq<int>, ks: seq<Bits>, block: Bits, ls: seq<Bits>, rs: seq<Bits>, n: nat)
    requires WellFormed(t) && |e| == 48 && Selects(e, 32) && KeySchedule(ks) && |block| == 64
    requires Trace(t, e, ks, block, ls, rs) && n <= 16
    ensures |ls| == |rs| == 17
    ensures var b := Select(block, t.ip); Rounds(t, e, ks, n, b[..32], b[32..]) == (ls[n], rs[n])
  {
    hide CipherF, RoundOf, XorBits, Picks, Select;
    var b := Select(block, t.ip);
    if n == 0 {
      SelectPicks(block, t.ip, ls[0] + rs[0]);
      assert b[..32] == ls[0] && b[32..] == rs[0];
    } else {
      TraceIs(t, e, ks, block, ls, rs, n - 1);
      var i: nat := n - 1;
      assert RoundOf(t, e, ks[i], ls[i], rs[i], ls[i + 1], rs[i + 1]);
      RoundMeaning(t, e, ks[i], ls[i], rs[i], ls[i + 1], rs[i + 1]);
    }
  }

  lemma TraceOf(t: Tables, e: seq<int>, ks: seq<Bits>, block: Bits) returns (ls: seq<Bits>, rs: seq<Bits>)
    requires WellFormed(t) && |e| == 48 && Selects(e, 32) && KeySchedule(ks) && |block| == 64
    ensures Trace(t, e, ks, block, ls, rs)
  {
    hide CipherF, RoundOf, XorBits, Picks, Select, Rounds;
    var b := Select(block, t.ip);
    ls := seq(17, i requires 0 <= i < 17 => Rounds(t, e, ks, i, b[..32], b[32..]).0);
    rs := seq(17, i requires 0 <= i < 17 => Rounds(t, e, ks, i, b[..32], b[32..]).1);
    RoundsStep(t, e, ks, 0, b[..32], b[32..]);
    assert ls[0] + rs[0] == b;
    SelectPicks(block, t.ip, b);
    forall i: nat | i < 16
      ensures RoundOf(t, e, ks[i], ls[i], rs[i], ls[i + 1], rs[i + 1])
    {
      RoundsStep(t, e, ks, i, b[..32], b[32..]);
      RoundMeaning(t, e, ks[i], ls[i], rs[i], ls[i + 1], rs[i + 1]);
    }
  }

  lemma RoundsStep(t: Tables, e: seq<int>, ks: seq<Bits>, n: nat, l: Bits, r: Bits)
    requires WellFormed(t) && |e| == 48 && Selects(e, 32) && |l| == |r| == 32
    requires n < |ks| && forall i :: 0 <= i < |ks| ==> |ks[i]| == 48
    ensures Rounds(t, e, ks, 0, l, r) == (l, r)
    ensures var (a, b) := Rounds(t, e, ks, n, l, r); Rounds(t, e, ks, n + 1, l, r) == (b, XorBits(a, CipherF(t, e, b, ks[n])))
  {
  }

  // ----- the loops of des_encrypt1

  /** `L[j] = block[IP[j] - 1]` and the other selections of that form. */
  method SelectInto(src: array<Bit>, t: seq<int>, dst: array<Bit>)
    requires src != dst && dst.Length >= |t| && Selects(t, src.Length)
    modifies dst
    ensures dst[..|t|] == Select(src[..], t) && dst[|t|..] == old(dst[|t|..])
  {
    var j := 0;
    while j < |t|
      invariant 0 <= j <= |t|
      invariant forall i :: 0 <= i < j ==> dst[i] == src[t[i] - 1]
      invariant forall i :: j <= i < dst.Length ==> dst[i] == old(dst[i])
    {
      dst[j] := src[t[j] - 1];
      j := j + 1;
    }
  }

  /** `preS[j] = R[E[j] - 1] ^ KS[i][j]`; R is the upper half of the array L. */
  method Expand(L: array<Bit>, e: array<int>, ks: array2<Bit>, i: nat, preS: array<Bit>)
    requires L.Length == 64 && e.Length == preS.Length == 48 && Selects(e[..], 32) && L != preS
    requires ks.Length0 == 16 && ks.Length1 == 48 && i < 16
    modifies preS
    ensures preS[..] == XorBits(Select(L[32..], e[..]), Keys(ks)[i])
  {
    var j := 0;
    while j < 48
      invariant 0 <= j <= 48
      invariant forall k :: 0 <= k < j ==> preS[k] == Xor(L[32 + e[k] - 1], ks[i, k])
    {
      assert e[j] == e[..][j];
      preS[j] := Xor(L[32 + e[j] - 1], ks[i, j]);
      j := j + 1;
    }
    forall k | 0 <= k < 48
      ensures preS[k] == XorBits(Select(L[32..], e[..]), Keys(ks)[i])[k]
    {
      assert e[k] == e[..][k] && L[32..][e[k] - 1] == L[32 + e[k] - 1];
    }
  }

  ghost function Keys(ks: array2<Bit>): (r: seq<Bits>)
    requires ks.Length0 == 16 && ks.Length1 == 48
    reads ks
    ensures KeySchedule(r)
  {
    seq(16, i requires 0 <= i < 16 reads ks => seq(48, j requires 0 <= j < 48 reads ks => ks[i, j]))
  }

  lemma SubstituteAt(preS: Bits, s: seq<seq<int>>, j: int, c: int)
    requires |preS| == 48 && |s| == 8 && forall j :: 0 <= j < 8 ==> |s[j]| == 64
    requires 0 <= j < 8 && 0 <= c < 4
    ensures Substitute(preS, s)[4 * j + c] == NibbleBit(s[j][Group(preS, j)], c)
  {
    hide Group, NibbleBit;
    assert (4 * j + c) / 4 == j && (4 * j + c) % 4 == c;
  }

  /** The four bits of one substituted value. */
  method PutNibble(f: array<Bit>, t: nat, k: int)
    requires t + 4 <= f.Length
    modifies f
    ensures forall i :: 0 <= i < f.Length && !(t <= i < t + 4) ==> f[i] == old(f[i])
    ensures f[t] == NibbleBit(k, 0) && f[t + 1] == NibbleBit(k, 1) && f[t + 2] == NibbleBit(k, 2) && f[t + 3] == NibbleBit(k, 3)
  {
    f[t] := NibbleBit(k, 0);
    f[t + 1] := NibbleBit(k, 1);
    f[t + 2] := NibbleBit(k, 2);
    f[t + 3] := NibbleBit(k, 3);
  }

  /** The eight substitutions, six bits to four. */
  method SubstituteInto(preS: array<Bit>, s: seq<seq<int>>, f: array<Bit>)
    requires preS.Length == 48 && f.Length == 32 && preS != f
    requires |s| == 8 && forall j :: 0 <= j < 8 ==> |s[j]| == 64
    modifies f
    ensures f[..] == Substitute(preS[..], s) && Substituted(preS[..], s, f[..])
  {
    hide Substitute, NibbleBit, SIndex, Substituted;
    var j := 0;
    while j < 8
      invariant 0 <= j <= 8
      invariant forall i :: 0 <= i < 4 * j ==> f[i] == Substitute(preS[..], s)[i]
    {
      var t := 6 * j;
      var k := s[j][SIndex(preS[t], preS[t + 1], preS[t + 2], preS[t + 3], preS[t + 4], preS[t + 5])];
      assert k == s[j][Group(preS[..], j)];
      SubstituteAt(preS[..], s, j, 0);
      SubstituteAt(preS[..], s, j, 1);
      SubstituteAt(preS[..], s, j, 2);
      SubstituteAt(preS[..], s, j, 3);
      PutNibble(f, 4 * j, k);
      j := j + 1;
    }
    SubstituteMeaning(preS[..], s, f[..]);
  }

  /** `R[j] = L[j] ^ f[P[j] - 1]`. */
  method Combine(L: array<Bit>, f: array<Bit>, p: seq<int>)
    requires L.Length == 64 && f.Length == 32 && L != f && |p| == 32 && Selects(p, 32)
    modifies L
    ensures L[..32] == old(L[..32])
    ensures L[32..] == XorBits(old(L[..32]), Select(f[..], p))
  {
    var j := 0;
    while j < 32
      invariant 0 <= j <= 32
      invariant forall i :: 0 <= i < 32 ==> L[i] == old(L[i])
      invariant forall i :: 0 <= i < j ==> L[32 + i] == Xor(L[i], f[p[i] - 1])
    {
      L[32 + j] := Xor(L[j], f[p[j] - 1]);
      j := j + 1;
    }
  }

  /** `dst[j] = src[from + j]`. */
  method CopyHalf(src: array<Bit>, from: nat, dst: array<Bit>)
    requires src != dst && from + 32 <= src.Length && 32 <= dst.Length
    modifies dst
    ensures dst[..32] == src[from..from + 32] && dst[32..] == old(dst[32..])
  {
    var j := 0;
    while j < 32
      invariant 0 <= j <= 32
      invariant forall i :: 0 <= i < j ==> dst[i] == src[from + i]
      invariant forall i :: j <= i < dst.Length ==> dst[i] == old(dst[i])
    {
      dst[j] := src[from + j];
      j := j + 1;
    }
  }

  /** One turn of the round loop. */
  method RoundInPlace(L: array<Bit>, preS: array<Bit>, e: array<int>, ks: array2<Bit>, f: array<Bit>, tempL: array<Bit>,
                      t: Tables, i: nat)
    requires WellFormed(t) && L.Length == 64 && preS.Length == e.Length == 48 && f.Length == tempL.Length == 32
    requires {L} !! {preS} !! {f} !! {tempL} && Selects(e[..], 32)
    requires ks.Length0 == 16 && ks.Length1 == 48 && i < 16
    modifies L, preS, f, tempL
    ensures L[..32] == old(L[32..])
    ensures L[32..] == XorBits(old(L[..32]), CipherF(t, e[..], old(L[32..]), Keys(ks)[i]))
  {
    hide Substitute, Select, XorBits, Selects, Keys;
    ghost var l, r, k := L[..32], L[32..], Keys(ks)[i];
    CopyHalf(L, 32, tempL);
    assert tempL[..] == tempL[..32] == r && L[..] == l + r;
    Expand(L, e, ks, i, preS);
    assert preS[..] == XorBits(Select(r, e[..]), k);
    SubstituteInto(preS, t.s, f);
    Combine(L, f, t.p);
    assert L[32..] == XorBits(l, CipherF(t, e[..], r, k));
    assert tempL[..] == r;
    CopyHalf(tempL, 0, L);
  }

  /** The exchange of the halves after the last round. */
  method SwapHalves(L: array<Bit>)
    requires L.Length == 64
    modifies L
    ensures L[..] == old(L[32..]) + old(L[..32])
  {
    var j := 0;
    while j < 32
      invariant 0 <= j <= 32
      invariant forall i :: 0 <= i < 32 ==> L[i] == old(L[if i < j then 32 + i else i])
      invariant forall k :: 32 <= k < 64 ==> L[k] == old(L[if k < 32 + j then k - 32 else k])
    {
      var t := L[j];
      L[j] := L[32 + j];
      L[32 + j] := t;
      j := j + 1;
    }
  }

  lemma SelectPrefix(s: Bits, t: seq<int>)
    requires |s| >= 64 && Selects(t, 64)
    ensures Selects(t, |s|) && Select(s, t) == Select(s[..64], t)
  {
  }

  /** `des_encrypt1`: works in place and computes `Encrypt`. */
  method DesEncrypt1(block: array<Bit>, L: array<Bit>, preS: array<Bit>, e: array<int>, ks: array2<Bit>,
                     f: array<Bit>, tempL: array<Bit>, t: Tables)
    requires WellFormed(t) && block.Length >= 64
    requires L.Length == 64 && preS.Length == e.Length == 48 && f.Length == tempL.Length == 32
    requires {block} !! {L} !! {preS} !! {f} !! {tempL} && Selects(e[..], 32)
    requires ks.Length0 == 16 && ks.Length1 == 48
    modifies block, L, preS, f, tempL
    ensures block[..64] == Encrypt(t, e[..], Keys(ks), old(block[..64]))
    ensures Enciphers(t, e[..], Keys(ks), old(block[..64]), block[..64])
    ensures block[64..] == old(block[64..])
  {
    ghost var keys, sel := Keys(ks), e[..];
    SelectPrefix(block[..], t.ip);
    SelectInto(block, t.ip, L);
    hide CipherF, Select, XorBits, Keys, Selects, Substitute, Enciphers;
    ghost var b := Select(old(block[..64]), t.ip);
    assert L[..64] == L[..];
    ghost var l, r := L[..32], L[32..];
    assert l == b[..32] && r == b[32..];
    var i := 0;
    while i < 16
      invariant 0 <= i <= 16 && e[..] == sel && Keys(ks) == keys
      invariant (L[..32], L[32..]) == Rounds(t, sel, keys, i, l, r)
      invariant block[..] == old(block[..])
    {
      RoundInPlace(L, preS, e, ks, f, tempL, t, i);
      i := i + 1;
    }
    ghost var out := L[32..] + L[..32];
    assert Encrypt(t, sel, keys, old(block[..64])) == Select(out, t.fp);
    SwapHalves(L);
    SelectInto(L, t.fp, block);
    EncryptMeaning(t, sel, keys, old(block[..64]), block[..64]);
  }
}
