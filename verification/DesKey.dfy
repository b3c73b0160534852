/**
 The key schedule and the tables of des_crypt.c, and what they add to the cipher:
 the real permutations are inverse, and complement and weak keys pass through the
 schedule.
 */
module DesKey {
  import opened Des

  function Pick(c: int, a0: int, a1: int, a2: int, a3: int, a4: int := 0, a5: int := 0, a6: int := 0, a7: int := 0): int {
    if c == 0 then a0 else if c == 1 then a1 else if c == 2 then a2 else if c == 3 then a3
    else if c == 4 then a4 else if c == 5 then a5 else if c == 6 then a6 else a7
  }

  /** Initial permutation. */
  function InitialEntry(j: int): int {
    match j / 8
    case 0 => Pick(j % 8, 58, 50, 42, 34, 26, 18, 10, 2)
    case 1 => Pick(j % 8, 60, 52, 44, 36, 28, 20, 12, 4)
    case 2 => Pick(j % 8, 62, 54, 46, 38, 30, 22, 14, 6)
    case 3 => Pick(j % 8, 64, 56, 48, 40, 32, 24, 16, 8)
    case 4 => Pick(j % 8, 57, 49, 41, 33, 25, 17, 9, 1)
    case 5 => Pick(j % 8, 59, 51, 43, 35, 27, 19, 11, 3)
    case 6 => Pick(j % 8, 61, 53, 45, 37, 29, 21, 13, 5)
    case _ => Pick(j % 8, 63, 55, 47, 39, 31, 23, 15, 7)
  }

  /** Final permutation. */
  function FinalEntry(j: int): int {
    match j / 8
    case 0 => Pick(j % 8, 40, 8, 48, 16, 56, 24, 64, 32)
    case 1 => Pick(j % 8, 39, 7, 47, 15, 55, 23, 63, 31)
    case 2 => Pick(j % 8, 38, 6, 46, 14, 54, 22, 62, 30)
    case 3 => Pick(j % 8, 37, 5, 45, 13, 53, 21, 61, 29)
    case 4 => Pick(j % 8, 36, 4, 44, 12, 52, 20, 60, 28)
    case 5 => Pick(j % 8, 35, 3, 43, 11, 51, 19, 59, 27)
    case 6 => Pick(j % 8, 34, 2, 42, 10, 50, 18, 58, 26)
    case _ => Pick(j % 8, 33, 1, 41, 9, 49, 17, 57, 25)
  }

  /** P, the permutation on the selected combination. */
  function PEntry(j: int): int {
    match j / 4
    case 0 => Pick(j % 4, 16, 7, 20, 21)
    case 1 => Pick(j % 4, 29, 12, 28, 17)
    case 2 => Pick(j % 4, 1, 15, 23, 26)
    case 3 => Pick(j % 4, 5, 18, 31, 10)
    case 4 => Pick(j % 4, 2, 8, 24, 14)
    case 5 => Pick(j % 4, 32, 27, 3, 9)
    case 6 => Pick(j % 4, 19, 13, 30, 6)
    case _ => Pick(j % 4, 22, 11, 4, 25)
  }

  /** Permuted choice 1, first half. */
  function ChoiceOneC(j: int): int {
    match j / 7
    case 0 => Pick(j % 7, 57, 49, 41, 33, 25, 17, 9)
    case 1 => Pick(j % 7, 1, 58, 50, 42, 34, 26, 18)
    case 2 => Pick(j % 7, 10, 2, 59, 51, 43, 35, 27)
    case _ => Pick(j % 7, 19, 11, 3, 60, 52, 44, 36)
  }

  /** Permuted choice 1, second half. */
  function ChoiceOneD(j: int): int {
    match j / 7
    case 0 => Pick(j % 7, 63, 55, 47, 39, 31, 23, 15)
    case 1 => Pick(j % 7, 7, 62, 54, 46, 38, 30, 22)
    case 2 => Pick(j % 7, 14, 6, 61, 53, 45, 37, 29)
    case _ => Pick(j % 7, 21, 13, 5, 28, 20, 12, 4)
  }

  /** Permuted choice 2, out of C. */
  function ChoiceTwoC(j: int): int {
    match j / 6
    case 0 => Pick(j % 6, 14, 17, 11, 24, 1, 5)
    case 1 => Pick(j % 6, 3, 28, 15, 6, 21, 10)
    case 2 => Pick(j % 6, 23, 19, 12, 4, 26, 8)
    case _ => Pick(j % 6, 16, 7, 27, 20, 13, 2)
  }

  /** Permuted choice 2, out of C and D taken together. */
  function ChoiceTwoD(j: int): int {
    match j / 6
    case 0 => Pick(j % 6, 41, 52, 31, 37, 47, 55)
    case 1 => Pick(j % 6, 30, 40, 51, 45, 33, 48)
    case 2 => Pick(j % 6, 44, 49, 39, 56, 34, 53)
    case _ => Pick(j % 6, 46, 42, 50, 36, 29, 32)
  }

  /** The E bit-selection table before any salt. */
  function ExpansionEntry(j: int): int {
    match j / 6
    case 0 => Pick(j % 6, 32, 1, 2, 3, 4, 5)
    case 1 => Pick(j % 6, 4, 5, 6, 7, 8, 9)
    case 2 => Pick(j % 6, 8, 9, 10, 11, 12, 13)
    case 3 => Pick(j % 6, 12, 13, 14, 15, 16, 17)
    case 4 => Pick(j % 6, 16, 17, 18, 19, 20, 21)
    case 5 => Pick(j % 6, 20, 21, 22, 23, 24, 25)
    case 6 => Pick(j % 6, 24, 25, 26, 27, 28, 29)
    case _ => Pick(j % 6, 28, 29, 30, 31, 32, 1)
  }

  /** The rotations of each round. */
  function Shifts(i: int): (s: nat)
    ensures 1 <= s <= 2
  {
    if i == 0 || i == 1 || i == 8 || i == 15 then 1 else 2
  }

  lemma TableRanges()
    ensures forall j :: 0 <= j < 64 ==> 1 <= InitialEntry(j) <= 64 && 1 <= FinalEntry(j) <= 64
    ensures forall j :: 0 <= j < 32 ==> 1 <= PEntry(j) <= 32
    ensures forall j :: 0 <= j < 28 ==> 1 <= ChoiceOneC(j) <= 64 && 1 <= ChoiceOneD(j) <= 64
    ensures forall j :: 0 <= j < 24 ==> 1 <= ChoiceTwoC(j) <= 28 && 29 <= ChoiceTwoD(j) <= 56
    ensures forall j :: 0 <= j < 48 ==> 1 <= ExpansionEntry(j) <= 32
  {
  }

  /** The tables that follow a rule follow it: IP takes the even columns and then the odd ones from the bottom up, E repeats the edges of each four. */
  lemma TableRules(j: int)
    ensures 0 <= j < 64 ==> InitialEntry(j) == 8 * (7 - j % 8) + if j < 32 then 2 * (j / 8) + 2 else 2 * (j / 8) - 7
    ensures 0 <= j < 48 ==> ExpansionEntry(j) == (4 * (j / 6) + j % 6 + 31) % 32 + 1
  {
    if 0 <= j < 64 {
      InitialRule(j);
    }
    if 0 <= j < 48 {
      ExpansionRule(j);
    }
  }

  lemma InitialRule(j: int)
    requires 0 <= j < 64
    ensures InitialEntry(j) == 8 * (7 - j % 8) + if j < 32 then 2 * (j / 8) + 2 else 2 * (j / 8) - 7
  {
  }

  lemma ExpansionRule(j: int)
    requires 0 <= j < 48
    ensures ExpansionEntry(j) == (4 * (j / 6) + j % 6 + 31) % 32 + 1
  {
  }

  /** C takes the first columns of the key bytes from the bottom up, D the last ones and what is left of the fourth. */
  lemma ChoiceRules(j: int)
    requires 0 <= j < 28
    ensures ChoiceOneC(j) == 57 - 8 * (j % 8) + j / 8
    ensures ChoiceOneD(j) == if j < 24 then 63 - 8 * (j % 8) - j / 8 else 28 - 8 * (j - 24)
  {
    FirstHalf(j);
    SecondHalf(j);
  }

  lemma FirstHalf(j: int)
    requires 0 <= j < 28
    ensures ChoiceOneC(j) == 57 - 8 * (j % 8) + j / 8
  {
  }

  lemma SecondHalf(j: int)
    requires 0 <= j < 28
    ensures ChoiceOneD(j) == if j < 24 then 63 - 8 * (j % 8) - j / 8 else 28 - 8 * (j - 24)
  {
  }

  /** P is a permutation, and no bit of C and D is chosen twice for a round key. */
  lemma NoneTwice(i: int, j: int)
    ensures 0 <= i < j < 32 ==> PEntry(i) != PEntry(j)
    ensures 0 <= i < j < 24 ==> ChoiceTwoC(i) != ChoiceTwoC(j) && ChoiceTwoD(i) != ChoiceTwoD(j)
  {
    if 0 <= i < j < 32 {
      PlaceOfP(i);
      PlaceOfP(j);
    }
    if 0 <= i < j < 24 {
      PlaceOfChoice(i);
      PlaceOfChoice(j);
    }
  }

  /** Where P sends a bit. */
  function InverseP(n: int): int {
    match (n - 1) / 4
    case 0 => Pick((n - 1) % 4, 8, 16, 22, 30)
    case 1 => Pick((n - 1) % 4, 12, 27, 1, 17)
    case 2 => Pick((n - 1) % 4, 23, 15, 29, 5)
    case 3 => Pick((n - 1) % 4, 25, 19, 9, 0)
    case 4 => Pick((n - 1) % 4, 7, 13, 24, 2)
    case 5 => Pick((n - 1) % 4, 3, 28, 10, 18)
    case 6 => Pick((n - 1) % 4, 31, 11, 21, 6)
    case _ => Pick((n - 1) % 4, 4, 26, 14, 20)
  }

  lemma PlaceOfP(j: int)
    requires 0 <= j < 32
    ensures InverseP(PEntry(j)) == j
  {
  }

  /** Where permuted choice 2 puts a bit of C, and one of D; 9, 18, 22, 25, 35, 38, 43 and 54 are left out. */
  function InverseChoice(n: int): int {
    match (n - 1) / 7
    case 0 => Pick((n - 1) % 7, 4, 23, 6, 15, 5, 9, 19)
    case 1 => Pick((n - 1) % 7, 17, -1, 11, 2, 14, 22, 0)
    case 2 => Pick((n - 1) % 7, 8, 18, 1, -1, 13, 21, 10)
    case 3 => Pick((n - 1) % 7, -1, 12, 3, -1, 16, 20, 7)
    case 4 => Pick((n - 1) % 7, 22, 6, 2, 23, 10, 16, -1)
    case 5 => Pick((n - 1) % 7, 21, 3, -1, 14, 7, 0, 19)
    case 6 => Pick((n - 1) % 7, -1, 12, 9, 18, 4, 11, 13)
    case _ => Pick((n - 1) % 7, 20, 8, 1, 17, -1, 5, 15)
  }

  lemma PlaceOfChoice(j: int)
    requires 0 <= j < 24
    ensures InverseChoice(ChoiceTwoC(j)) == j && InverseChoice(ChoiceTwoD(j)) == j
  {
  }

  /** The tables `des_encrypt` hands to `des_encrypt1`, for any substitution table. */
  ghost function Standard(s: seq<seq<int>>): (t: Tables)
    requires |s| == 8 && forall j :: 0 <= j < 8 ==> |s[j]| == 64
    ensures WellFormed(t) && t.s == s
  {
    TableRanges();
    Tables(seq(64, j => InitialEntry(j)), s, seq(32, j => PEntry(j)), seq(64, j => FinalEntry(j)))
  }

  lemma FinalInvertsInitial(j: int)
    requires 0 <= j < 64
    ensures InitialEntry(FinalEntry(j) - 1) == j + 1
  {
  }

  lemma InitialInvertsFinal(j: int)
    requires 0 <= j < 64
    ensures FinalEntry(InitialEntry(j) - 1) == j + 1
  {
  }

  /** The comment "FP = IP^(-1)" of the table, both ways. */
  lemma StandardInverse(s: seq<seq<int>>)
    requires |s| == 8 && forall j :: 0 <= j < 8 ==> |s[j]| == 64
    ensures Inverse(Standard(s))
  {
    hide InitialEntry, FinalEntry, PEntry, Pick;
    TableRanges();
    forall j | 0 <= j < 64
      ensures Standard(s).ip[Standard(s).fp[j] - 1] == j + 1
      ensures Standard(s).fp[Standard(s).ip[j] - 1] == j + 1
    {
      FinalInvertsInitial(j);
      InitialInvertsFinal(j);
    }
  }

  // ----- the key schedule

  /** Rotations done when round i uses C and D: its own included. */
  ghost function Total(i: int): (n: nat)
    requires 0 <= i <= 16
    ensures i <= n <= 2 * i
  {
    if i == 0 then 0 else Total(i - 1) + Shifts(i - 1)
  }

  /** As every shift is one or two, these sums leave one choice: one place in rounds 1, 2, 9 and 16, two in the others. */
  lemma TotalsPin()
    ensures Total(2) == 2 && Total(8) == 14 && Total(9) == 15 && Total(15) == 27 && Total(16) == 28
  {
    FourRounds(0);
    FourRounds(4);
    FourRounds(8);
    FourRounds(12);
    assert Total(0) == 0;
    assert Total(1) == Total(0) + Shifts(0);
    assert Total(2) == Total(1) + Shifts(1);
    assert Total(9) == Total(8) + Shifts(8);
    assert Total(16) == Total(15) + Shifts(15);
  }

  /** The key bit that bit j of round key i is a copy of. */
  ghost function KeyBit(i: int, j: int): (b: int)
    requires 0 <= i < 16 && 0 <= j < 48
    ensures 0 <= b < 64
  {
    TableRanges();
    if j < 24 then ChoiceOneC((ChoiceTwoC(j) - 1 + Total(i + 1)) % 28) - 1
    else ChoiceOneD((ChoiceTwoD(j - 24) - 29 + Total(i + 1)) % 28) - 1
  }

  ghost function Schedule(key: Bits): (ks: seq<Bits>)
    requires |key| == 64
    ensures KeySchedule(ks)
  {
    seq(16, i requires 0 <= i < 16 => seq(48, j requires 0 <= j < 48 => key[KeyBit(i, j)]))
  }

  /** The rotation by one of `C[j] = C[j+1]` with C[0] carried to the end. */
  method RotateOne(c: array<Bit>)
    requires c.Length == 28
    modifies c
    ensures c[..] == old(c[1..] + c[..1])
  {
    var t := c[0];
    var j := 0;
    while j < 27
      invariant 0 <= j <= 27
      invariant forall i :: 0 <= i < j ==> c[i] == old(c[i + 1])
      invariant forall i :: j <= i < 28 ==> c[i] == old(c[i])
    {
      c[j] := c[j + 1];
      j := j + 1;
    }
    c[27] := t;
  }

  /** c holds c0 rotated left by n. */
  ghost predicate Rotated(c: Bits, c0: Bits, n: nat) {
    |c| == |c0| == 28 && forall j :: 0 <= j < 28 ==> c[j] == c0[(j + n) % 28]
  }

  lemma RotatedOnce(c0: Bits, c: Bits, c': Bits, n: nat)
    requires Rotated(c, c0, n) && c' == c[1..] + c[..1]
    ensures Rotated(c', c0, n + 1)
  {
    forall j | 0 <= j < 28
      ensures c'[j] == c0[(j + (n + 1)) % 28]
    {
      assert c'[j] == c[(j + 1) % 28];
      assert ((j + 1) % 28 + n) % 28 == (j + (n + 1)) % 28;
    }
  }

  /** The rotations of one round. */
  method RotateRound(c: array<Bit>, d: array<Bit>, shifts: nat, ghost c0: Bits, ghost d0: Bits, ghost n: nat)
    requires c.Length == d.Length == 28 && c != d
    requires Rotated(c[..], c0, n) && Rotated(d[..], d0, n)
    modifies c, d
    ensures Rotated(c[..], c0, n + shifts) && Rotated(d[..], d0, n + shifts)
  {
    hide Rotated;
    var k := 0;
    while k < shifts
      invariant 0 <= k <= shifts
      invariant Rotated(c[..], c0, n + k) && Rotated(d[..], d0, n + k)
    {
      ghost var oc, od := c[..], d[..];
      assert oc[1..] + oc[..1] == c[1..] + c[..1] && od[1..] + od[..1] == d[1..] + d[..1];
      RotateOne(c);
      RotateOne(d);
      RotatedOnce(c0, oc, c[..], n + k);
      RotatedOnce(d0, od, d[..], n + k);
      k := k + 1;
    }
  }

  /** The halves `des_setkey` takes out of the key. */
  ghost predicate Chosen(c: Bits, d: Bits, key: Bits) {
    && |c| == |d| == 28 && |key| == 64
    && (forall j :: 0 <= j < 28 ==> 1 <= ChoiceOneC(j) <= 64 && c[j] == key[ChoiceOneC(j) - 1])
    && (forall j :: 0 <= j < 28 ==> 1 <= ChoiceOneD(j) <= 64 && d[j] == key[ChoiceOneD(j) - 1])
  }

  /** Round key i out of the rotated halves. */
  method PickRoundKey(c: array<Bit>, d: array<Bit>, ks: array2<Bit>, i: nat, ghost c0: Bits, ghost d0: Bits, ghost key: Bits)
    requires c.Length == d.Length == 28 && ks.Length0 == 16 && ks.Length1 == 48 && i < 16
    requires Rotated(c[..], c0, Total(i + 1)) && Rotated(d[..], d0, Total(i + 1)) && Chosen(c0, d0, key)
    modifies ks
    ensures forall b :: 0 <= b < 48 ==> ks[i, b] == key[KeyBit(i, b)]
    ensures forall a, b :: 0 <= a < 16 && 0 <= b < 48 && a != i ==> ks[a, b] == old(ks[a, b])
  {
    TableRanges();
    hide ChoiceOneC, ChoiceOneD, ChoiceTwoC, ChoiceTwoD, Total;
    var j := 0;
    while j < 24
      invariant 0 <= j <= 24
      invariant forall k :: 0 <= k < j ==> ks[i, k] == c[ChoiceTwoC(k) - 1]
      invariant forall k :: 24 <= k < 24 + j ==> ks[i, k] == d[ChoiceTwoD(k - 24) - 29]
      invariant forall a, b :: 0 <= a < 16 && 0 <= b < 48 && a != i ==> ks[a, b] == old(ks[a, b])
    {
      ks[i, j] := c[ChoiceTwoC(j) - 1];
      ks[i, j + 24] := d[ChoiceTwoD(j) - 28 - 1];
      j := j + 1;
    }
    forall b | 0 <= b < 48
      ensures ks[i, b] == key[KeyBit(i, b)]
    {
      if b < 24 {
        assert c[..][ChoiceTwoC(b) - 1] == c[ChoiceTwoC(b) - 1];
      } else {
        assert d[..][ChoiceTwoD(b - 24) - 29] == d[ChoiceTwoD(b - 24) - 29];
      }
    }
  }

  /** The first loop of `des_setkey`. */
  method ChooseHalves(key: Bits, c: array<Bit>, d: array<Bit>)
    requires |key| >= 64 && c.Length == d.Length == 28 && c != d
    modifies c, d
    ensures Chosen(c[..], d[..], key[..64])
  {
    TableRanges();
    hide ChoiceOneC, ChoiceOneD;
    var i := 0;
    while i < 28
      invariant 0 <= i <= 28
      invariant forall j :: 0 <= j < i ==> c[j] == key[ChoiceOneC(j) - 1] && d[j] == key[ChoiceOneD(j) - 1]
    {
      c[i] := key[ChoiceOneC(i) - 1];
      d[i] := key[ChoiceOneD(i) - 1];
      i := i + 1;
    }
  }

  /** The second loop of `des_setkey`. */
  method RoundKeys(c: array<Bit>, d: array<Bit>, ks: array2<Bit>, ghost key: Bits)
    requires |key| == 64 && c.Length == d.Length == 28 && c != d && ks.Length0 == 16 && ks.Length1 == 48
    requires Chosen(c[..], d[..], key)
    modifies c, d, ks
    ensures Keys(ks) == Schedule(key)
  {
    hide Chosen, KeyBit, Total, Shifts, Rotated;
    ghost var c0, d0 := c[..], d[..];
    RotatedNone(c0);
    RotatedNone(d0);
    var i := 0;
    while i < 16
      invariant 0 <= i <= 16
      invariant Rotated(c[..], c0, Total(i)) && Rotated(d[..], d0, Total(i))
      invariant forall a, b :: 0 <= a < i && 0 <= b < 48 ==> ks[a, b] == key[KeyBit(a, b)]
    {
      TotalStep(i);
      RotateRound(c, d, Shifts(i), c0, d0, Total(i));
      PickRoundKey(c, d, ks, i, c0, d0, key);
      i := i + 1;
    }
    forall a | 0 <= a < 16
      ensures Keys(ks)[a] == Schedule(key)[a]
    {
    }
  }

  /** `des_setkey`: the in-place rotations and selections copy fixed key bits into each round key. */
  method DesSetKey(key: Bits, c: array<Bit>, d: array<Bit>, ks: array2<Bit>, e: array<int>)
    requires |key| >= 64 && c.Length == d.Length == 28 && c != d
    requires ks.Length0 == 16 && ks.Length1 == 48 && e.Length == 48
    modifies c, d, ks, e
    ensures Keys(ks) == Schedule(key[..64])
    ensures forall j :: 0 <= j < 48 ==> e[j] == ExpansionEntry(j)
    ensures Selects(e[..], 32)
  {
    hide Schedule, Keys;
    ChooseHalves(key, c, d);
    RoundKeys(c, d, ks, key[..64]);
    TableRanges();
    hide ExpansionEntry;
    var i := 0;
    while i < 48
      invariant 0 <= i <= 48
      invariant forall j :: 0 <= j < i ==> e[j] == ExpansionEntry(j)
      invariant Keys(ks) == Schedule(key[..64])
    {
      e[i] := ExpansionEntry(i);
      i := i + 1;
    }
  }

  lemma TotalStep(i: nat)
    requires i < 16
    ensures Total(i + 1) == Total(i) + Shifts(i)
  {
  }

  lemma RotatedNone(c: Bits)
    requires |c| == 28
    ensures Rotated(c, c, Total(0))
  {
  }

  /** After the last round both halves are back where the key put them: the schedule turns the full circle. */
  lemma FullCircle(c: Bits, c0: Bits)
    requires Rotated(c, c0, Total(16))
    ensures Total(16) == 28 && c == c0
  {
    FourRounds(0);
    FourRounds(4);
    FourRounds(8);
    FourRounds(12);
  }

  lemma FourRounds(i: nat)
    requires i <= 12
    ensures Total(i + 4) == Total(i) + Shifts(i) + Shifts(i + 1) + Shifts(i + 2) + Shifts(i + 3)
  {
    hide Shifts;
    assert Total(i + 2) == Total(i + 1) + Shifts(i + 1);
    assert Total(i + 3) == Total(i + 2) + Shifts(i + 2);
  }

  /** The eighth bit of every key byte is a parity bit: no round key depends on it. */
  lemma ParityUnused(i: int, j: int)
    requires 0 <= i < 16 && 0 <= j < 48
    ensures KeyBit(i, j) % 8 != 7
  {
  }

  // ----- whole-key properties of the cipher

  lemma ScheduleNot(key: Bits)
    requires |key| == 64
    ensures Schedule(Not(key)) == NotAll(Schedule(key))
  {
    forall i | 0 <= i < 16
      ensures Schedule(Not(key))[i] == NotAll(Schedule(key))[i]
    {
    }
  }

  /** Complementing every key bit and every block bit complements every output bit. */
  lemma Complementation(s: seq<seq<int>>, e: seq<int>, key: Bits, block: Bits)
    requires |s| == 8 && forall j :: 0 <= j < 8 ==> |s[j]| == 64
    requires |e| == 48 && Selects(e, 32) && |key| == |block| == 64
    ensures Encrypt(Standard(s), e, Schedule(Not(key)), Not(block)) == Not(Encrypt(Standard(s), e, Schedule(key), block))
  {
    ScheduleNot(key);
    EncryptNot(Standard(s), e, Schedule(key), block);
  }

  /** With the tables of the library, the reversed schedule decrypts. */
  lemma Decryption(s: seq<seq<int>>, e: seq<int>, key: Bits, block: Bits)
    requires |s| == 8 && forall j :: 0 <= j < 8 ==> |s[j]| == 64
    requires |e| == 48 && Selects(e, 32) && |key| == |block| == 64
    ensures Encrypt(Standard(s), e, Reverse(Schedule(key)), Encrypt(Standard(s), e, Schedule(key), block)) == block
  {
    StandardInverse(s);
    DecryptEncrypt(Standard(s), e, Schedule(key), block);
  }

  /** A weak key: all of C alike and all of D alike. */
  ghost predicate Weak(key: Bits)
    requires |key| == 64
  {
    TableRanges();
    && (forall j :: 0 <= j < 28 ==> key[ChoiceOneC(j) - 1] == key[ChoiceOneC(0) - 1])
    && (forall j :: 0 <= j < 28 ==> key[ChoiceOneD(j) - 1] == key[ChoiceOneD(0) - 1])
  }

  /** Under a weak key encryption undoes itself. */
  lemma WeakKeyInvolution(s: seq<seq<int>>, e: seq<int>, key: Bits, block: Bits)
    requires |s| == 8 && forall j :: 0 <= j < 8 ==> |s[j]| == 64
    requires |e| == 48 && Selects(e, 32) && |key| == |block| == 64 && Weak(key)
    ensures Encrypt(Standard(s), e, Schedule(key), Encrypt(Standard(s), e, Schedule(key), block)) == block
  {
    var ks := Schedule(key);
    hide ChoiceOneC, ChoiceOneD, ChoiceTwoC, ChoiceTwoD;
    forall i | 0 <= i < 16
      ensures Reverse(ks)[i] == ks[i]
    {
      forall j | 0 <= j < 48
        ensures ks[15 - i][j] == ks[i][j]
      {
      }
    }
    assert Reverse(ks) == ks;
    Decryption(s, e, key, block);
  }

  // ----- the salt of des_crypt

  function SaltValue(ch: int): int {
    var c := if ch > 'Z' as int then ch - 6 else ch;
    (if c > '9' as int then c - 7 else c) - '.' as int
  }

  /** The sixty-four salt characters, dot, slash, digits, capitals and small letters, stand for 0 to 63. */
  lemma SaltLetters(i: nat)
    requires i < 64
    ensures SaltValue(if i < 2 then '.' as int + i else if i < 12 then '0' as int + i - 2
                      else if i < 38 then 'A' as int + i - 12 else 'a' as int + i - 38) == i
  {
  }

  /** `(c >> j) & 01`, also for a negative c. */
  function SaltBit(c: int, j: nat): Bit
    requires j < 6
  {
    (c / (if j == 0 then 1 else if j == 1 then 2 else if j == 2 then 4 else if j == 3 then 8 else if j == 4 then 16 else 32)) % 2
  }

  /**
   The swaps one salt character makes in E: entry j of its six and the one 24 places
   on change places where the salt bit is set.  Whatever the character, E stays a
   selection of the 32 bits, so the properties above hold for every salt.
   */
  method SwapSalt(e: array<int>, ch: int, i: nat)
    requires e.Length == 48 && Selects(e[..], 32) && i < 2
    modifies e
    ensures Selects(e[..], 32)
    ensures SaltedBy(e[..], old(e[..]), SaltValue(ch), i, 6)
  {
    hide SaltBit, SaltSource, Selects, SaltedBy, SaltValue;
    var c := SaltValue(ch);
    ghost var was := e[..];
    var j := 0;
    SaltStart(was, c, i);
    while j < 6
      invariant 0 <= j <= 6
      invariant SaltedBy(e[..], was, c, i, j)
    {
      ghost var b := e[..];
      if SaltBit(c, j) == 1 {
        var temp := e[6 * i + j];
        e[6 * i + j] := e[6 * i + j + 24];
        e[6 * i + j + 24] := temp;
      }
      Salted(b, e[..], was, c, i, j, j + 1);
      j := j + 1;
    }
    StillSelects(e[..], was, c, i);
  }

  /** Where entry k comes from after j of the six swaps. */
  ghost function SaltSource(c: int, i: nat, j: nat, k: int): int
    requires i < 2 && j <= 6 && 0 <= k < 48
  {
    if 6 * i <= k < 6 * i + j && SaltBit(c, k - 6 * i) == 1 then k + 24
    else if 6 * i + 24 <= k < 6 * i + 24 + j && SaltBit(c, k - 24 - 6 * i) == 1 then k - 24
    else k
  }

  ghost predicate SaltedBy(e: seq<int>, was: seq<int>, c: int, i: nat, j: nat)
    requires i < 2 && j <= 6
  {
    |e| == |was| == 48 &&
    forall k :: 0 <= k < 48 ==> 0 <= SaltSource(c, i, j, k) < 48 && e[k] == was[SaltSource(c, i, j, k)]
  }

  lemma Salted(b: seq<int>, e: seq<int>, was: seq<int>, c: int, i: nat, j: nat, n: nat)
    requires i < 2 && j < 6 && n == j + 1 && SaltedBy(b, was, c, i, j)
    requires e == if SaltBit(c, j) == 1 then b[6 * i + j := b[6 * i + j + 24]][6 * i + j + 24 := b[6 * i + j]] else b
    ensures SaltedBy(e, was, c, i, n)
  {
    hide SaltSource, SaltBit;
    SaltStep(c, i, j);
    forall k | 0 <= k < 48
      ensures 0 <= SaltSource(c, i, n, k) < 48 && e[k] == was[SaltSource(c, i, n, k)]
    {
      assert b[6 * i + j] == was[6 * i + j] && b[6 * i + j + 24] == was[6 * i + j + 24];
      assert b[k] == was[SaltSource(c, i, j, k)];
    }
  }

  lemma SaltStart(e: seq<int>, c: int, i: nat)
    requires i < 2 && |e| == 48
    ensures SaltedBy(e, e, c, i, 0)
  {
  }

  lemma SaltStep(c: int, i: nat, j: nat)
    requires i < 2 && j < 6
    ensures SaltSource(c, i, j, 6 * i + j) == 6 * i + j && SaltSource(c, i, j, 6 * i + j + 24) == 6 * i + j + 24
    ensures forall k :: 0 <= k < 48 ==>
              SaltSource(c, i, j + 1, k) ==
              if SaltBit(c, j) == 1 && k == 6 * i + j then k + 24
              else if SaltBit(c, j) == 1 && k == 6 * i + j + 24 then k - 24
              else SaltSource(c, i, j, k)
  {
    hide SaltBit;
  }

  /** What the six swaps come to. */
  lemma SaltEnd(c: int, i: nat)
    requires i < 2
    ensures forall j :: 0 <= j < 6 ==> SaltSource(c, i, 6, 6 * i + j) == if SaltBit(c, j) == 1 then 6 * i + j + 24 else 6 * i + j
    ensures forall j :: 0 <= j < 6 ==> SaltSource(c, i, 6, 6 * i + j + 24) == if SaltBit(c, j) == 1 then 6 * i + j else 6 * i + j + 24
    ensures forall k :: 0 <= k < 48 && !(6 * i <= k < 6 * i + 6 || 6 * i + 24 <= k < 6 * i + 30) ==> SaltSource(c, i, 6, k) == k
  {
    hide SaltBit;
  }

  lemma StillSelects(e: seq<int>, was: seq<int>, c: int, i: nat)
    requires i < 2 && SaltedBy(e, was, c, i, 6) && Selects(was, 32)
    ensures Selects(e, 32)
  {
  }
}
