/**
 Little-endian limb sequences and the numbers they stand for.

 A multiple-precision magnitude is a sequence of 15-bit limbs, least significant
 limb first.  Everything here is about sequences; the classes and loops that keep
 them in arrays are in the modules that import this one.
 */
module Limbs {
  /** A limb as it is stored in a C `short`. */
  type Limb = x: int | 0 <= x < 0x8000

  /** A signed 32-bit C `long` (and `int`): a value of this type never overflowed. */
  type Long = x: int | -0x8000_0000 <= x < 0x8000_0000

  /** x moved i limbs up.  (Written without a product of two variables on purpose.) */
  ghost function Scale(x: int, i: nat): int {
    if i == 0 then x else 0x8000 * Scale(x, i - 1)
  }

  ghost function Pow(n: nat): int {
    Scale(1, n)
  }

  /** The number a limb sequence stands for. */
  ghost function Nat(s: seq<Limb>): int {
    if s == [] then 0 else Nat(s[..|s| - 1]) + Scale(s[|s| - 1], |s| - 1)
  }

  /** `x & 077777` and an arithmetic shift right by fifteen, on two's complement. */
  function Low(x: int): (r: Limb) {
    x % 0x8000
  }

  function High(x: int): (r: int)
    ensures x == r * 0x8000 + Low(x)
  {
    x / 0x8000
  }

  /** `x & 0100000` is set. */
  predicate Bit15(x: int) {
    (x / 0x8000) % 2 == 1
  }

  lemma ScaleNone(x: int)
    ensures Scale(x, 0) == x
  {
  }

  lemma {:induction false} ScaleAdd(x: int, y: int, i: nat)
    ensures Scale(x + y, i) == Scale(x, i) + Scale(y, i)
  {
    if i > 0 {
      ScaleAdd(x, y, i - 1);
    }
  }

  lemma {:induction false} ScaleUp(x: int, i: nat)
    ensures Scale(0x8000 * x, i) == Scale(x, i + 1)
  {
    if i > 0 {
      ScaleUp(x, i - 1);
    }
  }

  lemma {:induction false} ScaleScale(x: int, i: nat, j: nat)
    ensures Scale(Scale(x, i), j) == Scale(x, i + j)
    decreases j
  {
    if j > 0 {
      ScaleScale(x, i, j - 1);
    }
  }

  lemma {:induction false} ScaleMul(x: int, y: int, i: nat)
    ensures Scale(x * y, i) == x * Scale(y, i)
  {
    if i > 0 {
      ScaleMul(x, y, i - 1);
      MulSwap(x, 0x8000, Scale(y, i - 1));
    }
  }

  lemma MulSwap(a: int, b: int, c: int)
    ensures a * (b * c) == b * (a * c)
  {
  }

  lemma MulMono(a: int, b: int, c: int)
    requires a <= b && 0 <= c
    ensures a * c <= b * c && c * a <= c * b
  {
  }

  /** Two limbs multiply to less than two to the thirtieth. */
  lemma LimbProduct(a: int, b: int)
    requires 0 <= a < 0x8000 && 0 <= b < 0x8000
    ensures 0 <= a * b <= 0x3FFF_0001
    ensures b == 0 ==> a * b == 0
  {
    MulMono(0, a, b);
    MulMono(a, 0x7FFF, b);
  }

  lemma {:induction false} ScaleMono(x: int, y: int, i: nat)
    ensures x <= y <==> Scale(x, i) <= Scale(y, i)
    ensures x == y <==> Scale(x, i) == Scale(y, i)
  {
    if i > 0 {
      ScaleMono(x, y, i - 1);
    }
  }

  lemma {:induction false} ScaleZero(i: nat)
    ensures Scale(0, i) == 0
  {
    if i > 0 {
      ScaleZero(i - 1);
    }
  }

  lemma {:induction false} PowMonotone(m: nat, n: nat)
    requires m <= n
    ensures 1 <= Pow(m) <= Pow(n)
  {
    if n == 0 {
    } else if m == n {
      PowMonotone(m - 1, n - 1);
    } else {
      PowMonotone(m, n - 1);
    }
  }

  lemma NatEmpty(s: seq<Limb>, i: nat)
    ensures Nat(s[..0]) == 0 && Scale(0, i) == 0
  {
    ScaleZero(i);
  }

  /** Taking in one more limb of a longer sequence. */
  lemma NatStep(s: seq<Limb>, i: nat)
    requires i < |s|
    ensures Nat(s[..i + 1]) == Nat(s[..i]) + Scale(s[i], i)
  {
    assert s[..i + 1][..i] == s[..i];
  }

  lemma ArrayStep(a: array<Limb>, i: nat)
    requires i < a.Length
    ensures Nat(a[..i + 1]) == Nat(a[..i]) + Scale(a[i], i)
  {
    assert a[..i + 1][..i] == a[..i];
  }

  /** Every limb sequence stands for a number below the power of its length. */
  lemma {:induction false} NatBound(s: seq<Limb>)
    ensures 0 <= Nat(s) < Pow(|s|)
  {
    if s != [] {
      var n := |s| - 1;
      NatBound(s[..n]);
      ScaleMono(0, s[n], n);
      ScaleMono(s[n], 0x7FFF, n);
      ScaleZero(n);
      ScaleAdd(0x7FFF, 1, n);
      ScaleUp(1, n);
    }
  }

  /** A non-zero top limb makes the number at least the power below its length. */
  lemma NatTop(s: seq<Limb>)
    requires s != [] && s[|s| - 1] != 0
    ensures Pow(|s| - 1) <= Nat(s)
  {
    ScaleMono(1, s[|s| - 1], |s| - 1);
    NatBound(s[..|s| - 1]);
  }

  /** Cutting a sequence in two. */
  lemma {:induction false} NatSplit(s: seq<Limb>, i: nat)
    requires i <= |s|
    ensures Nat(s) == Nat(s[..i]) + Scale(Nat(s[i..]), i)
    decreases |s| - i
  {
    if i == |s| {
      assert s[..i] == s;
      ScaleZero(i);
    } else {
      var n := |s| - 1;
      var t := s[..n];
      NatSplit(t, i);
      assert t[..i] == s[..i];
      assert s[i..][..n - i] == t[i..];
      ScaleScale(s[n], n - i, i);
      ScaleAdd(Nat(t[i..]), Scale(s[n], n - i), i);
    }
  }

  lemma NatCons(s: seq<Limb>)
    requires s != []
    ensures Nat(s) == s[0] + 0x8000 * Nat(s[1..])
  {
    NatSplit(s, 1);
    assert s[..1] == [s[0]];
    assert Scale(Nat(s[1..]), 1) == 0x8000 * Scale(Nat(s[1..]), 0);
  }

  /** Leading zero limbs do not count. */
  lemma {:induction false} NatZeros(s: seq<Limb>, n: nat)
    requires n <= |s| && forall k :: n <= k < |s| ==> s[k] == 0
    ensures Nat(s) == Nat(s[..n])
    decreases |s| - n
  {
    if n == |s| {
      assert s[..n] == s;
    } else {
      var t := s[..|s| - 1];
      NatZeros(t, n);
      assert t[..n] == s[..n];
      ScaleZero(|s| - 1);
    }
  }

  /** A normalised sequence has no leading zero limb. */
  ghost predicate Normal(s: seq<Limb>) {
    s != [] ==> s[|s| - 1] != 0
  }

  lemma NormalZero(s: seq<Limb>)
    requires Normal(s)
    ensures 0 <= Nat(s)
    ensures Nat(s) == 0 <==> s == []
  {
    NatBound(s);
    if s != [] {
      NatTop(s);
      PowMonotone(0, |s| - 1);
    }
  }

  /** The longer of two normalised sequences is the larger number. */
  lemma NormalLonger(s: seq<Limb>, t: seq<Limb>)
    requires Normal(s) && |t| < |s|
    ensures Nat(t) < Nat(s)
  {
    NatTop(s);
    NatBound(t);
    PowMonotone(|t|, |s| - 1);
  }

  /**
   One round of any limb loop: the limbs below i together with the carry stand for
   `done`; limb i and the new carry absorb `delta` at weight i.
   */
  lemma CarryStep(a: array<Limb>, i: nat, low: int, carry: int, carry': int, done: int, delta: int)
    requires i < a.Length && Nat(a[..i]) == low
    requires low + Scale(carry, i) == done
    requires a[i] + 0x8000 * carry' == carry + delta
    ensures Nat(a[..i + 1]) + Scale(carry', i + 1) == done + Scale(delta, i)
  {
    ArrayStep(a, i);
    ScaleUp(carry', i);
    ScaleAdd(a[i], 0x8000 * carry', i);
    ScaleAdd(carry, delta, i);
  }
}
