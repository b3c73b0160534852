/**
 One digit of long division: the trial digit `m_trq` and the multiply-and-subtract
 `m_dsb` of mdiv.c (Knuth, TAOCP vol. 2, section 4.3.1, Algorithm D, steps D3 to D6).
 */
module DivDigit {
  import opened Limbs

  /** The three-limb numerator and the two-limb denominator the trial digit is taken from. */
  ghost function Top3(u1: int, u2: int, u3: int): int {
    (u1 * 0x8000 + u2) * 0x8000 + u3
  }

  ghost function Top2(v1: int, v2: int): int {
    v1 * 0x8000 + v2
  }

  lemma TrialValue(v1: int, v2: int, c1: int, u3: int, d: int)
    ensures (c1 - v1 * d) * 0x8000 + u3 - v2 * d == c1 * 0x8000 + u3 - Top2(v1, v2) * d
  {
    assert Top2(v1, v2) * d == 0x8000 * (v1 * d) + v2 * d by {
      assert (v1 * 0x8000 + v2) * d == (v1 * 0x8000) * d + v2 * d;
    }
  }

  /**
   `m_trq`.  The result is the largest d below 32768 whose multiple of the top two
   divisor limbs does not exceed the top three limbs; it is reached after at most
   two decrements and no intermediate overflows a 32-bit long.
   */
  method TrialDigit(v1: Limb, v2: Limb, u1: Limb, u2: Limb, u3: Limb) returns (q: Limb, ghost decrements: nat)
    requires 0x4000 <= v1 && u1 <= v1
    ensures Top2(v1, v2) * q <= Top3(u1, u2, u3)
    ensures q == 0x7FFF || Top3(u1, u2, u3) < Top2(v1, v2) * (q + 1)
    ensures decrements <= 2
  {
    var d: Long;
    var c1: Long := u1 * 0x8000 + u2;
    if u1 == v1 {
      d := 0x7FFF;
    } else {
      d := c1 / v1;
    }
    FirstTrial(v1, v2, u1, u2, u3, d);
    decrements := 0;
    ghost var rest := c1 - v1 * d;
    while true
      invariant 0 <= d <= 0x7FFF && 0 <= rest == c1 - v1 * d <= 65534
      invariant decrements * 0x4000 <= rest && decrements <= 2
      invariant d == 0x7FFF || Top3(u1, u2, u3) < Top2(v1, v2) * (d + 1)
      decreases d
    {
      LimbProduct(v2, d);
      TrialValue(v1, v2, c1, u3, d);
      var x1: Long := c1 - v1 * d;
      var high: Long := x1 * 0x8000;
      high := high + u3;
      x1 := high - v2 * d;
      d := d - 1;
      if x1 >= 0 {
        break;
      }
      decrements := decrements + 1;
      rest := rest + v1;
      assert v1 * (d + 1) == v1 * d + v1;
    }
    q := d + 1;
  }

  lemma FirstTrial(v1: Limb, v2: Limb, u1: Limb, u2: Limb, u3: Limb, d: int)
    requires 0x4000 <= v1 && u1 <= v1
    requires d == if u1 == v1 then 0x7FFF else (u1 * 0x8000 + u2) / v1
    ensures 0 <= d <= 0x7FFF && 0 <= u1 * 0x8000 + u2 - v1 * d <= 65534
    ensures d == 0x7FFF || Top3(u1, u2, u3) < Top2(v1, v2) * (d + 1)
  {
    var c1 := u1 * 0x8000 + u2;
    if u1 != v1 {
      assert c1 == v1 * (c1 / v1) + c1 % v1;
      QuotientBound(c1, v1, d);
      assert v1 * (d + 1) == v1 * d + v1;
      assert Top2(v1, v2) * (d + 1) == 0x8000 * (v1 * (d + 1)) + v2 * (d + 1);
      MulMono(0, v2, d + 1);
    }
  }

  lemma QuotientBound(c: int, v: int, d: int)
    requires 0 < v && 0 <= c < v * 0x8000 && d == c / v
    ensures 0 <= d < 0x8000
  {
    assert c == v * d + c % v;
  }

  lemma WindowStep(a: array<Limb>, o: nat, i: nat)
    requires o + i < a.Length
    ensures Nat(a[o..o + i + 1]) == Nat(a[o..o + i]) + Scale(a[o + i], i)
  {
    assert a[o..o + i + 1][..i] == a[o..o + i];
  }

  /** `Limbs.CarryStep` for a window of the array that starts at o. */
  lemma WindowCarry(a: array<Limb>, o: nat, i: nat, low: int, carry: int, carry': int, done: int, delta: int)
    requires o + i < a.Length && Nat(a[o..o + i]) == low
    requires low + Scale(carry, i) == done
    requires a[o + i] + 0x8000 * carry' == carry + delta
    ensures Nat(a[o..o + i + 1]) + Scale(carry', i + 1) == done + Scale(delta, i)
  {
    hide Nat, Scale;
    WindowStep(a, o, i);
    ScaleUp(carry', i);
    ScaleAdd(a[o + i], 0x8000 * carry', i);
    ScaleAdd(carry, delta, i);
  }

  /** The first loop of `m_dsb` and the limb after it: subtracts qx times a from the window of b. */
  method SubtractProduct(qx: Limb, n: nat, a: array<Limb>, b: array<Limb>, o: nat) returns (over: Long)
    requires n <= a.Length && o + n < b.Length && a != b
    modifies b
    ensures Nat(b[o..o + n + 1]) + Scale(over, n + 1) == old(Nat(b[o..o + n + 1])) - qx * Nat(a[..n])
    ensures b[..o] == old(b[..o]) && b[o + n + 1..] == old(b[o + n + 1..])
  {
    hide Nat, Scale, Low;
    ghost var w := b[..];
    var borrow: Long := 0;
    var j := 0;
    NatEmpty(a[..], 0);
    assert a[..0] == b[o..o + 0] == w[o..o + 0] == a[..][..0];
    while j < n
      invariant 0 <= j <= n && -0x8000 <= borrow <= 0
      invariant forall k :: 0 <= k < o || o + j <= k < b.Length ==> b[k] == w[k]
      invariant Nat(b[o..o + j]) + Scale(borrow, j) == Nat(w[o..o + j]) - qx * Nat(a[..j])
    {
      LimbProduct(a[j], qx);
      ghost var low, before := Nat(b[o..o + j]), borrow;
      ghost var done := Nat(w[o..o + j]) - qx * Nat(a[..j]);
      ghost var delta := w[o + j] - a[j] * qx;
      var x: Long := a[j] * qx;
      x := x - b[o + j];
      x := borrow - x;
      b[o + j] := Low(x);
      borrow := High(x);
      WindowCarry(b, o, j, low, before, borrow, done, delta);
      DifferenceStep(w, a[..], o, j, qx);
      j := j + 1;
    }
    ghost var low, before := Nat(b[o..o + n]), borrow;
    var x: Long := borrow + b[o + n];
    b[o + n] := Low(x);
    over := High(x);
    WindowCarry(b, o, n, low, before, over, Nat(w[o..o + n]) - qx * Nat(a[..n]), w[o + n]);
    assert w[o..o + n + 1][..n] == w[o..o + n] && w[o..o + n + 1][..n + 1] == w[o..o + n + 1];
    NatStep(w[o..o + n + 1], n);
  }

  lemma DifferenceStep(w: seq<Limb>, a: seq<Limb>, o: nat, j: nat, qx: int)
    requires o + j < |w| && j < |a|
    ensures Nat(w[o..o + j + 1]) - qx * Nat(a[..j + 1])
         == Nat(w[o..o + j]) - qx * Nat(a[..j]) + Scale(w[o + j] - a[j] * qx, j)
  {
    hide Nat, Scale;
    assert w[o..o + j + 1][..j] == w[o..o + j];
    assert w[o..o + j + 1][..j + 1] == w[o..o + j + 1];
    NatStep(w[o..o + j + 1], j);
    NatStep(a, j);
    ScaleMul(qx, a[j], j);
    ScaleAdd(w[o + j] - a[j] * qx, a[j] * qx, j);
    assert qx * (Nat(a[..j]) + Scale(a[j], j)) == qx * Nat(a[..j]) + qx * Scale(a[j], j);
  }

  /** The second loop of `m_dsb`: adds a back to the low n limbs of the window; the limb above stays stale. */
  method AddBack(n: nat, a: array<Limb>, b: array<Limb>, o: nat) returns (ghost carry: Long)
    requires n <= a.Length && o + n < b.Length && a != b
    modifies b
    ensures 0 <= carry <= 1
    ensures Nat(b[o..o + n]) + Scale(carry, n) == old(Nat(b[o..o + n])) + Nat(a[..n])
    ensures b[..o] == old(b[..o]) && b[o + n..] == old(b[o + n..])
  {
    hide Nat, Scale, Low;
    ghost var w := b[..];
    var borrow: Long := 0;
    var j := 0;
    NatEmpty(a[..], 0);
    assert a[..0] == b[o..o + 0] == w[o..o + 0] == a[..][..0];
    while j < n
      invariant 0 <= j <= n && 0 <= borrow <= 1
      invariant forall k :: 0 <= k < o || o + j <= k < b.Length ==> b[k] == w[k]
      invariant Nat(b[o..o + j]) + Scale(borrow, j) == Nat(w[o..o + j]) + Nat(a[..j])
    {
      ghost var low, before := Nat(b[o..o + j]), borrow;
      var x: Long := borrow + (a[j] as int + b[o + j] as int);
      b[o + j] := Low(x);
      borrow := High(x);
      WindowCarry(b, o, j, low, before, borrow, Nat(w[o..o + j]) + Nat(a[..j]), a[j] as int + w[o + j] as int);
      DifferenceStep(w, a[..], o, j, -1);
      j := j + 1;
    }
    carry := borrow;
  }

  /** What `m_dsb` leaves, in numbers: w is the window before, v the divisor. */
  lemma AfterSubtract(c: seq<Limb>, n: nat, over: int, t: int, v: int)
    requires |c| == n + 1 && Nat(c) + Scale(over, n + 1) == t
    requires -v <= t < v <= Pow(n)
    ensures over == 0 <==> t >= 0
    ensures t >= 0 ==> Nat(c[..n]) == t && c[n] == 0
    ensures t < 0 ==> Nat(c[..n]) == t + Pow(n)
  {
    hide Nat, Scale;
    var p := Pow(n);
    PowTimesBase(n);
    NatBound(c);
    NatBound(c[..n]);
    NatStep(c, n);
    assert c[..n + 1] == c;
    ScaleZero(n + 1);
    ScaleZero(n);
    ScaleAdd(-1, 1, n + 1);
    if over >= 1 {
      ScaleMono(1, over, n + 1);
      assert false;
    }
    if over < 0 {
      ScaleMono(over, -1, n + 1);
      if over <= -2 {
        ScaleMono(over, -2, n + 1);
        ScaleAdd(-1, -1, n + 1);
        assert false;
      }
      if c[n] < 0x7FFF {
        ScaleMono(c[n], 0x7FFE, n);
        assert false;
      }
    } else if c[n] > 0 {
      ScaleMono(1, c[n], n);
      assert false;
    }
  }

  lemma PowTimesBase(n: nat)
    ensures Pow(n + 1) == 0x8000 * Pow(n)
    ensures Scale(0x7FFE, n) == 0x7FFE * Pow(n) && Scale(0x7FFF, n) == 0x7FFF * Pow(n)
  {
    ScaleMul(0x7FFE, 1, n);
    ScaleMul(0x7FFF, 1, n);
  }

  /**
   `m_dsb`.  With w the window of n + 1 limbs and v the divisor, the low n limbs
   become w - qx * v, plus v once more exactly when that is negative; the result
   tells which.  Only then may the limb above be left non-zero.
   */
  method MultiplySubtract(qx: Limb, n: nat, a: array<Limb>, b: array<Limb>, o: nat) returns (r: int)
    requires n <= a.Length && o + n < b.Length && a != b
    requires -Nat(a[..n]) <= Nat(b[o..o + n + 1]) - qx * Nat(a[..n]) < Nat(a[..n])
    modifies b
    ensures r == if old(Nat(b[o..o + n + 1])) >= qx * Nat(a[..n]) then 0 else 1
    ensures Nat(b[o..o + n]) == old(Nat(b[o..o + n + 1])) - qx * Nat(a[..n]) + (if r == 1 then Nat(a[..n]) else 0)
    ensures r == 0 ==> b[o + n] == 0
    ensures b[..o] == old(b[..o]) && b[o + n + 1..] == old(b[o + n + 1..])
  {
    hide Nat, Scale;
    ghost var w, v := Nat(b[o..o + n + 1]), Nat(a[..n]);
    NatBound(a[..n]);
    var over := SubtractProduct(qx, n, a, b, o);
    AfterSubtract(b[o..o + n + 1], n, over, w - qx * v, v);
    assert b[o..o + n + 1][..n] == b[o..o + n];
    if over == 0 {
      return 0;
    }
    ghost var tail := b[o + n..];
    ghost var carry := AddBack(n, a, b, o);
    assert b[o + n + 1..] == b[o + n..][1..] == tail[1..];
    NatBound(b[o..o + n]);
    CarryOut(Nat(b[o..o + n]), carry, n, w - qx * v, v);
    return 1;
  }

  /** Adding back undoes the borrow: the carry out of limb n - 1 is one. */
  lemma CarryOut(low: int, carry: int, n: nat, t: int, v: int)
    requires 0 <= low < Pow(n) && 0 <= carry <= 1
    requires low + Scale(carry, n) == t + Pow(n) + v && -v <= t < 0 <= v < Pow(n)
    ensures low == t + v
  {
    ScaleZero(n);
  }

  /** The two top limbs against the rest. */
  lemma SplitTop2(v: seq<Limb>)
    requires |v| >= 2
    ensures var n := |v|;
            var low := Nat(v[..n - 2]);
            Nat(v) == Top2(v[n - 1], v[n - 2]) * Pow(n - 2) + low && 0 <= low < Pow(n - 2)
  {
    hide Nat, Scale;
    var n := |v|;
    assert v[..n] == v && v[..n - 1 + 1] == v;
    NatStep(v, n - 1);
    NatStep(v, n - 2);
    NatBound(v[..n - 2]);
    var v1: int := v[n - 1];
    ScaleUp(v1, n - 2);
    ScaleAdd(0x8000 * v1, v[n - 2], n - 2);
    ScaleMul(Top2(v[n - 1], v[n - 2]), 1, n - 2);
  }

  lemma SplitTop3(w: seq<Limb>)
    requires |w| >= 3
    ensures var n := |w| - 1;
            var low := Nat(w[..n - 2]);
            Nat(w) == Top3(w[n], w[n - 1], w[n - 2]) * Pow(n - 2) + low && 0 <= low < Pow(n - 2)
  {
    hide Nat, Scale;
    var n := |w| - 1;
    assert w[..n + 1] == w;
    NatStep(w, n);
    NatStep(w, n - 1);
    NatStep(w, n - 2);
    NatBound(w[..n - 2]);
    var u1: int, u2: int := w[n], w[n - 1];
    ScaleUp(u1, n - 1);
    ScaleUp(0x8000 * u1, n - 2);
    ScaleUp(u2, n - 2);
    var high := 0x8000 * (0x8000 * u1);
    ScaleAdd(high, 0x8000 * u2, n - 2);
    ScaleAdd(high + 0x8000 * u2, w[n - 2], n - 2);
    ScaleMul(Top3(w[n], w[n - 1], w[n - 2]), 1, n - 2);
  }

  /** The window's top limb never exceeds the divisor's: what lets `m_trq` start below 32768. */
  lemma TopLimbs(v: seq<Limb>, w: seq<Limb>)
    requires |v| >= 2 && |w| == |v| + 1
    requires Nat(w) < 0x8000 * Nat(v)
    ensures w[|v|] <= v[|v| - 1]
  {
    hide Nat, Scale;
    var n := |v|;
    var u1, v1 := w[n], v[n - 1];
    if u1 > v1 {
      assert w[..n + 1] == w && v[..n - 1 + 1] == v;
      NatStep(w, n);
      NatStep(v, n - 1);
      NatBound(w[..n]);
      NatBound(v[..n - 1]);
      ScaleUp(u1, n - 1);
      ScaleAdd(v1, 1, n - 1);
      ScaleMono(v1 + 1, u1, n - 1);
      ScaleMul(0x8000, u1, n - 1);
      assert false;
    }
  }

  /**
   The trial digit is the true digit or one more: Knuth's Theorem B sharpened by the
   third limb.  P is the weight of the limbs `m_trq` does not look at.
   */
  lemma DigitExact(q: int, v2: int, vlow: int, u3: int, wlow: int, p: int, v: int, w: int)
    requires 0 <= q <= 0x7FFF && 0x8000 <= v2 && 0 <= u3
    requires 0 <= vlow < p && 0 <= wlow < p
    requires v == v2 * p + vlow && w == u3 * p + wlow && w < 0x8000 * v
    requires v2 * q <= u3 && (q == 0x7FFF || u3 < v2 * (q + 1))
    ensures -v <= w - q * v < v
  {
    if q != 0x7FFF {
      MulMono(u3 + 1, v2 * (q + 1), p);
      MulMono(v2 * p, v, q + 1);
      assert (v2 * (q + 1)) * p == (v2 * p) * (q + 1);
      assert (u3 + 1) * p == u3 * p + p;
      assert (q + 1) * v == q * v + v;
    }
    if q == 0 {
      MulMono(0, u3, p);
      MulMono(0, v2, p);
    } else {
      MulMono(v, (v2 + 1) * p, q - 1);
      assert (v2 + 1) * p == v2 * p + p;
      assert (q - 1) * (v2 + 1) == v2 * q - v2 + q - 1;
      MulMono((q - 1) * (v2 + 1), u3, p);
      assert (q - 1) * ((v2 + 1) * p) == ((q - 1) * (v2 + 1)) * p;
      assert (q - 1) * v == q * v - v;
    }
  }

  /**
   The body of the digit loop of `m_div` for one window: trial digit, multiply and
   subtract, correction.  The digit is the exact quotient and the remainder is left
   in the low n limbs of the window.
   */
  method DivideWindow(v: array<Limb>, n: nat, u: array<Limb>, j: nat) returns (qq: Limb)
    requires 2 <= n <= v.Length && j + n < u.Length && v != u
    requires 0x4000 <= v[n - 1] && Nat(u[j..j + n + 1]) < 0x8000 * Nat(v[..n])
    modifies u
    ensures old(Nat(u[j..j + n + 1])) == qq * Nat(v[..n]) + Nat(u[j..j + n])
    ensures Nat(u[j..j + n]) < Nat(v[..n])
    ensures u[..j] == old(u[..j])
  {
    hide Nat, Scale, Top2, Top3;
    ghost var w, d := u[j..j + n + 1], v[..n];
    assert d[n - 1] == v[n - 1] && d[n - 2] == v[n - 2] && w[n] == u[j + n] && w[n - 1] == u[j + n - 1] && w[n - 2] == u[j + n - 2];
    TopLimbs(d, w);
    var trial: Limb, decrements := TrialDigit(v[n - 1], v[n - 2], u[j + n], u[j + n - 1], u[j + n - 2]);
    WindowDigit(trial, d, w);
    NatBound(w);
    var added := MultiplySubtract(trial, n, v, u, j);
    NatBound(u[j..j + n]);
    qq := trial;
    if added == 1 {
      DigitPositive(trial, Nat(d), Nat(w));
      qq := qq - 1;
      assert (qq + 1) * Nat(d) == qq * Nat(d) + Nat(d);
    }
  }

  /** `DigitExact` for limb sequences. */
  lemma WindowDigit(q: Limb, d: seq<Limb>, w: seq<Limb>)
    requires |d| >= 2 && |w| == |d| + 1 && 0x4000 <= d[|d| - 1] && Nat(w) < 0x8000 * Nat(d)
    requires var n := |d|;
             var v2, u3 := Top2(d[n - 1], d[n - 2]), Top3(w[n], w[n - 1], w[n - 2]);
             v2 * q <= u3 && (q == 0x7FFF || u3 < v2 * (q + 1))
    ensures -Nat(d) <= Nat(w) - q * Nat(d) < Nat(d)
  {
    hide Nat, Pow;
    var n := |d|;
    SplitTop2(d);
    SplitTop3(w);
    NatBound(w[..n - 2]);
    DigitExact(q, Top2(d[n - 1], d[n - 2]), Nat(d[..n - 2]), Top3(w[n], w[n - 1], w[n - 2]), Nat(w[..n - 2]),
               Pow(n - 2), Nat(d), Nat(w));
  }

  lemma DigitPositive(q: int, v: int, w: int)
    requires 0 <= q && 0 <= w < q * v
    ensures 1 <= q
  {
  }
}
