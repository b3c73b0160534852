/**
 Division of whole numbers: `s_div` and `sdiv` of mout.c, `m_div` and `mdiv` of mdiv.c.
 */
module MintDiv {
  import opened Limbs
  import opened Mints
  import opened DivDigit
  import MintMult

  // ----- division by one limb

  /** `s_div`: the quotient limbs, top one first, and the remainder. */
  method ShortDivide(a: array<Limb>, alen: nat, n: Limb) returns (qval: array<Limb>, r: Limb)
    requires alen <= a.Length && n > 0
    ensures fresh(qval) && qval.Length == alen
    ensures Nat(a[..alen]) == Nat(qval[..]) * n + r && r < n
  {
    hide Nat, Scale;
    qval := Xalloc(alen);
    var x: Long := 0;
    var i := alen;
    NatEmpty(a[..], 0);
    assert a[alen..alen] == qval[alen..] == a[..][..0];
    while i > 0
      invariant 0 <= i <= alen && 0 <= x < n
      invariant Nat(a[i..alen]) == Nat(qval[i..]) * n + x
    {
      i := i - 1;
      ghost var high, x0 := qval[i + 1..], x;
      x := x * 0x8000 + a[i];
      ShortStep(x0, a[i], n, x);
      ghost var y := x;
      qval[i] := x / n;
      x := x % n;
      assert a[i..alen][1..] == a[i + 1..alen] && qval[i..][1..] == high;
      NatCons(a[i..alen]);
      NatCons(qval[i..]);
      ShortValue(Nat(high), qval[i], n, x0, a[i], x);
    }
    r := x;
    assert a[0..alen] == a[..alen] && qval[0..] == qval[..];
  }

  lemma ShortStep(x0: int, a: Limb, n: Limb, x: int)
    requires 0 <= x0 < n && x == x0 * 0x8000 + a
    ensures 0 <= x / n < 0x8000 && 0 <= x % n < n && x == (x / n) * n + x % n
  {
    QuotientBound(x, n, x / n);
  }

  lemma ShortValue(high: int, q: int, n: int, x0: int, a: int, x: int)
    requires x0 * 0x8000 + a == q * n + x
    ensures a + 0x8000 * (high * n + x0) == (q + 0x8000 * high) * n + x
  {
    assert (q + 0x8000 * high) * n == q * n + 0x8000 * (high * n);
  }

  /** Dividing by one limb leaves at most one leading zero. */
  lemma ShortTop(a: seq<Limb>, q: seq<Limb>, n: int, r: int)
    requires Normal(a) && |q| == |a| && 0 <= r < n < 0x8000
    requires Nat(a) == Nat(q) * n + r
    requires q != [] && q[|q| - 1] == 0
    ensures Normal(q[..|q| - 1]) && Nat(q) == Nat(q[..|q| - 1])
  {
    hide Nat, Scale;
    var m := |q| - 1;
    NatZeros(q, m);
    if m > 0 && q[m - 1] == 0 {
      NatZeros(q, m - 1);
      NatBound(q[..m - 1]);
      NatTop(a);
      PowTimesBase(m - 1);
      MulMono(Nat(q) + 1, Pow(m - 1), n);
      MulMono(n, 0x7FFF, Pow(m - 1));
      assert false;
    }
  }

  /** `s_div` and the trimming at its end, on a magnitude. */
  method ShortQuotient(a: array<Limb>, alen: nat, n: Limb) returns (qval: array<Limb>, qlen: nat, r: Limb)
    requires alen <= a.Length && n > 0
    ensures fresh(qval) && qlen <= qval.Length
    ensures Nat(a[..alen]) == Nat(qval[..qlen]) * n + r && r < n
    ensures Normal(a[..alen]) ==> Normal(qval[..qlen])
  {
    hide Nat, Scale;
    qval, r := ShortDivide(a, alen, n);
    qlen := alen;
    assert qval[..qlen] == qval[..];
    if qlen > 0 && qval[qlen - 1] == 0 {
      qlen := qlen - 1;
      NatZeros(qval[..], qlen);
      if Normal(a[..alen]) {
        ShortTop(a[..alen], qval[..], n, r);
      }
    }
  }

  /**
   `sdiv`.  The quotient and the remainder of the magnitudes, both with the sign of
   the quotient, for every divisor that can be negated to a limb.
   */
  method Sdiv(a: Mint, n: int, q: Mint) returns (r: int)
    requires a.Valid() && n != 0 && -0x8000 < n < 0x8000
    modifies q
    ensures q.Valid() && (old(a.Canonical()) ==> q.Canonical())
    ensures var s := if (old(a.len) < 0) == (n < 0) then 1 else -1;
            var m := if n < 0 then -n else n;
            old(Nat(a.Mag())) == (s * q.Value()) * m + s * r && 0 <= s * r < m
    ensures q.len != 0 ==> fresh(q.val)
    ensures old(a.len) >= 0 && n > 0 ==>
              q.len >= 0 && old(a.Value()) == q.Value() * n + r && 0 <= r < n
  {
    hide Nat, Scale;
    var sign := 1;
    var len := a.len;
    var m := n;
    if n < 0 {
      sign := -sign;
      m := -m;
    }
    if len < 0 {
      sign := -sign;
      len := -len;
    }
    var qval, qlen, rest := ShortQuotient(a.val, len, m);
    Xfree(q);
    q.val := qval;
    q.len := sign * qlen;
    r := sign * rest;
    assert sign * q.Value() == Nat(qval[..qlen]);
  }

  // ----- division by two limbs or more

  /**
   The digit loop of `m_div`: divides the m + n + 1 limbs of u by the normalised
   n-limb divisor, one window at a time from the top, leaving the remainder in
   the low n limbs of u.
   */
  method DigitLoop(u: array<Limb>, v: array<Limb>, n: nat, m: nat) returns (qval: array<Limb>)
    requires 2 <= n <= v.Length && u.Length == m + n + 1 && u != v
    requires 0x4000 <= v[n - 1] && Nat(u[m + 1..m + n + 1]) < Nat(v[..n])
    modifies u
    ensures fresh(qval) && qval.Length == m + 1
    ensures old(Nat(u[..])) == Nat(qval[..]) * Nat(v[..n]) + Nat(u[..n])
    ensures Nat(u[..n]) < Nat(v[..n])
  {
    hide Nat, Scale;
    ghost var whole, d := Nat(u[..]), Nat(v[..n]);
    qval := Xalloc(m + 1);
    var j := m;
    NatEmpty(u[..], m + 1);
    assert qval[m + 1..] == u[..][..0] && u[..m + 1 + n] == u[..];
    while j >= 0
      invariant -1 <= j <= m
      invariant Nat(u[j + 1..j + 1 + n]) < d
      invariant whole == Scale(Nat(qval[j + 1..]) * d, j + 1) + Nat(u[..j + 1 + n])
    {
      ghost var s, high := u[..], qval[j + 1..];
      NextWindow(s, j, n, d);
      var qq := DivideWindow(v, n, u, j);
      qval[j] := qq;
      assert qval[j + 1..] == high && qval[j..][1..] == high;
      LoopStep(s, u[..], j, n, d, qval[j..]);
      j := j - 1;
    }
    ScaleNone(Nat(qval[..]) * d);
    assert qval[0..] == qval[..] && u[0..n] == u[..n];
  }

  /** The next window is below the divisor times the base, because the last remainder was below the divisor. */
  lemma NextWindow(s: seq<Limb>, j: nat, n: nat, d: int)
    requires j + n < |s| && Nat(s[j + 1..j + 1 + n]) < d
    ensures Nat(s[j..j + n + 1]) < 0x8000 * d
  {
    hide Nat, Scale;
    var w := s[j..j + n + 1];
    assert w[1..] == s[j + 1..j + 1 + n];
    NatCons(w);
  }

  lemma LoopStep(s: seq<Limb>, t: seq<Limb>, j: nat, n: nat, d: int, q: seq<Limb>)
    requires j + n < |s| == |t| && s[..j] == t[..j] && q != []
    requires Nat(s[j..j + n + 1]) == q[0] * d + Nat(t[j..j + n])
    ensures Scale(Nat(q[1..]) * d, j + 1) + Nat(s[..j + 1 + n]) == Scale(Nat(q) * d, j) + Nat(t[..j + n])
  {
    hide Nat, Scale;
    var s', t' := s[..j + 1 + n], t[..j + n];
    assert s'[..j] == s[..j] && s'[j..] == s[j..j + n + 1];
    assert t'[..j] == t[..j] && t'[j..] == t[j..j + n];
    NatSplit(s', j);
    NatSplit(t', j);
    ScaleAdd(q[0] * d, Nat(t[j..j + n]), j);
    NatCons(q);
    var high := Nat(q[1..]);
    assert (q[0] + 0x8000 * high) * d == q[0] * d + 0x8000 * (high * d);
    ScaleUp(high * d, j);
    ScaleAdd(q[0] * d, 0x8000 * (high * d), j);
  }

  /** Step D1: the multiplier d makes the divisor's top limb at least half the base and keeps its length. */
  lemma NormaliseDivisor(t: int, d: int)
    requires 1 <= t < 0x8000 && d == 0x8000 / (t + 1)
    ensures 1 <= d <= 0x4000 && 0x4000 <= t * d && (t + 1) * d <= 0x8000
  {
    BaseOver(t + 1);
    HalfBase(t, d);
    MulMono(2, t + 1, d);
  }

  lemma BaseOver(m: int)
    requires 2 <= m <= 0x8000
    ensures var d := 0x8000 / m; 1 <= d && m * d <= 0x8000 < m * d + m
  {
    var d := 0x8000 / m;
    assert 0x8000 == m * d + 0x8000 % m;
    if d < 1 {
      MulMono(d, 0, m);
    }
  }

  lemma HalfBase(t: int, d: int)
    requires 1 <= t && 1 <= d && 0x8000 < (t + 1) * d + t + 1
    ensures 0x4000 <= t * d
  {
    MulMono(0, t - 1, d - 1);
    assert (t - 1) * (d - 1) == t * d - t - d + 1;
    assert (t + 1) * d == t * d + d;
  }

  lemma NormalisedTop(b: seq<Limb>, t: int, d: int, v: int)
    requires |b| >= 1 && b[|b| - 1] == t > 0 && d == 0x8000 / (t + 1) && v == Nat(b) * d
    ensures 1 <= d <= 0x4000
    ensures 0x4000 * Pow(|b| - 1) <= v < Pow(|b|)
  {
    hide Nat, Scale;
    var n := |b| - 1;
    var p := Pow(n);
    NormaliseDivisor(t, d);
    assert b[..n + 1] == b;
    NatStep(b, n);
    NatBound(b[..n]);
    ScaleMul(t, 1, n);
    PowTimesBase(n);
    ScaledRange(t, Nat(b[..n]), p, d);
  }

  lemma ScaledRange(t: int, low: int, p: int, d: int)
    requires 0 <= low < p && 1 <= d && 0x4000 <= t * d && (t + 1) * d <= 0x8000
    ensures 0x4000 * p <= (t * p + low) * d < 0x8000 * p
  {
    MulMono(0, low, d);
    MulMono(low + 1, p, d);
    assert (t * p + low) * d == (t * d) * p + low * d;
    assert (low + 1) * d == low * d + d;
    assert (t * d) * p + p * d == ((t + 1) * d) * p;
    MulMono(0x4000, t * d, p);
    MulMono((t + 1) * d, 0x8000, p);
  }

  /** A canonical number in that range has exactly n limbs and a top limb of at least half the base. */
  lemma TopOfRange(v: seq<Limb>, n: nat)
    requires n >= 1 && Normal(v) && 0x4000 * Pow(n - 1) <= Nat(v) < Pow(n)
    ensures |v| == n && 0x4000 <= v[n - 1]
  {
    hide Nat, Scale;
    NatBound(v);
    PowTimesBase(n - 1);
    PowMonotone(0, n - 1);
    if |v| < n {
      PowMonotone(|v|, n - 1);
      assert false;
    }
    NatTop(v);
    if |v| > n {
      PowMonotone(n, |v| - 1);
      assert false;
    }
    var t := v[n - 1];
    assert v[..n - 1 + 1] == v;
    NatStep(v, n - 1);
    NatBound(v[..n - 1]);
    if t < 0x4000 {
      ScaleMono(t, 0x3FFF, n - 1);
      ScaleMul(0x3FFF, 1, n - 1);
      assert false;
    }
  }

  /** The top n limbs of the scaled dividend are below the scaled divisor. */
  lemma FirstWindow(a: seq<Limb>, b: seq<Limb>, d: int, u: seq<Limb>, k: nat)
    requires b != [] && Normal(b) && |a| + 1 == |u| == k + |b| && d >= 1
    requires Nat(u) == Nat(a) * d
    ensures Nat(u[k..]) < Nat(b) * d
  {
    hide Nat, Scale;
    var n := |b|;
    var w, p := Nat(u[k..]), Pow(k);
    NatSplit(u, k);
    NatBound(u[..k]);
    NatBound(a);
    NatTop(b);
    PowMonotone(0, k);
    ScaleMul(w, 1, k);
    ScaleScale(1, n - 1, k);
    ScaleMul(Pow(n - 1), 1, k);
    WindowBound(w, Nat(u[..k]), p, Nat(a), Pow(n - 1), d, Nat(b));
  }

  lemma WindowBound(w: int, low: int, p: int, a: int, t: int, d: int, b: int)
    requires a * d == w * p + low && low >= 0 && a + 1 <= t * p && t <= b && d >= 1 && p >= 1
    ensures w < b * d
  {
    assert (t * p) * d == (t * d) * p;
    assert (a + 1) * d == a * d + d;
    if w >= b * d {
      MulMono(b * d, w, p);
      MulMono(t, b, d);
      MulMono(t * d, b * d, p);
      MulMono(a + 1, t * p, d);
      assert false;
    }
  }

  /** Step D8: the remainder of the scaled numbers is the remainder, scaled. */
  lemma Unscale(a: int, b: int, d: int, q: int, rest: int, w: int, s: int)
    requires d >= 1 && a * d == q * (b * d) + rest && 0 <= rest < b * d
    requires rest == w * d + s && 0 <= s < d
    ensures a == q * b + w && 0 <= w < b && s == 0
  {
    assert q * (b * d) == (q * b) * d;
    var x := a - q * b;
    assert x * d == a * d - (q * b) * d;
    if x < w {
      MulMono(x + 1, w, d);
      assert false;
    }
    if w < x {
      MulMono(w + 1, x, d);
      assert false;
    }
    if w < 0 {
      MulMono(w, -1, d);
      assert false;
    }
    if w >= b {
      MulMono(b, w, d);
      assert false;
    }
  }

  /** Stripping one leading zero from the quotient is enough. */
  lemma QuotientTop(a: seq<Limb>, b: seq<Limb>, q: seq<Limb>, r: int)
    requires Normal(a) && b != [] && |q| == |a| - |b| + 1 && |q| >= 1
    requires Nat(a) == Nat(q) * Nat(b) + r && 0 <= r < Nat(b)
    ensures q[|q| - 1] == 0 ==> Normal(q[..|q| - 1]) && Nat(q[..|q| - 1]) == Nat(q)
  {
    hide Nat, Scale;
    var k := |q| - 1;
    if q[k] == 0 {
      NatZeros(q, k);
      if k > 0 && q[k - 1] == 0 {
        NatZeros(q, k - 1);
        NatBound(q[..k - 1]);
        NatBound(b);
        NatTop(a);
        PowSum(|b|, k - 1);
        TooSmall(Nat(a), Nat(q), Nat(b), r, Pow(|b|), Pow(k - 1));
      }
    }
  }

  lemma PowSum(m: nat, n: nat)
    ensures Pow(m) * Pow(n) == Pow(m + n) && Pow(n) >= 1
  {
    PowMonotone(0, n);
    ScaleScale(1, m, n);
    ScaleMul(Pow(m), 1, n);
  }

  /** A quotient below p and a divisor below m make less than m * p. */
  lemma TooSmall(a: int, q: int, b: int, r: int, m: int, p: int)
    requires a == q * b + r && 0 <= r < b < m && q < p && 1 <= p
    ensures a < m * p
  {
    MulMono(q + 1, p, b);
    assert (q + 1) * b == q * b + b;
    MulMono(b, m, p);
  }

  /** A number times one limb; all limbs of the product are written. */
  method Scaled(a: Mint, d: Limb) returns (m: Mint)
    requires a.Valid() && a.Canonical() && a.len > 0 && d >= 1
    modifies a`len
    ensures a.Valid() && a.Canonical() && a.len == old(a.len)
    ensures fresh(m) && fresh(m.val) && m.Valid() && m.Canonical() && m.len > 0 && m.val.Length == a.len + 1
    ensures m.Value() == Nat(a.Mag()) * d && Nat(m.val[..]) == m.Value()
  {
    hide Nat, Scale, Normal;
    var x := new Mint.OfShort(d);
    m := new Mint();
    assert a.Value() == Nat(a.Mag());
    MintMult.Mult(a, x, m);
  }

  /** The scaling at the start of `m_div`: it relies on `mult` writing one limb more than the dividend has. */
  method Normalise(a: Mint, b: Mint) returns (d: Limb, u: array<Limb>, v: array<Limb>)
    requires a.Valid() && a.Canonical() && b.Valid() && b.Canonical() && 2 <= b.len <= a.len
    modifies a`len, b`len
    ensures a.len == old(a.len) && b.len == old(b.len)
    ensures fresh(u) && fresh(v) && u != v && d >= 1
    ensures u.Length == a.len + 1 && b.len <= v.Length && 0x4000 <= v[b.len - 1]
    ensures Nat(u[..]) == Nat(a.Mag()) * d && Nat(v[..b.len]) == Nat(b.Mag()) * d
    ensures Nat(u[a.len - b.len + 1..]) < Nat(v[..b.len])
  {
    hide Nat, Scale;
    ghost var n, ma, mb := b.len, a.Mag(), b.Mag();
    var t: int := b.val[b.len - 1];
    NormaliseDivisor(t, 0x8000 / (t + 1));
    d := 0x8000 / (t + 1);
    var mu := Scaled(a, d);
    var mv := Scaled(b, d);
    u, v := mu.val, mv.val;
    CanonicalSign(mv);
    NormalisedTop(mb, t, d, mv.Value());
    PowMonotone(0, n - 1);
    TopOfRange(mv.Mag(), n);
    FirstWindow(ma, mb, d, u[..], a.len - n + 1);
  }

  /** The end of `m_div`: takes the scaling off the remainder and trims the quotient. */
  method Unnormalise(u: array<Limb>, n: nat, d: Limb, qval: array<Limb>, q: Mint, r: Mint, ghost a: seq<Limb>, ghost b: seq<Limb>)
    requires n <= u.Length && d >= 1 && q != r && |b| == n >= 1 && Normal(a)
    requires |b| <= |a| && qval.Length == |a| - |b| + 1
    requires Nat(a) * d == Nat(qval[..]) * (Nat(b) * d) + Nat(u[..n]) && Nat(u[..n]) < Nat(b) * d
    modifies q, r
    ensures q.Valid() && q.Canonical() && r.Valid() && r.Canonical() && q.len >= 0 && r.len >= 0
    ensures Nat(a) == q.Value() * Nat(b) + r.Value() && 0 <= r.Value() < Nat(b)
  {
    hide Nat, Scale;
    var x := new Mint();
    x.len := n;
    x.val := u;
    assert x.Value() == Nat(u[..n]);
    Mcan(x);
    var w := new Mint();
    var rest := Sdiv(x, d, w);
    NatBound(u[..n]);
    Unscale(Nat(a), Nat(b), d, Nat(qval[..]), Nat(u[..n]), w.Value(), rest);
    r.len := w.len;
    r.val := w.val;
    QuotientTop(a, b, qval[..], w.Value());
    StoreQuotient(qval, q);
  }

  /** The quotient without its leading zero limb, if it has one. */
  method StoreQuotient(qval: array<Limb>, q: Mint)
    requires var s := qval[..];
             s != [] && s[|s| - 1] == 0 ==> Normal(s[..|s| - 1]) && Nat(s[..|s| - 1]) == Nat(s)
    modifies q
    ensures q.Valid() && q.Canonical() && q.len >= 0 && q.Value() == Nat(qval[..])
  {
    hide Nat, Scale;
    var qq := qval.Length;
    assert qval[..qq] == qval[..];
    if qq > 0 && qval[qq - 1] == 0 {
      qq := qq - 1;
      assert qval[..qq] == qval[..][..qq];
    }
    q.val := qval;
    q.len := qq;
  }

  /** The one-limb case of `m_div`. */
  method DivideByLimb(a: Mint, b: Mint, q: Mint, r: Mint)
    requires a.Valid() && a.Canonical() && b.Valid() && b.Canonical() && a.len >= 0 && b.len == 1
    requires {a, b} !! {q, r} && q != r
    modifies q, r
    ensures q.Valid() && q.Canonical() && r.Valid() && r.Canonical() && q.len >= 0 && r.len >= 0
    ensures a.Value() == q.Value() * b.Value() + r.Value() && 0 <= r.Value() < b.Value()
  {
    hide Nat, Scale;
    OneLimb(b.Mag());
    var rest := Sdiv(a, b.val[0], q);
    r.val := Xalloc(1);
    r.val[0] := rest;
    if r.val[0] == 0 {
      r.len := 0;
    } else {
      r.len := 1;
    }
    OneLimb(r.val[..]);
    assert r.val[..1] == r.val[..] && r.val[..0] == [];
  }

  /** `m_div`: magnitudes, the divisor not zero. */
  method MagDivide(a: Mint, b: Mint, q: Mint, r: Mint)
    requires a.Valid() && a.Canonical() && b.Valid() && b.Canonical() && a.len >= 0 && b.len > 0
    requires {a, b} !! {q, r} && q != r
    modifies q, r, a`len, b`len
    ensures q.Valid() && q.Canonical() && r.Valid() && r.Canonical() && q.len >= 0 && r.len >= 0
    ensures old(a.Value()) == q.Value() * old(b.Value()) + r.Value() && 0 <= r.Value() < old(b.Value())
  {
    hide Nat, Scale;
    if b.len == 1 {
      DivideByLimb(a, b, q, r);
      return;
    }
    if a.len < b.len {
      Xfree(q);
      NormalLonger(b.Mag(), a.Mag());
      CanonicalSign(a);
      Move(a, r);
      assert q.Value() == 0;
      return;
    }
    ghost var ma, mb, n := a.Mag(), b.Mag(), b.len;
    var d, u, v := Normalise(a, b);
    assert u[a.len - b.len + 1..a.len + 1] == u[a.len - b.len + 1..];
    var qval := DigitLoop(u, v, b.len, a.len - b.len);
    Unnormalise(u, b.len, d, qval, q, r, ma, mb);
  }

  lemma OneLimb(s: seq<Limb>)
    requires |s| == 1
    ensures Nat(s) == s[0] && Nat([]) == 0
  {
    NatCons(s);
  }

  /** What `mdiv` computes, whatever the signs: one sign for the quotient and the remainder. */
  ghost predicate Divided(a: int, b: int, q: int, r: int) {
    var s := if (a < 0) == (b < 0) then 1 else -1;
    Abs(a) == (s * q) * Abs(b) + s * r && 0 <= s * r < Abs(b)
  }

  /** `mdiv`. */
  method Mdiv(a: Mint, b: Mint, q: Mint, r: Mint)
    requires a.Valid() && a.Canonical() && b.Valid() && b.Canonical() && b.len != 0 && q != r
    modifies q, r
    ensures q.Valid() && q.Canonical() && r.Valid() && r.Canonical()
    ensures Divided(old(a.Value()), old(b.Value()), q.Value(), r.Value())
  {
    hide *;
    CanonicalSign(a);
    CanonicalSign(b);
    ghost var va, vb := a.Value(), b.Value();
    var x, na := Magnitude(a);
    var y, nb := Magnitude(b);
    Xfree(q);
    Xfree(r);
    MagDivide(x, y, q, r);
    ghost var vq, vr := q.Value(), r.Value();
    if na != nb {
      Negate(q);
      Negate(r);
    }
    SignedDivision(va, vb, if na then -va else va, if nb then -vb else vb, vq, vr);
  }

  lemma SignedDivision(a: int, b: int, x: int, y: int, q: int, r: int)
    requires x == (if a < 0 then -a else a) && y == (if b < 0 then -b else b) && x == q * y + r && 0 <= r < y
    ensures if (a < 0) == (b < 0) then Divided(a, b, q, r) else Divided(a, b, -q, -r)
  {
    assert -1 * -q == q;
  }

  /**
   The sign rule of `mdiv` gives the division identity for every positive divisor,
   with a remainder that is zero or has the sign of the dividend; for a negative
   divisor it gives it exactly when the division is exact, and otherwise the
   remainder has to be taken off instead of added.
   */
  lemma DivisionIdentity(a: int, b: int, q: int, r: int)
    requires b != 0 && Divided(a, b, q, r)
    ensures a == q * b + r <==> b > 0 || Abs(a) % Abs(b) == 0
    ensures b < 0 ==> a == q * b - r
    ensures b > 0 ==> r == 0 || (r < 0) == (a < 0)
  {
    var s := if (a < 0) == (b < 0) then 1 else -1;
    QuotientSign(s * q, Abs(b), s * r);
    RemainderMagnitude(a, b, q, r);
  }

  /** Whatever the signs, the magnitudes are divided. */
  lemma RemainderMagnitude(x: int, y: int, q: int, r: int)
    requires y != 0 && Divided(x, y, q, r)
    ensures Abs(x) == Abs(q) * Abs(y) + Abs(r) && Abs(r) < Abs(y)
    ensures Abs(r) == Abs(x) % Abs(y) && Abs(q) == Abs(x) / Abs(y)
  {
    var s := if (x < 0) == (y < 0) then 1 else -1;
    QuotientSign(s * q, Abs(y), s * r);
    DivModUnique(Abs(x), Abs(y), Abs(q), Abs(r));
  }

  lemma DivModUnique(a: int, b: int, q: int, r: int)
    requires a == q * b + r && 0 <= r < b
    ensures q == a / b && r == a % b
  {
    var d := a / b - q;
    assert d * b == r - a % b by {
      assert a == (a / b) * b + a % b;
      assert (a / b - q) * b == (a / b) * b - q * b;
    }
    if d >= 1 {
      MulMono(1, d, b);
    } else if d <= -1 {
      MulMono(d, -1, b);
    }
  }


  lemma QuotientSign(q: int, b: int, r: int)
    requires 0 <= r < b && 0 <= q * b + r
    ensures 0 <= q
  {
    if q < 0 {
      MulMono(q, -1, b);
      assert false;
    }
  }
}
