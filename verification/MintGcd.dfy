/**
 Euclid's algorithm, `gcd`, and its extended form, `invert`.
 */
module MintGcd {
  import opened Limbs
  import opened Mints
  import opened MintDiv
  import MintAdd
  import MintMult

  // ----- greatest common divisors of whole numbers

  ghost predicate Divides(d: int, n: int) {
    exists k :: n == d * k
  }

  ghost predicate IsGcd(g: int, a: int, b: int) {
    Divides(g, a) && Divides(g, b) && forall d :: Divides(d, a) && Divides(d, b) ==> Divides(d, g)
  }

  /** Euclid's recursion on magnitudes. */
  ghost function Euclid(a: nat, b: nat): nat
    decreases b
  {
    if b == 0 then a else Euclid(b, a % b)
  }

  lemma DividesSum(d: int, a: int, b: int, m: int)
    requires Divides(d, a) && Divides(d, b)
    ensures Divides(d, a + m * b)
  {
    var i :| a == d * i;
    var j :| b == d * j;
    assert a + m * b == d * (i + m * j) by {
      assert m * (d * j) == d * (m * j);
    }
  }

  /** Euclid's recursion finds the greatest common divisor. */
  lemma {:induction false} EuclidIsGcd(a: nat, b: nat)
    ensures IsGcd(Euclid(a, b), a, b)
    decreases b
  {
    if b == 0 {
      assert a == a * 1 && 0 == a * 0;
    } else {
      var g := Euclid(a, b);
      EuclidIsGcd(b, a % b);
      assert a == a % b + (a / b) * b;
      DividesSum(g, a % b, b, a / b);
      forall d | Divides(d, a) && Divides(d, b)
        ensures Divides(d, g)
      {
        DividesSum(d, a, b, -(a / b));
        assert a + -(a / b) * b == a % b;
      }
    }
  }

  lemma DividesNegated(d: int, n: int)
    ensures Divides(d, n) <==> Divides(d, -n)
    ensures Divides(d, n) <==> Divides(-d, n)
  {
    if Divides(d, n) {
      var k :| n == d * k;
      assert -n == d * -k && n == -d * -k;
    }
    if Divides(d, -n) {
      var k :| -n == d * k;
      assert n == d * -k;
    }
    if Divides(-d, n) {
      var k :| n == -d * k;
      assert n == d * -k;
    }
  }

  lemma GcdNegated(g: int, a: int, b: int)
    requires IsGcd(g, Abs(a), Abs(b))
    ensures IsGcd(g, a, b) && IsGcd(-g, a, b)
  {
    forall d
      ensures Divides(d, a) <==> Divides(d, Abs(a))
      ensures Divides(d, b) <==> Divides(d, Abs(b))
      ensures Divides(d, g) <==> Divides(d, -g)
    {
      DividesNegated(d, a);
      DividesNegated(d, b);
      DividesNegated(d, g);
    }
    DividesNegated(g, a);
    DividesNegated(g, b);
  }

  // ----- gcd

  /** The number of divisions. */
  ghost function Divisions(a: nat, b: nat): nat
    decreases b
  {
    if b == 0 then 0 else 1 + Divisions(b, a % b)
  }

  function Sign(x: int): int {
    if x < 0 then -1 else 1
  }

  /** Every remainder has the product of the signs of the two numbers before it, which comes round after three. */
  function SignAfter(n: nat, a: int, b: int): int {
    if n % 3 == 0 then Sign(a) else if n % 3 == 1 then Sign(b) else Sign(a) * Sign(b)
  }

  ghost predicate Signed(x: int, n: nat, a: int, b: int) {
    x == SignAfter(n, a, b) * Abs(x)
  }

  lemma SignStart(a: int, b: int)
    ensures Signed(a, 0, a, b) && Signed(b, 1, a, b)
  {
  }

  lemma SignStep(x: int, y: int, q: int, r: int, n: nat, a: int, b: int)
    requires y != 0 && Divided(x, y, q, r) && Signed(x, n, a, b) && Signed(y, n + 1, a, b) && (x == 0 ==> n == 0 && a == 0)
    ensures Signed(r, n + 2, a, b)
    ensures Divisions(Abs(x), Abs(y)) == 1 + Divisions(Abs(y), Abs(r))
  {
    RemainderMagnitude(x, y, q, r);
    var s := if (x < 0) == (y < 0) then 1 else -1;
    assert s == Sign(x) * Sign(y);
    assert Sign(y) == SignAfter(n + 1, a, b) && Sign(x) == SignAfter(n, a, b);
    assert SignAfter(n, a, b) * SignAfter(n + 1, a, b) == SignAfter(n + 2, a, b);
    assert 0 <= s * r;
  }

  /** The state of the division loop after n turns. */
  ghost predicate Dividing(x: int, y: int, n: nat, a: int, b: int) {
    && Euclid(Abs(x), Abs(y)) == Euclid(Abs(a), Abs(b)) && n + Divisions(Abs(x), Abs(y)) == Divisions(Abs(a), Abs(b))
    && Signed(x, n, a, b) && Signed(y, n + 1, a, b) && (x == 0 ==> n == 0 && a == 0)
  }

  lemma DividingStart(a: int, b: int)
    ensures Dividing(a, b, 0, a, b)
  {
    SignStart(a, b);
  }

  lemma DividingStep(x: int, y: int, q: int, r: int, n: nat, a: int, b: int)
    requires y != 0 && Divided(x, y, q, r) && Dividing(x, y, n, a, b)
    ensures Dividing(y, r, n + 1, a, b) && Abs(r) < Abs(y)
  {
    hide Euclid, Divisions, SignAfter;
    EuclidStep(x, y, q, r);
    SignStep(x, y, q, r, n, a, b);
  }

  /**
   The result: a greatest common divisor, of the sign the divisions lead to.  It is not
   negative when neither argument is, and it is a itself when b is zero.
   */
  ghost predicate GcdResult(c: int, a: int, b: int) {
    && IsGcd(c, a, b) && Abs(c) == Euclid(Abs(a), Abs(b))
    && c == SignAfter(Divisions(Abs(a), Abs(b)), a, b) * Euclid(Abs(a), Abs(b))
    && (a >= 0 && b >= 0 ==> c >= 0) && (b == 0 ==> c == a)
  }

  lemma DividingEnd(x: int, n: nat, a: int, b: int)
    requires Dividing(x, 0, n, a, b)
    ensures GcdResult(x, a, b)
  {
    hide IsGcd;
    assert Divisions(Abs(x), Abs(0)) == 0;
    GcdEnd(a, b, x);
  }

  /** `gcd`. */
  method Gcd(a: Mint, b: Mint, c: Mint)
    requires a.Valid() && a.Canonical() && b.Valid() && b.Canonical()
    modifies c
    ensures c.Valid() && c.Canonical()
    ensures GcdResult(c.Value(), old(a.Value()), old(b.Value()))
  {
    hide *;
    ghost var va, vb := a.Value(), b.Value();
    var x := new Mint();
    var y := new Mint();
    var z := new Mint();
    var w := new Mint();
    Move(a, x);
    Move(b, y);
    CanonicalSign(y);
    ghost var n: nat := 0;
    DividingStart(va, vb);
    while y.len != 0
      invariant fresh({x, y, z, w})
      invariant x.Valid() && x.Canonical() && y.Valid() && y.Canonical()
      invariant y.len != 0 <==> y.Value() != 0
      invariant Dividing(x.Value(), y.Value(), n, va, vb)
      decreases Abs(y.Value())
    {
      ghost var vx, vy := x.Value(), y.Value();
      Shift(x, y, w, z);
      DividingStep(vx, vy, w.Value(), y.Value(), n, va, vb);
      n := n + 1;
      CanonicalSign(y);
    }
    DividingEnd(x.Value(), n, va, vb);
    Move(x, c);
  }

  /** Divides x by y and shifts: x becomes y and y the remainder; z and w receive the raw results. */
  method Shift(x: Mint, y: Mint, w: Mint, z: Mint)
    requires x.Valid() && x.Canonical() && y.Valid() && y.Canonical() && y.Value() != 0
    requires {x} !! {y} !! {w} !! {z}
    modifies x, y, w, z
    ensures x.Valid() && x.Canonical() && y.Valid() && y.Canonical() && w.Valid() && w.Canonical()
    ensures x.Value() == old(y.Value())
    ensures Divided(old(x.Value()), old(y.Value()), w.Value(), y.Value())
  {
    hide *;
    CanonicalSign(y);
    ghost var vy := y.Value();
    Mdiv(x, y, w, z);
    ghost var vq, vr := w.Value(), z.Value();
    Move(y, x);
    assert x.Value() == vy && z.Value() == vr && w.Value() == vq && w.Canonical();
    Move(z, y);
    assert x.Value() == vy && x.Canonical() && y.Value() == vr && w.Value() == vq && w.Canonical();
  }

  lemma EuclidStep(x: int, y: int, q: int, r: int)
    requires y != 0 && Divided(x, y, q, r)
    ensures Euclid(Abs(x), Abs(y)) == Euclid(Abs(y), Abs(r)) && Abs(r) < Abs(y)
  {
    RemainderMagnitude(x, y, q, r);
    DivisionIdentity(x, y, q, r);
  }

  lemma GcdEnd(a: int, b: int, x: int)
    requires Euclid(Abs(x), Abs(0)) == Euclid(Abs(a), Abs(b))
    ensures Abs(x) == Euclid(Abs(a), Abs(b)) && IsGcd(x, a, b)
  {
    EuclidIsGcd(Abs(a), Abs(b));
    GcdNegated(Abs(x), a, b);
  }

  // ----- modular inverse

  /**
   What one turn of the loop of `invert` keeps.  u3 and v3 are consecutive
   remainders of x0 and x1, u2 and v2 the coefficients of x1 in them; the
   coefficients alternate in sign and cross-multiply with the remainders to x0,
   which bounds them.
   */
  ghost predicate Bezout(x0: int, x1: int, u2: int, u3: int, v2: int, v3: int) {
    && x0 > 1 && x1 >= 0 && 0 < u3 && 0 <= v3 && (v3 > 0 ==> u3 >= 2)
    && Divides(x0, x1 * u2 - u3) && Divides(x0, x1 * v2 - v3)
    && (u2 <= 0 <= v2 || v2 <= 0 <= u2)
    && Abs(u2) * v3 + Abs(v2) * u3 == x0
    && Abs(u2) < x0
    && Euclid(u3, v3) == Euclid(x0, x1)
  }

  lemma BezoutStart(x0: int, x1: int)
    requires x0 > 1 && x1 >= 0
    ensures Bezout(x0, x1, 0, x0, 1, x1)
  {
    assert x1 * 0 - x0 == x0 * -1 && x1 * 1 - x1 == x0 * 0;
  }

  lemma BezoutStep(x0: int, x1: int, u2: int, u3: int, v2: int, v3: int, q: int, r: int)
    requires Bezout(x0, x1, u2, u3, v2, v3) && v3 > 0 && Divided(u3, v3, q, r)
    ensures Bezout(x0, x1, v2, v3, u2 - q * v2, r) && r < v3
  {
    RemainderMagnitude(u3, v3, q, r);
    DivisionIdentity(u3, v3, q, r);
    QuotientSign(q, v3, r);
    Congruence(x0, x1, u2, u3, v2, v3, q, r);
    Alternate(u2, v2, q);
    Cross(x0, Abs(u2), u3, Abs(v2), v3, q, r);
  }

  lemma Congruence(x0: int, x1: int, u2: int, u3: int, v2: int, v3: int, q: int, r: int)
    requires Divides(x0, x1 * u2 - u3) && Divides(x0, x1 * v2 - v3) && u3 == q * v3 + r
    ensures Divides(x0, x1 * (u2 - q * v2) - r)
  {
    DividesSum(x0, x1 * u2 - u3, x1 * v2 - v3, -q);
    assert -q * (x1 * v2 - v3) == q * v3 - x1 * (q * v2);
    assert x1 * (u2 - q * v2) == x1 * u2 - x1 * (q * v2);
  }

  lemma Cross(x0: int, u2: nat, u3: int, v2: nat, v3: int, q: nat, r: int)
    requires u2 * v3 + v2 * u3 == x0 && u3 == q * v3 + r && 0 <= r < v3 && u3 >= 2
    ensures v2 * r + (u2 + q * v2) * v3 == x0
    ensures x0 > 0 ==> v2 < x0
  {
    assert v2 * u3 == v2 * (q * v3) + v2 * r;
    assert (u2 + q * v2) * v3 == u2 * v3 + (q * v2) * v3;
    assert (q * v2) * v3 == v2 * (q * v3);
    MulMono(2, u3, v2);
    MulMono(0, u2, v3);
  }

  lemma Alternate(u: int, v: int, q: int)
    requires 0 <= q && (u <= 0 <= v || v <= 0 <= u)
    ensures Abs(u - q * v) == Abs(u) + q * Abs(v)
    ensures v <= 0 <= u - q * v || u - q * v <= 0 <= v
  {
    if v >= 0 {
      MulMono(0, v, q);
    } else {
      MulMono(v, 0, q);
      assert q * -v == -(q * v);
    }
  }

  /** The loop ends with v3 zero; one conditional addition of x0 brings the coefficient into range. */
  lemma BezoutEnd(x0: int, x1: int, u2: int, u3: int, v2: int)
    requires Bezout(x0, x1, u2, u3, v2, 0)
    ensures var c := if u2 < 0 then x0 + u2 else u2;
            0 <= c < x0 && Divides(x0, x1 * c - Euclid(x0, x1))
  {
    hide Divides, Euclid, Abs;
    EuclidStop(u3);
    BezoutAbs(x0, x1, u2, u3, v2);
    if u2 < 0 {
      DividesSelf(x0);
      DividesSum(x0, x1 * u2 - u3, x0, x1);
      assert x1 * (x0 + u2) == x1 * u2 + x1 * x0;
    }
  }

  lemma EuclidStop(u: int)
    requires u >= 0
    ensures Euclid(u, 0) == u
  {
  }

  lemma BezoutAbs(x0: int, x1: int, u2: int, u3: int, v2: int)
    requires Bezout(x0, x1, u2, u3, v2, 0)
    ensures -x0 < u2 < x0
  {
    hide Divides, Euclid;
  }

  lemma DividesSelf(x: int)
    ensures Divides(x, x)
  {
    assert x == x * 1;
  }

  /** For coprime arguments the result is the inverse. */
  lemma CoprimeInverse(x0: int, x1: int, c: int)
    requires x0 > 1 && x1 >= 0 && Divides(x0, x1 * c - Euclid(x0, x1)) && IsGcd(1, x0, x1)
    ensures (c * x1) % x0 == 1
  {
    EuclidIsGcd(x0, x1);
    var g := Euclid(x0, x1);
    assert Divides(g, 1) && Divides(1, g);
    var k :| 1 == g * k;
    UnitFactor(g, k);
    var m :| x1 * c - 1 == x0 * m;
    assert c * x1 == m * x0 + 1;
    DivModUnique(c * x1, x0, m, 1);
  }

  lemma UnitFactor(g: int, k: int)
    requires g * k == 1 && g >= 0
    ensures g == 1
  {
    if g >= 2 {
      if k >= 1 {
        MulMono(2, g, k);
      } else {
        MulMono(k, 0, g);
      }
    }
  }

  /**
   `invert`.  For a modulus above one and any whole x1 the result is in range and
   times x1 congruent to their greatest common divisor, so it is the inverse of x1
   when they are coprime.
   */
  method Invert(x1: Mint, x0: Mint, c: Mint)
    requires x0.Valid() && x0.Canonical() && x1.Valid() && x1.Canonical()
    requires x0.Value() > 1 && x1.Value() >= 0
    modifies c
    ensures c.Valid() && c.Canonical()
    ensures 0 <= c.Value() < old(x0.Value())
    ensures Divides(old(x0.Value()), old(x1.Value()) * c.Value() - Euclid(old(x0.Value()), old(x1.Value())))
    ensures IsGcd(1, old(x0.Value()), old(x1.Value())) ==> (c.Value() * old(x1.Value())) % old(x0.Value()) == 1
  {
    hide *;
    ghost var m, x := x0.Value(), x1.Value();
    var x0Prime := Copy(x0);
    var u2 := Coefficient(x1, x0);
    ghost var u := u2.Value();
    ghost var g, b :| Bezout(m, x, u, g, b, 0);
    BezoutEnd(m, x, u, g, b);
    Move(u2, c);
    assert x0Prime.Value() == m && x0Prime.Canonical();
    var zero := new Mint();
    var sign := MintAdd.Mcmp(c, zero);
    assert x0Prime.Value() == m && x0Prime.Canonical();
    if sign < 0 {
      MintAdd.Madd(x0Prime, c, c);
    }
    if IsGcd(1, m, x) {
      CoprimeInverse(m, x, c.Value());
    }
  }

  /** The loop of `invert` and the variables it starts from. */
  method Coefficient(x1: Mint, x0: Mint) returns (u2: Mint)
    requires x0.Valid() && x0.Canonical() && x1.Valid() && x1.Canonical()
    requires x0.Value() > 1 && x1.Value() >= 0
    ensures fresh(u2) && u2.Valid() && u2.Canonical()
    ensures exists g, b :: Bezout(x0.Value(), x1.Value(), u2.Value(), g, b, 0)
  {
    hide *;
    ghost var m, x := x0.Value(), x1.Value();
    BezoutStart(m, x);
    var one := new Mint.OfShort(1);
    var v2 := Copy(one);
    var u3 := Copy(x0);
    var v3 := Copy(x1);
    u2 := new Mint();
    InvertLoop(u2, u3, v2, v3, m, x);
    assert x0.Value() == m && x1.Value() == x;
  }

  /** The loop of `invert`. */
  method InvertLoop(u2: Mint, u3: Mint, v2: Mint, v3: Mint, ghost x0: int, ghost x1: int)
    requires u2.Valid() && u2.Canonical() && u3.Valid() && u3.Canonical()
    requires v2.Valid() && v2.Canonical() && v3.Valid() && v3.Canonical()
    requires u2 != u3 && u2 != v2 && u2 != v3 && u3 != v2 && u3 != v3 && v2 != v3
    requires Bezout(x0, x1, u2.Value(), u3.Value(), v2.Value(), v3.Value())
    modifies u2, u3, v2, v3
    ensures u2.Valid() && u2.Canonical()
    ensures exists g, b :: Bezout(x0, x1, u2.Value(), g, b, 0)
  {
    hide *;
    var zero := new Mint();
    var q := new Mint();
    var r := new Mint();
    var t := new Mint();
    Begin(u2, u3, v2, v3, x0, x1);
    var more := NotZero(u2, u3, v2, v3, zero, x0, x1);
    while more != 0
      invariant fresh({zero, q, r, t}) && zero.Valid() && zero.Value() == 0
      invariant Inverting(u2, u3, v2, v3, x0, x1)
      invariant more != 0 <==> v3.Value() != 0
      decreases v3.Value()
    {
      InvertTurn(u2, u3, v2, v3, q, r, t, x0, x1);
      more := NotZero(u2, u3, v2, v3, zero, x0, x1);
    }
    Unfold(u2, u3, v2, v3, x0, x1);
  }

  /** The state of the loop of `invert`. */
  ghost predicate Inverting(u2: Mint, u3: Mint, v2: Mint, v3: Mint, x0: int, x1: int)
    reads u2, u2.val, u3, u3.val, v2, v2.val, v3, v3.val
    ensures Inverting(u2, u3, v2, v3, x0, x1) ==> v3.Valid() && u2.Valid()
  {
    && u2.Valid() && u2.Canonical() && u3.Valid() && u3.Canonical()
    && v2.Valid() && v2.Canonical() && v3.Valid() && v3.Canonical()
    && Bezout(x0, x1, u2.Value(), u3.Value(), v2.Value(), v3.Value())
  }

  lemma Begin(u2: Mint, u3: Mint, v2: Mint, v3: Mint, x0: int, x1: int)
    requires u2.Valid() && u2.Canonical() && u3.Valid() && u3.Canonical()
    requires v2.Valid() && v2.Canonical() && v3.Valid() && v3.Canonical()
    requires Bezout(x0, x1, u2.Value(), u3.Value(), v2.Value(), v3.Value())
    ensures Inverting(u2, u3, v2, v3, x0, x1) && v3.Value() >= 0
  {
  }

  lemma Unfold(u2: Mint, u3: Mint, v2: Mint, v3: Mint, x0: int, x1: int)
    requires Inverting(u2, u3, v2, v3, x0, x1)
    ensures u2.Valid() && u2.Canonical() && u3.Valid() && u3.Canonical()
    ensures v2.Valid() && v2.Canonical() && v3.Valid() && v3.Canonical()
    ensures Bezout(x0, x1, u2.Value(), u3.Value(), v2.Value(), v3.Value()) && v3.Value() >= 0
  {
  }

  /** One turn of the loop. */
  method InvertTurn(u2: Mint, u3: Mint, v2: Mint, v3: Mint, q: Mint, r: Mint, t: Mint, ghost x0: int, ghost x1: int)
    requires Inverting(u2, u3, v2, v3, x0, x1) && v3.Value() != 0
    requires u2 != u3 && u2 != v2 && u2 != v3 && u3 != v2 && u3 != v3 && v2 != v3
    requires u2 != q && u3 != q && v2 != q && v3 != q && u2 != r && u3 != r && v2 != r && v3 != r
    requires u2 != t && u3 != t && v2 != t && v3 != t && q != r && q != t && r != t
    modifies u2, u3, v2, v3, q, r, t
    ensures Inverting(u2, u3, v2, v3, x0, x1) && 0 <= v3.Value() < old(v3.Value())
  {
    hide *;
    Unfold(u2, u3, v2, v3, x0, x1);
    InvertStep(u2, u3, v2, v3, q, r, t, x0, x1);
    Begin(u2, u3, v2, v3, x0, x1);
  }

  /** `mcmp(v3, zero)`, which changes no value. */
  method NotZero(u2: Mint, u3: Mint, v2: Mint, v3: Mint, zero: Mint, ghost x0: int, ghost x1: int) returns (more: int)
    requires Inverting(u2, u3, v2, v3, x0, x1) && zero.Valid() && zero.Value() == 0
    requires u2 != u3 && u2 != v2 && u2 != v3 && u3 != v2 && u3 != v3 && v2 != v3
    requires u2 != zero && u3 != zero && v2 != zero && v3 != zero
    modifies v3`len, zero`len
    ensures Inverting(u2, u3, v2, v3, x0, x1) && zero.Valid() && zero.Value() == 0
    ensures more != 0 <==> v3.Value() != 0
    ensures v3.Value() == old(v3.Value())
  {
    hide *;
    Unfold(u2, u3, v2, v3, x0, x1);
    more := MintAdd.Mcmp(v3, zero);
    Begin(u2, u3, v2, v3, x0, x1);
  }

  /** The coefficients of one turn of the loop of `invert`. */
  method ShiftCoefficients(u2: Mint, v2: Mint, q: Mint, t: Mint)
    requires u2.Valid() && u2.Canonical() && v2.Valid() && v2.Canonical() && q.Valid() && q.Canonical()
    requires {u2} !! {v2} !! {q} !! {t}
    modifies u2, v2, q`len, t
    ensures u2.Valid() && u2.Canonical() && v2.Valid() && v2.Canonical()
    ensures u2.Value() == old(v2.Value())
    ensures v2.Value() == old(u2.Value()) - old(q.Value()) * old(v2.Value())
  {
    hide *;
    ghost var a, b := u2.Value(), v2.Value();
    MintMult.Mult(q, v2, t);
    assert u2.Value() == a && v2.Value() == b && u2.Canonical();
    MintAdd.Msub(u2, t, t);
    ghost var c := t.Value();
    assert v2.Value() == b && v2.Canonical();
    Move(v2, u2);
    assert t.Value() == c && t.Canonical();
    Move(t, v2);
    assert u2.Value() == b && u2.Canonical();
  }

  /** One turn of the loop of `invert`. */
  method InvertStep(u2: Mint, u3: Mint, v2: Mint, v3: Mint, q: Mint, r: Mint, t: Mint, ghost x0: int, ghost x1: int)
    requires u2.Valid() && u2.Canonical() && u3.Valid() && u3.Canonical()
    requires v2.Valid() && v2.Canonical() && v3.Valid() && v3.Canonical()
    requires u2 != u3 && u2 != v2 && u2 != v3 && u3 != v2 && u3 != v3 && v2 != v3
    requires u2 != q && u3 != q && v2 != q && v3 != q && u2 != r && u3 != r && v2 != r && v3 != r
    requires u2 != t && u3 != t && v2 != t && v3 != t && q != r && q != t && r != t
    requires v3.Value() > 0 && Bezout(x0, x1, u2.Value(), u3.Value(), v2.Value(), v3.Value())
    modifies u2, u3, v2, v3, q, r, t
    ensures u2.Valid() && u2.Canonical() && u3.Valid() && u3.Canonical()
    ensures v2.Valid() && v2.Canonical() && v3.Valid() && v3.Canonical()
    ensures v3.Value() < old(v3.Value())
    ensures Bezout(x0, x1, u2.Value(), u3.Value(), v2.Value(), v3.Value())
  {
    hide *;
    ghost var a2, a3, b2, b3 := u2.Value(), u3.Value(), v2.Value(), v3.Value();
    Shift(u3, v3, q, r);
    ghost var vq, vr := q.Value(), v3.Value();
    assert u2.Value() == a2 && u2.Canonical() && v2.Value() == b2 && v2.Canonical();
    ShiftCoefficients(u2, v2, q, t);
    assert u3.Value() == b3 && u3.Canonical() && v3.Value() == vr && v3.Canonical();
    BezoutStep(x0, x1, a2, a3, b2, b3, vq, vr);
  }
}
