/**
 Signed multiplication: `mult` and the schoolbook loops of `m_mult`.
 */
module MintMult {
  import opened Limbs
  import opened Mints

  /** One row of `m_mult`: adds a * bcache into c from limb j up, the carry going into limb j + alen. */
  method MultRow(a: array<Limb>, alen: nat, bcache: Limb, c: array<Limb>, j: nat)
    requires alen <= a.Length && j + alen < c.Length && a != c
    modifies c
    ensures Nat(c[..j + alen + 1]) == old(Nat(c[..j + alen])) + Scale(Nat(a[..alen]) * bcache, j)
    ensures c[j + alen + 1..] == old(c[j + alen + 1..])
  {
    hide Nat, Scale, Low;
    ghost var before := c[..];
    var sum: Long := 0;
    var i := 0;
    NatEmpty(a[..], j);
    assert a[..0] == a[..][..0];
    while i < alen
      invariant 0 <= i <= alen && 0 <= sum < 0x8000
      invariant forall k :: j + i <= k < c.Length ==> c[k] == before[k]
      invariant Nat(c[..j + i]) + Scale(sum, j + i) == Nat(before[..j + i]) + Scale(Nat(a[..i]) * bcache, j)
    {
      LimbProduct(a[i], bcache);
      ghost var low, carry := Nat(c[..j + i]), sum;
      ghost var done := Nat(before[..j + i]) + Scale(Nat(a[..i]) * bcache, j);
      var x: Long := sum + a[i] * bcache + c[j + i];
      c[j + i] := Low(x);
      sum := High(x);
      CarryStep(c, j + i, low, carry, sum, done, a[i] * bcache + before[j + i]);
      RowStep(before, a[..], i, bcache, j);
      i := i + 1;
    }
    ghost var low := Nat(c[..j + i]);
    c[j + i] := sum;
    ArrayStep(c, j + i);
    assert c[j + alen + 1..] == before[j + alen + 1..];
  }

  lemma RowStep(before: seq<Limb>, a: seq<Limb>, i: nat, b: Limb, j: nat)
    requires i < |a| && j + i < |before|
    ensures Nat(before[..j + i + 1]) + Scale(Nat(a[..i + 1]) * b, j)
         == Nat(before[..j + i]) + Scale(Nat(a[..i]) * b, j) + Scale(a[i] * b + before[j + i], j + i)
  {
    hide Nat, Scale;
    NatStep(before, j + i);
    NatStep(a, i);
    var n, x := Nat(a[..i]), Scale(a[i], i);
    assert (n + x) * b == n * b + b * x;
    ScaleMul(b, a[i], i);
    ScaleAdd(n * b, Scale(b * a[i], i), j);
    ScaleScale(b * a[i], i, j);
    ScaleAdd(a[i] * b, before[j + i], j + i);
  }

  /** The first row of `m_mult`, which writes the limbs of c instead of adding to them. */
  method FirstRow(a: array<Limb>, alen: nat, bcache: Limb, c: array<Limb>)
    requires alen <= a.Length && alen < c.Length && a != c
    modifies c
    ensures Nat(c[..alen + 1]) == Nat(a[..alen]) * bcache
  {
    hide Nat, Scale;
    var sum: Long := 0;
    var i := 0;
    NatEmpty(a[..], 0);
    assert c[..0] == a[..0] == a[..][..0];
    while i < alen
      invariant 0 <= i <= alen && 0 <= sum < 0x8000
      invariant Nat(c[..i]) + Scale(sum, i) == Nat(a[..i]) * bcache
    {
      LimbProduct(a[i], bcache);
      ghost var low, carry := Nat(c[..i]), sum;
      var x: Long := sum + a[i] * bcache;
      c[i] := Low(x);
      sum := High(x);
      CarryStep(c, i, low, carry, sum, Nat(a[..i]) * bcache, a[i] * bcache);
      ArrayStep(a, i);
      ProductStep(Nat(a[..i]), a[i], i, bcache);
      i := i + 1;
    }
    ghost var low := Nat(c[..i]);
    c[i] := sum;
    ArrayStep(c, i);
  }

  lemma ProductStep(n: int, x: int, i: nat, b: int)
    ensures (n + Scale(x, i)) * b == n * b + Scale(x * b, i)
  {
    ScaleMul(b, x, i);
  }

  /** `m_mult`: Knuth's Algorithm M of section 4.3.1.  All alen + blen limbs are written. */
  method MultLimbs(a: array<Limb>, alen: nat, b: array<Limb>, blen: nat) returns (c: array<Limb>)
    requires alen <= a.Length && 1 <= blen <= b.Length
    ensures fresh(c) && c.Length == alen + blen
    ensures Nat(c[..]) == Nat(a[..alen]) * Nat(b[..blen])
  {
    hide Nat, Scale;
    c := Xalloc(alen + blen);
    FirstRow(a, alen, b[0], c);
    ArrayStep(b, 0);
    NatEmpty(b[..], 0);
    assert b[..0] == b[..][..0];
    ScaleNone(b[0]);
    var j := 1;
    while j < blen
      invariant 1 <= j <= blen
      invariant Nat(c[..j + alen]) == Nat(a[..alen]) * Nat(b[..j])
    {
      MultRow(a, alen, b[j], c, j);
      ArrayStep(b, j);
      ProductStep(Nat(b[..j]), b[j], j, Nat(a[..alen]));
      j := j + 1;
    }
    assert c[..] == c[..j + alen];
  }

  /** The product of canonical numbers has at most one leading zero limb. */
  lemma ProductTop(a: seq<Limb>, b: seq<Limb>, c: seq<Limb>)
    requires a != [] && b != [] && Normal(a) && Normal(b)
    requires |c| == |a| + |b| && Nat(c) == Nat(a) * Nat(b)
    ensures c[|c| - 1] == 0 ==> Normal(c[..|c| - 1])
  {
    hide Nat, Scale;
    var m, n := |a| - 1, |b| - 1;
    NatTop(a);
    NatTop(b);
    PowMonotone(0, n);
    PowMonotone(0, m);
    MulMono(Pow(m), Nat(a), Nat(b));
    MulMono(Pow(n), Nat(b), Pow(m));
    ScaleMul(Pow(m), 1, n);
    ScaleScale(1, m, n);
    assert Pow(m + n) <= Nat(c);
    if c[|c| - 1] == 0 && c[|c| - 2] == 0 {
      NatZeros(c, |c| - 2);
      NatBound(c[..|c| - 2]);
      assert false;
    }
  }

  /** `m_mult` and the trimming at its end. */
  method MagMult(a: Mint, b: Mint, c: Mint)
    requires a.Valid() && b.Valid() && a.len >= 1 && b.len >= 1
    requires c != a && c != b
    modifies c
    ensures c.Valid() && c.len > 0 && fresh(c.val)
    ensures c.Value() == a.Value() * b.Value()
    ensures c.val.Length == a.len + b.len && Nat(c.val[..]) == c.Value()
    ensures a.Canonical() && b.Canonical() ==> c.Canonical()
  {
    hide Nat, Scale;
    ghost var ma, mb := a.Mag(), b.Mag();
    var cval := MultLimbs(a.val, a.len, b.val, b.len);
    c.len := a.len + b.len;
    c.val := cval;
    assert cval[..c.len] == cval[..];
    if Normal(ma) && Normal(mb) {
      ProductTop(ma, mb, cval[..]);
    }
    if c.val[c.len - 1] == 0 {
      NatZeros(cval[..], c.len - 1);
      c.len := c.len - 1;
    }
  }

  /** The part of `mult` after both factors are trimmed. */
  method MultTrimmed(a: Mint, b: Mint, c: Mint)
    requires a.Valid() && a.Canonical() && b.Valid() && b.Canonical()
    modifies c
    ensures c.Valid() && c.Canonical()
    ensures c.Value() == old(a.Value()) * old(b.Value())
    ensures old(a.len) > 0 && old(b.len) > 0 ==>
              fresh(c.val) && c.len > 0 && c.val.Length == old(a.len) + old(b.len) && Nat(c.val[..]) == c.Value()
  {
    hide *;
    ghost var va, vb := a.Value(), b.Value();
    if a.len == 0 || b.len == 0 {
      CanonicalSign(a);
      CanonicalSign(b);
      Xfree(c);
      return;
    }
    var x, na := Magnitude(a);
    var y, nb := Magnitude(b);
    Xfree(c);
    Signs(va, vb, na, nb);
    MultCopies(x, y, na != nb, c);
  }

  /** The product of two magnitudes, with its sign. */
  method MultCopies(x: Mint, y: Mint, negative: bool, c: Mint)
    requires x.Valid() && x.Canonical() && y.Valid() && y.Canonical() && x.len >= 1 && y.len >= 1 && c != x && c != y
    modifies c
    ensures c.Valid() && c.Canonical() && fresh(c.val)
    ensures c.Value() == if negative then -(x.Value() * y.Value()) else x.Value() * y.Value()
    ensures !negative ==> c.len > 0 && c.val.Length == x.len + y.len && Nat(c.val[..]) == c.Value()
  {
    hide *;
    if x.len < y.len {
      MagMult(x, y, c);
    } else {
      MagMult(y, x, c);
    }
    if negative {
      Negate(c);
    }
    if c.len == 0 {
      Xfree(c);
    }
  }

  lemma Signs(x: int, y: int, na: bool, nb: bool)
    ensures (if na then -x else x) * (if nb then -y else y) == if na == nb then x * y else -(x * y)
  {
  }

  /**
   `mult`.  When both factors are positive, `val` keeps as many limbs as both
   factors together, the top one zero if it is not in use.
   */
  method Mult(a: Mint, b: Mint, c: Mint)
    requires a.Valid() && b.Valid()
    modifies a`len, b`len, c
    ensures c.Valid() && c.Canonical()
    ensures c.Value() == old(a.Value()) * old(b.Value())
    ensures old(a.len) > 0 && old(b.len) > 0 && old(a.Canonical()) && old(b.Canonical()) ==>
              fresh(c.val) && c.len > 0 && c.val.Length == old(a.len) + old(b.len) && Nat(c.val[..]) == c.Value()
    ensures a != c ==> a.Valid() && a.Canonical() && a.Value() == old(a.Value())
    ensures a != c && old(a.Canonical()) ==> a.len == old(a.len)
    ensures b != c ==> b.Valid() && b.Canonical() && b.Value() == old(b.Value())
    ensures b != c && old(b.Canonical()) ==> b.len == old(b.len)
  {
    hide *;
    Mcan(a);
    Mcan(b);
    MultTrimmed(a, b, c);
  }
}
