/**
 Signed addition and subtraction: `m_add`, `m_sub`, `madd`, `msub`.
 */
module MintAdd {
  import opened Limbs
  import opened Mints

  /** The two loops of `m_add`: the limbs of the sum and how many there are. */
  method AddLimbs(a: array<Limb>, alen: nat, b: array<Limb>, blen: nat)
    returns (cval: array<Limb>, clen: nat)
    requires blen <= alen <= a.Length && blen <= b.Length
    ensures fresh(cval) && alen <= clen <= alen + 1 == cval.Length
    ensures Nat(cval[..clen]) == Nat(a[..alen]) + Nat(b[..blen])
    ensures clen == alen + 1 ==> cval[alen] == 1
  {
    hide Nat, Scale;
    cval := Xalloc(alen + 1);
    var carry: Long := 0;
    var i := 0;
    NatEmpty(a[..], 0);
    assert a[..0] == b[..0] == cval[..0] == a[..][..0];
    while i < blen
      invariant 0 <= i <= blen && 0 <= carry <= 1
      invariant Nat(cval[..i]) + Scale(carry, i) == Nat(a[..i]) + Nat(b[..i])
    {
      var x: Long := carry + a[i] + b[i];
      ghost var low, before := Nat(cval[..i]), carry;
      if Bit15(x) {
        carry := 1;
        cval[i] := Low(x);
      } else {
        carry := 0;
        cval[i] := x;
      }
      CarryStep(cval, i, low, before, carry, Nat(a[..i]) + Nat(b[..i]), a[i] as int + b[i] as int);
      ScaleAdd(a[i], b[i], i);
      ArrayStep(a, i);
      ArrayStep(b, i);
      i := i + 1;
    }
    while i < alen
      invariant blen <= i <= alen && 0 <= carry <= 1
      invariant Nat(cval[..i]) + Scale(carry, i) == Nat(a[..i]) + Nat(b[..blen])
    {
      var x: Long := carry + a[i];
      ghost var low, before := Nat(cval[..i]), carry;
      if Bit15(x) {
        cval[i] := Low(x);
      } else {
        carry := 0;
        cval[i] := x;
      }
      CarryStep(cval, i, low, before, carry, Nat(a[..i]) + Nat(b[..blen]), a[i]);
      ArrayStep(a, i);
      i := i + 1;
    }
    ghost var low := Nat(cval[..i]);
    if carry == 1 {
      cval[i] := 1;
      ArrayStep(cval, i);
      clen := i + 1;
    } else {
      ScaleZero(i);
      clen := alen;
    }
  }

  /** `m_add`: magnitudes, the longer one first. */
  method MagAdd(a: Mint, b: Mint, c: Mint)
    requires a.Valid() && b.Valid() && 0 <= b.len <= a.len
    requires c != a && c != b
    modifies c
    ensures c.Valid() && a.len <= c.len <= a.len + 1 && fresh(c.val)
    ensures c.Value() == a.Value() + b.Value()
    ensures c.len == a.len + 1 ==> c.val[a.len] == 1
    ensures a.Canonical() && b.Canonical() ==> c.Canonical()
  {
    hide Nat, Scale;
    var cval, clen := AddLimbs(a.val, a.len, b.val, b.len);
    c.len := clen;
    c.val := cval;
    if Normal(a.Mag()) {
      SumNormal(a.Mag(), b.Mag(), cval[..clen]);
    }
  }

  /** The sum is at least the longer operand, so its top limb is not zero. */
  lemma SumNormal(a: seq<Limb>, b: seq<Limb>, c: seq<Limb>)
    requires Normal(a) && |a| <= |c| && Nat(c) == Nat(a) + Nat(b)
    requires |c| > |a| ==> c[|c| - 1] != 0
    ensures Normal(c)
  {
    hide Nat, Scale, Pow;
    NatBound(b);
    if |c| == |a| && c != [] && c[|c| - 1] == 0 {
      NatTop(a);
      NatZeros(c, |c| - 1);
      NatBound(c[..|c| - 1]);
      assert false;
    }
  }

  /** The two loops of `m_sub`: the limbs of the difference, and the borrow out of the top one. */
  method SubLimbs(a: array<Limb>, alen: nat, b: array<Limb>, blen: nat)
    returns (cval: array<Limb>, borrow: Long)
    requires blen <= alen <= a.Length && blen <= b.Length
    ensures fresh(cval) && cval.Length == alen && -1 <= borrow <= 0
    ensures Nat(cval[..alen]) + Scale(borrow, alen) == Nat(a[..alen]) - Nat(b[..blen])
  {
    hide Nat, Scale;
    cval := Xalloc(alen);
    borrow := 0;
    var i := 0;
    NatEmpty(a[..], 0);
    assert a[..0] == b[..0] == cval[..0] == a[..][..0];
    while i < blen
      invariant 0 <= i <= blen && -1 <= borrow <= 0
      invariant Nat(cval[..i]) + Scale(borrow, i) == Nat(a[..i]) - Nat(b[..i])
    {
      var x: Long := borrow + a[i] - b[i];
      ghost var low, before := Nat(cval[..i]), borrow;
      if Bit15(x) {
        borrow := -1;
        cval[i] := Low(x);
      } else {
        borrow := 0;
        cval[i] := x;
      }
      CarryStep(cval, i, low, before, borrow, Nat(a[..i]) - Nat(b[..i]), a[i] as int - b[i] as int);
      ScaleAdd(a[i] as int - b[i] as int, b[i], i);
      ArrayStep(a, i);
      ArrayStep(b, i);
      i := i + 1;
    }
    while i < alen
      invariant blen <= i <= alen && -1 <= borrow <= 0
      invariant Nat(cval[..i]) + Scale(borrow, i) == Nat(a[..i]) - Nat(b[..blen])
    {
      var x: Long := borrow + a[i];
      ghost var low, before := Nat(cval[..i]), borrow;
      if Bit15(x) {
        cval[i] := Low(x);
      } else {
        borrow := 0;
        cval[i] := x;
      }
      CarryStep(cval, i, low, before, borrow, Nat(a[..i]) - Nat(b[..blen]), a[i]);
      ArrayStep(a, i);
      i := i + 1;
    }
  }

  /** What the borrow out of the top says, and what the limbs then stand for. */
  lemma BorrowMeaning(a: seq<Limb>, b: seq<Limb>, c: seq<Limb>, borrow: int)
    requires |b| <= |a| == |c| && -1 <= borrow <= 0
    requires Nat(c) + Scale(borrow, |a|) == Nat(a) - Nat(b)
    ensures borrow == 0 <==> Nat(a) >= Nat(b)
    ensures Nat(c) == Nat(a) - Nat(b) + (if borrow < 0 then Pow(|a|) else 0)
  {
    hide Nat, Scale;
    NatBound(c);
    NatBound(a);
    NatBound(b);
    PowMonotone(|b|, |a|);
    ScaleZero(|a|);
    ScaleAdd(-1, 1, |a|);
  }

  /** Flipping all fifteen bits of every limb, `^= 077777`. */
  lemma {:induction false} FlipMeaning(s: seq<Limb>, t: seq<Limb>)
    requires |s| == |t| && forall k :: 0 <= k < |s| ==> t[k] == 0x7FFF - s[k]
    ensures Nat(t) == Pow(|s|) - 1 - Nat(s)
  {
    if s != [] {
      var n := |s| - 1;
      FlipMeaning(s[..n], t[..n]);
      ScaleAdd(t[n] as int, s[n] as int, n);
      ScaleAdd(0x7FFF, 1, n);
      ScaleUp(1, n);
    }
  }

  method Flip(v: array<Limb>)
    modifies v
    ensures Nat(v[..]) == Pow(v.Length) - 1 - Nat(old(v[..]))
  {
    var i := 0;
    while i < v.Length
      invariant 0 <= i <= v.Length
      invariant forall k :: 0 <= k < i ==> v[k] == 0x7FFF - old(v[k])
      invariant forall k :: i <= k < v.Length ==> v[k] == old(v[k])
    {
      v[i] := 0x7FFF - v[i];
      i := i + 1;
    }
    FlipMeaning(old(v[..]), v[..]);
  }

  /** `m_sub`: magnitudes, the one with at least as many limbs first; the result may be negative. */
  method MagSub(a: Mint, b: Mint, c: Mint)
    requires a.Valid() && b.Valid() && 0 <= b.len <= a.len
    requires c != a && c != b && c.len == 0
    modifies c
    ensures c.Valid() && c.Canonical()
    ensures c.Value() == a.Value() - b.Value()
    decreases 1, 0, 1
  {
    hide Nat, Scale, Normal;
    var cval, borrow := SubLimbs(a.val, a.len, b.val, b.len);
    var n := a.len;
    c.val := cval;
    assert cval[..n] == cval[..];
    BorrowMeaning(a.Mag(), b.Mag(), cval[..], borrow);
    if borrow < 0 {
      Complement(c, n, a.Mag(), b.Mag());
    }
    TrimSigned(c, n, borrow);
  }

  /** A borrow left over: the limbs are complemented and one is added. */
  method Complement(c: Mint, n: nat, ghost a: seq<Limb>, ghost b: seq<Limb>)
    requires c.len == 0 && c.val.Length == n == |a| && |b| <= |a|
    requires Nat(a) < Nat(b) && Nat(c.val[..]) == Nat(a) - Nat(b) + Pow(n)
    modifies c, c.val
    ensures n <= c.val.Length && Nat(c.val[..n]) == Nat(b) - Nat(a)
    decreases 1, 0, 0
  {
    hide Nat, Scale, Normal, Pow;
    var mone := new Mint.OfShort(1);
    var cval := c.val;
    Flip(cval);
    c.len := n;
    assert cval[..n] == cval[..];
    NotEmpty(a, b);
    Madd(c, mone, c);
    NoOverflow(a, b, c.Mag());
  }

  lemma NotEmpty(a: seq<Limb>, b: seq<Limb>)
    requires |b| <= |a| && Nat(a) < Nat(b)
    ensures |a| >= 1
  {
  }

  /** The end of `m_sub`: leading zero limbs go, and a borrow makes the number negative. */
  method TrimSigned(c: Mint, n: nat, borrow: int)
    requires n <= c.val.Length
    modifies c`len
    ensures c.Valid() && c.Canonical()
    ensures c.Value() == if borrow != 0 then -Nat(c.val[..n]) else Nat(c.val[..n])
  {
    hide Nat, Scale, Normal;
    var i := Significant(c.val, n);
    c.len := 0;
    if i > 0 {
      c.len := i;
      if borrow != 0 {
        c.len := -c.len;
      }
    }
    ZeroLimbs(c.val[..0]);
  }

  lemma ZeroLimbs(s: seq<Limb>)
    requires s == []
    ensures Nat(s) == 0
  {
  }

  /** The complement path never grows a limb. */
  lemma NoOverflow(a: seq<Limb>, b: seq<Limb>, c: seq<Limb>)
    requires |b| <= |a| <= |c| <= |a| + 1 && Nat(c) == Nat(b) - Nat(a)
    requires |c| > |a| ==> c[|a|] != 0
    ensures |c| == |a|
  {
    NatBound(a);
    NatBound(b);
    PowMonotone(|b|, |a|);
    if |c| > |a| {
      NatTop(c);
    }
  }

  /** `madd`. */
  method Madd(a: Mint, b: Mint, c: Mint)
    requires a.Valid() && b.Valid()
    modifies c
    ensures c.Valid()
    ensures c.Value() == old(a.Value()) + old(b.Value())
    ensures old(a.Canonical()) && old(b.Canonical()) ==> c.Canonical()
    ensures old(a.len) >= 0 && old(b.len) >= 0 ==>
              var n := if old(a.len) >= old(b.len) then old(a.len) else old(b.len);
              n <= c.len <= n + 1 && (c.len > n ==> c.val[n] != 0)
    decreases if a.len >= 0 && b.len >= 0 then 0 else 4, 0, 1
  {
    hide *;
    var x := new Mint();
    var y := new Mint();
    Move(a, x);
    Move(b, y);
    Xfree(c);
    AddCopies(x, y, c);
  }

  /** The cases of `madd`, on copies of the operands. */
  method AddCopies(x: Mint, y: Mint, c: Mint)
    requires x.Valid() && y.Valid() && {x} !! {y} !! {c} && c.len == 0
    modifies x`len, y`len, c
    ensures c.Valid()
    ensures c.Value() == old(x.Value()) + old(y.Value())
    ensures old(x.Canonical()) && old(y.Canonical()) ==> c.Canonical()
    ensures old(x.len) >= 0 && old(y.len) >= 0 ==>
              var n := if old(x.len) >= old(y.len) then old(x.len) else old(y.len);
              n <= c.len <= n + 1 && (c.len > n ==> c.val[n] != 0)
    decreases if x.len >= 0 && y.len >= 0 then 0 else 4, 0, 0
  {
    hide *;
    var sign := 1;
    if x.len >= 0 {
      if y.len >= 0 {
        if x.len >= y.len {
          MagAdd(x, y, c);
        } else {
          MagAdd(y, x, c);
        }
      } else {
        Negate(y);
        Msub(x, y, c);
      }
    } else {
      if y.len <= 0 {
        Negate(x);
        Negate(y);
        sign := -1;
        Madd(x, y, c);
      } else {
        Negate(x);
        Msub(y, x, c);
      }
    }
    if sign == -1 {
      Negate(c);
    }
  }

  /** `msub`. */
  method Msub(a: Mint, b: Mint, c: Mint)
    requires a.Valid() && b.Valid()
    modifies c
    ensures c.Valid()
    ensures c.Value() == old(a.Value()) - old(b.Value())
    ensures old(a.Canonical()) && old(b.Canonical()) ==> c.Canonical()
    decreases if a.len >= 0 && b.len >= 0 then (if a.len >= b.len then 2 else 3) else 4, 1, 1
  {
    hide *;
    var x := new Mint();
    var y := new Mint();
    Move(a, x);
    Move(b, y);
    Xfree(c);
    SubtractCopies(x, y, c);
  }

  /** The cases of `msub`, on copies of the operands. */
  method SubtractCopies(x: Mint, y: Mint, c: Mint)
    requires x.Valid() && y.Valid() && {x} !! {y} !! {c} && c.len == 0
    modifies x`len, y`len, c
    ensures c.Valid()
    ensures c.Value() == old(x.Value()) - old(y.Value())
    ensures old(x.Canonical()) && old(y.Canonical()) ==> c.Canonical()
    decreases if x.len >= 0 && y.len >= 0 then (if x.len >= y.len then 2 else 3) else 4, 1, 0
  {
    hide *;
    var sign := 1;
    if x.len >= 0 {
      if y.len >= 0 {
        if x.len >= y.len {
          MagSub(x, y, c);
        } else {
          sign := -1;
          Msub(y, x, c);
        }
      } else {
        Negate(y);
        Madd(x, y, c);
      }
    } else {
      if y.len <= 0 {
        Negate(x);
        Negate(y);
        Msub(y, x, c);
      } else {
        Negate(x);
        Madd(x, y, c);
        sign := -1;
      }
    }
    if sign == -1 {
      Negate(c);
    }
  }

  /** `mcmp`: negative, zero or positive as a is below, equal to or above b; trims both. */
  method Mcmp(a: Mint, b: Mint) returns (res: int)
    requires a.Valid() && b.Valid()
    modifies a`len, b`len
    ensures a.Valid() && a.Canonical() && a.Value() == old(a.Value())
    ensures b.Valid() && b.Canonical() && b.Value() == old(b.Value())
    ensures res == 0 <==> old(a.Value()) == old(b.Value())
    ensures res < 0 <==> old(a.Value()) < old(b.Value())
  {
    hide Nat, Scale;
    Mcan(a);
    Mcan(b);
    CanonicalSign(a);
    CanonicalSign(b);
    if a.len != b.len {
      LengthOrder(a, b);
      return a.len - b.len;
    }
    var c := new Mint();
    Msub(a, b, c);
    CanonicalSign(c);
    res := c.len;
  }

  /** Canonical numbers are ordered by their signed lengths when these differ. */
  lemma LengthOrder(a: Mint, b: Mint)
    requires a.Canonical() && b.Canonical() && a.len != b.len
    ensures a.len < b.len <==> a.Value() < b.Value()
    ensures a.Value() != b.Value()
  {
    hide Nat, Scale;
    CanonicalSign(a);
    CanonicalSign(b);
    if Abs(a.len) < Abs(b.len) {
      NormalLonger(b.Mag(), a.Mag());
    } else if Abs(b.len) < Abs(a.len) {
      NormalLonger(a.Mag(), b.Mag());
    }
  }
}
