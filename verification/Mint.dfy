/**
 The multiple-precision integer object: `struct mint`, and the helpers every
 operation uses to copy, clear and trim one.
 */
module Mints {
  import opened Limbs

  function Abs(x: int): (r: nat) {
    if x < 0 then -x else x
  }

  /**
   `len` is the number of limbs in use, negative for a negative number; `val`
   holds at least that many.
   */
  class Mint {
    var len: int
    var val: array<Limb>

    ghost predicate Valid()
      reads this
    {
      Abs(len) <= val.Length
    }

    ghost function Mag(): seq<Limb>
      requires Valid()
      reads this, val
    {
      val[..Abs(len)]
    }

    ghost function Value(): int
      requires Valid()
      reads this, val
    {
      if len < 0 then -Nat(Mag()) else Nat(Mag())
    }

    /** No leading zero limb. */
    ghost predicate Canonical()
      reads this, val
    {
      Valid() && Normal(Mag())
    }

    constructor ()
      ensures len == 0 && Canonical() && Value() == 0
    {
      len := 0;
      val := new Limb[0];
    }

    /** A number of one limb whose `val` is a C `short` variable. */
    constructor OfShort(n: Limb)
      ensures len == 1 && val.Length == 1 && val[0] == n
      ensures Valid() && Value() == n && fresh(val)
      ensures n != 0 ==> Canonical()
    {
      len := 1;
      val := new Limb[1] (_ => n);
      new;
      NatStep(val[..], 0);
      assert val[..1] == val[..];
    }
  }

  /** Two canonical numbers of opposite orders of length compare by length. */
  lemma CanonicalSign(m: Mint)
    requires m.Canonical()
    ensures Nat(m.Mag()) >= 0
    ensures m.Value() == 0 <==> m.len == 0
    ensures m.Value() < 0 <==> m.len < 0
  {
    NormalZero(m.Mag());
  }

  /** `xalloc`: room for n limbs. */
  method Xalloc(n: nat) returns (v: array<Limb>)
    ensures fresh(v) && v.Length == n
  {
    v := new Limb[n];
  }

  /** `xfree`: the object becomes zero. */
  method Xfree(c: Mint)
    modifies c`len
    ensures c.len == 0 && c.Canonical() && c.Value() == 0
  {
    if c.len != 0 {
      c.len := 0;
    }
  }

  /** `_mp_move`: b becomes a copy of a that shares no limbs with it. */
  method Move(a: Mint, b: Mint)
    requires a != b && a.Valid()
    modifies b
    ensures b.Valid() && b.len == a.len && b.Mag() == a.Mag()
    ensures b.Value() == a.Value()
    ensures b.len != 0 ==> fresh(b.val)
    ensures a.Canonical() ==> b.Canonical()
  {
    Xfree(b);
    b.len := a.len;
    var i := Abs(a.len);
    if i == 0 {
      return;
    }
    b.val := Xalloc(i);
    var j := 0;
    while j < i
      invariant j <= i == b.val.Length && fresh(b.val)
      invariant b.val[..j] == a.val[..j]
      invariant b.len == a.len
    {
      b.val[j] := a.val[j];
      j := j + 1;
    }
  }

  /** `m.len = -m.len`. */
  method Negate(m: Mint)
    requires m.Valid()
    modifies m`len
    ensures m.Valid() && m.len == -old(m.len) && m.Value() == -old(m.Value())
    ensures old(m.Canonical()) ==> m.Canonical()
  {
    m.len := -m.len;
  }

  /** A local variable of type MINT that `_mp_move` fills. */
  method Copy(a: Mint) returns (x: Mint)
    requires a.Valid()
    ensures fresh(x) && (x.len != 0 ==> fresh(x.val))
    ensures x.Valid() && x.len == a.len && x.Value() == a.Value()
    ensures a.Canonical() ==> x.Canonical()
  {
    x := new Mint();
    Move(a, x);
  }

  /** A copy of a with its sign taken off, and whether a was negative. */
  method Magnitude(a: Mint) returns (x: Mint, negative: bool)
    requires a.Valid()
    ensures fresh(x) && (x.len != 0 ==> fresh(x.val))
    ensures x.Valid() && x.len == (if negative then -a.len else a.len) && negative == (a.len < 0)
    ensures x.Value() == if negative then -a.Value() else a.Value()
    ensures a.Canonical() ==> x.Canonical()
  {
    x := new Mint();
    Move(a, x);
    negative := x.len < 0;
    if negative {
      Negate(x);
    }
  }

  /** Scans down from limb n for a non-zero limb: the number of limbs that remain. */
  method Significant(v: array<Limb>, n: nat) returns (j: nat)
    requires n <= v.Length
    ensures j <= n && Normal(v[..j]) && Nat(v[..j]) == Nat(v[..n])
    ensures Normal(v[..n]) ==> j == n
  {
    j := n;
    while j > 0 && v[j - 1] == 0
      invariant 0 <= j <= n
      invariant forall k :: j <= k < n ==> v[k] == 0
    {
      j := j - 1;
    }
    NatZeros(v[..n], j);
    assert v[..n][..j] == v[..j];
  }

  /** `_mp_mcan`: strips leading zero limbs and changes nothing else. */
  method Mcan(a: Mint)
    requires a.Valid()
    modifies a`len
    ensures a.Valid() && a.Canonical() && a.Value() == old(a.Value())
    ensures old(a.Canonical()) ==> a.len == old(a.len)
    ensures Abs(a.len) <= Abs(old(a.len))
    ensures old(a.len) >= 0 ==> a.len >= 0
  {
    if a.len == 0 {
      return;
    }
    var i := Abs(a.len);
    var j: int := Significant(a.val, i);
    if j == i {
      return;
    }
    if j == 0 {
      Xfree(a);
      return;
    }
    a.len := if a.len > 0 then j else -j;
  }
}
