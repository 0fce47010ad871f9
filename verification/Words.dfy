/** Single-bit operations on a 64-bit word, and the population count. */
module Words {
  /** 1 << b, as b doublings. */
  function Mask(b: nat): bv64 { if b == 0 then 1 else Mask(b - 1) << 1 }

  function And(w: bv64, m: bv64): bv64 { w & m }

  /** w & (1 << b) != 0 */
  predicate Test(w: bv64, b: nat) { And(w, Mask(b)) != 0 }

  function Or(w: bv64, m: bv64): bv64 { w | m }

  function AndNot(w: bv64, m: bv64): bv64 { w & !m }

  /** w | 1 << b */
  function SetBit(w: bv64, b: nat): bv64 { Or(w, Mask(b)) }

  /** w &^ (1 << b) */
  function ClearBit(w: bv64, b: nat): bv64 { AndNot(w, Mask(b)) }

  /** bits.OnesCount64, over the lowest n bits. */
  function Ones(w: bv64, n: nat): nat {
    if n == 0 then 0 else Ones(w, n - 1) + (if Test(w, n - 1) then 1 else 0)
  }

  lemma ShiftBoth(x: bv64, y: bv64)
    ensures (x << 1) & (y << 1) == (x & y) << 1 && 1 & (y << 1) == 0
  {}

  lemma Commute(x: bv64, y: bv64)
    ensures x & y == y & x
  {}

  lemma {:induction false} MasksDisjoint(b: nat, c: nat)
    requires b < c
    ensures And(Mask(b), Mask(c)) == 0 && And(Mask(c), Mask(b)) == 0
  {
    Commute(Mask(b), Mask(c));
    if b > 0 { MasksDisjoint(b - 1, c - 1); }
    ShiftBoth(if b == 0 then 0 else Mask(b - 1), Mask(c - 1));
  }

  lemma HighestMask()
    ensures Mask(63) == 0x8000_0000_0000_0000
  {
    assert Mask(9) == 0x200;
    assert Mask(18) == 0x4_0000;
    assert Mask(27) == 0x800_0000;
    assert Mask(36) == 0x10_0000_0000;
    assert Mask(45) == 0x2000_0000_0000;
    assert Mask(54) == 0x40_0000_0000_0000;
  }

  lemma {:induction false} MaskNonZero(b: nat)
    requires b < 64
    ensures Mask(b) != 0
    decreases 64 - b
  {
    if b < 63 { MaskNonZero(b + 1); } else { HighestMask(); }
  }

  lemma OrOther(w: bv64, m: bv64, n: bv64)
    requires m & n == 0
    ensures And(Or(w, m), n) == And(w, n)
  {}

  lemma AndNotOther(w: bv64, m: bv64, n: bv64)
    requires m & n == 0
    ensures And(AndNot(w, m), n) == And(w, n)
  {}

  lemma OtherBits(w: bv64, m: bv64, n: bv64)
    requires And(m, n) == 0
    ensures And(Or(w, m), n) == And(w, n) && And(AndNot(w, m), n) == And(w, n)
  {
    assert m & n == 0;
    hide And, Or, AndNot;
    OrOther(w, m, n);
    AndNotOther(w, m, n);
  }

  lemma OwnBit(w: bv64, m: bv64)
    ensures And(Or(w, m), m) == m && And(AndNot(w, m), m) == 0
  {}

  lemma {:induction false} MaskedOther(w: bv64, b: nat, c: nat)
    requires b < 64 && c < 64 && b != c
    ensures And(SetBit(w, b), Mask(c)) == And(w, Mask(c))
    ensures And(ClearBit(w, b), Mask(c)) == And(w, Mask(c))
  {
    hide Mask, And, Or, AndNot;
    if b < c { MasksDisjoint(b, c); } else { MasksDisjoint(c, b); }
    OtherBits(w, Mask(b), Mask(c));
  }

  lemma {:induction false} MaskedOwn(w: bv64, b: nat)
    requires b < 64
    ensures And(SetBit(w, b), Mask(b)) != 0 && And(ClearBit(w, b), Mask(b)) == 0
  {
    hide Mask, And, Or, AndNot;
    MaskNonZero(b);
    OwnBit(w, Mask(b));
  }

  /** SetBit and ClearBit change bit b and no other. */
  lemma {:induction false} BitSpec(w: bv64, b: nat, c: nat)
    requires b < 64 && c < 64
    ensures Test(SetBit(w, b), c) <==> b == c || Test(w, c)
    ensures Test(ClearBit(w, b), c) <==> b != c && Test(w, c)
  {
    hide Mask, And, SetBit, ClearBit;
    if b == c { MaskedOwn(w, b); } else { MaskedOther(w, b, c); }
  }

  /** The positions base .. base+n-1 whose bit is set, bit 0 of w standing at position base. */
  ghost function Members(w: bv64, base: nat, n: nat): (s: set<nat>)
    ensures forall o: nat :: o in s <==> base <= o < base + n && Test(w, o - base)
  {
    if n == 0 then {}
    else Members(w, base, n - 1) + (if Test(w, n - 1) then {base + n - 1} else {})
  }

  /** The population count is the number of members. */
  lemma {:induction false} OnesCountsMembers(w: bv64, base: nat, n: nat)
    ensures |Members(w, base, n)| == Ones(w, n)
  {
    hide Test;
    if n > 0 { OnesCountsMembers(w, base, n - 1); }
  }

  lemma NoBits(b: nat)
    ensures !Test(0, b)
  {
    ZeroMasked(Mask(b));
  }

  lemma ZeroMasked(m: bv64)
    ensures And(0, m) == 0
  {}
}
