/** Types shared by every module of the model. */
module Common {
  datatype Option<+T> = None | Some(value: T)

  datatype Result<+T, +E> = Ok(value: T) | Err(error: E)

  /** Go's uint32: every assignment to one is checked not to wrap around. */
  type uint32 = x: int | 0 <= x < 0x1_0000_0000

  /** The numbers 0 .. n-1. */
  ghost function Below(n: nat): (s: set<nat>)
    ensures |s| == n && forall i: nat :: i in s <==> i < n
  {
    if n == 0 then {} else Below(n - 1) + {n - 1}
  }

  lemma {:induction false} SubsetCard<T>(a: set<T>, b: set<T>)
    requires a <= b
    ensures |a| <= |b|
  {
    if a != {} {
      var x :| x in a;
      SubsetCard(a - {x}, b - {x});
    }
  }

  function Pow2(n: nat): nat { if n == 0 then 1 else 2 * Pow2(n - 1) }

  lemma {:induction false} PowersMultiply(a: nat, b: nat)
    ensures Pow2(a) * Pow2(b) == Pow2(a + b)
  {
    if a == 0 {
      assert 1 * Pow2(b) == Pow2(b);
    } else {
      PowersMultiply(a - 1, b);
      DoubleProduct(Pow2(a - 1), Pow2(b));
    }
  }

  lemma DoubleProduct(x: nat, y: nat)
    ensures (2 * x) * y == 2 * (x * y)
  {}

  lemma WordPowers()
    ensures Pow2(31) == 0x8000_0000 && Pow2(32) == 0x1_0000_0000
  {
    assert Pow2(8) == 256;
    PowersMultiply(8, 8);
    PowersMultiply(16, 8);
    assert Pow2(7) == 128;
    PowersMultiply(24, 7);
  }

  lemma {:induction false} Pow2Monotone(m: nat, n: nat)
    requires m <= n
    ensures 1 <= Pow2(m) <= Pow2(n)
  {
    if m < n { Pow2Monotone(m, n - 1); } else if m > 0 { Pow2Monotone(m - 1, m - 1); }
  }

  function Bit(b: bool): int { if b then 1 else 0 }

  /** Two sets that differ at most in x. */
  lemma CardChange(before: set<nat>, after: set<nat>, x: nat)
    requires forall k | k != x :: k in before <==> k in after
    ensures |after| == |before| - Bit(x in before) + Bit(x in after)
  {
    assert after - {x} == before - {x};
    WithOrWithout(before, x);
    WithOrWithout(after, x);
  }

  lemma WithOrWithout(s: set<nat>, x: nat)
    ensures |s| == |s - {x}| + Bit(x in s)
  {
    if x !in s { assert s - {x} == s; }
  }
}
