/** Rounding up, powers of two and divisibility: the arithmetic of alignments.
    The definitions count in steps of the alignment; AlignedIsMod,
    TimesIsProduct and RoundupFormula tie them to the expressions of the C source. */
module Alignment {

  /** `x` is a multiple of `a`. */
  predicate Aligned(x: nat, a: nat)
  {
    a > 0 && (x == 0 || (a <= x && Aligned(x - a, a)))
  }

  /** The least multiple of `a` that is not below `x`. */
  function Roundup(x: nat, a: nat): nat
    requires a > 0
  {
    if x == 0 then 0 else if x <= a then a else a + Roundup(x - a, a)
  }

  lemma {:induction false} AlignedIsMod(x: nat, a: nat)
    requires a > 0
    ensures Aligned(x, a) <==> x % a == 0
  {
    if x >= a {
      AlignedIsMod(x - a, a);
      ModStep(x, a);
    }
  }

  /** The test of the source. */
  method IsMultiple(x: nat, a: nat) returns (r: bool)
    requires a > 0
    ensures r <==> Aligned(x, a)
  {
    AlignedIsMod(x, a);
    r := x % a == 0;
  }

  lemma ModStep(x: nat, a: nat)
    requires 0 < a <= x
    ensures x % a == (x - a) % a && x / a == (x - a) / a + 1
  {
    var q, r := (x - a) / a, (x - a) % a;
    assert x == (q + 1) * a + r;
    DivModUnique(x, a, q + 1, r);
  }

  lemma {:induction false} MulStep(r: nat, q: nat, a: nat)
    requires r < q
    ensures r * a + a <= q * a
  {
    if r + 1 == q {
      assert (r + 1) * a == r * a + a;
    } else {
      MulStep(r, q - 1, a);
      assert q * a == (q - 1) * a + a;
    }
  }

  /** The size of a table of `n` entries of `a` bytes. */
  function Times(n: nat, a: nat): nat {
    if n == 0 then 0 else Times(n - 1, a) + a
  }

  lemma {:induction false} TimesIsProduct(n: nat, a: nat)
    ensures Times(n, a) == n * a
  {
    if n > 0 {
      TimesIsProduct(n - 1, a);
      assert n * a == (n - 1) * a + a;
    }
  }

  lemma {:induction false} TimesGrows(m: nat, n: nat, a: nat)
    requires m < n
    ensures Times(m, a) + a <= Times(n, a)
  {
    if m + 1 < n {
      TimesGrows(m, n - 1, a);
    }
  }

  lemma DivModUnique(x: nat, a: nat, q: nat, r: nat)
    requires a > 0 && r < a && x == q * a + r
    ensures x / a == q && x % a == r
  {
    var q', r' := x / a, x % a;
    assert x == q' * a + r';
    if q' < q {
      MulStep(q', q, a);
    } else if q < q' {
      MulStep(q, q', a);
    }
  }

  /** roundup() of <sys/param.h>. */
  lemma {:induction false} RoundupFormula(x: nat, a: nat)
    requires a > 0
    ensures Roundup(x, a) == ((x + (a - 1)) / a) * a
  {
    if x == 0 {
      DivModUnique(a - 1, a, 0, a - 1);
    } else if x <= a {
      assert x + (a - 1) == 1 * a + (x - 1);
      if x - 1 < a { DivModUnique(x + (a - 1), a, 1, x - 1); }
    } else {
      RoundupFormula(x - a, a);
      ModStep(x + (a - 1), a);
      var q := (x - a + (a - 1)) / a;
      assert x + (a - 1) - a == x - a + (a - 1);
      assert (q + 1) * a == q * a + a;
    }
  }

  /** Rounding up yields the least multiple of the alignment that is not below `x`. */
  lemma {:induction false} RoundupBounds(x: nat, a: nat)
    requires a > 0
    ensures x <= Roundup(x, a) < x + a
    ensures Aligned(Roundup(x, a), a)
  {
    if x > a {
      RoundupBounds(x - a, a);
    }
  }

  lemma {:induction false} RoundupIsLeast(x: nat, a: nat, y: nat)
    requires x <= y && Aligned(y, a)
    ensures Roundup(x, a) <= y
  {
    if x > a {
      RoundupIsLeast(x - a, a, y - a);
    }
  }

  /** A multiple rounds up to itself. */
  lemma RoundupOfAligned(x: nat, a: nat)
    requires Aligned(x, a)
    ensures Roundup(x, a) == x
  {
    RoundupBounds(x, a);
    RoundupIsLeast(x, a, x);
  }

  /** What the test `a & (a - 1)` accepts, together with the test against zero. */
  predicate IsPowerOfTwo(a: nat)
  {
    a == 1 || (a > 0 && a % 2 == 0 && IsPowerOfTwo(a / 2))
  }

  function Pow2(n: nat): nat {
    if n == 0 then 1 else 2 * Pow2(n - 1)
  }

  /** It accepts exactly the powers of two. */
  lemma PowersAccepted(a: nat)
    ensures IsPowerOfTwo(a) <==> exists n :: 0 <= n && a == Pow2(n)
  {
    if IsPowerOfTwo(a) {
      var n := Exponent(a);
    }
    forall n | 0 <= n && a == Pow2(n)
      ensures IsPowerOfTwo(a)
    {
      PowerIsPower(n);
    }
  }

  lemma {:induction false} Exponent(a: nat) returns (n: nat)
    requires IsPowerOfTwo(a)
    ensures a == Pow2(n)
  {
    n := 0;
    if a != 1 {
      n := Exponent(a / 2);
      n := n + 1;
    }
  }

  lemma {:induction false} PowerIsPower(n: nat)
    ensures IsPowerOfTwo(Pow2(n))
  {
    if n > 0 {
      PowerIsPower(n - 1);
    }
  }

  lemma {:induction false} PowersDouble(a: nat, b: nat)
    requires IsPowerOfTwo(a) && IsPowerOfTwo(b) && a < b
    ensures b % 2 == 0 && a <= b / 2
  {
    if a > 1 {
      PowersDouble(a / 2, b / 2);
    }
  }

  /** Of two powers of two the smaller divides the larger. */
  lemma {:induction false} PowersDivide(a: nat, b: nat)
    requires IsPowerOfTwo(a) && IsPowerOfTwo(b) && a <= b
    ensures Aligned(b, a)
  {
    if a < b {
      PowersDouble(a, b);
      PowersDivide(a, b / 2);
      AlignedSum(b / 2, b / 2, a);
    }
  }

  lemma {:induction false} AlignedSum(x: nat, y: nat, a: nat)
    requires Aligned(x, a) && Aligned(y, a)
    ensures Aligned(x + y, a)
  {
    if x > 0 {
      AlignedSum(x - a, y, a);
    }
  }

  lemma {:induction false} AlignedTransitive(x: nat, b: nat, a: nat)
    requires Aligned(x, b) && Aligned(b, a)
    ensures Aligned(x, a)
  {
    if x > 0 {
      AlignedTransitive(x - b, b, a);
      AlignedSum(x - b, b, a);
    }
  }
}
