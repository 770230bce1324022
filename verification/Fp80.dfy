/** Conversions between the 80-bit and the 64-bit floating point formats of the x87:
    fp80_cvtd and fp80_cvfd of fp80.c, on the fields of the formats.  Shifts are
    mathematical: a shift by the width of a word or more leaves zero. */
module Fp80 {

  const P51: nat := 0x8_0000_0000_0000
  const P52: nat := 0x10_0000_0000_0000
  const P62: nat := 0x4000_0000_0000_0000
  const P63: nat := 0x8000_0000_0000_0000
  const P64: nat := 0x1_0000_0000_0000_0000

  const EXP64_SPECIAL: nat := 0x7ff
  const EXP80_SPECIAL: nat := 0x7fff
  const REBASE: nat := 0x3fff - 0x3ff

  /** Values are counted in units of two to the power of -UNIT. */
  const UNIT: nat := 0x3fff + 63

  type Exp64 = x: nat | x <= EXP64_SPECIAL
  type Frac64 = x: nat | x < P52
  type Exp80 = x: nat | x <= EXP80_SPECIAL
  type Fi80 = x: nat | x < P64

  datatype Double = Double(neg: bool, exp: Exp64, frac: Frac64)

  /** The integer bit of the format is the top bit of `fi`. */
  datatype Extended = Extended(neg: bool, exp: Exp80, fi: Fi80)

  // ------------------------------------------------------------------------- shifts

  function Shl(x: nat, n: nat): nat {
    if n == 0 then x else 2 * Shl(x, n - 1)
  }

  function Shr(x: nat, n: nat): nat {
    if n == 0 then x else Shr(x, n - 1) / 2
  }

  lemma {:induction false} ShlAdds(x: nat, m: nat, n: nat)
    ensures Shl(Shl(x, m), n) == Shl(x, m + n)
  {
    if n > 0 {
      ShlAdds(x, m, n - 1);
    }
  }

  lemma {:induction false} ShlSum(x: nat, y: nat, n: nat)
    ensures Shl(x + y, n) == Shl(x, n) + Shl(y, n)
  {
    if n > 0 {
      ShlSum(x, y, n - 1);
    }
  }

  lemma {:induction false} ShlGrows(x: nat, y: nat, n: nat)
    requires x < y
    ensures Shl(x, n) < Shl(y, n)
  {
    if n > 0 {
      ShlGrows(x, y, n - 1);
    }
  }

  lemma Shl4(x: nat)
    ensures Shl(x, 4) == 16 * x
  {
    assert Shl(x, 2) == 2 * Shl(x, 1);
    assert Shl(x, 3) == 2 * Shl(x, 2);
  }

  lemma ShlEleven(x: nat)
    ensures Shl(x, 11) == x * 2048
  {
    Shl4(x);
    Shl4(16 * x);
    ShlAdds(x, 4, 4);
    assert Shl(x, 9) == 512 * x;
    assert Shl(x, 10) == 1024 * x;
  }

  lemma Shl13(x: nat)
    ensures Shl(x, 13) == x * 8192
  {
    ShlEleven(x);
    assert Shl(x, 12) == 2 * Shl(x, 11);
  }

  lemma Shl26(x: nat)
    ensures Shl(x, 26) == x * 0x400_0000
  {
    Shl13(x);
    Shl13(x * 8192);
    ShlAdds(x, 13, 13);
  }

  lemma Shl52(x: nat)
    ensures Shl(x, 52) == x * P52
  {
    Shl26(x);
    Shl26(x * 0x400_0000);
    ShlAdds(x, 26, 26);
  }

  lemma {:induction false} ShrUndoesShl(x: nat, n: nat)
    ensures Shr(Shl(x, n), n) == x
  {
    if n > 0 {
      ShrUndoesShl(x, n - 1);
      ShrOfDouble(Shl(x, n - 1), n - 1);
    }
  }

  lemma {:induction false} ShrOfDouble(x: nat, n: nat)
    ensures Shr(2 * x, n + 1) == Shr(x, n)
  {
    if n > 0 {
      ShrOfDouble(x, n - 1);
    }
  }

  /** Shifting right leaves zero exactly for numbers below the power of two. */
  lemma {:induction false} ShrZero(x: nat, n: nat)
    ensures Shr(x, n) == 0 <==> x < Shl(1, n)
    ensures Shr(x, n) <= x
  {
    if n > 0 {
      ShrZero(x, n - 1);
      ShrHalf(x, n - 1);
      ShrZero(x / 2, n - 1);
    }
  }

  lemma {:induction false} ShrHalf(x: nat, n: nat)
    ensures Shr(x, n) / 2 == Shr(x / 2, n)
  {
    if n > 0 {
      ShrHalf(x, n - 1);
    }
  }

  // -------------------------------------------------------------------- fp80_cvfd

  /** How far a number has to be shifted up to have the integer bit set. */
  function Norm(fi: nat): (n: nat)
    requires 0 < fi < P64
    ensures P63 <= Shl(fi, n) < P64
    decreases P64 - fi
  {
    if fi >= P63 then 0
    else
      ShlDouble(fi, Norm(2 * fi));
      Norm(2 * fi) + 1
  }

  lemma {:induction false} ShlDouble(x: nat, n: nat)
    ensures Shl(2 * x, n) == Shl(x, n + 1)
  {
    if n > 0 {
      ShlDouble(x, n - 1);
    }
  }

  lemma {:induction false} NormBound(fi: nat, n: nat)
    requires 0 < fi < P64 && Shl(fi, n) >= P63
    ensures Norm(fi) <= n
    decreases n
  {
    if fi < P63 && n > 0 {
      ShlDouble(fi, n - 1);
      NormBound(2 * fi, n - 1);
    }
  }

  function FromDouble(x: Double): Extended {
    if x.exp != 0 then
      Extended(x.neg, if x.exp == EXP64_SPECIAL then EXP80_SPECIAL else x.exp + REBASE, P63 + x.frac * 2048)
    else if x.frac == 0 then Extended(x.neg, 0, 0)
    else
      SubnormalShift(x.frac);
      var n := Norm(x.frac * 2048);
      Extended(x.neg, REBASE - n, Shl(x.frac * 2048, n))
  }

  lemma SubnormalShift(frac: Frac64)
    requires frac > 0
    ensures 1 <= Norm(frac * 2048) <= 52
  {
    var fi := frac * 2048;
    ShlGrowsOrEq(2048, fi, 52);
    Shl52(2048);
    NormBound(fi, 52);
  }

  lemma ShlGrowsOrEq(x: nat, y: nat, n: nat)
    requires x <= y
    ensures Shl(x, n) <= Shl(y, n)
  {
    if x < y {
      ShlGrows(x, y, n);
    }
  }

  /** fp80_cvfd. */
  method Cvfd(x: Double) returns (r: Extended)
    ensures r == FromDouble(x)
  {
    var shifted := x.frac * 2048;
    if x.exp != 0 {
      var exp := if x.exp == EXP64_SPECIAL then EXP80_SPECIAL else x.exp + REBASE;
      return Extended(x.neg, exp, P63 + shifted);
    } else if x.frac == 0 {
      return Extended(x.neg, 0, 0);
    }
    SubnormalShift(x.frac);
    var fi, shift := shifted, 0;
    while fi < P63
      invariant 0 < fi < P64 && 0 <= shift
      invariant Shl(fi, Norm(fi)) == Shl(shifted, Norm(shifted)) && Norm(fi) + shift == Norm(shifted)
      decreases P64 - fi
    {
      ShlDouble(fi, Norm(2 * fi));
      fi := 2 * fi;
      shift := shift + 1;
    }
    r := Extended(x.neg, REBASE - shift, fi);
  }

  // -------------------------------------------------------------------- fp80_cvtd

  predicate IsSpecial(x: Extended) { x.exp == EXP80_SPECIAL }

  function Frac(x: Extended): nat { x.fi % P63 }

  predicate IsInf(x: Extended) { IsSpecial(x) && Frac(x) == 0 }

  predicate IsQnan(x: Extended) { IsSpecial(x) && Frac(x) >= P62 }

  predicate IsSnan(x: Extended) { IsSpecial(x) && 0 < Frac(x) < P62 }

  /** The indefinite, a quiet NaN that is negative and otherwise zero. */
  predicate IsQnanIndefinite(x: Extended) { IsQnan(x) && x.neg && x.fi % P62 == 0 }

  /** fp80_cvtd. */
  function ToDouble(x: Extended): Double {
    if !IsSpecial(x) then
      var exp := x.exp - REBASE;
      var frac := x.fi / 2048;
      if 0 < exp < EXP64_SPECIAL then Double(x.neg, exp, frac % P52)
      else if exp <= 0 then Double(x.neg, 0, Shr(frac, -exp) % P52)
      else Double(x.neg, EXP64_SPECIAL, 0)
    else if IsInf(x) then Double(x.neg, EXP64_SPECIAL, 0)
    else if IsSnan(x) then Double(x.neg, EXP64_SPECIAL, P51 - 1)
    else if IsQnanIndefinite(x) then Double(true, EXP64_SPECIAL, P51)
    else Double(x.neg, EXP64_SPECIAL, P52 - 1)
  }

  // ------------------------------------------------------------------ the round trip

  predicate IsNan64(x: Double) { x.exp == EXP64_SPECIAL && x.frac != 0 }

  predicate IsSubnormal64(x: Double) { x.exp == 0 && x.frac != 0 }

  datatype NanClass = Signalling | Quiet | Indefinite

  function ClassOf(x: Double): NanClass
    requires IsNan64(x)
  {
    if x.frac < P51 then Signalling else if x.neg && x.frac == P51 then Indefinite else Quiet
  }

  /** Every double that is not a NaN survives the way there and back, bit by bit. */
  lemma RoundTrip(x: Double)
    requires !IsNan64(x)
    ensures ToDouble(FromDouble(x)) == x
  {
    if IsSubnormal64(x) {
      SubnormalRoundTrip(x);
    } else if x.exp == 0 {
      ShrZero(0, REBASE);
    } else {
      NormalRoundTrip(x);
    }
  }

  lemma SubnormalRoundTrip(x: Double)
    requires IsSubnormal64(x)
    ensures ToDouble(FromDouble(x)) == x
  {
    SubnormalShift(x.frac);
    var n := Norm(x.frac * 2048);
    ShlTimes(x.frac, n);
    assert FromDouble(x).fi / 2048 == Shl(x.frac, n);
    ShrUndoesShl(x.frac, n);
  }

  lemma NormalRoundTrip(x: Double)
    requires x.exp != 0 && !IsNan64(x)
    ensures ToDouble(FromDouble(x)) == x
  {
    var fi := FromDouble(x).fi;
    assert fi == (P52 + x.frac) * 2048;
    assert fi / 2048 == P52 + x.frac;
    assert (P52 + x.frac) % P52 == x.frac;
  }

  lemma {:induction false} ShlTimes(x: nat, n: nat)
    ensures Shl(x * 2048, n) == Shl(x, n) * 2048
  {
    if n > 0 {
      ShlTimes(x, n - 1);
    }
  }

  /** Every other NaN of a class is converted to the same one: the signalling NaN with all
      but the top bit set, the indefinite, or the quiet NaN with all bits set. */
  lemma NansAreCanonical(x: Extended)
    requires IsSpecial(x) && Frac(x) != 0
    ensures ToDouble(x).exp == 0x7ff
    ensures 0 < Frac(x) < 0x4000_0000_0000_0000 ==>
              ToDouble(x).frac == 0x7_ffff_ffff_ffff && ToDouble(x).neg == x.neg
    ensures x.neg && Frac(x) == 0x4000_0000_0000_0000 ==>
              ToDouble(x).frac == 0x8_0000_0000_0000 && ToDouble(x).neg
    ensures 0x4000_0000_0000_0000 <= Frac(x) && !(x.neg && Frac(x) == 0x4000_0000_0000_0000) ==>
              ToDouble(x).frac == 0xf_ffff_ffff_ffff && ToDouble(x).neg == x.neg
  {
    assert x.fi % P62 == Frac(x) % P62;
  }

  /** Of a NaN, the sign and the class survive. */
  lemma NanRoundTrip(x: Double)
    requires IsNan64(x)
    ensures var r := ToDouble(FromDouble(x));
            && IsNan64(r) && r.neg == x.neg && ClassOf(r) == ClassOf(x)
            && (r.frac < 0x8_0000_0000_0000 <==> x.frac < 0x8_0000_0000_0000)
            && (x.neg ==> (r.frac == 0x8_0000_0000_0000 <==> x.frac == 0x8_0000_0000_0000))
  {
    var y := FromDouble(x);
    assert y.fi == P63 + x.frac * 2048 && Frac(y) == x.frac * 2048;
    assert P51 * 2048 == P62;
    if x.frac >= P51 {
      assert y.fi == P63 + P62 + (x.frac - P51) * 2048;
      assert y.fi % P62 == (x.frac - P51) * 2048;
    }
  }

  datatype Class = Zero | Subnormal | Normal | Infinite | Nan

  function Class64(x: Double): Class {
    if x.exp == EXP64_SPECIAL then (if x.frac == 0 then Infinite else Nan)
    else if x.exp != 0 then Normal
    else if x.frac == 0 then Zero
    else Subnormal
  }

  /** fp80_classify. */
  function Classify(x: Extended): Class {
    if Frac(x) != 0 && x.exp == 0 then Subnormal
    else if x.fi == 0 && x.exp == 0 then Zero
    else if IsInf(x) then Infinite
    else if IsSnan(x) || IsQnan(x) then Nan
    else Normal
  }

  /** Conversion up keeps the class, but the wider format has room to make subnormal
      numbers normal. */
  lemma FromDoubleClass(x: Double)
    ensures Classify(FromDouble(x)) == if Class64(x) == Subnormal then Normal else Class64(x)
  {
    if IsSubnormal64(x) {
      SubnormalShift(x.frac);
    } else if x.exp != 0 {
      assert Frac(FromDouble(x)) == x.frac * 2048;
    }
  }

  // ---------------------------------------------------------------------- the values

  /** The magnitude of a finite number, in units of 2^-16446. */
  function Value64(x: Double): nat {
    if x.exp == 0 then Shl(x.frac, REBASE + 12) else Shl(P52 + x.frac, x.exp + REBASE + 11)
  }

  function Value80(x: Extended): nat {
    Shl(x.fi, x.exp)
  }

  /** Converted up, a number keeps its value, except that subnormal numbers are halved:
      their exponent is one too low. */
  lemma FromDoubleValue(x: Double)
    requires x.exp != EXP64_SPECIAL
    ensures IsSubnormal64(x) ==> Value64(x) == 2 * Value80(FromDouble(x)) && Value80(FromDouble(x)) > 0
    ensures Value80(FromDouble(x)) == Value64(x) <==> !IsSubnormal64(x)
    ensures FromDouble(x).neg == x.neg
  {
    var y := FromDouble(x);
    if x.exp != 0 {
      ShlEleven(P52 + x.frac);
      ShlAdds(P52 + x.frac, 11, x.exp + REBASE);
    } else if x.frac == 0 {
      ShlOfZero(REBASE + 12);
    } else {
      SubnormalShift(x.frac);
      var n := Norm(x.frac * 2048);
      ShlEleven(x.frac);
      ShlAdds(x.frac * 2048, n, REBASE - n);
      ShlAdds(x.frac, 11, REBASE);
      ShlGrows(0, x.frac, REBASE + 11);
      ShlOfZero(REBASE + 11);
    }
  }

  lemma {:induction false} ShlOfZero(n: nat)
    ensures Shl(0, n) == 0
  {
    if n > 0 {
      ShlOfZero(n - 1);
    }
  }

  /** A number in normal form whose exponent is in the range of doubles. */
  predicate IsNormalRange(x: Extended) {
    x.fi >= P63 && 0 < x.exp - REBASE < EXP64_SPECIAL
  }

  /** The distance between doubles of the same exponent. */
  function Ulp(x: Extended): nat { Shl(2048, x.exp) }

  /** In that range, conversion down truncates: to the next double towards zero. */
  lemma ToDoubleTruncates(x: Extended)
    requires IsNormalRange(x)
    ensures var r := ToDouble(x);
            r.neg == x.neg && Value64(r) <= Value80(x) < Value64(r) + Ulp(x)
  {
    var q, d := x.fi / 2048, x.fi % 2048;
    assert q % P52 + P52 == q;
    ShlEleven(q);
    ShlAdds(q, 11, x.exp);
    ShlSum(q * 2048, d, x.exp);
    ShlGrows(d, 2048, x.exp);
  }

  function Signed64(x: Double): int {
    if x.neg then 0 - Value64(x) else Value64(x)
  }

  function Signed80(x: Extended): int {
    if x.neg then 0 - Value80(x) else Value80(x)
  }

  /** It does not change the order of numbers. */
  lemma ToDoubleMonotone(a: Extended, b: Extended)
    requires IsNormalRange(a) && IsNormalRange(b) && Signed80(a) <= Signed80(b)
    ensures Signed64(ToDouble(a)) <= Signed64(ToDouble(b))
  {
    ToDoubleTruncates(a);
    ToDoubleTruncates(b);
    if !a.neg && !b.neg {
      MagnitudesMonotone(a, b);
    } else if a.neg && b.neg {
      MagnitudesMonotone(b, a);
    } else if b.neg {
      ShlGrows(0, b.fi, b.exp);
      ShlOfZero(b.exp);
    }
  }

  lemma MagnitudesMonotone(a: Extended, b: Extended)
    requires IsNormalRange(a) && IsNormalRange(b) && Value80(a) <= Value80(b)
    ensures Value64(ToDouble(a)) <= Value64(ToDouble(b))
  {
    if a.exp == b.exp {
      if b.fi < a.fi {
        ShlGrows(b.fi, a.fi, a.exp);
      }
      SameExponent(a, b);
    } else if a.exp < b.exp {
      ToDoubleTruncates(a);
      OtherBinade(a, b);
    } else {
      OtherBinade(b, a);
      ToDoubleTruncates(a);
    }
  }

  lemma SameExponent(a: Extended, b: Extended)
    requires IsNormalRange(a) && IsNormalRange(b) && a.exp == b.exp && a.fi <= b.fi
    ensures Value64(ToDouble(a)) <= Value64(ToDouble(b))
  {
    var p, q := a.fi / 2048, b.fi / 2048;
    assert p <= q && p % P52 + P52 == p && q % P52 + P52 == q;
    ShlGrowsOrEq(p, q, a.exp + 11);
  }

  /** A larger exponent is a larger number, before and after truncation. */
  lemma OtherBinade(a: Extended, b: Extended)
    requires IsNormalRange(a) && IsNormalRange(b) && a.exp < b.exp
    ensures Value80(a) < Value64(ToDouble(b)) <= Value80(b)
  {
    ToDoubleTruncates(b);
    var r := ToDouble(b);
    ShlGrowsOrEq(P52, P52 + r.frac, b.exp + 11);
    ShlEleven(P52);
    assert Shl(P52, 12) == P64;
    ShlAdds(P52, 12, b.exp - 1);
    ShlGrows(a.fi, P64, a.exp);
    ShlUp(P64, a.exp, b.exp - 1);
  }

  lemma {:induction false} ShlUp(x: nat, m: nat, n: nat)
    requires m <= n
    ensures Shl(x, m) <= Shl(x, n)
  {
    if m < n {
      ShlUp(x, m, n - 1);
    }
  }

  /** A normalised number is at least a power of two exactly if its exponent says so. */
  lemma AtLeastPower(x: Extended, n: nat)
    requires P63 <= x.fi
    ensures Shl(1, 63 + n) <= Value80(x) <==> n <= x.exp
  {
    PowerIs63();
    ShlAdds(1, 63, n);
    if n <= x.exp {
      ShlAdds(P63, n, x.exp - n);
      ShlAtLeast(Shl(P63, n), x.exp - n);
      ShlGrowsOrEq(P63, x.fi, x.exp);
    } else {
      ShlAdds(P63, 1 + x.exp, n - (1 + x.exp));
      ShlAtLeast(Shl(P63, 1 + x.exp), n - (1 + x.exp));
      ShlAdds(P63, 1, x.exp);
      ShlGrows(x.fi, 2 * P63, x.exp);
    }
  }

  lemma PowerIs63()
    ensures Shl(1, 63) == P63
  {
    ShlEleven(1);
    Shl52(2048);
    ShlAdds(1, 11, 52);
  }

  lemma {:induction false} ShlAtLeast(x: nat, n: nat)
    ensures x <= Shl(x, n)
  {
    if n > 0 {
      ShlAtLeast(x, n - 1);
    }
  }

  /** Conversion down gives an infinity exactly for numbers of 2^1024 and more, and its
      sign is that of the number.  For numbers that are not normalised the exponent
      alone decides. */
  lemma ToDoubleSaturates(x: Extended, n: nat)
    requires !IsSpecial(x) && n == 1024 + UNIT
    ensures ToDouble(x).exp == EXP64_SPECIAL <==> x.exp - REBASE >= EXP64_SPECIAL
    ensures ToDouble(x).exp == EXP64_SPECIAL ==> ToDouble(x) == Double(x.neg, EXP64_SPECIAL, 0)
    ensures P63 <= x.fi ==> (ToDouble(x).exp == EXP64_SPECIAL <==> Shl(1, n) <= Value80(x))
  {
    if P63 <= x.fi {
      AtLeastPower(x, REBASE + EXP64_SPECIAL);
    }
  }

  // ------------------------------------------------------------- below the range

  /** The fraction of the subnormal double next to `x` towards zero. */
  function SubnormalFrac(x: Extended): nat
    requires x.exp <= REBASE
  {
    Shr(x.fi, 12 + (REBASE - x.exp))
  }

  /** Below the range of normal doubles, conversion down shifts by one place too few.  It
      truncates correctly exactly for numbers too small to leave anything, and for those
      just below the smallest normal double. */
  lemma ToSubnormalCorrect(x: Extended)
    requires x.fi >= P63 && x.exp <= REBASE
    ensures ToDouble(x).frac == SubnormalFrac(x) <==>
              REBASE - x.exp >= 53 || (x.exp == REBASE && x.fi / 2048 == 2 * P52 - 1)
  {
    var n := REBASE - x.exp;
    var q := x.fi / 2048;
    ShrEleven(x.fi, n);
    if n > 0 {
      ShrHalves(q, n);
      ShrZero(q, n);
      PowerCompare(q, n);
    }
  }

  lemma {:induction false} ShrAdds(x: nat, m: nat, n: nat)
    ensures Shr(Shr(x, m), n) == Shr(x, m + n)
  {
    if n > 0 {
      ShrAdds(x, m, n - 1);
    }
  }

  lemma Shr4(x: nat)
    ensures Shr(x, 4) == x / 16
  {
    assert Shr(x, 1) == x / 2;
    assert Shr(x, 2) == x / 4;
    assert Shr(x, 3) == x / 8;
  }

  lemma ShrEleven(x: nat, n: nat)
    ensures Shr(x, 11 + n) == Shr(x / 2048, n)
    ensures Shr(x, 12 + n) == Shr(x / 2048, n) / 2
  {
    Shr4(x);
    Shr4(x / 16);
    ShrAdds(x, 4, 4);
    assert Shr(x, 9) == x / 512;
    assert Shr(x, 10) == x / 1024;
    assert Shr(x, 11) == x / 2048;
    ShrAdds(x, 11, n);
  }

  lemma ShrHalves(x: nat, n: nat)
    requires n > 0
    ensures Shr(x, n) <= x / 2
  {
    ShrHalf(x, n - 1);
    ShrZero(x / 2, n - 1);
  }

  lemma PowerCompare(q: nat, n: nat)
    requires P52 <= q < 2 * P52
    ensures q < Shl(1, n) <==> n >= 53
  {
    Shl52(1);
    if n >= 53 {
      ShlUp(1, 53, n);
    } else {
      ShlUp(1, n, 52);
    }
  }
}
