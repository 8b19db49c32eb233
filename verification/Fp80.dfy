/**
  Conversion between binary64 and the x87 80-bit format, on bit patterns.  A mask of contiguous
  bits is written as a quotient and a remainder by powers of two.
 */
module Fp80 {
  import opened Bits

  const P11: nat := 0x800
  const P15: nat := 0x8000
  const P16: nat := 0x1_0000
  const P51: nat := 0x8_0000_0000_0000
  const P52: nat := 0x10_0000_0000_0000
  const P62: nat := 0x4000_0000_0000_0000
  const P63: nat := 0x8000_0000_0000_0000
  const P64: nat := 0x1_0000_0000_0000_0000

  const FP80_EXP_BIAS: nat := 0x3fff
  const FP64_EXP_BIAS: nat := 0x3ff
  const FP80_EXP_SPECIAL: nat := 0x7fff
  const FP64_EXP_SPECIAL: nat := 0x7ff
  const FP64_FRAC_SNAN: nat := 0x7_ffff_ffff_ffff
  const FP64_FRAC_QNAN: nat := 0xf_ffff_ffff_ffff

  /** A binary64 bit pattern. */
  type Fp64 = b: nat | b < P64

  /** Sign and exponent in se, integer bit and fraction in fi. */
  datatype Fp80Raw = Fp80(se: nat, fi: nat)
  type Fp80 = x: Fp80Raw | x.se < P16 && x.fi < P64 witness Fp80(0, 0)

  // ----- Fields

  function Sign64(b: Fp64): bool { b / P63 == 1 }
  function Exp64(b: Fp64): nat { b / P52 % P11 }
  function Frac64(b: Fp64): nat { b % P52 }

  function Build64(sign: bool, frac: nat, exp: nat): Fp64 {
    (if sign then P63 else 0) + exp % P11 * P52 + frac % P52
  }

  function Sign80(x: Fp80): bool { x.se / P15 == 1 }
  function Exp80(x: Fp80): nat { x.se % P15 }
  function Frac80(x: Fp80): nat { x.fi % P63 }

  function Build80(sign: bool, frac: nat, exp: nat): Fp80 {
    Fp80((if sign then P15 else 0) + exp % P15, (if exp != 0 then P63 else 0) + frac % P63)
  }

  lemma Fields64(b: Fp64)
    ensures Exp64(b) < P11 && Frac64(b) < P52
    ensures Build64(Sign64(b), Frac64(b), Exp64(b)) == b
  {
  }

  lemma FieldsOf80(sign: bool, frac: nat, exp: nat)
    requires exp < P15
    ensures var x := Build80(sign, frac, exp);
            Sign80(x) == sign && Exp80(x) == exp && Frac80(x) == frac % P63
  {
  }

  // ----- Classes

  predicate IsSpecial(x: Fp80) { Exp80(x) == FP80_EXP_SPECIAL }
  predicate IsInf(x: Fp80) { IsSpecial(x) && Frac80(x) == 0 }
  /** The quiet bit is the top bit of the fraction. */
  predicate QuietBit(x: Fp80) { Frac80(x) / P62 == 1 }
  predicate IsQNan(x: Fp80) { IsSpecial(x) && QuietBit(x) }
  predicate IsQNanI(x: Fp80) { IsQNan(x) && Sign80(x) && x.fi % P62 == 0 }
  predicate IsSNan(x: Fp80) { IsSpecial(x) && !QuietBit(x) && Frac80(x) != 0 }
  predicate IsNan(x: Fp80) { IsSNan(x) || IsQNan(x) }
  predicate IsFinite(x: Fp80) { !IsNan(x) && !IsInf(x) }
  predicate IsZero(x: Fp80) { x.fi == 0 && Exp80(x) == 0 }
  predicate IsSubnormal(x: Fp80) { Frac80(x) != 0 && Exp80(x) == 0 }

  datatype Class = Subnormal | Zeroes | Infinite | NotANumber | Normal

  /** fp80_classify; the last branch asserts that the value is finite. */
  function Classify(x: Fp80): (c: Class)
    ensures c == Normal ==> IsFinite(x)
  {
    if IsSubnormal(x) then Subnormal
    else if IsZero(x) then Zeroes
    else if IsInf(x) then Infinite
    else if IsNan(x) then NotANumber
    else Normal
  }

  /**
    Every class on the raw pattern.  With exponent zero and fraction zero, a lone integer bit makes
    the pattern normal.
   */
  lemma ClassExactly(x: Fp80)
    ensures var exp, frac := x.se % 0x8000, x.fi % 0x8000_0000_0000_0000;
            && (Classify(x) == Subnormal <==> exp == 0 && frac != 0)
            && (Classify(x) == Zeroes <==> exp == 0 && x.fi == 0)
            && (Classify(x) == Infinite <==> exp == 0x7fff && frac == 0)
            && (Classify(x) == NotANumber <==> exp == 0x7fff && frac != 0)
            && (Classify(x) == Normal <==> 0 < exp < 0x7fff || (exp == 0 && x.fi == 0x8000_0000_0000_0000))
  {
  }

  predicate IsNan64(b: Fp64) { Exp64(b) == FP64_EXP_SPECIAL && Frac64(b) != 0 }
  predicate IsQuiet64(b: Fp64) { IsNan64(b) && Frac64(b) >= P51 }
  predicate IsDenormal64(b: Fp64) { Exp64(b) == 0 && Frac64(b) != 0 }

  // ----- binary64 to extended

  /** How often a fraction must be doubled before its integer bit is set. */
  function Doublings(fi: nat): nat
    requires 0 < fi < P64
    decreases P64 - fi
  {
    if fi >= P63 then 0 else 1 + Doublings(2 * fi)
  }

  lemma {:induction false} DoublingsNormalise(fi: nat)
    requires 0 < fi < P64
    ensures P63 <= fi * Pow2(Doublings(fi)) < P64
    decreases P64 - fi
  {
    if fi < P63 {
      DoublingsNormalise(2 * fi);
      DoubleTwice(fi, Pow2(Doublings(2 * fi)));
    }
  }

  lemma DoubleTwice(x: nat, p: nat)
    ensures (2 * x) * p == x * (2 * p) == 2 * (x * p)
  {
  }

  lemma Reorder(a: nat, b: nat, c: nat)
    ensures a * b * c == (a * c) * b
  {
  }

  lemma {:induction false} DoublingsBound(fi: nat, k: nat)
    requires 0 < fi < P64 && k <= 63 && fi * Pow2(k) >= P63
    ensures Doublings(fi) <= k
    decreases k
  {
    if fi < P63 {
      assert k > 0;
      DoubleTwice(fi, Pow2(k - 1));
      DoublingsBound(2 * fi, k - 1);
    }
  }

  /** fp80_cvffp64 */
  function Widen(b: Fp64): Fp80 {
    var frac, exp := Frac64(b), Exp64(b);
    var frac80 := frac * P11;
    if exp != 0 then
      Build80(Sign64(b), frac80,
              if exp == FP64_EXP_SPECIAL then FP80_EXP_SPECIAL else exp - FP64_EXP_BIAS + FP80_EXP_BIAS)
    else if frac == 0 then
      Build80(Sign64(b), 0, 0)
    else
      var shift := Doublings(frac80);
      DenormalShift(frac);
      Build80(Sign64(b), frac80 * Pow2(shift), FP80_EXP_BIAS - FP64_EXP_BIAS - shift)
  }

  /** A denormal is shifted at least once and at most 52 times. */
  lemma DenormalShift(frac: nat)
    requires 0 < frac < P52
    ensures 1 <= Doublings(frac * P11) <= 52
    ensures P63 <= frac * P11 * Pow2(Doublings(frac * P11)) < P64
  {
    Pow2Is52();
    DoublingsBound(frac * P11, 52);
    DoublingsNormalise(frac * P11);
  }

  lemma Pow2Is52()
    ensures Pow2(52) == P52
  {
    assert Pow2(13) == 0x2000;
    Pow2Add(13, 13);
    Pow2Add(26, 26);
  }

  /** The normalisation loop of a denormal. */
  method ShiftUp(start: nat) returns (fi: nat, shift: nat)
    requires 0 < start < P64
    ensures shift == Doublings(start) && fi == start * Pow2(shift)
  {
    fi, shift := start, 0;
    while fi / P63 == 0
      invariant 0 < fi < P64 && fi == start * Pow2(shift)
      invariant Doublings(start) == shift + Doublings(fi)
      decreases P64 - fi
    {
      DoubleTwice(start, Pow2(shift));
      assert fi * 2 % P64 == 2 * fi by { NoWrap(fi); }
      fi := fi * 2 % P64;
      shift := shift + 1;
    }
  }

  lemma NoWrap(fi: nat)
    requires fi / P63 == 0
    ensures fi < P63 && fi * 2 % P64 == 2 * fi
  {
  }

  /** The conversion as the source runs it. */
  method WidenByShifting(b: Fp64) returns (x: Fp80)
    ensures x == Widen(b)
  {
    var frac, exp := Frac64(b), Exp64(b);
    var frac80 := frac * P11 % P64;
    if exp != 0 {
      var exp80 := if exp == FP64_EXP_SPECIAL then FP80_EXP_SPECIAL else exp - FP64_EXP_BIAS + FP80_EXP_BIAS;
      x := Build80(Sign64(b), frac80, exp80);
    } else if frac == 0 {
      x := Build80(Sign64(b), 0, 0);
    } else {
      DenormalShift(frac);
      var fi, shift := ShiftUp(frac80);
      x := Build80(Sign64(b), fi, FP80_EXP_BIAS - FP64_EXP_BIAS - shift);
    }
  }

  /**
    What every pattern widens to, field by field: the sign, the exponent moved by 16383 - 1023, the
    fraction moved up by 11 places below a set integer bit, and denormals normalised.
   */
  lemma WidenedFields(b: Fp64)
    ensures var x, exp, frac := Widen(b), b / 0x10_0000_0000_0000 % 0x800, b % 0x10_0000_0000_0000;
            && x.se / 0x8000 == b / 0x8000_0000_0000_0000
            && (exp != 0 ==> x.fi == 0x8000_0000_0000_0000 + frac * 0x800
                             && x.se % 0x8000 == if exp == 0x7ff then 0x7fff else exp + 15360)
            && (exp == 0 && frac == 0 ==> x.fi == 0 && x.se % 0x8000 == 0)
            && (exp == 0 && frac != 0 ==>
                  var s := 15360 - x.se % 0x8000;
                  1 <= s <= 52 && x.fi == frac * 0x800 * Pow2(s) >= 0x8000_0000_0000_0000)
  {
    Fields64(b);
    var frac, exp, sign := Frac64(b), Exp64(b), Sign64(b);
    if exp == 0 && frac != 0 {
      DenormalShift(frac);
      var shift := Doublings(frac * P11);
      FieldsOf80(sign, frac * P11 * Pow2(shift), FP80_EXP_BIAS - FP64_EXP_BIAS - shift);
      TopBit(frac * P11 * Pow2(shift));
      hide Doublings, Pow2;
    }
  }

  /** The class of a widened pattern is its own class, except that denormals become normal. */
  lemma WidenedClass(b: Fp64)
    ensures var exp, frac := b / 0x10_0000_0000_0000 % 0x800, b % 0x10_0000_0000_0000;
            Classify(Widen(b)) == if exp == 0x7ff then (if frac != 0 then NotANumber else Infinite)
                                  else if exp == 0 && frac == 0 then Zeroes
                                  else Normal
  {
    WidenedFields(b);
    ClassExactly(Widen(b));
    hide Widen, Classify, Pow2;
  }

  // ----- Extended to binary64

  /** A 64-bit right shift whose count is taken modulo 64, as x86 does; C leaves counts of 64 and more undefined. */
  function Shr64(x: nat, count: nat): nat {
    Shr(x, count % 64)
  }

  /** fp80_cvtfp64 */
  function Narrow(x: Fp80): Fp64 {
    var exp := Exp80(x) - FP80_EXP_BIAS + FP64_EXP_BIAS;
    if !IsSpecial(x) then
      if 0 < exp < FP64_EXP_SPECIAL then Build64(Sign80(x), x.fi / P11, exp)
      else if exp <= 0 then Build64(Sign80(x), Shr64(x.fi / P11, -exp), 0)
      else Build64(Sign80(x), 0, FP64_EXP_SPECIAL)
    else if IsInf(x) then Build64(Sign80(x), 0, FP64_EXP_SPECIAL)
    else if IsSNan(x) then Build64(Sign80(x), FP64_FRAC_SNAN, FP64_EXP_SPECIAL)
    else if IsQNanI(x) then Build64(true, P51, FP64_EXP_SPECIAL)
    else
      assert IsQNan(x);
      Build64(Sign80(x), FP64_FRAC_QNAN, FP64_EXP_SPECIAL)
  }

  /**
    What every finite pattern narrows to, for the exponent moved by 1023 - 16383.  Within range the
    fraction loses its low 11 places; above it the result is an infinity; at or below zero the
    significand is shifted down by the missing exponent, and its lowest 52 places are kept.
   */
  lemma NarrowedFields(x: Fp80)
    requires x.se % 0x8000 != 0x7fff
    ensures var b, e := Narrow(x), x.se % 0x8000 - 15360;
            var exp, frac := b / 0x10_0000_0000_0000 % 0x800, b % 0x10_0000_0000_0000;
            && b / 0x8000_0000_0000_0000 == x.se / 0x8000
            && (0 < e < 0x7ff ==> exp == e && frac == x.fi / 0x800 % 0x10_0000_0000_0000)
            && (e >= 0x7ff ==> exp == 0x7ff && frac == 0)
            && (e <= 0 ==> exp == 0)
            && (-64 < e <= 0 ==> frac == Shr(x.fi / 0x800, -e) % 0x10_0000_0000_0000)
  {
    var e := Exp80(x) - FP80_EXP_BIAS + FP64_EXP_BIAS;
    if 0 < e < FP64_EXP_SPECIAL {
      FieldsKept(Sign80(x), x.fi / P11, e);
    } else if e <= 0 {
      FieldsKept(Sign80(x), Shr64(x.fi / P11, -e), 0);
      hide Shr;
    } else {
      FieldsKept(Sign80(x), 0, FP64_EXP_SPECIAL);
    }
  }

  lemma FieldsKept(sign: bool, frac: nat, exp: nat)
    requires exp < P11
    ensures var b := Build64(sign, frac, exp);
            b / P63 == (if sign then 1 else 0) && b / P52 % P11 == exp && b % P52 == frac % P52
  {
    BuiltFields(sign, frac % P52, exp);
  }

  /** In range, a significand with its integer bit set is rounded towards zero. */
  lemma NarrowedTruncates(x: Fp80)
    requires 15360 < x.se % 0x8000 < 15360 + 0x7ff && x.fi >= 0x8000_0000_0000_0000
    ensures var s := 0x10_0000_0000_0000 + Narrow(x) % 0x10_0000_0000_0000;
            s * 0x800 <= x.fi < (s + 1) * 0x800
  {
    NarrowedFields(x);
    hide Narrow;
  }

  /**
    Below the range the fraction is the significand shifted down by 11 places and the missing
    exponent, which is one place less than the exponent of a denormal asks for.  With no exponent
    missing nothing is left to shift, and the integer bit is lost.
   */
  lemma NarrowedBelow(x: Fp80)
    requires 15360 - 64 < x.se % 0x8000 <= 15360 && x.fi >= 0x8000_0000_0000_0000
    ensures var d, frac := 15360 - x.se % 0x8000, Narrow(x) % 0x10_0000_0000_0000;
            if d == 0 then frac == x.fi / 0x800 - 0x10_0000_0000_0000
            else frac * Pow2(d) <= x.fi / 0x800 < (frac + 1) * Pow2(d)
  {
    hide Narrow, Pow2, Shr;
    NarrowedFields(x);
    var d, y := 15360 - x.se % 0x8000, x.fi / 0x800;
    assert P52 <= y < 2 * P52;
    ShrBounds(y, d);
    if d > 0 {
      ShrSmall(y, Shr(y, d), Pow2(d));
    }
  }

  lemma ShrBounds(y: nat, d: nat)
    ensures Shr(y, d) * Pow2(d) <= y < (Shr(y, d) + 1) * Pow2(d)
    ensures if d == 0 then Shr(y, d) == y else Pow2(d) >= 2
  {
    assert if d == 0 then Pow2(d) == 1 else Pow2(d) >= 2;
    hide Pow2;
    assert y == y / Pow2(d) * Pow2(d) + y % Pow2(d);
  }

  lemma ShrSmall(y: nat, q: nat, p: nat)
    requires q * p <= y < 2 * P52 && p >= 2
    ensures q < P52
  {
    if q >= P52 {
      MulMonotone(2, p, q);
    }
  }

  /** Every extended infinity and NaN keeps its sign and its kind, and NaNs become canonical. */
  lemma NarrowedSpecial(x: Fp80)
    requires x.se % 0x8000 == 0x7fff
    ensures var b, frac80 := Narrow(x), x.fi % 0x8000_0000_0000_0000;
            var exp, frac := b / 0x10_0000_0000_0000 % 0x800, b % 0x10_0000_0000_0000;
            && b / 0x8000_0000_0000_0000 == x.se / 0x8000 && exp == 0x7ff
            && frac == if frac80 == 0 then 0
                       else if frac80 < 0x4000_0000_0000_0000 then 0x7_ffff_ffff_ffff
                       else if frac80 == 0x4000_0000_0000_0000 && x.se >= 0x8000 then 0x8_0000_0000_0000
                       else 0xf_ffff_ffff_ffff
  {
    FieldsKept(Sign80(x), 0, FP64_EXP_SPECIAL);
    FieldsKept(Sign80(x), FP64_FRAC_SNAN, FP64_EXP_SPECIAL);
    FieldsKept(Sign80(x), FP64_FRAC_QNAN, FP64_EXP_SPECIAL);
    FieldsKept(true, P51, FP64_EXP_SPECIAL);
    hide Build64;
  }

  // ----- There and back

  lemma NormalReturns(b: Fp64)
    requires 0 < Exp64(b) < FP64_EXP_SPECIAL
    ensures Narrow(Widen(b)) == b
  {
    Fields64(b);
    var frac, exp, sign := Frac64(b), Exp64(b), Sign64(b);
    FieldsOf80(sign, frac * P11, exp - FP64_EXP_BIAS + FP80_EXP_BIAS);
    var x := Widen(b);
    assert x.fi == P63 + frac * P11;
    assert x.fi / P11 == P52 + frac;
  }

  lemma ZeroReturns(b: Fp64)
    requires Exp64(b) == 0 && Frac64(b) == 0
    ensures Narrow(Widen(b)) == b
  {
    Fields64(b);
    FieldsOf80(Sign64(b), 0, 0);
    assert Shr64(0, FP80_EXP_BIAS - FP64_EXP_BIAS) == 0;
  }

  lemma InfinityReturns(b: Fp64)
    requires Exp64(b) == FP64_EXP_SPECIAL && Frac64(b) == 0
    ensures Narrow(Widen(b)) == b
  {
    Fields64(b);
    FieldsOf80(Sign64(b), 0, FP80_EXP_SPECIAL);
  }

  lemma Unscale(y: nat)
    ensures y * P11 / P11 == y
  {
  }

  /** Undoing the doublings of a denormal. */
  lemma ShiftBack(frac: nat, shift: nat)
    requires shift < 64
    ensures Shr64(frac * P11 * Pow2(shift) / P11, shift) == frac
  {
    hide Pow2;
    var y := frac * Pow2(shift);
    Reorder(frac, P11, Pow2(shift));
    Unscale(y);
    DivModUnique(y, Pow2(shift), frac, 0);
  }

  lemma DenormalReturns(b: Fp64)
    requires IsDenormal64(b)
    ensures Narrow(Widen(b)) == b
  {
    Fields64(b);
    var frac, sign := Frac64(b), Sign64(b);
    var frac80 := frac * P11;
    var shift := Doublings(frac80);
    DenormalShift(frac);
    ShiftBack(frac, shift);
    hide Doublings, Shr64, Pow2;
    var fi := frac80 * Pow2(shift);
    var exp := FP80_EXP_BIAS - FP64_EXP_BIAS - shift;
    FieldsOf80(sign, fi, exp);
    var x := Widen(b);
    assert x == Build80(sign, fi, exp);
    assert x.fi == fi by { TopBit(fi); }
  }

  lemma TopBit(fi: nat)
    requires P63 <= fi < P64
    ensures P63 + fi % P63 == fi
  {
  }

  /** Every binary64 pattern that is not a NaN survives the round trip bit for bit. */
  lemma RoundTrip(b: Fp64)
    requires !IsNan64(b)
    ensures Narrow(Widen(b)) == b
  {
    hide Narrow, Widen;
    Fields64(b);
    if Exp64(b) == FP64_EXP_SPECIAL {
      InfinityReturns(b);
    } else if Exp64(b) != 0 {
      NormalReturns(b);
    } else if Frac64(b) == 0 {
      ZeroReturns(b);
    } else {
      DenormalReturns(b);
    }
  }

  lemma NanWidened(b: Fp64)
    requires IsNan64(b)
    ensures var x := Widen(b);
            && IsSpecial(x) && Frac80(x) == Frac64(b) * P11 != 0 && Sign80(x) == Sign64(b)
            && (QuietBit(x) <==> Frac64(b) >= P51)
            && (x.fi % P62 == 0 <==> Frac64(b) % P51 == 0)
  {
    Fields64(b);
    FieldsOf80(Sign64(b), Frac64(b) * P11, FP80_EXP_SPECIAL);
  }

  lemma BuiltFields(sign: bool, frac: nat, exp: nat)
    requires frac < P52 && exp < P11
    ensures var b := Build64(sign, frac, exp);
            Sign64(b) == sign && Frac64(b) == frac && Exp64(b) == exp
  {
  }

  /** A NaN comes back as a NaN of the same sign and the same quiet or signalling kind. */
  lemma NanKindSurvives(b: Fp64)
    requires IsNan64(b)
    ensures var b' := Narrow(Widen(b));
            && IsNan64(b') && Sign64(b') == Sign64(b) && (IsQuiet64(b') <==> IsQuiet64(b))
            && Frac64(b') == (if Frac64(b) < P51 then FP64_FRAC_SNAN
                              else if Sign64(b) && Frac64(b) == P51 then P51 else FP64_FRAC_QNAN)
  {
    NanWidened(b);
    Fields64(b);
    BuiltFields(Sign64(b), FP64_FRAC_SNAN, FP64_EXP_SPECIAL);
    BuiltFields(Sign64(b), FP64_FRAC_QNAN, FP64_EXP_SPECIAL);
    BuiltFields(true, P51, FP64_EXP_SPECIAL);
    hide Widen, Build64, Sign64, Frac64, Exp64, Frac80, Sign80;
  }

  /** The round trip is exact for a pattern exactly when it is not a NaN or is one of the five canonical NaNs. */
  lemma RoundTripExactly(b: Fp64)
    ensures Narrow(Widen(b)) == b
            <==> || !IsNan64(b)
                 || Frac64(b) in {FP64_FRAC_SNAN, FP64_FRAC_QNAN}
                 || (Sign64(b) && Frac64(b) == P51)
  {
    if IsNan64(b) {
      NanKindSurvives(b);
      Fields64(b);
      Fields64(Narrow(Widen(b)));
      hide Narrow, Widen, Build64, Sign64, Frac64, Exp64;
    } else {
      RoundTrip(b);
    }
  }

  /** Among the patterns that widening produces, only the zeros make narrowing shift by 64 or more. */
  lemma ShiftCountInRange(b: Fp64)
    ensures var exp := Exp80(Widen(b)) - FP80_EXP_BIAS + FP64_EXP_BIAS;
            exp <= -64 <==> Exp64(b) == 0 && Frac64(b) == 0
  {
    Fields64(b);
    var frac, exp, sign := Frac64(b), Exp64(b), Sign64(b);
    if exp == FP64_EXP_SPECIAL {
      FieldsOf80(sign, frac * P11, FP80_EXP_SPECIAL);
    } else if exp != 0 {
      FieldsOf80(sign, frac * P11, exp - FP64_EXP_BIAS + FP80_EXP_BIAS);
    } else if frac == 0 {
      FieldsOf80(sign, 0, 0);
    } else {
      DenormalShift(frac);
      var shift := Doublings(frac * P11);
      FieldsOf80(sign, frac * P11 * Pow2(shift), FP80_EXP_BIAS - FP64_EXP_BIAS - shift);
      hide Doublings, Pow2;
    }
  }

  // ----- The number a pattern stands for

  /** m1 * 2^e1 and m2 * 2^e2 are the same number. */
  predicate SameNumber(m1: nat, e1: int, m2: nat, e2: int) {
    if e1 >= e2 then m1 * Pow2(e1 - e2) == m2 else m1 == m2 * Pow2(e2 - e1)
  }

  /** Significand and exponent of a finite binary64 pattern (section 3.4 of IEEE 754-2008). */
  function Significand64(b: Fp64): nat {
    if Exp64(b) == 0 then Frac64(b) else P52 + Frac64(b)
  }

  function Scale64(b: Fp64): int {
    (if Exp64(b) == 0 then 1 else Exp64(b)) - 1023 - 52
  }

  /** The scale of an extended pattern, whose significand is fi. */
  function Scale80(x: Fp80): int {
    Exp80(x) - 16383 - 63
  }

  /** Widening keeps the number of every finite pattern except the denormals, which it halves. */
  lemma NumberKeptExactly(b: Fp64)
    requires Exp64(b) != FP64_EXP_SPECIAL
    ensures SameNumber(Widen(b).fi, Scale80(Widen(b)), Significand64(b), Scale64(b)) <==> !IsDenormal64(b)
    ensures IsDenormal64(b) ==> SameNumber(2 * Widen(b).fi, Scale80(Widen(b)), Significand64(b), Scale64(b))
  {
    Fields64(b);
    var frac, exp, sign := Frac64(b), Exp64(b), Sign64(b);
    if exp != 0 {
      NormalNumber(b);
    } else if frac == 0 {
      FieldsOf80(sign, 0, 0);
    } else {
      DenormalNumber(b);
    }
  }

  lemma Pow2Eleven()
    ensures Pow2(11) == P11
  {
  }

  lemma NormalNumber(b: Fp64)
    requires 0 < Exp64(b) < FP64_EXP_SPECIAL
    ensures SameNumber(Widen(b).fi, Scale80(Widen(b)), Significand64(b), Scale64(b))
  {
    Fields64(b);
    var frac, exp, sign := Frac64(b), Exp64(b), Sign64(b);
    FieldsOf80(sign, frac * P11, exp - FP64_EXP_BIAS + FP80_EXP_BIAS);
    assert Widen(b).fi == P63 + frac * P11;
    Pow2Eleven();
    hide Pow2;
  }

  lemma DenormalNumber(b: Fp64)
    requires IsDenormal64(b)
    ensures !SameNumber(Widen(b).fi, Scale80(Widen(b)), Significand64(b), Scale64(b))
    ensures SameNumber(2 * Widen(b).fi, Scale80(Widen(b)), Significand64(b), Scale64(b))
  {
    Fields64(b);
    var frac, sign := Frac64(b), Sign64(b);
    var frac80 := frac * P11;
    var shift := Doublings(frac80);
    DenormalShift(frac);
    var fi := frac80 * Pow2(shift);
    FieldsOf80(sign, fi, FP80_EXP_BIAS - FP64_EXP_BIAS - shift);
    TopBit(fi);
    assert Widen(b).fi == fi && Scale64(b) - Scale80(Widen(b)) == shift + 12;
    Pow2Eleven();
    Pow2Add(12, shift);
    assert Pow2(12) == 2 * Pow2(11);
    hide Doublings, Pow2, Widen;
    DenormalScale(frac, Pow2(shift));
  }

  lemma DenormalScale(frac: nat, p: nat)
    requires frac > 0 && p > 0
    ensures 2 * (frac * P11 * p) == frac * (2 * P11 * p) && frac * P11 * p != frac * (2 * P11 * p)
  {
    assert frac * P11 * p == P11 * (frac * p);
    assert frac * (2 * P11 * p) == 2 * P11 * (frac * p);
    MulAtLeast(frac, p);
  }
}
