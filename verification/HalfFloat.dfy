/** cl_half_from_float and cl_half_to_float, and how the three conversions fit together. */
module HalfFloat {
  import opened Common
  import opened HalfFormat
  import opened HalfRounding
  import opened HalfConvert

  // ----- cl_half_from_float -----

  lemma FloatOverflows(fExp: nat, fMant: nat)
    requires fExp >= 143 && fMant < F23
    ensures FMag(fExp * F23 + fMant) >= Pow2(1090)
  {
    FMagNormal(fExp, fMant);
    assert Pow2(23) == F23 by { Pow2Constants(); }
    BinadeBounds(F23, 23, fMant, fExp + 924);
    Pow2Mono(1090, 23 + (fExp + 924));
  }

  lemma FloatUnderflows(fExp: nat, fMant: nat)
    requires fExp < 102 && fMant < F23 && (fExp > 0 || fMant > 0)
    ensures 0 < FMag(fExp * F23 + fMant) < Pow2(1049)
  {
    if fExp == 0 {
      SubnormalFloat(fMant);
    } else {
      SmallFloat(fExp, fMant);
    }
  }

  lemma SmallFloat(fExp: nat, fMant: nat)
    requires 0 < fExp < 102 && fMant < F23
    ensures 0 < FMag(fExp * F23 + fMant) < Pow2(1049)
  {
    assert Pow2(23) == F23 by { Pow2Constants(); }
    FMagNormal(fExp, fMant);
    BinadeBounds(F23, 23, fMant, fExp + 924);
    Pow2Mono(24 + (fExp + 924), 1049);
  }

  lemma SubnormalFloat(m: nat)
    requires 0 < m < F23
    ensures 0 < FMag(m) < Pow2(1049)
  {
    FMagSubnormal(m);
    assert Pow2(23) == F23 by { Pow2Constants(); }
    SmallProduct(m, F23, 23, 925, 1049);
  }

  lemma FMagSubnormal(m: nat)
    requires m < F23
    ensures FMag(m) == m * Pow2(925)
  {
    Quotient(m, F23, 0, m);
  }

  lemma SmallProduct(m: nat, frac: nat, w: nat, s: nat, top: nat)
    requires 0 < m < frac == Pow2(w) && w + s <= top
    ensures 0 < m * Pow2(s) < Pow2(top)
  {
    StrictlyScaled(0, m, Pow2(s));
    StrictlyScaled(m, frac, Pow2(s));
    Pow2Add(w, s);
    Pow2Mono(w + s, top);
  }

  lemma FloatNormal(fExp: nat, fMant: nat, lsb: nat)
    requires 113 <= fExp <= 142 && fMant < F23 && lsb == 13
    ensures ShiftRight(fMant, lsb) < F10
    ensures Located(FMag(fExp * F23 + fMant), (fExp - 112) * F10 + ShiftRight(fMant, lsb), LowBits(fMant, lsb),
      Pow2(lsb), Pow2(fExp + 924))
  {
    assert F23 == F10 * Pow2(lsb) by { Pow2Constants(); }
    WithImplicitOne(fMant, F23, lsb);
    FMagNormal(fExp, fMant);
    LocateNormal(FMag(fExp * F23 + fMant), fExp - 112, ShiftRight(fMant, lsb), LowBits(fMant, lsb), lsb, fExp + 924);
  }

  lemma FloatSubnormal(fExp: nat, fMant: nat, lsb: nat)
    requires 102 <= fExp <= 112 && fMant < F23 && lsb == 126 - fExp
    ensures ShiftRight(F23 + fMant, lsb) < F10
    ensures Located(FMag(fExp * F23 + fMant), ShiftRight(F23 + fMant, lsb), LowBits(F23 + fMant, lsb), Pow2(lsb),
      Pow2(fExp + 924))
  {
    var mant := F23 + fMant;
    assert Pow2(24) == 2 * F23 by { Pow2Constants(); }
    ShiftedBelow(mant, 24, lsb);
    FMagNormal(fExp, fMant);
    LocateSubnormal(FMag(fExp * F23 + fMant), ShiftRight(mant, lsb), LowBits(mant, lsb), lsb, fExp + 924);
  }

  lemma FloatLocated(fExp: nat, fMant: nat, hExp: nat, mant: nat, lsb: nat)
    requires 102 <= fExp <= 142 && fMant < F23
    requires if fExp <= 112 then hExp == 0 && mant == F23 + fMant && lsb == 126 - fExp
             else hExp == fExp - 112 && mant == fMant && lsb == 13
    ensures ShiftRight(mant, lsb) < F10
    ensures Located(FMag(fExp * F23 + fMant), hExp * F10 + ShiftRight(mant, lsb), LowBits(mant, lsb),
      2 * Pow2(lsb - 1), Pow2(fExp + 924))
  {
    if fExp <= 112 { FloatSubnormal(fExp, fMant, lsb); } else { FloatNormal(fExp, fMant, lsb); }
  }

  method FromFiniteFloat(sign: bool, fExp: nat, fMant: nat, mode: Mode) returns (h: Bits16)
    requires fExp < 0xFF && fMant < F23 && (fExp > 0 || fMant > 0)
    ensures h == Rounded(sign, FMag(fExp * F23 + fMant), mode)
  {
    var exp := fExp - 128 + 1;
    if exp >= 16 {
      FloatOverflows(fExp, fMant);
      OverflowIsRounded(mode, sign, FMag(fExp * F23 + fMant));
      h := HandleOverflow(mode, sign);
    } else if exp < -13 - 11 - 1 {
      FloatUnderflows(fExp, fMant);
      UnderflowIsRounded(mode, sign, FMag(fExp * F23 + fMant));
      h := HandleUnderflow(mode, sign);
    } else {
      var hExp: nat, lsbPos: nat, mant := (exp + 16 - 1) % 0x1_0000, 24 - 11, fMant;
      if exp < -14 {
        hExp, lsbPos, mant := 0, -exp + (24 - 25), mant + F23;
      }
      FloatLocated(fExp, fMant, hExp, mant, lsbPos);
      var hMant, rest, halfway := ShiftRight(mant, lsbPos), LowBits(mant, lsbPos), Pow2(lsbPos - 1);
      h := RoundAndPack(sign, hExp, hMant, rest, halfway, mode, FMag(fExp * F23 + fMant), Pow2(fExp + 924));
    }
  }

  method FromFloatFields(sign: bool, fExp: nat, fMant: nat, mode: Mode) returns (h: Bits16)
    requires fExp <= 0xFF && fMant < F23
    ensures h == HalfOfFloatFields(sign, fExp, fMant, mode)
  {
    if fExp == 0xFF {
      SpecialFloat(sign, fMant, mode);
      h := FromSpecial(sign, fMant / 0x2000, fMant != 0);
    } else if fExp == 0 && fMant == 0 {
      ZeroFloat(sign, mode);
      h := Half(sign, 0);
    } else {
      h := FromFiniteFloat(sign, fExp, fMant, mode);
    }
  }

  lemma SpecialFloat(sign: bool, m: nat, mode: Mode)
    requires m < F23
    ensures m / 0x2000 < F10
    ensures FromSpecial(sign, m / 0x2000, m != 0) == HalfOfFloatFields(sign, 0xFF, m, mode)
  {
  }

  lemma ZeroFloat(sign: bool, mode: Mode)
    ensures HalfOfFloatFields(sign, 0, 0, mode) == Half(sign, 0)
  {
    ZeroIsRounded(sign, mode);
  }

  /** cl_half_from_float. */
  method FromFloat(f: Bits32, mode: Mode) returns (h: Bits16)
    ensures h == HalfOfFloat(f, mode)
  {
    var sign := f / SIGN32 == 1;
    var fExp := f / 0x80_0000 % 0x100;
    var fMant := f % 0x80_0000;
    h := FromFloatFields(sign, fExp, fMant, mode);
  }

  ghost function FloatMagnitude(f: Bits32): nat { FMag(FExp(f) * F23 + FFrac(f)) }

  /** For every finite float and every mode, the result is the one half that the standard prescribes. */
  lemma FiniteFloatIsPrescribed(f: Bits32, mode: Mode, h: Bits16)
    requires FExp(f) < 0xFF
    ensures h == HalfOfFloat(f, mode) <==> Prescribed(f >= SIGN32, FloatMagnitude(f), mode, h)
  {
    FiniteFloatIsRounded(f, mode);
    PrescribedIsUnique(f >= SIGN32, FloatMagnitude(f), mode, h);
  }

  lemma FiniteFloatIsRounded(f: Bits32, mode: Mode)
    requires FExp(f) < 0xFF
    ensures HalfOfFloat(f, mode) == Rounded(f >= SIGN32, FloatMagnitude(f), mode)
  {
  }

  function NegateFloat(f: Bits32): Bits32 { if f >= SIGN32 then f - SIGN32 else f + SIGN32 }

  /** How the four modes relate, for every float that is not a NaN. */
  lemma FloatModesRelate(f: Bits32)
    requires FExp(f) < 0xFF || FFrac(f) == 0
    ensures HalfOfFloat(NegateFloat(f), RTP) == Flip(HalfOfFloat(f, RTN))
    ensures HalfOfFloat(NegateFloat(f), RTN) == Flip(HalfOfFloat(f, RTP))
    ensures HalfOfFloat(NegateFloat(f), RTE) == Flip(HalfOfFloat(f, RTE))
    ensures HalfOfFloat(NegateFloat(f), RTZ) == Flip(HalfOfFloat(f, RTZ))
    ensures HalfOfFloat(f, RTP) == HalfOfFloat(f, RTN) <==> FExp(f) == 0xFF || Representable(FloatMagnitude(f))
    ensures HalfOfFloat(f, RTP) != HalfOfFloat(f, RTN) ==> NextUp(HalfOfFloat(f, RTN), HalfOfFloat(f, RTP))
    ensures HalfOfFloat(f, RTE) in {HalfOfFloat(f, RTP), HalfOfFloat(f, RTN)}
    ensures HalfOfFloat(f, RTZ) in {HalfOfFloat(f, RTP), HalfOfFloat(f, RTN)}
  {
    NegatedFloatFields(f);
    if FExp(f) < 0xFF {
      ModesRelate(f >= SIGN32, FloatMagnitude(f));
    }
  }

  lemma NegatedFloatFields(f: Bits32)
    ensures (NegateFloat(f) >= SIGN32) == !(f >= SIGN32) && FExp(NegateFloat(f)) == FExp(f)
    ensures FFrac(NegateFloat(f)) == FFrac(f)
  {
    FloatFields(f);
  }

  /** The common unit: the patterns of 1.0 in the three formats have the same magnitude, 2^1074 units, and
      numbers round to infinity in the nearest mode from 65520 on. */
  lemma OneInThreeFormats()
    ensures HMag(0x3C00) == FMag(0x3F80_0000) == DMag(0x3FF0_0000_0000_0000) == Pow2(1074)
    ensures HMag(MAX_FINITE) + HMag(H_INF) == 2 * (65520 * Pow2(1074))
  {
    OneAsHalf();
    OneAsFloat();
    OneAsDouble();
    NearestOverflow();
  }

  lemma OneAsHalf()
    ensures HMag(0x3C00) == Pow2(1074)
  {
    HalfPower(15, 0x3C00);
  }

  lemma OneAsFloat()
    ensures FMag(0x3F80_0000) == Pow2(1074)
  {
    FloatPower(127, 0x3F80_0000);
  }

  lemma OneAsDouble()
    ensures DMag(0x3FF0_0000_0000_0000) == Pow2(1074)
  {
    DoublePower(0x3FF, 0x3FF0_0000_0000_0000);
  }

  /** The first number of a binade is a power of two. */
  lemma FloatPower(e: nat, c: nat)
    requires e >= 1 && c == e * F23
    ensures FMag(c) == Pow2(e + 947)
  {
    FMagNormal(e, 0);
    PowerScaled(F23, 23, e + 924);
  }

  lemma DoublePower(e: nat, c: nat)
    requires e >= 1 && c == e * F52
    ensures DMag(c) == Pow2(e + 51)
  {
    DMagNormal(e, 0);
    PowerScaled(F52, 52, e - 1);
  }

  /** The largest finite half and its successor have 65520 halfway between them. */
  lemma NearestOverflow()
    ensures HMag(MAX_FINITE) + HMag(H_INF) == 2 * (65520 * Pow2(1074))
  {
    LastOfBinade(30, MAX_FINITE, H_INF);
    Pow2Add(5, 1074);
    assert Pow2(5) == 32;
  }

  lemma LastOfBinade(e: nat, c: nat, d: nat)
    requires e >= 1 && c == e * F10 + 0x3FF && d == c + 1
    ensures HMag(c) + HMag(d) == 0xFFF * Pow2(e + 1049)
  {
    HMagNormal(e, 0x3FF);
    LastProducts(Pow2(e + 1049));
  }

  lemma LastProducts(p: nat)
    ensures (F10 + 0x3FF) * p + (F10 + 0x3FF + 1) * p == 0xFFF * p
  {
  }

  // ----- cl_half_to_float -----

  /** f denotes exactly what h denotes: the same sign and value, infinity for infinity, and for a
      NaN a quiet NaN with the payload in its leading bits. */
  ghost predicate SameAsHalf(h: Bits16, f: Bits32) {
    && (f >= SIGN32) == Sign(h)
    && if Code(h) > H_INF then
         FExp(f) == 0xFF && FFrac(f) == SetBit9(Code(h) % 0x400) * 0x2000
       else if Code(h) == H_INF then
         FExp(f) == 0xFF && FFrac(f) == 0
       else
         FExp(f) < 0xFF && FMag(FExp(f) * F23 + FFrac(f)) == HMag(Code(h))
  }

  function Float(sign: bool, fExp: nat, fMant: nat): (f: Bits32)
    requires fExp <= 0xFF && fMant < F23
    ensures (f >= SIGN32) == sign && FExp(f) == fExp && FFrac(f) == fMant
  {
    (if sign then SIGN32 else 0) + fExp * F23 + fMant
  }

  /** The normalization loop for subnormal halves. */
  method Normalize(m: nat) returns (hMant: nat, shift: nat)
    requires 0 < m < F10
    ensures hMant == m * Pow2(shift) && F10 <= hMant < 2 * F10 && 1 <= shift <= 10
  {
    hMant, shift := m, 0;
    while hMant / 0x400 % 2 == 0
      invariant 0 < hMant < 2 * F10 && hMant == m * Pow2(shift)
      invariant shift == 0 ==> hMant < F10
      decreases 2 * F10 - hMant
    {
      assert m * (2 * Pow2(shift)) == 2 * (m * Pow2(shift));
      hMant := hMant * 2;
      shift := shift + 1;
    }
    ShiftIsSmall(m, shift);
  }

  lemma ShiftIsSmall(m: nat, shift: nat)
    requires m > 0 && m * Pow2(shift) < 2 * F10
    ensures shift <= 10
  {
    assert Pow2(11) == 2 * F10 by { Pow2Constants(); }
    MulMono(1, m, Pow2(shift));
    if shift > 10 { Pow2Mono(11, shift); }
  }

  /** A mantissa with a factor of 2^k moves up k binades without it. */
  lemma FactorOut(mant: nat, c: nat, k: nat, s: nat)
    requires c == Pow2(k)
    ensures (mant * c) * Pow2(s) == mant * Pow2(k + s)
  {
    Pow2Add(k, s);
    Assoc(mant, c, Pow2(s));
  }

  lemma NormalizedValue(m: nat, hMant: nat, shift: nat)
    requires 0 < m < F10 && hMant == m * Pow2(shift) && F10 <= hMant < 2 * F10 && shift <= 10
    ensures FMag((113 - shift) * F23 + (hMant % 0x400) * 0x2000) == HMag(m)
  {
    assert hMant % 0x400 == hMant - F10;
    NormalizedProduct(m, hMant, shift);
    FMagNormal(113 - shift, (hMant - F10) * 0x2000);
    HMagSubnormal(m);
  }

  lemma NormalizedProduct(m: nat, hMant: nat, shift: nat)
    requires hMant == m * Pow2(shift) && F10 <= hMant && shift <= 10
    ensures (F23 + (hMant - F10) * 0x2000) * Pow2(113 - shift + 924) == m * Pow2(1050)
  {
    assert F23 + (hMant - F10) * 0x2000 == hMant * 0x2000;
    assert Pow2(13) == 0x2000 by { Pow2Constants(); }
    FactorOut(hMant, 0x2000, 13, 113 - shift + 924);
    FactorOut(m, Pow2(shift), shift, 1050 - shift);
  }

  lemma NormalValue(hExp: nat, m: nat)
    requires 1 <= hExp <= 30 && m < F10
    ensures FMag((hExp + 112) * F23 + m * 0x2000) == HMag(hExp * F10 + m)
  {
    FMagNormal(hExp + 112, m * 0x2000);
    NormalProduct(hExp, m);
    HMagNormal(hExp, m);
  }

  lemma NormalProduct(hExp: nat, m: nat)
    ensures (F23 + m * 0x2000) * Pow2(hExp + 112 + 924) == (F10 + m) * Pow2(hExp + 1049)
  {
    assert F23 + m * 0x2000 == (F10 + m) * 0x2000;
    assert Pow2(13) == 0x2000 by { Pow2Constants(); }
    FactorOut(F10 + m, 0x2000, 13, hExp + 112 + 924);
  }

  /** The fields of the float for a finite half. */
  method FiniteFields(hExp: nat, hMant: nat) returns (fExp: nat, fMant: nat)
    requires hExp <= 30 && hMant < F10
    ensures fExp < 0xFF && fMant < F23 && FMag(fExp * F23 + fMant) == HMag(hExp * F10 + hMant)
  {
    var exp := hExp - 16 + 1;
    if hExp == 0 {
      if hMant == 0 {
        ZeroIsRounded(false, RTZ);
        ZeroMag();
        fExp, fMant := 0, 0;
      } else {
        fExp, fMant := SubnormalFields(exp + 128 - 1, hMant);
      }
    } else {
      NormalValue(hExp, hMant);
      fExp, fMant := exp + 128 - 1, hMant * 0x2000;
    }
  }

  method SubnormalFields(fExp0: nat, m: nat) returns (fExp: nat, fMant: nat)
    requires fExp0 == 112 && 0 < m < F10
    ensures fExp < 0xFF && fMant < F23 && FMag(fExp * F23 + fMant) == HMag(m)
  {
    var hMant, shift := Normalize(m);
    NormalizedValue(m, hMant, shift);
    fExp, fMant := fExp0 - (shift - 1), (hMant % 0x400) * 0x2000;
  }

  /** cl_half_to_float. */
  method ToFloat(h: Bits16) returns (f: Bits32)
    ensures SameAsHalf(h, f)
  {
    var sign := h / SIGN16 == 1;
    var hExp := h / 0x400 % 0x20;
    var hMant := h % 0x400;
    HalfFields(h);
    if hExp == 0x1F {
      f := Float(sign, 0xFF, if hMant != 0 then SetBit9(hMant) * 0x2000 else 0);
      SameSpecial(h, f);
    } else {
      var fExp, fMant := FiniteFields(hExp, hMant);
      f := Float(sign, fExp, fMant);
      SameFinite(h, f, fExp, fMant);
    }
  }

  lemma SameSpecial(h: Bits16, f: Bits32)
    requires h / 0x400 % 0x20 == 0x1F && (f >= SIGN32) == (h / SIGN16 == 1) && FExp(f) == 0xFF
    requires FFrac(f) == if h % 0x400 != 0 then SetBit9(h % 0x400) * 0x2000 else 0
    ensures SameAsHalf(h, f)
  {
    HalfFields(h);
  }

  lemma SameFinite(h: Bits16, f: Bits32, e: nat, m: nat)
    requires h / 0x400 % 0x20 != 0x1F && (f >= SIGN32) == (h / SIGN16 == 1)
    requires FExp(f) == e < 0xFF && FFrac(f) == m
    requires FMag(e * F23 + m) == HMag(h / 0x400 % 0x20 * F10 + h % 0x400)
    ensures SameAsHalf(h, f)
  {
    HalfFields(h);
  }

  lemma HalfFields(h: Bits16)
    ensures Sign(h) == (h / SIGN16 == 1)
    ensures Code(h) == h / 0x400 % 0x20 * F10 + h % 0x400
    ensures Code(h) > H_INF <==> h / 0x400 % 0x20 == 0x1F && h % 0x400 != 0
    ensures Code(h) == H_INF <==> h / 0x400 % 0x20 == 0x1F && h % 0x400 == 0
    ensures Code(h) % 0x400 == h % 0x400
  {
  }

  // ----- Round trips -----

  /** Back to a half in any mode: every half but a signalling NaN comes back as it was, and a
      signalling NaN comes back quiet. */
  lemma HalfFloatHalf(h: Bits16, f: Bits32, mode: Mode)
    requires SameAsHalf(h, f)
    ensures HalfOfFloat(f, mode) == if Code(h) > H_INF then NanHalf(Sign(h), Code(h) % 0x400) else h
  {
    if Code(h) < H_INF {
      ExactIsKept(Sign(h), Code(h), mode);
    } else if Code(h) > H_INF {
      var m := Code(h) % 0x400;
      assert SetBit9(SetBit9(m)) == SetBit9(m);
      assert SetBit9(m) * 0x2000 / 0x2000 == SetBit9(m);
    }
  }

  lemma FMagInjective(c: nat, d: nat)
    ensures FMag(c) == FMag(d) ==> c == d
  {
    if c < d {
      GridIncreases(c, d, F23);
      StrictlyScaled(Grid(c, F23), Grid(d, F23), Pow2(925));
    } else if d < c {
      GridIncreases(d, c, F23);
      StrictlyScaled(Grid(d, F23), Grid(c, F23), Pow2(925));
    }
  }

  /** A half and a float that denote the same number or infinity determine each other. */
  lemma FloatIsDetermined(h: Bits16, f: Bits32, g: Bits32)
    requires SameAsHalf(h, f) && SameAsHalf(h, g)
    ensures f == g
  {
    if Code(h) < H_INF {
      FMagInjective(FExp(f) * F23 + FFrac(f), FExp(g) * F23 + FFrac(g));
    }
    FloatFields(f);
    FloatFields(g);
  }

  /** Forth and back for floats: a float that some half k represents survives conversion to half in any
      mode and back. */
  lemma FloatHalfFloat(f: Bits32, k: Bits16, mode: Mode, h: Bits16, g: Bits32)
    requires SameAsHalf(k, f) && Code(k) <= H_INF
    requires h == HalfOfFloat(f, mode) && SameAsHalf(h, g)
    ensures g == f
  {
    HalfFloatHalf(k, f, mode);
    FloatIsDetermined(h, f, g);
  }

  // ----- Float and double conversions agree -----

  /** d is the exact widening of f. A NaN keeps its sign and its payload in the leading bits; whether the
      widening itself makes a signalling NaN quiet is left open. */
  ghost predicate IsWidening(f: Bits32, d: Bits64) {
    && (f >= SIGN32) == (d >= SIGN64)
    && if FExp(f) == 0xFF then
         DExp(d) == 0x7FF && IsWidePayload(FFrac(f), DFrac(d))
       else
         DExp(d) < 0x7FF && DMag(DExp(d) * F52 + DFrac(d)) == FMag(FExp(f) * F23 + FFrac(f))
  }

  predicate IsWidePayload(m: nat, n: nat) {
    n == m * 0x2000_0000 || (m > 0 && n == SetBit22(m) * 0x2000_0000)
  }

  /** m | 0x400000 */
  function SetBit22(m: nat): nat { if m / 0x40_0000 % 2 == 0 then m + 0x40_0000 else m }

  /** Converting a float directly and through its widening gives the same half, in every mode and for
      every bit pattern: zeros, subnormals, infinities and NaNs included. */
  lemma FloatAndDoubleAgree(f: Bits32, d: Bits64, mode: Mode)
    requires IsWidening(f, d)
    ensures HalfOfFloat(f, mode) == HalfOfDouble(d, mode)
  {
    if FExp(f) == 0xFF {
      SameNan(f >= SIGN32, FFrac(f), DFrac(d), mode);
    } else {
      EqualMagnitudes(f >= SIGN32, FExp(f), FFrac(f), DExp(d), DFrac(d), mode);
    }
  }

  /** The payload that reaches the half is the same, whether or not it was made quiet on the way. */
  lemma SameNan(sign: bool, m: nat, n: nat, mode: Mode)
    requires m < F23 && n < F52 && IsWidePayload(m, n)
    ensures HalfOfFloatFields(sign, 0xFF, m, mode) == HalfOfDoubleFields(sign, 0x7FF, n, mode)
  {
    PayloadKept(m);
    PayloadKept(SetBit22(m));
    QuietPayload(m);
  }

  lemma QuietPayload(m: nat)
    ensures SetBit9(SetBit22(m) / 0x2000) == SetBit9(m / 0x2000)
  {
  }

  lemma EqualMagnitudes(sign: bool, e: nat, m: nat, dExp: nat, dMant: nat, mode: Mode)
    requires e != 0xFF && m < F23 && dExp != 0x7FF && dMant < F52
    requires DMag(dExp * F52 + dMant) == FMag(e * F23 + m)
    ensures HalfOfFloatFields(sign, e, m, mode) == HalfOfDoubleFields(sign, dExp, dMant, mode)
  {
  }

  lemma PayloadKept(m: nat)
    ensures m * 0x2000_0000 / 0x400_0000_0000 == m / 0x2000
  {
    Quotient(m * 0x2000_0000, 0x400_0000_0000, m / 0x2000, m % 0x2000 * 0x2000_0000);
  }

  function Double(sign: bool, dExp: nat, dMant: nat): (d: Bits64)
    requires dExp <= 0x7FF && dMant < F52
    ensures (d >= SIGN64) == sign && DExp(d) == dExp && DFrac(d) == dMant
  {
    (if sign then SIGN64 else 0) + dExp * F52 + dMant
  }

  /** Every float has an exact widening. */
  lemma WideningExists(f: Bits32) returns (d: Bits64)
    ensures IsWidening(f, d)
  {
    var sign, e, m := f >= SIGN32, FExp(f), FFrac(f);
    if e == 0xFF {
      d := Double(sign, 0x7FF, m * 0x2000_0000);
    } else {
      var dExp, dMant := WidenedFields(e, m);
      d := Double(sign, dExp, dMant);
    }
  }

  lemma WidenedFields(e: nat, m: nat) returns (dExp: nat, dMant: nat)
    requires e < 0xFF && m < F23
    ensures dExp < 0x7FF && dMant < F52 && DMag(dExp * F52 + dMant) == FMag(e * F23 + m)
  {
    if e > 0 {
      dExp, dMant := e + 896, m * 0x2000_0000;
      FMagNormal(e, m);
      WidenedMantissa(e + 896, m, e + 924);
    } else if m == 0 {
      dExp, dMant := 0, 0;
      ZeroIsRounded(false, RTZ);
    } else {
      var k := LeadingShift(m);
      dExp, dMant := 897 - k, (m * Pow2(k) - F23) * 0x2000_0000;
      Quotient(m, F23, 0, m);
      WidenedMantissa(897 - k, m * Pow2(k) - F23, 925 - k);
      FactorOut(m, Pow2(k), k, 925 - k);
    }
  }

  lemma WidenedMantissa(dExp: nat, m: nat, s: nat)
    requires m < F23 && dExp == s - 28 >= 1
    ensures m * 0x2000_0000 < F52
    ensures DMag(dExp * F52 + m * 0x2000_0000) == (F23 + m) * Pow2(s)
  {
    DMagNormal(dExp, m * 0x2000_0000);
    assert F52 + m * 0x2000_0000 == (F23 + m) * 0x2000_0000;
    assert Pow2(29) == 0x2000_0000 by { Pow2Constants(); }
    FactorOut(F23 + m, 0x2000_0000, 29, dExp - 1);
  }

  lemma LeadingShift(m: nat) returns (k: nat)
    requires 0 < m < F23
    ensures F23 <= m * Pow2(k) < 2 * F23 && k <= 23
  {
    k := 0;
    while m * Pow2(k) < F23
      invariant m * Pow2(k) < 2 * F23
      decreases 2 * F23 - m * Pow2(k)
    {
      DoublePositive(m, Pow2(k));
      k := k + 1;
    }
    LeadingShiftIsSmall(m, k);
  }

  lemma DoublePositive(m: nat, p: nat)
    requires m > 0 && p > 0
    ensures 0 < m * p && m * (2 * p) == 2 * (m * p)
  {
    StrictlyScaled(0, m, p);
  }

  lemma LeadingShiftIsSmall(m: nat, k: nat)
    requires m > 0 && m * Pow2(k) < 2 * F23
    ensures k <= 23
  {
    assert Pow2(24) == 2 * F23 by { Pow2Constants(); }
    MulMono(1, m, Pow2(k));
    if k > 23 { Pow2Mono(24, k); }
  }
}
