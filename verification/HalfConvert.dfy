/** The conversions of cl_half.h, on bit patterns. Unsigned shifts and masks are written as
    quotients, remainders and multiples of powers of two. */
module HalfConvert {
  import opened Common
  import opened HalfFormat
  import opened HalfRounding

  // ----- What the conversions deliver -----

  /** A quiet NaN that keeps the sign and the leading payload bits. */
  function NanHalf(sign: bool, payload: nat): (h: Bits16)
    requires payload < F10
    ensures Sign(h) == sign && Code(h) > H_INF && Code(h) % 0x400 >= 0x200
    ensures Code(h) % 0x200 == payload % 0x200
  {
    Half(sign, H_INF + SetBit9(payload))
  }

  /** m | 0x200 */
  function SetBit9(m: nat): nat { if m / 0x200 % 2 == 0 then m + 0x200 else m }

  /** The half for the fields of a double: the rounded value for a finite one, infinity for infinity,
      and for a NaN the quiet NaN with its sign and the ten leading bits of its fraction. */
  ghost function HalfOfDoubleFields(sign: bool, e: nat, m: nat, mode: Mode): Bits16
    requires m < F52
  {
    if e == 0x7FF then
      if m == 0 then Half(sign, H_INF) else NanHalf(sign, m / 0x400_0000_0000)
    else Rounded(sign, DMag(e * F52 + m), mode)
  }

  ghost function HalfOfFloatFields(sign: bool, e: nat, m: nat, mode: Mode): Bits16
    requires m < F23
  {
    if e == 0xFF then
      if m == 0 then Half(sign, H_INF) else NanHalf(sign, m / 0x2000)
    else Rounded(sign, FMag(e * F23 + m), mode)
  }

  ghost function HalfOfDouble(d: Bits64, mode: Mode): Bits16 {
    HalfOfDoubleFields(d >= SIGN64, DExp(d), DFrac(d), mode)
  }

  ghost function HalfOfFloat(f: Bits32, mode: Mode): Bits16 {
    HalfOfFloatFields(f >= SIGN32, FExp(f), FFrac(f), mode)
  }

  /** The exponent fields. */
  function DExp(d: Bits64): nat { d / 0x10_0000_0000_0000 % 0x800 }

  function FExp(f: Bits32): nat { f / 0x80_0000 % 0x100 }

  /** The fraction fields. */
  function DFrac(d: Bits64): (m: nat)
    ensures m < F52
  {
    d % 0x10_0000_0000_0000
  }

  function FFrac(f: Bits32): (m: nat)
    ensures m < F23
  {
    f % 0x80_0000
  }

  lemma DoubleFields(d: Bits64)
    ensures d == (if d >= SIGN64 then SIGN64 else 0) + DExp(d) * F52 + DFrac(d)
  {
  }

  lemma FloatFields(f: Bits32)
    ensures f == (if f >= SIGN32 then SIGN32 else 0) + FExp(f) * F23 + FFrac(f)
  {
  }

  /** x >> n */
  function ShiftRight(x: nat, n: nat): (q: nat)
    ensures q * Pow2(n) <= x < q * Pow2(n) + Pow2(n)
  {
    if n == 0 then x
    else
      var q := ShiftRight(x, n - 1);
      HalvedQuotient(q / 2, q % 2, Pow2(n - 1));
      q / 2
  }

  lemma HalvedQuotient(q: nat, r: nat, p: nat)
    requires r < 2
    ensures q * (2 * p) <= (2 * q + r) * p
    ensures (2 * q + r) * p + p <= q * (2 * p) + 2 * p
  {
    assert (2 * q + r) * p == q * (2 * p) + r * p;
    if r == 1 { assert r * p == p; } else { assert r * p == 0; }
  }

  /** x & ((1 << n) - 1) */
  function LowBits(x: nat, n: nat): (r: nat)
    ensures r < Pow2(n) && x == ShiftRight(x, n) * Pow2(n) + r
  {
    x - ShiftRight(x, n) * Pow2(n)
  }

  // ----- Overflow and underflow -----

  function HandleOverflow(mode: Mode, sign: bool): Bits16 {
    if mode == RTZ then Half(sign, MAX_FINITE)
    else if mode == RTP && sign then Half(true, MAX_FINITE)
    else if mode == RTN && !sign then Half(false, MAX_FINITE)
    else Half(sign, H_INF)
  }

  function HandleUnderflow(mode: Mode, sign: bool): Bits16 {
    if mode == RTP && !sign then Half(sign, 1)
    else if mode == RTN && sign then Half(sign, 1)
    else Half(sign, 0)
  }

  lemma InfinityMag()
    ensures HMag(H_INF) == Pow2(1090)
  {
    HalfPower(31, H_INF);
  }

  /** The first number of a binade is a power of two. */
  lemma HalfPower(e: nat, c: nat)
    requires e >= 1 && c == e * F10
    ensures HMag(c) == Pow2(e + 1059)
  {
    HMagNormal(e, 0);
    PowerScaled(F10, 10, e + 1049);
  }

  /** A mantissa that is a power of two. */
  lemma PowerScaled(m: nat, k: nat, s: nat)
    requires (m == F10 && k == 10) || (m == F23 && k == 23) || (m == F52 && k == 52)
    ensures (m + 0) * Pow2(s) == Pow2(k + s)
  {
    Pow2Constants();
    Pow2Add(k, s);
  }

  lemma OverflowIsRounded(mode: Mode, sign: bool, x: nat)
    requires x >= Pow2(1090)
    ensures HandleOverflow(mode, sign) == Rounded(sign, x, mode)
  {
    InfinityMag();
    DownIs(x, H_INF);
  }

  lemma UnderflowIsRounded(mode: Mode, sign: bool, x: nat)
    requires 0 < x < Pow2(1049)
    ensures HandleUnderflow(mode, sign) == Rounded(sign, x, mode)
  {
    HMagSubnormal(0);
    assert Pow2(1050) == 2 * Pow2(1049);
    RoundedCodeAt(sign, x, mode, 0);
  }

  // ----- Rounding the mantissa -----

  /** x lies in the interval of pattern c, at rest / 2^lsb of the way to the next pattern. */
  ghost predicate Located(x: nat, c: nat, rest: nat, unit: nat, scale: nat) {
    && rest < unit && scale > 0
    && HMag(c + 1) == HMag(c) + unit * scale
    && x == HMag(c) + rest * scale
  }

  /** Whether the mode moves a number that lies at rest / (2 * half) between two patterns to the
      upper one. */
  predicate MovesUp(mode: Mode, sign: bool, rest: nat, half: nat, odd: bool) {
    match mode
    case RTE => rest > half || (rest == half && odd)
    case RTZ => false
    case RTP => rest != 0 && !sign
    case RTN => rest != 0 && sign
  }

  lemma Distances(low: nat, x: nat, high: nat, rest: nat, half: nat, scale: nat)
    requires rest < 2 * half && scale > 0
    requires x == low + rest * scale && high == low + (2 * half) * scale
    ensures low <= x < high
    ensures low == x <==> rest == 0
    ensures 2 * x < low + high <==> rest < half
    ensures 2 * x > low + high <==> rest > half
  {
    StrictlyScaled(rest, 2 * half, scale);
    if rest > 0 { StrictlyScaled(0, rest, scale); }
    if rest < half { StrictlyScaled(rest, half, scale); }
    if rest > half { StrictlyScaled(half, rest, scale); }
    assert (2 * half) * scale == 2 * (half * scale);
  }

  lemma SameParity(hExp: nat, hMant: nat)
    ensures (hExp * F10 + hMant) % 2 == hMant % 2
  {
    assert hExp * F10 == 2 * (hExp * 0x200);
  }

  /** Where the rounded pattern lies relative to the truncated one. */
  lemma RoundedFromRest(sign: bool, x: nat, mode: Mode, hExp: nat, hMant: nat, rest: nat, half: nat, scale: nat)
    requires hExp <= 30 && hMant < F10 && Located(x, hExp * F10 + hMant, rest, 2 * half, scale)
    ensures var up := MovesUp(mode, sign, rest, half, hMant % 2 == 1);
      Rounded(sign, x, mode) == Half(sign, hExp * F10 + if up then hMant + 1 else hMant)
  {
    var c := hExp * F10 + hMant;
    SameParity(hExp, hMant);
    Distances(HMag(c), x, HMag(c + 1), rest, half, scale);
    RoundedCodeAt(sign, x, mode, c);
  }

  /** The rounding step for the mode, and the carry of the mantissa into the exponent. */
  method RoundAndPack(sign: bool, hExp: nat, hMant0: nat, rest: nat, halfway: nat, mode: Mode, ghost x: nat,
        ghost scale: nat)
    returns (h: Bits16)
    requires hExp <= 30 && hMant0 < F10 && Located(x, hExp * F10 + hMant0, rest, 2 * halfway, scale)
    ensures h == Rounded(sign, x, mode)
  {
    var hMant := MantissaStep(sign, hMant0, rest, halfway, mode);
    h := CarryAndPack(sign, hExp, hMant);
    RoundedFromRest(sign, x, mode, hExp, hMant0, rest, halfway, scale);
  }

  /** A mantissa that has grown to 0x400 becomes a step of the exponent. */
  method CarryAndPack(sign: bool, hExp0: nat, hMant0: nat) returns (h: Bits16)
    requires hExp0 <= 30 && hMant0 <= F10
    ensures h == Half(sign, hExp0 * F10 + hMant0)
  {
    var hExp, hMant := hExp0, hMant0;
    if hMant / 0x400 % 2 == 1 {
      hExp := hExp + 1;
      hMant := 0;
    }
    h := Half(sign, hExp * 0x400 + hMant);
  }

  /** The switch over the rounding mode. */
  method MantissaStep(sign: bool, hMant0: nat, rest: nat, halfway: nat, mode: Mode) returns (hMant: nat)
    ensures hMant == if MovesUp(mode, sign, rest, halfway, hMant0 % 2 == 1) then hMant0 + 1 else hMant0
  {
    hMant := hMant0;
    match mode {
      case RTE =>
        if rest > halfway {
          hMant := hMant + 1;
        } else if rest == halfway {
          if hMant % 2 == 1 {
            hMant := hMant + 1;
          }
        }
      case RTZ =>
      case RTP =>
        if rest != 0 && !sign {
          hMant := hMant + 1;
        }
      case RTN =>
        if rest != 0 && sign {
          hMant := hMant + 1;
        }
    }
  }

  // ----- Locating a number on the grid of halves -----

  /** A mantissa t * p + rest in units of q, where p * q is one unit in the last place of a half. */
  lemma LocateScaled(x: nat, c: nat, t: nat, rest: nat, p: nat, q: nat, ulp: nat)
    requires q > 0 && rest < p && ulp == p * q && x == (t * p + rest) * q
    requires HMag(c) == t * ulp && HMag(c + 1) == (t + 1) * ulp
    ensures Located(x, c, rest, p, q)
  {
    Assoc(t, p, q);
    assert (t * p + rest) * q == (t * p) * q + rest * q;
    assert (t + 1) * ulp == t * ulp + ulp;
  }

  lemma LocateNormal(x: nat, hExp: nat, t: nat, rest: nat, lsb: nat, s: nat)
    requires 1 <= hExp && t < F10 && rest < Pow2(lsb) && lsb + s == hExp + 1049
    requires x == ((F10 + t) * Pow2(lsb) + rest) * Pow2(s)
    ensures Located(x, hExp * F10 + t, rest, Pow2(lsb), Pow2(s))
  {
    HMagNormal(hExp, t);
    Pow2Add(lsb, s);
    LocateScaled(x, hExp * F10 + t, F10 + t, rest, Pow2(lsb), Pow2(s), Pow2(lsb + s));
  }

  lemma LocateSubnormal(x: nat, t: nat, rest: nat, lsb: nat, s: nat)
    requires t < F10 && rest < Pow2(lsb) && lsb + s == 1050
    requires x == (t * Pow2(lsb) + rest) * Pow2(s)
    ensures Located(x, t, rest, Pow2(lsb), Pow2(s))
  {
    HMagSubnormal(t);
    Pow2Add(lsb, s);
    LocateScaled(x, t, t, rest, Pow2(lsb), Pow2(s), Pow2(lsb + s));
  }

  /** A mantissa with its implicit one, shifted right far enough, is below the first binade. */
  lemma ShiftedBelow(mant: nat, digits: nat, lsb: nat)
    requires mant < Pow2(digits) && digits <= lsb + 10
    ensures ShiftRight(mant, lsb) < F10
  {
    Pow2Mono(digits, lsb + 10);
    Pow2Add(10, lsb);
    assert Pow2(10) == F10 by { Pow2Constants(); }
    var t, r := ShiftRight(mant, lsb), LowBits(mant, lsb);
    if t >= F10 { MulMono(F10, t, Pow2(lsb)); }
  }

  /** The span of a binade. */
  lemma BinadeBounds(frac: nat, w: nat, m: nat, s: nat)
    requires frac == Pow2(w) && m < frac
    ensures Pow2(w + s) <= (frac + m) * Pow2(s) < Pow2(w + 1 + s)
  {
    Pow2Add(w, s);
    Pow2Add(w + 1, s);
    MulMono(frac, frac + m, Pow2(s));
    StrictlyScaled(frac + m, 2 * frac, Pow2(s));
  }

  /** A fraction split at bit lsb, with the implicit one in front. */
  lemma WithImplicitOne(m: nat, frac: nat, lsb: nat)
    requires frac == F10 * Pow2(lsb) && m < frac
    ensures ShiftRight(m, lsb) < F10
    ensures frac + m == (F10 + ShiftRight(m, lsb)) * Pow2(lsb) + LowBits(m, lsb)
  {
    var t, r, p := ShiftRight(m, lsb), LowBits(m, lsb), Pow2(lsb);
    if t >= F10 { MulMono(F10, t, p); }
    SumScaled(F10, t, p);
  }

  lemma SumScaled(a: nat, b: nat, p: nat)
    ensures (a + b) * p == a * p + b * p
  {
  }

  // ----- cl_half_from_double -----

  lemma DoubleOverflows(dExp: nat, dMant: nat)
    requires dExp >= 1039 && dMant < F52
    ensures DMag(dExp * F52 + dMant) >= Pow2(1090)
  {
    DMagNormal(dExp, dMant);
    assert Pow2(52) == F52 by { Pow2Constants(); }
    BinadeBounds(F52, 52, dMant, dExp - 1);
    Pow2Mono(1090, 52 + (dExp - 1));
  }

  lemma DoubleUnderflows(dExp: nat, dMant: nat)
    requires dExp < 998 && dMant < F52 && (dExp > 0 || dMant > 0)
    ensures 0 < DMag(dExp * F52 + dMant) < Pow2(1049)
  {
    assert Pow2(52) == F52 by { Pow2Constants(); }
    if dExp == 0 {
      Quotient(dMant, F52, 0, dMant);
      Pow2Mono(52, 1049);
    } else {
      DMagNormal(dExp, dMant);
      BinadeBounds(F52, 52, dMant, dExp - 1);
      Pow2Mono(53 + (dExp - 1), 1049);
    }
  }

  /** The branch that stays in a normal binade. */
  lemma DoubleNormal(dExp: nat, dMant: nat, lsb: nat)
    requires 1009 <= dExp <= 1038 && dMant < F52 && lsb == 42
    ensures ShiftRight(dMant, lsb) < F10
    ensures Located(DMag(dExp * F52 + dMant), (dExp - 1008) * F10 + ShiftRight(dMant, lsb), LowBits(dMant, lsb),
      Pow2(lsb), Pow2(dExp - 1))
  {
    assert F52 == F10 * Pow2(lsb) by { Pow2Constants(); }
    WithImplicitOne(dMant, F52, lsb);
    DMagNormal(dExp, dMant);
    LocateNormal(DMag(dExp * F52 + dMant), dExp - 1008, ShiftRight(dMant, lsb), LowBits(dMant, lsb), lsb, dExp - 1);
  }

  /** The branch that becomes subnormal: the implicit one takes part in the shift. */
  lemma DoubleSubnormal(dExp: nat, dMant: nat, lsb: nat)
    requires 998 <= dExp <= 1008 && dMant < F52 && lsb == 1051 - dExp
    ensures ShiftRight(F52 + dMant, lsb) < F10
    ensures Located(DMag(dExp * F52 + dMant), ShiftRight(F52 + dMant, lsb), LowBits(F52 + dMant, lsb), Pow2(lsb),
      Pow2(dExp - 1))
  {
    var mant := F52 + dMant;
    assert Pow2(53) == 2 * F52 by { Pow2Constants(); }
    ShiftedBelow(mant, 53, lsb);
    DMagNormal(dExp, dMant);
    LocateSubnormal(DMag(dExp * F52 + dMant), ShiftRight(mant, lsb), LowBits(mant, lsb), lsb, dExp - 1);
  }

  /** Either way the number is located by what the code shifts out. */
  lemma DoubleLocated(dExp: nat, dMant: nat, hExp: nat, mant: nat, lsb: nat)
    requires 998 <= dExp <= 1038 && dMant < F52
    requires if dExp <= 1008 then hExp == 0 && mant == F52 + dMant && lsb == 1051 - dExp
             else hExp == dExp - 1008 && mant == dMant && lsb == 42
    ensures ShiftRight(mant, lsb) < F10
    ensures Located(DMag(dExp * F52 + dMant), hExp * F10 + ShiftRight(mant, lsb), LowBits(mant, lsb),
      2 * Pow2(lsb - 1), Pow2(dExp - 1))
  {
    if dExp <= 1008 { DoubleSubnormal(dExp, dMant, lsb); } else { DoubleNormal(dExp, dMant, lsb); }
  }

  /** The branches for a finite number that is not zero. */
  method FromFiniteDouble(sign: bool, dExp: nat, dMant: nat, mode: Mode) returns (h: Bits16)
    requires dExp < 0x7FF && dMant < F52 && (dExp > 0 || dMant > 0)
    ensures h == Rounded(sign, DMag(dExp * F52 + dMant), mode)
  {
    var exp := dExp - 1024 + 1;
    if exp >= 16 {
      DoubleOverflows(dExp, dMant);
      OverflowIsRounded(mode, sign, DMag(dExp * F52 + dMant));
      h := HandleOverflow(mode, sign);
    } else if exp < -13 - 11 - 1 {
      DoubleUnderflows(dExp, dMant);
      UnderflowIsRounded(mode, sign, DMag(dExp * F52 + dMant));
      h := HandleUnderflow(mode, sign);
    } else {
      var hExp: nat, lsbPos: nat, mant := (exp + 16 - 1) % 0x1_0000, 53 - 11, dMant;
      if exp < -14 {
        hExp, lsbPos, mant := 0, -exp + (53 - 25), mant + F52;
      }
      DoubleLocated(dExp, dMant, hExp, mant, lsbPos);
      var hMant, rest, halfway := ShiftRight(mant, lsbPos), LowBits(mant, lsbPos), Pow2(lsbPos - 1);
      h := RoundAndPack(sign, hExp, hMant, rest, halfway, mode, DMag(dExp * F52 + dMant), Pow2(dExp - 1));
    }
  }

  /** Infinity and NaN: "propagate mantissa and silence it". */
  function FromSpecial(sign: bool, hMant: nat, isNan: bool): Bits16
    requires hMant < F10
  {
    if isNan then Half(sign, H_INF + SetBit9(hMant)) else Half(sign, H_INF)
  }

  method FromDoubleFields(sign: bool, dExp: nat, dMant: nat, mode: Mode) returns (h: Bits16)
    requires dExp <= 0x7FF && dMant < F52
    ensures h == HalfOfDoubleFields(sign, dExp, dMant, mode)
  {
    if dExp == 0x7FF {
      SpecialDouble(sign, dMant, mode);
      h := FromSpecial(sign, dMant / 0x400_0000_0000, dMant != 0);
    } else if dExp == 0 && dMant == 0 {
      ZeroDouble(sign, mode);
      h := Half(sign, 0);
    } else {
      h := FromFiniteDouble(sign, dExp, dMant, mode);
    }
  }

  lemma SpecialDouble(sign: bool, m: nat, mode: Mode)
    requires m < F52
    ensures m / 0x400_0000_0000 < F10
    ensures FromSpecial(sign, m / 0x400_0000_0000, m != 0) == HalfOfDoubleFields(sign, 0x7FF, m, mode)
  {
  }

  lemma ZeroDouble(sign: bool, mode: Mode)
    ensures HalfOfDoubleFields(sign, 0, 0, mode) == Half(sign, 0)
  {
    ZeroIsRounded(sign, mode);
  }

  /** cl_half_from_double. */
  method FromDouble(d: Bits64, mode: Mode) returns (h: Bits16)
    ensures h == HalfOfDouble(d, mode)
  {
    var sign := d / SIGN64 == 1;
    var dExp := d / 0x10_0000_0000_0000 % 0x800;
    var dMant := d % 0x10_0000_0000_0000;
    h := FromDoubleFields(sign, dExp, dMant, mode);
  }

  lemma ZeroIsRounded(sign: bool, mode: Mode)
    ensures Rounded(sign, 0, mode) == Half(sign, 0) && DMag(0) == 0 && FMag(0) == 0
  {
    ExactIsKept(sign, 0, mode);
    ZeroMag();
  }

  // ----- cl_half_from_double against the standard -----

  ghost function DoubleMagnitude(d: Bits64): nat { DMag(DExp(d) * F52 + DFrac(d)) }

  /** For every finite double and every mode, the result is the one half that the standard prescribes. */
  lemma FiniteDoubleIsPrescribed(d: Bits64, mode: Mode, h: Bits16)
    requires DExp(d) < 0x7FF
    ensures h == HalfOfDouble(d, mode) <==> Prescribed(d >= SIGN64, DoubleMagnitude(d), mode, h)
  {
    FiniteDoubleIsRounded(d, mode);
    PrescribedIsUnique(d >= SIGN64, DoubleMagnitude(d), mode, h);
  }

  lemma FiniteDoubleIsRounded(d: Bits64, mode: Mode)
    requires DExp(d) < 0x7FF
    ensures HalfOfDouble(d, mode) == Rounded(d >= SIGN64, DoubleMagnitude(d), mode)
  {
  }

  function Negate(d: Bits64): Bits64 { if d >= SIGN64 then d - SIGN64 else d + SIGN64 }

  /** For every double that is not a NaN: negation swaps rounding up and rounding down and commutes with
      the other two modes; up and down differ exactly for finite numbers that no half represents, and then
      by one step; the other two modes give one of them. */
  lemma DoubleModesRelate(d: Bits64)
    requires DExp(d) < 0x7FF || DFrac(d) == 0
    ensures HalfOfDouble(Negate(d), RTP) == Flip(HalfOfDouble(d, RTN))
    ensures HalfOfDouble(Negate(d), RTN) == Flip(HalfOfDouble(d, RTP))
    ensures HalfOfDouble(Negate(d), RTE) == Flip(HalfOfDouble(d, RTE))
    ensures HalfOfDouble(Negate(d), RTZ) == Flip(HalfOfDouble(d, RTZ))
    ensures HalfOfDouble(d, RTP) == HalfOfDouble(d, RTN) <==> DExp(d) == 0x7FF || Representable(DoubleMagnitude(d))
    ensures HalfOfDouble(d, RTP) != HalfOfDouble(d, RTN) ==> NextUp(HalfOfDouble(d, RTN), HalfOfDouble(d, RTP))
    ensures HalfOfDouble(d, RTE) in {HalfOfDouble(d, RTP), HalfOfDouble(d, RTN)}
    ensures HalfOfDouble(d, RTZ) in {HalfOfDouble(d, RTP), HalfOfDouble(d, RTN)}
  {
    NegatedFields(d);
    if DExp(d) < 0x7FF {
      ModesRelate(d >= SIGN64, DoubleMagnitude(d));
    }
  }

  lemma NegatedFields(d: Bits64)
    ensures (Negate(d) >= SIGN64) == !(d >= SIGN64) && DExp(Negate(d)) == DExp(d) && DFrac(Negate(d)) == DFrac(d)
  {
    DoubleFields(d);
  }
}
