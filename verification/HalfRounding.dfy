/** Rounding to half precision as IEEE 754-2019 prescribes it: section 4.3 (rounding directions),
    section 7.4 (overflow) and section 6.3 (sign of zero). */
module HalfRounding {
  import opened HalfFormat

  /** CL_HALF_RTE, CL_HALF_RTZ, CL_HALF_RTP, CL_HALF_RTN. */
  datatype Mode = RTE | RTZ | RTP | RTN

  const MAX_FINITE := 0x7BFF

  function Sign(h: Bits16): bool { h >= SIGN16 }

  function Code(h: Bits16): (c: nat)
    ensures c < SIGN16
  {
    if h >= SIGN16 then h - SIGN16 else h
  }

  function Half(sign: bool, code: nat): (h: Bits16)
    requires code < SIGN16
    ensures Sign(h) == sign && Code(h) == code
  {
    if sign then SIGN16 + code else code
  }

  predicate Finite(h: Bits16) { Code(h) <= MAX_FINITE }

  function Signed(sign: bool, magnitude: int): int {
    if sign then -magnitude else magnitude
  }

  /** The exact value of a finite half. */
  ghost function HVal(h: Bits16): int
    requires Finite(h)
  {
    Signed(Sign(h), HMag(Code(h)))
  }

  function Abs(x: int): nat { if x < 0 then -x else x }

  // ----- The standard, as a relation between a number and a half -----

  /** Closest to and no less than x; possibly +infinity. */
  ghost predicate IsTowardPositive(x: int, h: Bits16) {
    if Finite(h) then
      HVal(h) >= x && forall g: Bits16 :: NoneBetweenAbove(x, h, g)
    else
      h == Half(false, H_INF) && forall g: Bits16 :: FiniteBelow(g, x)
  }

  ghost predicate NoneBetweenAbove(x: int, h: Bits16, g: Bits16)
    requires Finite(h)
  {
    Finite(g) && HVal(g) >= x ==> HVal(h) <= HVal(g)
  }

  ghost predicate FiniteBelow(g: Bits16, x: int) { Finite(g) ==> HVal(g) < x }

  /** Closest to and no greater than x; possibly -infinity. */
  ghost predicate IsTowardNegative(x: int, h: Bits16) {
    if Finite(h) then
      HVal(h) <= x && forall g: Bits16 :: NoneBetweenBelow(x, h, g)
    else
      h == Half(true, H_INF) && forall g: Bits16 :: FiniteAbove(g, x)
  }

  ghost predicate NoneBetweenBelow(x: int, h: Bits16, g: Bits16)
    requires Finite(h)
  {
    Finite(g) && HVal(g) <= x ==> HVal(g) <= HVal(h)
  }

  ghost predicate FiniteAbove(g: Bits16, x: int) { Finite(g) ==> HVal(g) > x }

  /** Closest to and no greater in magnitude than x. */
  ghost predicate IsTowardZero(x: int, h: Bits16) {
    && Finite(h) && Abs(HVal(h)) <= Abs(x)
    && forall g: Bits16 :: NoneBetweenInMagnitude(x, h, g)
  }

  ghost predicate NoneBetweenInMagnitude(x: int, h: Bits16, g: Bits16)
    requires Finite(h)
  {
    Finite(g) && Abs(HVal(g)) <= Abs(x) ==> Abs(HVal(g)) <= Abs(HVal(h))
  }

  /** Nearest, and the even one of two that are equally near. From half a unit in the last place
      above the largest finite half on, which is 65520, infinity with the sign of x. */
  ghost predicate IsNearestEven(x: int, h: Bits16) {
    if 2 * Abs(x) >= HMag(MAX_FINITE) + HMag(H_INF) then
      h == Half(x < 0, H_INF)
    else
      Finite(h) && forall g: Bits16 :: NoneNearer(x, h, g)
  }

  ghost predicate NoneNearer(x: int, h: Bits16, g: Bits16)
    requires Finite(h)
  {
    Finite(g) ==>
      && Abs(HVal(h) - x) <= Abs(HVal(g) - x)
      && (Abs(HVal(h) - x) == Abs(HVal(g) - x) && HVal(g) != HVal(h) ==> Code(h) % 2 == 0)
  }

  /** h is what the standard delivers for the number with this sign and magnitude. */
  ghost predicate Prescribed(sign: bool, magnitude: nat, mode: Mode, h: Bits16) {
    var x := Signed(sign, magnitude);
    && Sign(h) == sign
    && match mode
       case RTE => IsNearestEven(x, h)
       case RTZ => IsTowardZero(x, h)
       case RTP => IsTowardPositive(x, h)
       case RTN => IsTowardNegative(x, h)
  }

  // ----- The standard, as a function -----

  /** c is the largest pattern up to infinity's whose magnitude is at most x. */
  ghost predicate Truncates(c: nat, x: nat) {
    c <= H_INF && HMag(c) <= x && (c < H_INF ==> x < HMag(c + 1))
  }

  lemma {:induction false} TruncationExists(c: nat, x: nat)
    requires c <= H_INF && (c < H_INF ==> x < HMag(c + 1))
    ensures exists r :: Truncates(r, x)
  {
    ZeroMag();
    if HMag(c) <= x {
      assert Truncates(c, x);
    } else {
      TruncationExists(c - 1, x);
    }
  }

  ghost function Down(x: nat): (c: nat)
    ensures Truncates(c, x)
  {
    TruncationExists(H_INF, x);
    var c :| Truncates(c, x);
    c
  }

  ghost function Nearest(x: nat, c: nat): nat
    requires c < H_INF
  {
    var low, high := HMag(c), HMag(c + 1);
    if 2 * x < low + high then c
    else if 2 * x > low + high then c + 1
    else if c % 2 == 0 then c else c + 1
  }

  /** The pattern of the rounded magnitude. */
  ghost function RoundedCode(sign: bool, x: nat, mode: Mode): (c: nat)
    ensures c <= H_INF
  {
    var c := Down(x);
    if mode == RTZ || (mode == RTP && sign) || (mode == RTN && !sign) then
      if c == H_INF then MAX_FINITE else c
    else if c == H_INF then H_INF
    else if mode == RTE then Nearest(x, c)
    else if HMag(c) == x then c
    else c + 1
  }

  ghost function Rounded(sign: bool, x: nat, mode: Mode): Bits16 {
    Half(sign, RoundedCode(sign, x, mode))
  }

  // ----- They agree -----

  /** Order of patterns and order of magnitudes are the same. */
  lemma OrderOfCodes(c: nat, d: nat)
    ensures c <= d <==> HMag(c) <= HMag(d)
    ensures c == d <==> HMag(c) == HMag(d)
  {
    if c < d { HMagIncreases(c, d); } else if d < c { HMagIncreases(d, c); }
  }

  lemma ZeroMag()
    ensures HMag(0) == 0
  {
    HMagSubnormal(0);
  }

  lemma DownIs(x: nat, c: nat)
    requires c <= H_INF && HMag(c) <= x && (c < H_INF ==> x < HMag(c + 1))
    ensures Down(x) == c
  {
    var d := Down(x);
    if c < d {
      OrderOfCodes(c + 1, d);
    } else if d < c {
      OrderOfCodes(d + 1, c);
    }
  }

  /** The rounded pattern in terms of where x lies between two neighbouring ones. */
  lemma RoundedCodeAt(sign: bool, x: nat, mode: Mode, c: nat)
    requires c <= MAX_FINITE && HMag(c) <= x < HMag(c + 1)
    ensures RoundedCode(sign, x, mode) ==
      match mode
      case RTE => Nearest(x, c)
      case RTZ => c
      case RTP => if sign || HMag(c) == x then c else c + 1
      case RTN => if !sign || HMag(c) == x then c else c + 1
  {
    DownIs(x, c);
  }

  /** A finite half below or above the truncated pattern, in terms of magnitudes. */
  lemma Bracketed(x: nat, g: nat)
    ensures g <= Down(x) ==> HMag(g) <= HMag(Down(x))
    ensures g > Down(x) ==> HMag(Down(x) + 1) <= HMag(g)
    ensures g > Down(x) && Down(x) < H_INF ==> x < HMag(g)
  {
    OrderOfCodes(g, Down(x));
    OrderOfCodes(Down(x) + 1, g);
  }

  /** Rounding away from zero: up for positive numbers, down for negative ones. */
  lemma AwayFromZero(x: nat, sign: bool, c: nat)
    requires c == if Down(x) == H_INF || HMag(Down(x)) == x then Down(x) else Down(x) + 1
    ensures !sign ==> IsTowardPositive(x, Half(sign, c))
    ensures sign ==> IsTowardNegative(Signed(true, x), Half(sign, c))
  {
    var h := Half(sign, c);
    forall g: Bits16
      ensures !sign && Finite(h) ==> NoneBetweenAbove(x, h, g)
      ensures !sign && !Finite(h) ==> FiniteBelow(g, x)
      ensures sign && Finite(h) ==> NoneBetweenBelow(Signed(true, x), h, g)
      ensures sign && !Finite(h) ==> FiniteAbove(g, Signed(true, x))
    {
      Bracketed(x, Code(g));
      ZeroMag();
      OrderOfCodes(0, Code(g));
      OrderOfCodes(Code(g), MAX_FINITE);
      OrderOfCodes(MAX_FINITE, Down(x));
    }
  }

  /** Rounding toward zero: down for positive numbers, up for negative ones. */
  lemma Truncated(x: nat, sign: bool, c: nat)
    requires c == if Down(x) == H_INF then MAX_FINITE else Down(x)
    ensures IsTowardZero(Signed(sign, x), Half(sign, c))
    ensures !sign ==> IsTowardNegative(x, Half(sign, c))
    ensures sign ==> IsTowardPositive(Signed(true, x), Half(sign, c))
  {
    var h := Half(sign, c);
    OrderOfCodes(c, Down(x));
    forall g: Bits16
      ensures NoneBetweenInMagnitude(Signed(sign, x), h, g)
      ensures !sign ==> NoneBetweenBelow(x, h, g)
      ensures sign ==> NoneBetweenAbove(Signed(true, x), h, g)
    {
      Bracketed(x, Code(g));
      OrderOfCodes(Code(g), MAX_FINITE);
    }
  }

  /** No pattern's magnitude is nearer to x than the nearer of the two around it. */
  lemma NearestMagnitude(x: nat, d: nat)
    requires Down(x) < H_INF
    ensures var c := Nearest(x, Down(x));
      && Abs(HMag(c) - x) <= Abs(HMag(d) - x)
      && (Abs(HMag(c) - x) == Abs(HMag(d) - x) && d != c ==> c % 2 == 0)
  {
    Bracketed(x, d);
    OrderOfCodes(Down(x), d);
    OrderOfCodes(Down(x) + 1, d);
  }

  lemma NearestOfTwo(x: nat, sign: bool, g: Bits16)
    requires Down(x) < H_INF && Nearest(x, Down(x)) <= MAX_FINITE
    ensures NoneNearer(Signed(sign, x), Half(sign, Nearest(x, Down(x))), g)
  {
    if Sign(g) == sign {
      NearestMagnitude(x, Code(g));
    } else {
      // on the other side of zero nothing is nearer than zero itself
      NearestMagnitude(x, 0);
      ZeroMag();
    }
  }

  lemma NearestEven(x: nat, sign: bool, c: nat)
    requires c == if Down(x) == H_INF then H_INF else Nearest(x, Down(x))
    ensures IsNearestEven(Signed(sign, x), Half(sign, c))
  {
    OrderOfCodes(Down(x), MAX_FINITE);
    OrderOfCodes(Down(x) + 1, MAX_FINITE);
    OrderOfCodes(0, MAX_FINITE);
    OrderOfCodes(MAX_FINITE, H_INF);
    ZeroMag();
    if 2 * x < HMag(MAX_FINITE) + HMag(H_INF) {
      forall g: Bits16
        ensures NoneNearer(Signed(sign, x), Half(sign, c), g)
      {
        NearestOfTwo(x, sign, g);
      }
    }
  }

  /** The function delivers what the standard prescribes, for every number and every mode. */
  lemma RoundedIsPrescribed(sign: bool, x: nat, mode: Mode)
    ensures Prescribed(sign, x, mode, Rounded(sign, x, mode))
  {
    var c := RoundedCode(sign, x, mode);
    if mode == RTE {
      NearestEven(x, sign, c);
    } else if mode == RTZ || (mode == RTP && sign) || (mode == RTN && !sign) {
      Truncated(x, sign, c);
    } else {
      AwayFromZero(x, sign, c);
    }
  }

  // ----- The standard leaves no choice -----

  lemma SameValueSameHalf(g: Bits16, h: Bits16)
    requires Sign(g) == Sign(h) && HMag(Code(g)) == HMag(Code(h))
    ensures g == h
  {
    OrderOfCodes(Code(g), Code(h));
  }

  /** Two different patterns of one sign cannot both be nearest and even. */
  lemma NotBothNearest(sign: bool, x: nat, c: nat, d: nat)
    requires c < d <= MAX_FINITE
    ensures var y := Signed(sign, x);
      !( && NoneNearer(y, Half(sign, c), Half(sign, d))
         && NoneNearer(y, Half(sign, d), Half(sign, c))
         && NoneNearer(y, Half(sign, c), Half(sign, c + 1)))
  {
    HMagIncreases(c, d);
    HMagIncreases(c, c + 1);
    if c + 1 < d {
      HMagIncreases(c + 1, d);
      BetweenIsNearer(sign, x, HMag(c), HMag(c + 1), HMag(d));
    }
  }

  /** Of two numbers equally near to x, a number between them is nearer. */
  lemma BetweenIsNearer(sign: bool, x: nat, a: nat, m: nat, b: nat)
    requires a < m < b
    ensures var y := Signed(sign, x);
      Abs(Signed(sign, a) - y) == Abs(Signed(sign, b) - y) ==> Abs(Signed(sign, m) - y) < Abs(Signed(sign, a) - y)
  {
  }

  lemma NearestIsUnique(sign: bool, x: nat, g: Bits16, h: Bits16)
    requires Sign(g) == Sign(h) == sign
    requires IsNearestEven(Signed(sign, x), g) && IsNearestEven(Signed(sign, x), h)
    ensures g == h
  {
    var y := Signed(sign, x);
    if 2 * x < HMag(MAX_FINITE) + HMag(H_INF) && g != h {
      var c, d := if Code(g) < Code(h) then Code(g) else Code(h), if Code(g) < Code(h) then Code(h) else Code(g);
      assert g == Half(sign, Code(g)) && h == Half(sign, Code(h));
      NotBothNearest(sign, x, c, d);
    }
  }

  lemma AboveIsUnique(y: int, g: Bits16, h: Bits16)
    requires Sign(g) == Sign(h) && IsTowardPositive(y, g) && IsTowardPositive(y, h)
    ensures g == h
  {
    if Finite(g) && Finite(h) {
      assert NoneBetweenAbove(y, g, h) && NoneBetweenAbove(y, h, g);
      SameValueSameHalf(g, h);
    } else {
      assert Finite(g) || FiniteBelow(h, y);
      assert Finite(h) || FiniteBelow(g, y);
    }
  }

  lemma BelowIsUnique(y: int, g: Bits16, h: Bits16)
    requires Sign(g) == Sign(h) && IsTowardNegative(y, g) && IsTowardNegative(y, h)
    ensures g == h
  {
    if Finite(g) && Finite(h) {
      assert NoneBetweenBelow(y, g, h) && NoneBetweenBelow(y, h, g);
      SameValueSameHalf(g, h);
    } else {
      assert Finite(g) || FiniteAbove(h, y);
      assert Finite(h) || FiniteAbove(g, y);
    }
  }

  lemma TruncatedIsUnique(y: int, g: Bits16, h: Bits16)
    requires Sign(g) == Sign(h) && IsTowardZero(y, g) && IsTowardZero(y, h)
    ensures g == h
  {
    assert NoneBetweenInMagnitude(y, g, h) && NoneBetweenInMagnitude(y, h, g);
    SameValueSameHalf(g, h);
  }

  /** For every number and mode exactly one half is prescribed: the one that Rounded gives. */
  lemma PrescribedIsUnique(sign: bool, x: nat, mode: Mode, h: Bits16)
    ensures Prescribed(sign, x, mode, h) <==> h == Rounded(sign, x, mode)
  {
    RoundedIsPrescribed(sign, x, mode);
    var g := Rounded(sign, x, mode);
    if Prescribed(sign, x, mode, h) {
      match mode {
        case RTE => NearestIsUnique(sign, x, g, h);
        case RTZ => TruncatedIsUnique(Signed(sign, x), g, h);
        case RTP => AboveIsUnique(Signed(sign, x), g, h);
        case RTN => BelowIsUnique(Signed(sign, x), g, h);
      }
    }
  }

  // ----- How the four modes relate -----

  function Flip(h: Bits16): Bits16 { Half(!Sign(h), Code(h)) }

  /** The magnitude is that of a finite half. */
  ghost predicate Representable(x: nat) {
    exists c :: 0 <= c <= MAX_FINITE && HMag(c) == x
  }

  /** The next half in the direction of +infinity, for patterns of one sign. */
  predicate NextUp(low: Bits16, high: Bits16) {
    Sign(low) == Sign(high) && if Sign(low) then Code(low) == Code(high) + 1 else Code(high) == Code(low) + 1
  }

  /** Negation exchanges the two directed modes and commutes with the other two; rounding up and
      rounding down give the same half exactly for representable numbers and neighbours otherwise;
      the other two modes always give one of them. */
  lemma ModesRelate(sign: bool, x: nat)
    ensures Rounded(!sign, x, RTP) == Flip(Rounded(sign, x, RTN))
    ensures Rounded(!sign, x, RTN) == Flip(Rounded(sign, x, RTP))
    ensures Rounded(!sign, x, RTE) == Flip(Rounded(sign, x, RTE))
    ensures Rounded(!sign, x, RTZ) == Flip(Rounded(sign, x, RTZ))
    ensures Rounded(sign, x, RTP) == Rounded(sign, x, RTN) <==> Representable(x)
    ensures !Representable(x) ==> NextUp(Rounded(sign, x, RTN), Rounded(sign, x, RTP))
    ensures Rounded(sign, x, RTE) in {Rounded(sign, x, RTP), Rounded(sign, x, RTN)}
    ensures Rounded(sign, x, RTZ) in {Rounded(sign, x, RTP), Rounded(sign, x, RTN)}
  {
    var c := Down(x);
    if Representable(x) {
      var d: nat :| d <= MAX_FINITE && HMag(d) == x;
      OrderOfCodes(d, c);
      OrderOfCodes(c + 1, d);
    } else if c <= MAX_FINITE {
      assert HMag(c) != x;
    }
  }

  /** A representable number is rounded to itself in every mode. */
  lemma ExactIsKept(sign: bool, c: nat, mode: Mode)
    requires c <= MAX_FINITE
    ensures Rounded(sign, HMag(c), mode) == Half(sign, c)
  {
    HMagIncreases(c, c + 1);
    DownIs(HMag(c), c);
  }
}
