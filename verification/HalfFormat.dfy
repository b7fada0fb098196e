/** Binary interchange formats of IEEE 754-2019, section 3.4, as bit patterns with exact values.
    All magnitudes are counted in units of 2^-1074, the smallest positive double. */
module HalfFormat {
  import opened Common

  function Pow2(n: nat): (r: nat)
    ensures r > 0
  {
    if n == 0 then 1 else 2 * Pow2(n - 1)
  }

  lemma {:induction false} Pow2Add(m: nat, n: nat)
    ensures Pow2(m + n) == Pow2(m) * Pow2(n)
  {
    if m > 0 {
      Pow2Add(m - 1, n);
      assert m + n - 1 == m - 1 + n;
      assert 2 * (Pow2(m - 1) * Pow2(n)) == (2 * Pow2(m - 1)) * Pow2(n);
    }
  }

  lemma {:induction false} Pow2Mono(m: nat, n: nat)
    requires m <= n
    ensures Pow2(m) <= Pow2(n)
  {
    if m < n {
      Pow2Mono(m, n - 1);
    }
  }

  lemma Pow2Constants()
    ensures Pow2(10) == 0x400 && Pow2(13) == 0x2000 && Pow2(23) == 0x80_0000 && Pow2(29) == 0x2000_0000
    ensures Pow2(42) == 0x400_0000_0000 && Pow2(52) == 0x10_0000_0000_0000
  {
    assert Pow2(3) == 8;
    assert Pow2(6) == 64 by { Pow2Add(3, 3); }
    assert Pow2(10) == 1024 by { Pow2Add(6, 4); assert Pow2(4) == 16; }
    Pow2Add(10, 3);
    Pow2Add(10, 13);
    Pow2Add(23, 6);
    Pow2Add(29, 13);
    Pow2Add(42, 10);
  }

  // ----- The three formats -----

  const F10 := 0x400                      // fraction of a half: 10 bits
  const F23 := 0x80_0000                  // of a float: 23 bits
  const F52 := 0x10_0000_0000_0000        // of a double: 52 bits

  const SIGN16 := 0x8000
  const SIGN32 := 0x8000_0000
  const SIGN64 := 0x8000_0000_0000_0000

  type Bits16 = h: int | 0 <= h < 0x1_0000
  type Bits32 = f: int | 0 <= f < 0x1_0000_0000
  type Bits64 = d: int | 0 <= d < 0x1_0000_0000_0000_0000

  const H_INF := 0x7C00                   // exponent field all ones, sign removed

  /** The magnitude of a bit pattern without its sign, in units of the format's smallest positive
      number: the fraction alone below the first binade, with the implicit one above it. */
  ghost function Grid(code: nat, frac: nat): nat
    requires frac > 0
  {
    var e, m := code / frac, code % frac;
    if e == 0 then m else (frac + m) * Pow2(e - 1)
  }

  /** Magnitudes in the common unit. The pattern of a half's infinity is given the magnitude 2^16,
      which is what it would denote if the exponent range were larger. */
  ghost function HMag(code: nat): nat { Grid(code, F10) * Pow2(1050) }

  ghost function FMag(code: nat): nat { Grid(code, F23) * Pow2(925) }

  ghost function DMag(code: nat): nat { Grid(code, F52) }

  /** The magnitude of a pattern given by its two fields. */
  lemma GridOf(e: nat, m: nat, frac: nat)
    requires m < frac
    ensures Grid(e * frac + m, frac) == if e == 0 then m else (frac + m) * Pow2(e - 1)
  {
    Quotient(e * frac + m, frac, e, m);
  }

  /** The next pattern is one unit in the last place larger. */
  lemma GridStep(e: nat, m: nat, frac: nat)
    requires m < frac
    ensures Grid(e * frac + m + 1, frac) == Grid(e * frac + m, frac) + (if e == 0 then 1 else Pow2(e - 1))
  {
    GridOf(e, m, frac);
    if m + 1 < frac {
      GridOf(e, m + 1, frac);
      if e > 0 { NextMultiple(frac + m, Pow2(e - 1)); }
    } else {
      NextMultiple(e, frac);
      GridOf(e + 1, 0, frac);
      if e > 0 { NextBinade(frac, m, Pow2(e - 1)); } else { assert Pow2(0) == 1; }
    }
  }

  lemma NextBinade(frac: nat, m: nat, p: nat)
    requires m + 1 == frac
    ensures frac * (2 * p) == (frac + m) * p + p
  {
    assert frac * (2 * p) == (2 * frac) * p;
    NextMultiple(frac + m, p);
  }

  /** Every pattern has an exponent and a fraction. */
  lemma {:induction false} Fields(c: nat, frac: nat) returns (e: nat, m: nat)
    requires frac > 0
    ensures c == e * frac + m && m < frac
    decreases c
  {
    if c < frac {
      e, m := 0, c;
    } else {
      e, m := Fields(c - frac, frac);
      NextMultiple(e, frac);
      e := e + 1;
    }
  }

  /** Larger patterns denote strictly larger magnitudes. */
  lemma {:induction false} GridIncreases(c: nat, d: nat, frac: nat)
    requires frac > 0 && c < d
    ensures Grid(c, frac) < Grid(d, frac)
    decreases d
  {
    var e, m := Fields(d - 1, frac);
    GridStep(e, m, frac);
    if c < d - 1 {
      GridIncreases(c, d - 1, frac);
    }
  }

  lemma HMagIncreases(c: nat, d: nat)
    requires c < d
    ensures HMag(c) < HMag(d)
  {
    GridIncreases(c, d, F10);
    StrictlyScaled(Grid(c, F10), Grid(d, F10), Pow2(1050));
  }

  lemma Assoc(a: nat, b: nat, c: nat)
    ensures (a * b) * c == a * (b * c)
  {
  }

  lemma StrictlyScaled(i: nat, j: nat, d: nat)
    requires i < j && d > 0
    ensures i * d < j * d
  {
    MulMono(i + 1, j, d);
    NextMultiple(i, d);
  }

  /** A pattern of a binade, and its successor, in the common unit. */
  lemma HMagNormal(hExp: nat, t: nat)
    requires hExp >= 1 && t < F10
    ensures HMag(hExp * F10 + t) == (F10 + t) * Pow2(hExp + 1049)
    ensures HMag(hExp * F10 + t + 1) == (F10 + t + 1) * Pow2(hExp + 1049)
  {
    var c := hExp * F10 + t;
    GridOf(hExp, t, F10);
    GridStep(hExp, t, F10);
    Pow2Add(hExp - 1, 1050);
    SuccessorScaled(F10 + t, Pow2(hExp - 1), Pow2(1050));
  }

  lemma SuccessorScaled(m: nat, p: nat, u: nat)
    ensures (m * p) * u == m * (p * u)
    ensures (m * p + p) * u == (m + 1) * (p * u)
  {
    Assoc(m, p, u);
    assert (m * p + p) * u == (m * p) * u + p * u;
    assert (m + 1) * (p * u) == m * (p * u) + p * u;
  }

  lemma HMagSubnormal(t: nat)
    requires t < F10
    ensures HMag(t) == t * Pow2(1050)
    ensures HMag(t + 1) == (t + 1) * Pow2(1050)
  {
    GridOf(0, t, F10);
    GridStep(0, t, F10);
  }

  lemma FMagNormal(e: nat, m: nat)
    requires e >= 1 && m < F23
    ensures FMag(e * F23 + m) == (F23 + m) * Pow2(e + 924)
  {
    GridOf(e, m, F23);
    Pow2Add(e - 1, 925);
    Assoc(F23 + m, Pow2(e - 1), Pow2(925));
  }

  lemma DMagNormal(e: nat, m: nat)
    requires e >= 1 && m < F52
    ensures DMag(e * F52 + m) == (F52 + m) * Pow2(e - 1)
  {
    GridOf(e, m, F52);
  }
}
