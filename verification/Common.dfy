/** Definitions and facts that several components share. */
module Common {

  const TWO_TO_31 := 0x8000_0000
  const TWO_TO_32 := 0x1_0000_0000

  type byte = b: int | 0 <= b < 0x100

  datatype Option<+T> = None | Some(value: T)

  /** All rounds, one after the other. */
  function Flatten<T>(rounds: seq<seq<T>>): seq<T> {
    if rounds == [] then [] else Flatten(rounds[..|rounds| - 1]) + rounds[|rounds| - 1]
  }

  // ----- Multiples -----

  lemma NextMultiple(q: nat, d: nat)
    ensures (q + 1) * d == q * d + d
  {
  }

  lemma {:induction false} MulMono(i: nat, j: nat, d: nat)
    requires i <= j
    ensures i * d <= j * d
    decreases j
  {
    if i < j {
      MulMono(i, j - 1, d);
      NextMultiple(j - 1, d);
    }
  }

  lemma MulStep(i: nat, j: nat, d: nat)
    requires i < j
    ensures i * d + d <= j * d
  {
    MulMono(i + 1, j, d);
    NextMultiple(i, d);
  }

  /** Quotient and remainder are what a number splits into. */
  lemma Quotient(c: nat, d: nat, q: nat, r: nat)
    requires r < d && c == q * d + r
    ensures c / d == q && c % d == r
  {
    var q', r' := c / d, c % d;
    assert c == q' * d + r';
    if q' < q { MulStep(q', q, d); } else if q < q' { MulStep(q, q', d); }
  }
}
