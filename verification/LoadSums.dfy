/** The checksum that the latency loops accumulate, over whole laps of a chase. */
module LoadSums {
  import opened Common
  import opened Cycles

  /** The sum of the cell numbers that the steps lo, ..., lo + len - 1 of a chase are at. */
  ghost function LoadSum(a: seq<nat>, start: nat, lo: nat, len: nat): nat {
    if len == 0 then 0
    else LoadSum(a, start, lo, len - 1) + Reached(Chase(a, lo + len - 1, start))
  }

  function Reached(c: Option<nat>): nat {
    match c case None => 0 case Some(v) => v
  }

  ghost function AddrSum(addr: nat -> nat, n: nat): nat {
    if n == 0 then 0 else AddrSum(addr, n - 1) + addr(n - 1)
  }

  /** The same sum, counted cell by cell. */
  ghost function WeightedLoads(a: seq<nat>, start: nat, lo: nat, len: nat, addr: nat -> nat, m: nat): nat {
    if m == 0 then 0
    else WeightedLoads(a, start, lo, len, addr, m - 1) + addr(m - 1) * CountLoads(a, start, lo, len, addr(m - 1))
  }

  ghost predicate InjectiveBelow(addr: nat -> nat, n: nat) {
    forall i, j :: 0 <= i < j < n ==> addr(i) != addr(j)
  }

  lemma {:induction false} NoLoads(a: seq<nat>, start: nat, lo: nat, addr: nat -> nat, m: nat)
    ensures WeightedLoads(a, start, lo, 0, addr, m) == 0
  {
    if m > 0 {
      NoLoads(a, start, lo, addr, m - 1);
    }
  }

  /** One more load adds the number of the cell it is at. */
  lemma {:induction false} OneMoreLoad(a: seq<nat>, start: nat, lo: nat, len: nat, addr: nat -> nat, n: nat, m: nat,
        i: nat)
    requires InjectiveBelow(addr, n) && m <= n && i < n && len > 0
    requires Chase(a, lo + len - 1, start) == Some(addr(i))
    ensures WeightedLoads(a, start, lo, len, addr, m) ==
      WeightedLoads(a, start, lo, len - 1, addr, m) + (if i < m then addr(i) else 0)
  {
    if m > 0 {
      OneMoreLoad(a, start, lo, len, addr, n, m - 1, i);
      var before := CountLoads(a, start, lo, len - 1, addr(m - 1));
      if i == m - 1 {
        assert addr(i) * (before + 1) == addr(i) * before + addr(i);
      } else if i < m - 1 {
        assert addr(i) != addr(m - 1);
      } else {
        assert addr(m - 1) != addr(i);
      }
    }
  }

  lemma {:induction false} SumIsWeighted(a: seq<nat>, start: nat, n: nat, addr: nat -> nat, lo: nat, len: nat)
    requires OneLap(a, start, n, addr) && n > 0 && InjectiveBelow(addr, n)
    ensures LoadSum(a, start, lo, len) == WeightedLoads(a, start, lo, len, addr, n)
  {
    if len == 0 {
      NoLoads(a, start, lo, addr, n);
    } else {
      SumIsWeighted(a, start, n, addr, lo, len - 1);
      LapRepeats(a, start, n, addr, lo + len - 1);
      var i: nat :| i < n && Chase(a, lo + len - 1, start) == Some(addr(i));
      OneMoreLoad(a, start, lo, len, addr, n, n, i);
    }
  }

  lemma {:induction false} EqualWeights(a: seq<nat>, start: nat, lo: nat, len: nat, addr: nat -> nat, m: nat, q: nat)
    requires forall i :: 0 <= i < m ==> CountLoads(a, start, lo, len, addr(i)) == q
    ensures WeightedLoads(a, start, lo, len, addr, m) == q * AddrSum(addr, m)
  {
    if m > 0 {
      EqualWeights(a, start, lo, len, addr, m - 1, q);
      assert CountLoads(a, start, lo, len, addr(m - 1)) == q;
      assert q * (AddrSum(addr, m - 1) + addr(m - 1)) == q * AddrSum(addr, m - 1) + addr(m - 1) * q;
    }
  }

  /** Over q whole laps, wherever they begin, the sum is q times the sum of all pattern cells. */
  lemma LapsSum(a: seq<nat>, start: nat, n: nat, addr: nat -> nat, lo: nat, q: nat, len: nat)
    requires OneLap(a, start, n, addr) && n > 0 && InjectiveBelow(addr, n) && len == q * n
    ensures LoadSum(a, start, lo, len) == q * AddrSum(addr, n)
  {
    SumIsWeighted(a, start, n, addr, lo, len);
    forall i | 0 <= i < n
      ensures CountLoads(a, start, lo, len, addr(i)) == q
    {
      LapsLoadEvenly(a, start, n, addr, lo, q, len, i);
    }
    EqualWeights(a, start, lo, len, addr, n, q);
  }
}
