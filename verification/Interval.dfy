/** The adaptive interval: one step in Go's int64 arithmetic, and where repeated steps lead. */
module Interval {
  import opened Core
  import opened Settings

  /** computeNextInterval. The multiplications wrap as int64; the halvings are of non-negative durations. */
  function ComputeNextInterval(base: int, previous: int, totalItems: int, batchSize: int): int {
    if totalItems == 0 then
      var ceiling := Wrap64(base * 4);
      var doubled := Wrap64(previous * 2);
      if doubled > ceiling then ceiling else doubled
    else if totalItems > Wrap64(batchSize * 2) then
      var floor := base / 4;
      var halved := previous / 2;
      if halved < floor then floor else halved
    else base
  }

  /** What a cycle found, as far as the interval is concerned. */
  datatype Finding = Empty | Backlog | Steady

  function FindingOf(totalItems: int, batchSize: int): Finding {
    if totalItems == 0 then Empty else if totalItems > Wrap64(batchSize * 2) then Backlog else Steady
  }

  /** The step over unbounded integers. */
  function Next(base: int, previous: int, finding: Finding): int {
    match finding
    case Empty => Min(2 * previous, 4 * base)
    case Backlog => Max(previous / 2, base / 4)
    case Steady => base
  }

  const MAX_INTERVAL := 4 * MAX_SEARCH_INTERVAL

  /** The step case by case, when twice the batch size does not leave int64. */
  lemma StepCases(base: int, previous: int, n: nat, batch: int)
    requires -TWO_63 / 2 <= batch < TWO_63 / 2
    ensures var next := Next(base, previous, FindingOf(n, batch));
            && (n == 0 ==> next == if 2 * previous > 4 * base then 4 * base else 2 * previous)
            && (n > 0 && n > 2 * batch ==> next == if previous / 2 < base / 4 then base / 4 else previous / 2)
            && (0 < n <= 2 * batch ==> next == base)
  {
    assert Wrap64(batch * 2) == batch * 2;
    hide Wrap64;
  }

  /** With a base the settings can produce and an interval the scheduler can hold, nothing wraps, and the result is
      again an interval the scheduler can hold. */
  lemma StepStaysInRange(base: int, previous: int, totalItems: int, batchSize: int)
    requires 0 < base <= MAX_SEARCH_INTERVAL && 0 <= previous <= MAX_INTERVAL
    ensures var next := ComputeNextInterval(base, previous, totalItems, batchSize);
            next == Next(base, previous, FindingOf(totalItems, batchSize)) && 0 <= next <= MAX_INTERVAL
  {
    hide Wrap64;
    assert Wrap64(base * 4) == base * 4 && Wrap64(previous * 2) == previous * 2;
  }

  /** From a positive interval the result is zero only in one corner: a backlog at a base under 4ns, down from 1ns. */
  lemma StepStaysPositive(base: int, previous: int, finding: Finding)
    requires base > 0 && previous > 0
    ensures Next(base, previous, finding) >= 0
    ensures Next(base, previous, finding) == 0 <==> finding.Backlog? && previous == 1 && base < 4
  {
  }

  /** The backlog test compares with twice the batch size unless that product leaves int64. From 2^62 on the product
      turns negative and every non-empty cycle counts as a backlog; below -2^62 it turns non-negative. */
  lemma BacklogTest(totalItems: int, batchSize: int)
    requires 0 < totalItems <= MAX_INT64 && IsInt64(batchSize)
    ensures (FindingOf(totalItems, batchSize) == Backlog <==> totalItems > 2 * batchSize)
       <==> batchSize < TWO_63 / 2 && (batchSize < -TWO_63 / 2 ==> totalItems > 2 * batchSize + TWO_64)
  {
    if batchSize >= TWO_63 / 2 {
      assert Wrap64(batchSize * 2) == batchSize * 2 - TWO_64;
    } else if batchSize < -TWO_63 / 2 {
      assert Wrap64(batchSize * 2) == batchSize * 2 + TWO_64;
    }
  }

  // ---------- repeated cycles at a constant base ----------

  /** The interval a cycle starts from: a zero interval falls back to the base. */
  function Previous(base: int, stored: int): int { if stored > 0 then stored else base }

  function After(base: int, stored: int, findings: seq<Finding>): int {
    if findings == [] then stored
    else
      var n := |findings| - 1;
      Next(base, Previous(base, After(base, stored, findings[..n])), findings[n])
  }

  predicate InBand(base: int, interval: int) { base / 4 <= interval <= 4 * base }

  /** The band around the base is closed under every outcome. */
  lemma BandIsClosed(base: int, interval: int, finding: Finding)
    requires base >= 1 && InBand(base, interval)
    ensures InBand(base, Next(base, Previous(base, interval), finding))
  {
  }

  /** From any interval and under any outcomes, n cycles bring it within the band once 2^n covers its distance. */
  lemma {:induction false} BandIsReached(base: int, stored: int, findings: seq<Finding>)
    requires base >= 1 && stored > 0
    requires stored <= 4 * base * Pow2(|findings|) && base / 4 <= stored * Pow2(|findings|)
    ensures InBand(base, After(base, stored, findings))
  {
    Approach(base, stored, findings, |findings|);
    assert Pow2(0) == 1;
  }

  /** After k of n cycles the remaining distance is at most 2^(n-k) on either side. */
  lemma {:induction false} Approach(base: int, stored: int, findings: seq<Finding>, n: nat)
    requires base >= 1 && stored > 0 && |findings| <= n
    requires stored <= 4 * base * Pow2(n) && base / 4 <= stored * Pow2(n)
    ensures var p, room := After(base, stored, findings), Pow2(n - |findings|);
            p >= 0 && p <= 4 * base * room && base / 4 <= p * room
  {
    if findings != [] {
      var k := |findings| - 1;
      Approach(base, stored, findings[..k], n);
      var p, q := After(base, stored, findings[..k]), After(base, stored, findings);
      var half := Pow2(n - k - 1);
      assert Pow2(n - k) == 2 * half;
      PowPositive(n - k - 1);
      if p == 0 {
        InsideStays(base, half);
      }
      OneApproach(4 * base, base / 4, Previous(base, p), q, half);
    }
  }

  /** The fallback from a zero interval starts from the base, inside the band. */
  lemma InsideStays(base: int, half: int)
    requires base >= 1 && half >= 1
    ensures base <= 4 * base * (2 * half) && base / 4 <= base * (2 * half)
  {
    Monotone(1, 2 * half, base);
    assert 4 * base * (2 * half) == 4 * (base * (2 * half));
  }

  lemma PowPositive(n: nat)
    ensures Pow2(n) >= 1
  {
  }

  /** One step either lands within [bottom, top] or halves the distance to it. */
  lemma OneApproach(top: int, bottom: int, p: int, q: int, half: int)
    requires p > 0 && q >= 0 && top > 0 && half >= 1
    requires p <= top * (2 * half) && bottom <= p * (2 * half)
    requires if q <= top then bottom <= q || q == 2 * p else bottom <= q && 2 * q <= p
    ensures q <= top * half && bottom <= q * half
  {
    Monotone(1, half, q);
    Monotone(1, half, top);
    assert p * (2 * half) == 2 * (p * half) && top * (2 * half) == 2 * (top * half);
    assert q == 2 * p ==> q * half == 2 * (p * half);
  }

  lemma {:induction false} StaysPositive(base: int, findings: seq<Finding>)
    requires base >= 4
    ensures After(base, base, findings) > 0
  {
    if findings != [] {
      StaysPositive(base, findings[..|findings| - 1]);
    }
  }

  /** Starting from the base, some outcomes bring the interval to zero exactly when the base is below 4ns. */
  lemma ZeroIsReachable(base: int)
    requires base > 0
    ensures (exists findings :: After(base, base, findings) == 0) <==> base < 4
  {
    if base < 4 {
      TwoBacklogs(base);
      var two: seq<Finding> := [Backlog, Backlog];
      assert After(base, base, two) == 0;
    } else {
      forall findings: seq<Finding>
        ensures After(base, base, findings) != 0
      {
        StaysPositive(base, findings);
      }
    }
    hide After;
  }

  lemma TwoBacklogs(base: int)
    requires 0 < base < 4
    ensures After(base, base, [Backlog, Backlog]) == 0
  {
    var one, two: seq<Finding> := [Backlog], [Backlog, Backlog];
    assert two[..1] == one && one[..0] == [];
    assert After(base, base, one) == base / 2;
  }

  /** n >= 1 empty cycles double the interval n times, up to four times the base. */
  lemma {:induction false} EmptyCycles(base: int, stored: int, n: nat)
    requires base > 0 && stored > 0 && n >= 1
    ensures After(base, stored, seq(n, _ => Empty)) == Min(Pow2(n) * stored, 4 * base)
  {
    var findings: seq<Finding> := seq(n, _ => Empty);
    var front: seq<Finding> := seq(n - 1, _ => Empty);
    assert findings[..n - 1] == front;
    if n == 1 {
      assert Pow2(1) == 2 * Pow2(0) == 2;
    } else {
      EmptyCycles(base, stored, n - 1);
      PowPositive(n - 1);
      var x := Pow2(n - 1) * stored;
      assert x > 0 by { Monotone(1, Pow2(n - 1), stored); }
      assert Pow2(n) * stored == 2 * x by { Regroup(Pow2(n - 1), stored); }
      hide Pow2;
      assert After(base, stored, findings) == Next(base, Min(x, 4 * base), Empty);
    }
  }

  lemma Regroup(a: int, b: int)
    ensures (2 * a) * b == 2 * (a * b)
  {
  }

  /** n >= 1 backlog cycles halve it n times in integer division, down to a quarter of the base. */
  lemma {:induction false} BacklogCycles(base: int, stored: int, n: nat)
    requires base >= 4 && stored > 0 && n >= 1
    ensures Pow2(n) > 0 && After(base, stored, seq(n, _ => Backlog)) == Max(stored / Pow2(n), base / 4)
  {
    var findings: seq<Finding> := seq(n, _ => Backlog);
    var front: seq<Finding> := seq(n - 1, _ => Backlog);
    assert findings[..n - 1] == front;
    PowPositive(n);
    if n == 1 {
      assert Pow2(1) == 2 * Pow2(0) == 2;
    } else {
      BacklogCycles(base, stored, n - 1);
      PowPositive(n - 1);
      DivDiv(stored, Pow2(n - 1), 2);
    }
  }
}
