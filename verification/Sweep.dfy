/** Repeated cycles sweep the candidates: each uncooled item is sent exactly once, in list order, a batch at a time,
    whatever else the daemon does in between. */
module Sweep {
  import opened Core
  import opened Settings
  import opened Cooldown
  import opened Machine
  import Runs

  /** What stays the same over a sweep: the instance, its candidate list, its period and batch size; and the times its
      cooldown checks lie between. */
  datatype Plan = Plan(id: UUID, items: seq<int>, period: int, batch: int, first: int, last: int)

  predicate CycleFor(l: Label, id: UUID) { l.Commit? && l.cycle.inst.id == id }

  function CyclesOf(ls: seq<Label>, id: UUID): nat {
    if ls == [] then 0 else CyclesOf(ls[..|ls| - 1], id) + if CycleFor(ls[|ls| - 1], id) then 1 else 0
  }

  /** Everything the instance's cycles sent, in order. */
  function SentBy(ls: seq<Label>, id: UUID): seq<int> {
    if ls == [] then []
    else SentBy(ls[..|ls| - 1], id) + if CycleFor(ls[|ls| - 1], id) then ls[|ls| - 1].cycle.sent else []
  }

  /** A cycle of the plan in which every call succeeds. */
  ghost predicate Undisturbed(c: Cycle, p: Plan) {
    && c.answered && c.candidates == p.items && (c.sent != [] ==> c.stamps != [])
    && c.settings.cooldownPeriod == p.period && c.settings.batchSize == p.batch
    && p.first <= c.checkedAt <= p.last
  }

  /** The instance's cycles are undisturbed, over one duplicate-free candidate list, with a positive batch size, and no
      row expires: a row fresh at the first time is fresh at the last, and less than the period lies between them.
      Nothing is asked of any other section. */
  ghost predicate Sweeping(rows: Table, p: Plan, ls: seq<Label>) {
    && p.batch >= 1 && Distinct(p.items) && NoneExpires(rows, p)
    && forall i :: 0 <= i < |ls| && CycleFor(ls[i], p.id) ==> Undisturbed(ls[i].cycle, p)
  }

  ghost predicate NoneExpires(rows: Table, p: Plan) {
    && Millis(p.last) - Millis(p.first) < 1000 * WholeSeconds(p.period)
    && forall x :: x in p.items && IsCooling(rows, p.id, x, p.period, p.first) ==>
         IsCooling(rows, p.id, x, p.period, p.last)
  }

  /** The items to be swept. */
  function Backlog(rows: Table, p: Plan): seq<int> { Uncooled(rows, p.id, p.items, p.period, p.first) }

  function Clip(n: int, s: seq<int>): (m: nat)
    ensures m <= |s|
  {
    if n < 0 then 0 else if n > |s| then |s| else n
  }

  /** How many of s the first k batches of size b cover. */
  function Covered(s: seq<int>, k: nat, b: int): (m: nat)
    ensures m <= |s|
  {
    Clip(k * b, s)
  }

  /** The k-th slice of size b. */
  function Slice(s: seq<int>, k: nat, b: int): seq<int>
    requires b >= 1
  {
    CoveredGrows(s, k, b);
    s[Covered(s, k, b)..Covered(s, k + 1, b)]
  }

  lemma CoveredGrows(s: seq<int>, k: nat, b: int)
    requires b >= 1
    ensures Covered(s, k + 1, b) == Clip(Covered(s, k, b) + b, s)
    ensures Covered(s, 0, b) == 0
    ensures k * b >= |s| ==> Covered(s, k, b) == |s|
  {
    assert (k + 1) * b == k * b + b && k * b >= 0 by { Monotone(0, k, b); }
    assert 0 * b == 0;
  }

  lemma SliceStep(s: seq<int>, k: nat, b: int)
    requires b >= 1
    ensures Slice(s, k, b) == FirstBatch(s[Covered(s, k, b)..], b)
    ensures s[..Covered(s, k, b)] + Slice(s, k, b) == s[..Covered(s, k + 1, b)]
  {
    CoveredGrows(s, k, b);
    hide Covered;
  }

  // ---------- filtering with a prefix gone ----------

  lemma {:induction false} UncooledDistinct(rows: Table, id: UUID, items: seq<int>, period: int, now: int)
    requires Distinct(items)
    ensures Distinct(Uncooled(rows, id, items, period, now))
  {
    hide IsCooling;
    if items != [] {
      var front, last := items[..|items| - 1], items[|items| - 1];
      UncooledDistinct(rows, id, front, period, now);
      UncooledMeaning(rows, id, front, period, now);
      assert last !in front;
      DistinctConcat(Uncooled(rows, id, front, period, now), [last]);
    }
  }

  /** Dropping a prefix commutes with appending one more element. */
  lemma PrefixStep(some: seq<int>, last: int, cools: bool, m: nat)
    requires last !in some && m <= |some| + if cools then 0 else 1
    ensures var all := some + if cools then [] else [last];
            var n := if m <= |some| then m else |some|;
            && (forall x :: x != last ==> (x in all[..m] <==> x in some[..n]))
            && (last in all[..m] <==> !cools && m > |some|)
            && all[m..] == some[n..] + if cools || m > |some| then [] else [last]
  {
    var all := some + if cools then [] else [last];
    if m <= |some| {
      assert all[..m] == some[..m];
    } else {
      assert all[..m] == some + [last] && some[..|some|] == some;
    }
  }

  /** If exactly the first m of the uncooled items have become cooling, the rest are what is left, in order. */
  lemma {:induction false} UncooledDropsPrefix(before: Table, after: Table, id: UUID, items: seq<int>, period: int,
                                               t: int, t': int, m: nat)
    requires Distinct(items) && m <= |Uncooled(before, id, items, period, t)|
    requires var all := Uncooled(before, id, items, period, t);
             forall x :: x in items ==> (IsCooling(after, id, x, period, t') <==>
                                           IsCooling(before, id, x, period, t) || x in all[..m])
    ensures Uncooled(after, id, items, period, t') == Uncooled(before, id, items, period, t)[m..]
  {
    hide IsCooling;
    if items != [] {
      var front, last := items[..|items| - 1], items[|items| - 1];
      var some := Uncooled(before, id, front, period, t);
      UncooledMeaning(before, id, front, period, t);
      assert last in items && last !in front && forall x :: x in front ==> x in items;
      PrefixStep(some, last, IsCooling(before, id, last, period, t), m);
      UncooledDropsPrefix(before, after, id, front, period, t, t', if m <= |some| then m else |some|);
    }
  }

  // ---------- the sweep ----------

  /** At every check still to come exactly the rows cooling at the start and the items sent since are cooling. */
  ghost predicate SweptSoFar(rows: Table, s: State, p: Plan, sent: seq<int>) {
    forall x, t :: x in p.items && Max(s.clock, p.first) <= t <= p.last ==>
      (IsCooling(s.cooldowns, p.id, x, p.period, t) <==> IsCooling(rows, p.id, x, p.period, p.first) || x in sent)
  }

  lemma CoolingFades(rows: Table, id: UUID, x: int, period: int, t: int, t': int)
    requires t <= t' && IsCooling(rows, id, x, period, t')
    ensures IsCooling(rows, id, x, period, t)
  {
    MillisMonotone(t, t');
    hide Millis;
  }

  lemma SweepStarts(s: State, p: Plan)
    requires NoneExpires(s.cooldowns, p)
    ensures SweptSoFar(s.cooldowns, s, p, [])
  {
    hide IsCooling;
    forall x, t | x in p.items && Max(s.clock, p.first) <= t <= p.last
      ensures IsCooling(s.cooldowns, p.id, x, p.period, t) <==> IsCooling(s.cooldowns, p.id, x, p.period, p.first)
    {
      if IsCooling(s.cooldowns, p.id, x, p.period, t) {
        CoolingFades(s.cooldowns, p.id, x, p.period, p.first, t);
      }
      if IsCooling(s.cooldowns, p.id, x, p.period, p.first) {
        CoolingFades(s.cooldowns, p.id, x, p.period, t, p.last);
      }
    }
  }

  /** A period that the retention covers. */
  ghost predicate Retained(p: Plan) { WholeSeconds(p.period) <= WholeSeconds(COOLDOWN_RETENTION) }

  /** No other section changes what is cooling for the instance. */
  lemma OthersKeep(s: State, l: Label, p: Plan, x: int, t: int)
    requires Guard(s, l) && !CycleFor(l, p.id) && Retained(p) && Apply(s, l).clock <= t
    ensures IsCooling(Apply(s, l).cooldowns, p.id, x, p.period, t) <==> IsCooling(s.cooldowns, p.id, x, p.period, t)
  {
    hide CycleGuard, Millis, WholeSeconds, Recorded, Horizon;
    if l.Commit? && |l.cycle.stamps| >= |l.cycle.sent| {
      RecordedElsewhere(s.cooldowns, l.cycle.inst.id, l.cycle.sent, l.cycle.stamps, (p.id, x));
    } else if l.Prune? && l.deleted {
      PruningIsInvisible(COOLDOWN_RETENTION, l.at, p.period);
      assert SameAnswer(s.cooldowns, COOLDOWN_RETENTION, l.at, p.id, x, p.period, t);
    }
  }

  lemma OtherStep(rows: Table, s: State, l: Label, p: Plan, sent: seq<int>)
    requires Guard(s, l) && !CycleFor(l, p.id) && Retained(p) && SweptSoFar(rows, s, p, sent)
    ensures SweptSoFar(rows, Apply(s, l), p, sent)
  {
    ClockAdvances(s, l);
    hide Guard, Apply, IsCooling, CycleFor, Retained;
    forall x, t | x in p.items && Max(Apply(s, l).clock, p.first) <= t <= p.last
      ensures IsCooling(Apply(s, l).cooldowns, p.id, x, p.period, t)
              <==> IsCooling(rows, p.id, x, p.period, p.first) || x in sent
    {
      OthersKeep(s, l, p, x, t);
    }
  }

  /** The instance's own cycle sends the next batch of the backlog. */
  lemma OwnSends(rows: Table, s: State, c: Cycle, p: Plan, m: nat)
    requires CycleGuard(s, c) && c.inst.id == p.id && Undisturbed(c, p) && Distinct(p.items)
    requires m <= |Backlog(rows, p)| && SweptSoFar(rows, s, p, Backlog(rows, p)[..m])
    ensures c.sent == FirstBatch(Backlog(rows, p)[m..], p.batch)
  {
    hide IsCooling, Interval.ComputeNextInterval, Uncooled, FirstBatch;
    UncooledDropsPrefix(rows, s.cooldowns, p.id, p.items, p.period, p.first, c.checkedAt, m);
  }

  /** What it sends is cooling from then on, for as long as the sweep lasts. */
  lemma OwnStep(rows: Table, s: State, c: Cycle, p: Plan, sent: seq<int>)
    requires CycleGuard(s, c) && c.inst.id == p.id && Undisturbed(c, p) && NoneExpires(rows, p)
    requires SweptSoFar(rows, s, p, sent)
    ensures SweptSoFar(rows, Apply(s, Commit(c)), p, sent + c.sent)
  {
    var after := Apply(s, Commit(c)).cooldowns;
    assert |c.stamps| >= |c.sent| && after == Recorded(s.cooldowns, p.id, c.sent, c.stamps);
    assert s.clock <= c.endedAt && Apply(s, Commit(c)).clock == c.endedAt;
    assert forall i :: 0 <= i < |c.sent| ==> p.first <= c.stamps[i];
    assert c.sent != [] ==> Ascending(c.stamps);
    hide CycleGuard, Recorded, IsCooling, Apply, Undisturbed, NoneExpires;
    forall x, t | x in p.items && Max(c.endedAt, p.first) <= t <= p.last
      ensures IsCooling(after, p.id, x, p.period, t)
              <==> IsCooling(rows, p.id, x, p.period, p.first) || x in sent || x in c.sent
    {
      if x in c.sent {
        StampedCools(rows, s.cooldowns, p, c.sent, c.stamps, x, t);
      } else {
        UnsentStays(s.cooldowns, p, c.sent, c.stamps, x, t);
      }
    }
  }

  lemma UnsentStays(rows: Table, p: Plan, sent: seq<int>, stamps: seq<int>, x: int, t: int)
    requires |stamps| >= |sent| && x !in sent
    ensures IsCooling(Recorded(rows, p.id, sent, stamps), p.id, x, p.period, t)
       <==> IsCooling(rows, p.id, x, p.period, t)
  {
    RecordedElsewhere(rows, p.id, sent, stamps, (p.id, x));
    hide Recorded, Horizon;
  }

  lemma StampedCools(start: Table, rows: Table, p: Plan, sent: seq<int>, stamps: seq<int>, x: int, t: int)
    requires x in sent && |stamps| >= |sent| && Ascending(stamps) && NoneExpires(start, p) && t <= p.last
    requires forall i :: 0 <= i < |sent| ==> p.first <= stamps[i]
    ensures IsCooling(Recorded(rows, p.id, sent, stamps), p.id, x, p.period, t)
  {
    var k :| 0 <= k < |sent| && sent[k] == x;
    RecordedAt(rows, p.id, sent, stamps, k);
    MillisMonotone(p.first, stamps[k]);
    MillisMonotone(t, p.last);
    hide Recorded, Millis, WholeSeconds;
  }

  /** The k-th cycle of the instance, when the first k slices are done. */
  lemma SweepCycle(rows: Table, s: State, l: Label, p: Plan, k: nat)
    requires Guard(s, l) && CycleFor(l, p.id) && Undisturbed(l.cycle, p)
    requires p.batch >= 1 && Distinct(p.items) && NoneExpires(rows, p)
    requires SweptSoFar(rows, s, p, Backlog(rows, p)[..Covered(Backlog(rows, p), k, p.batch)])
    ensures l.cycle.sent == Slice(Backlog(rows, p), k, p.batch)
    ensures var done := Backlog(rows, p)[..Covered(Backlog(rows, p), k, p.batch)] + l.cycle.sent;
            && done == Backlog(rows, p)[..Covered(Backlog(rows, p), k + 1, p.batch)]
            && SweptSoFar(rows, Apply(s, l), p, done)
  {
    var all := Backlog(rows, p);
    hide SweptSoFar, Backlog, Slice, Covered, NoneExpires, CycleGuard, Apply, Undisturbed;
    OwnSends(rows, s, l.cycle, p, Covered(all, k, p.batch));
    OwnStep(rows, s, l.cycle, p, all[..Covered(all, k, p.batch)]);
    SliceStep(all, k, p.batch);
  }

  lemma SweepingFront(rows: Table, p: Plan, ls: seq<Label>)
    requires Sweeping(rows, p, ls) && ls != []
    ensures var front, l := ls[..|ls| - 1], ls[|ls| - 1];
            && Sweeping(rows, p, front) && (CycleFor(l, p.id) ==> Undisturbed(l.cycle, p))
            && p.batch >= 1 && Distinct(p.items) && NoneExpires(rows, p)
  {
    hide NoneExpires, Undisturbed, CycleFor, Distinct;
    assert forall i :: 0 <= i < |ls| - 1 ==> ls[..|ls| - 1][i] == ls[i];
  }

  lemma {:induction false} SweepProgress(s0: State, ls: seq<Label>, p: Plan)
    requires Execution(s0, ls) && Sweeping(s0.cooldowns, p, ls) && Retained(p)
    ensures var all := Backlog(s0.cooldowns, p);
            && SentBy(ls, p.id) == all[..Covered(all, CyclesOf(ls, p.id), p.batch)]
            && SweptSoFar(s0.cooldowns, Replay(s0, ls), p, SentBy(ls, p.id))
    ensures ls != [] && CycleFor(ls[|ls| - 1], p.id) ==>
              ls[|ls| - 1].cycle.sent == Slice(Backlog(s0.cooldowns, p), CyclesOf(ls[..|ls| - 1], p.id), p.batch)
  {
    hide *;
    var all, rows := Backlog(s0.cooldowns, p), s0.cooldowns;
    if ls == [] {
      NothingSwept(s0, p);
    } else {
      var front, l := ls[..|ls| - 1], ls[|ls| - 1];
      SweepingFront(rows, p, ls);
      LastSection(s0, ls, p.id);
      SweepProgress(s0, front, p);
      var s, k := Replay(s0, front), CyclesOf(front, p.id);
      if CycleFor(l, p.id) {
        SweepCycle(rows, s, l, p, k);
      } else {
        OtherStep(rows, s, l, p, SentBy(front, p.id));
      }
    }
  }

  lemma NothingSwept(s0: State, p: Plan)
    requires Sweeping(s0.cooldowns, p, [])
    ensures var all := Backlog(s0.cooldowns, p);
            && SentBy([], p.id) == all[..Covered(all, CyclesOf([], p.id), p.batch)]
            && SweptSoFar(s0.cooldowns, Replay(s0, []), p, SentBy([], p.id))
  {
    CoveredGrows(Backlog(s0.cooldowns, p), 0, p.batch);
    SweepStarts(s0, p);
    hide Covered, Backlog, NoneExpires, SweptSoFar;
  }

  /** The last section of an execution, and what it adds to an instance's cycles. */
  lemma LastSection(s0: State, ls: seq<Label>, id: UUID)
    requires Execution(s0, ls) && ls != []
    ensures var front, l := ls[..|ls| - 1], ls[|ls| - 1];
            && Execution(s0, front) && Guard(Replay(s0, front), l) && Replay(s0, ls) == Apply(Replay(s0, front), l)
            && CyclesOf(ls, id) == CyclesOf(front, id) + (if CycleFor(l, id) then 1 else 0)
            && SentBy(ls, id) == SentBy(front, id) + (if CycleFor(l, id) then l.cycle.sent else [])
            && (CycleFor(l, id) ==> l.Commit?)
  {
    hide Guard, Apply;
  }

  /** Every period in force at a cycle is covered by the retention. */
  lemma CycleIsRetained(s0: State, ls: seq<Label>, p: Plan, i: nat)
    requires Execution(s0, ls) && Sweeping(s0.cooldowns, p, ls) && i < |ls| && CycleFor(ls[i], p.id)
    ensures Retained(p)
  {
    GuardAt(s0, ls, i);
    assert Undisturbed(ls[i].cycle, p) && Bounded(ls[i].cycle.settings);
    hide Replay, Execution, NoneExpires;
  }

  lemma {:induction false} SomeCycle(ls: seq<Label>, id: UUID) returns (i: nat)
    requires CyclesOf(ls, id) > 0
    ensures i < |ls| && CycleFor(ls[i], id)
  {
    i := |ls| - 1;
    if !CycleFor(ls[i], id) {
      i := SomeCycle(ls[..i], id);
    }
  }

  /** In any execution the k-th cycle of the instance sends exactly the k-th slice of the initially uncooled candidates,
      in list order, whatever other sections run before, between and after. */
  lemma SweepCoversInOrder(s0: State, ls: seq<Label>, p: Plan, i: nat)
    requires Execution(s0, ls) && Sweeping(s0.cooldowns, p, ls) && i < |ls| && CycleFor(ls[i], p.id)
    ensures ls[i].cycle.sent == Slice(Backlog(s0.cooldowns, p), CyclesOf(ls[..i], p.id), p.batch)
  {
    CycleIsRetained(s0, ls, p, i);
    PrefixExecutes(s0, ls, i + 1);
    var upTo := ls[..i + 1];
    assert upTo[..i] == ls[..i] && forall j :: 0 <= j <= i ==> upTo[j] == ls[j];
    assert Sweeping(s0.cooldowns, p, upTo) by { hide NoneExpires, Undisturbed; }
    hide Sweeping, Retained, CycleFor, Slice, Backlog, Execution, Replay;
    SweepProgress(s0, upTo, p);
  }

  /** Each is sent at most once, and ceil(n/B) cycles exhaust them. */
  lemma SweepIsExact(s0: State, ls: seq<Label>, p: Plan)
    requires Execution(s0, ls) && Sweeping(s0.cooldowns, p, ls)
    ensures var all, k := Backlog(s0.cooldowns, p), CyclesOf(ls, p.id);
            && Distinct(SentBy(ls, p.id)) && SentBy(ls, p.id) == all[..Covered(all, k, p.batch)]
            && (k * p.batch >= |all| ==> SentBy(ls, p.id) == all)
  {
    var all, k := Backlog(s0.cooldowns, p), CyclesOf(ls, p.id);
    CoveredGrows(all, k, p.batch);
    UncooledDistinct(s0.cooldowns, p.id, p.items, p.period, p.first);
    if k > 0 {
      var i := SomeCycle(ls, p.id);
      CycleIsRetained(s0, ls, p, i);
      SweepProgress(s0, ls, p);
    } else {
      NothingSent(ls, p.id);
      CoveredGrows(all, 0, p.batch);
    }
    hide Covered, Uncooled, Sweeping, SentBy, CyclesOf, Execution;
  }

  lemma {:induction false} NothingSent(ls: seq<Label>, id: UUID)
    requires CyclesOf(ls, id) == 0
    ensures SentBy(ls, id) == []
  {
    if ls != [] {
      NothingSent(ls[..|ls| - 1], id);
    }
  }

  /** The daemon's whole life up to some point, and a sweep over the stretch of it that follows: restarts, other
      instances, polls, pruning and failed ticks included. */
  lemma LivesSweep(cooldowns: Table, polls: map<UUID, int>, t0: int, steps: seq<Runs.Step>, m: nat, n: nat, p: Plan)
    requires Runs.LifeReadings(t0, steps) && m <= n <= |Runs.Life(Runs.Born(cooldowns, polls, t0), steps).trace|
    requires var trace := Runs.Life(Runs.Born(cooldowns, polls, t0), steps).trace;
             Sweeping(Replay(New(cooldowns, polls, t0), trace[..m]).cooldowns, p, trace[m..n])
    ensures var trace := Runs.Life(Runs.Born(cooldowns, polls, t0), steps).trace;
            var all, ls := Backlog(Replay(New(cooldowns, polls, t0), trace[..m]).cooldowns, p), trace[m..n];
            && (forall i :: 0 <= i < |ls| && CycleFor(ls[i], p.id) ==>
                  ls[i].cycle.sent == Slice(all, CyclesOf(ls[..i], p.id), p.batch))
            && Distinct(SentBy(ls, p.id))
            && (CyclesOf(ls, p.id) * p.batch >= |all| ==> SentBy(ls, p.id) == all)
  {
    var s0, trace := New(cooldowns, polls, t0), Runs.Life(Runs.Born(cooldowns, polls, t0), steps).trace;
    Runs.LifeIsExecution(cooldowns, polls, t0, steps);
    PrefixExecutes(s0, trace, n);
    SuffixExecutes(s0, trace[..n], m);
    assert trace[..n][..m] == trace[..m] && trace[..n][m..] == trace[m..n];
    var start, ls := Replay(s0, trace[..m]), trace[m..n];
    hide Runs.Life, Runs.LifeReadings, Replay, Execution, Sweeping, Slice, Backlog, SentBy, CyclesOf, CycleFor;
    forall i | 0 <= i < |ls| && CycleFor(ls[i], p.id)
      ensures ls[i].cycle.sent == Slice(Backlog(start.cooldowns, p), CyclesOf(ls[..i], p.id), p.batch)
    {
      SweepCoversInOrder(start, ls, p, i);
    }
    SweepIsExact(start, ls, p);
  }
}
