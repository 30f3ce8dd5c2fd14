/** Concrete lives of the daemon that attain what the general results allow: each is a sequence of ticks over settings
    rows and libraries that could be stored and fetched. */
module Scenarios {
  import opened Core
  import opened Text
  import opened Settings
  import opened Quality
  import opened Cooldown
  import opened Machine
  import opened TickSpec
  import opened Runs
  import History
  import Interval
  import Durations
  import Polling
  import Schedules

  // ---------- a library of missing items ----------

  /** n monitored items without a file, with the IDs 0 to n - 1. */
  function Library(n: nat): seq<LibraryItem> { seq(n, i => LibraryItem(i, "", "", 0, [], false, true)) }

  function Numbers(n: nat): seq<int> { seq(n, i => i) }

  lemma {:induction false} LibraryIsMissing(n: nat)
    ensures IDs(Missing(Library(n))) == Numbers(n) && Upgradeable(Library(n), map[]) == []
  {
    if n > 0 {
      LibraryIsMissing(n - 1);
      assert Library(n)[..n - 1] == Library(n - 1);
      assert Missing(Library(n)) == Missing(Library(n - 1)) + [UpgradeItem(n - 1, "", "")];
      assert Numbers(n) == Numbers(n - 1) + [n - 1];
    }
  }

  lemma LibraryCandidates(n: nat)
    ensures Candidates([], Library(n), true) == Numbers(n)
  {
    LibraryIsMissing(n);
    assert [] + Missing(Library(n)) == Missing(Library(n));
    hide Missing, Upgradeable;
  }

  lemma {:induction false} NothingCools(rows: Table, id: UUID, items: seq<int>, period: int, now: int)
    requires forall x :: (id, x) !in rows
    ensures Uncooled(rows, id, items, period, now) == items
  {
    assert forall x :: !IsCooling(rows, id, x, period, now);
    hide IsCooling;
    if items != [] {
      NothingCools(rows, id, items[..|items| - 1], period, now);
    }
  }

  // ---------- a tick at one instant ----------

  /** What a cycle meets: a library of n missing items, and every call answered but for the recording. */
  function Meets(t: int, n: nat, recordFailAt: Option<nat>): CycleInput {
    CycleInput(true, Some([]), Some(Library(n)), t, true, true, [], recordFailAt, t)
  }

  function Named(id: UUID): Instance { Instance(id, "", History.MovieField) }

  /** A listed instance without settings of its own; its history is not polled. */
  function Lists(id: UUID, t: int, rows: seq<Setting>, n: nat, recordFailAt: Option<nat>): InstanceInput {
    InstanceInput(Named(id), true, Some(rows), Some([]), 0, Meets(t, n, recordFailAt),
                  PollInput(true, false, t, None, [], t, false))
  }

  /** A tick whose clock readings are all t and in which nothing is pruned. */
  function At(t: int, rows: seq<Setting>, list: seq<InstanceInput>): TickInput {
    TickInput(t, Some(rows), Some(list), t, false, false, t)
  }

  ghost predicate AllAt(t: int, list: seq<InstanceInput>) {
    forall i :: 0 <= i < |list| ==> list[i].cycle.checkedAt == list[i].cycle.endedAt == t && list[i].cycle.stamps == []
                                    && list[i].poll.storedAt == t && list[i].poll.live && !list[i].poll.lastPolledOk
  }

  lemma {:induction false} InstantReadings(t: int, list: seq<InstanceInput>)
    requires AllAt(t, list)
    ensures InstanceReadings(t, list) && InstancesEnd(t, list) == t && PollReadings(t, list) && PollsEnd(t, list) == t
    decreases |list|
  {
    if list != [] {
      InstantReadings(t, list[1..]);
    }
  }

  lemma {:induction false} PollsDoNothing(r: Run, list: seq<InstanceInput>, t: int)
    requires AllAt(t, list)
    ensures PollInstances(r, list) == r
    decreases |list|
  {
    if list != [] {
      PollsDoNothing(r, list[1..], t);
    }
  }

  /** The run when the instance loop begins. */
  function Begun(r: Run, t: int, limit: int): Run { Do(Do(r, TickStart(t)), LimitRead(limit)) }

  /** Such a tick does what its instance loop does: later phases touch neither the count nor listed entries nor the
      cooldown table. */
  lemma TickIsItsLoop(r: Run, t: int, rows: seq<Setting>, list: seq<InstanceInput>)
    requires !r.state.crashed && AllAt(t, list)
    ensures var limit := ResolveGlobal(rows).searchLimit;
            var (cycled, _), next := Instances(Begun(r, t, limit), t, limit, list), Tick(r, At(t, rows, list));
            && cycled.trace <= next.trace && next.state.searchCount == cycled.state.searchCount
            && next.state.cooldowns == cycled.state.cooldowns && next.state.crashed == cycled.state.crashed
            && next.state.hourResetAt == cycled.state.hourResetAt
            && (forall k :: |cycled.trace| <= k < |next.trace| ==> !next.trace[k].Commit?)
            && forall id :: id in Listed(list) ==> Schedules.Entry(next.state, id) == Schedules.Entry(cycled.state, id)
  {
    hide Instances, ResolveGlobal, AllAt, Listed;
    var limit := ResolveGlobal(rows).searchLimit;
    var (cycled, goesOn) := Instances(Begun(r, t, limit), t, limit, list);
    if goesOn {
      PollsDoNothing(Do(Do(cycled, Retain(Listed(list))), PollDue(t)), list, t);
    }
  }

  lemma TickReads(t0: int, t: int, rows: seq<Setting>, list: seq<InstanceInput>)
    requires t0 <= t && AllAt(t, list)
    ensures TickReadings(t0, At(t, rows, list)) && TickEnd(At(t, rows, list)) == t
  {
    InstantReadings(t, list);
    hide AllAt, InstanceReadings, PollReadings, InstancesEnd, PollsEnd;
  }

  // ---------- one cycle ----------

  /** Settings under which an instance is searched at any time of day, missing items included. */
  predicate Searches(r: Resolved) {
    r.enabled && r.searchMissing && r.searchWindowStart == "" && r.searchWindowEnd == "" && r.batchSize >= 0
  }

  lemma OwnRowsAbsent(rows: seq<Setting>)
    ensures Resolve(rows, []) == ResolveGlobal(rows)
  {
    NoRows(Overlay(DEFAULTS, rows));
    hide Overlay;
  }

  /** A due instance with a library of n missing items, none of them cooling, searches a batch of them. */
  lemma CycleSends(r: Run, t: int, limit: int, id: UUID, rows: seq<Setting>, n: nat, recordFailAt: Option<nat>)
    requires Searches(ResolveGlobal(rows)) && (forall x :: (id, x) !in r.state.cooldowns)
    requires id in r.state.schedules ==> r.state.schedules[id].nextSearchAt <= t
    ensures var settings, x := ResolveGlobal(rows), Lists(id, t, rows, n, recordFailAt);
            var o := RunInstanceCycle(r.state.cooldowns, id, settings, x.cycle);
            && o.Done? && o.answered && o.candidates == Numbers(n)
            && o.sent == FirstBatch(Numbers(n), settings.batchSize)
            && (o.stamps != [] ==> recordFailAt != Some(0)) && (o.stamps == [] || |o.stamps| == |o.sent|)
            && OneInstance(r, t, limit, x) == Do(r, Commit(CycleOf(r.state, t, limit, x, settings, o)))
  {
    var settings, x := ResolveGlobal(rows), Lists(id, t, rows, n, recordFailAt);
    OwnRowsAbsent(rows);
    LibraryCandidates(n);
    NothingCools(r.state.cooldowns, id, Numbers(n), settings.cooldownPeriod, t);
    hide Resolve, ResolveGlobal, Candidates, Uncooled, Library, CycleOf, Numbers, Apply;
    assert RunInstanceCycle(r.state.cooldowns, id, settings, x.cycle).Done?;
  }

  // ---------- a tick that finds one instance ----------

  /** One listed instance, whose cycle fails to record what it searched. */
  function LoneTick(t: int, rows: seq<Setting>, n: nat): TickInput { At(t, rows, [Lists(0, t, rows, n, Some(0))]) }

  lemma LoneIsAt(t: int, rows: seq<Setting>, n: nat)
    ensures AllAt(t, [Lists(0, t, rows, n, Some(0))]) && 0 in Listed([Lists(0, t, rows, n, Some(0))])
  {
    var list := [Lists(0, t, rows, n, Some(0))];
    assert list[0] in list && list[0].inst.id == 0;
  }

  /** The cycle that tick commits when the instance is due. */
  function LoneCycle(s: State, t: int, r: Resolved, n: nat): (c: Cycle) {
    var previous := PreviousInterval(s, 0, r.searchInterval);
    Cycle(Named(0), t, r.searchLimit, r, 0, Numbers(n), true, t, FirstBatch(Numbers(n), r.batchSize), [], previous,
          Interval.ComputeNextInterval(r.searchInterval, previous, n, r.batchSize), t)
  }

  /** The instance is due at t, nothing of it cools, and the budget is open. */
  ghost predicate Ready(s: State, t: int, r: Resolved) {
    && !s.crashed && Searches(r) && (forall x :: (0, x) !in s.cooldowns)
    && (0 in s.schedules ==> s.schedules[0].nextSearchAt <= t)
    && Apply(s, TickStart(t)).searchCount < r.searchLimit
  }

  lemma BegunKeeps(r: Run, t: int, limit: int)
    ensures var begun := Begun(r, t, limit).state;
            && begun.schedules == r.state.schedules && begun.cooldowns == r.state.cooldowns
            && begun.crashed == r.state.crashed && begun.searchCount == Apply(r.state, TickStart(t)).searchCount
            && begun.hourResetAt == Apply(r.state, TickStart(t)).hourResetAt
    ensures Begun(r, t, limit).trace == r.trace + [TickStart(t), LimitRead(limit)]
  {
    hide NextHourBoundary;
  }

  lemma LoneLoop(r: Run, t: int, rows: seq<Setting>, n: nat)
    requires Ready(r.state, t, ResolveGlobal(rows)) && ResolveGlobal(rows).batchSize >= 1 && n >= 1
    ensures var g := ResolveGlobal(rows);
            var begun := Begun(r, t, g.searchLimit);
            Instances(begun, t, g.searchLimit, [Lists(0, t, rows, n, Some(0))]).0
            == Do(begun, Commit(LoneCycle(r.state, t, g, n)))
  {
    var g := ResolveGlobal(rows);
    var begun, x := Begun(r, t, g.searchLimit), Lists(0, t, rows, n, Some(0));
    BegunKeeps(r, t, g.searchLimit);
    hide Begun, Apply;
    CycleSends(begun, t, g.searchLimit, 0, rows, n, Some(0));
    var o := RunInstanceCycle(begun.state.cooldowns, 0, g, x.cycle);
    hide RunInstanceCycle, OneInstance, ResolveGlobal, FirstBatch, Library, Numbers;
    assert o.stamps == [];
    LoneCycleIs(begun.state, r.state, t, g, rows, n, o);
    assert [x][1..] == [];
  }

  lemma LoneCycleIs(s: State, was: State, t: int, g: Resolved, rows: seq<Setting>, n: nat, o: CycleOutcome)
    requires o.Done? && o.candidates == Numbers(n) && o.answered
    requires o.sent == FirstBatch(Numbers(n), g.batchSize) && o.stamps == []
    requires s.schedules == was.schedules
    ensures CycleOf(s, t, g.searchLimit, Lists(0, t, rows, n, Some(0)), g, o) == LoneCycle(was, t, g, n)
  {
    hide Interval.ComputeNextInterval, FirstBatch;
  }

  lemma BatchNotEmpty(n: nat, size: int)
    requires n >= 1 && size >= 1
    ensures FirstBatch(Numbers(n), size) != [] && FirstBatch(Numbers(1), size) == [0]
    ensures |FirstBatch(Numbers(n), size)| == Min(n, size)
  {
  }

  lemma LoneTickCycles(r: Run, t: int, rows: seq<Setting>, n: nat)
    requires Ready(r.state, t, ResolveGlobal(rows)) && ResolveGlobal(rows).batchSize >= 1 && n >= 1
    ensures var g, next, k := ResolveGlobal(rows), Tick(r, LoneTick(t, rows, n)), |r.trace| + 2;
            var c := LoneCycle(r.state, t, g, n);
            && r.trace <= next.trace && k < |next.trace| && next.trace[k] == Commit(c) && !next.state.crashed
            && (forall i :: |r.trace| <= i < |next.trace| && next.trace[i].Commit? ==> i == k)
            && Schedules.Entry(next.state, 0) == Some(NextSchedule(c)) && next.state.cooldowns == r.state.cooldowns
            && next.state.searchCount == Apply(r.state, TickStart(t)).searchCount + Min(n, g.batchSize)
            && next.state.hourResetAt == Apply(r.state, TickStart(t)).hourResetAt
  {
    var g, list := ResolveGlobal(rows), [Lists(0, t, rows, n, Some(0))];
    LoneLoop(r, t, rows, n);
    BegunKeeps(r, t, g.searchLimit);
    LoneIsAt(t, rows, n);
    TickIsItsLoop(r, t, rows, list);
    BatchNotEmpty(n, g.batchSize);
    hide Tick, Instances, ResolveGlobal, Listed, AllAt, Interval.ComputeNextInterval, Recorded, FirstBatch, Numbers;
    var c := LoneCycle(r.state, t, g, n);
    assert c.sent != [] && c.stamps == [] && c.inst.id == 0;
    var begun := Begun(r, t, g.searchLimit);
    var cycled := Do(begun, Commit(c));
    hide Begun, LoneCycle;
    assert cycled.trace == begun.trace + [Commit(c)] && |begun.trace| == |r.trace| + 2;
  }

  // ---------- two ticks, half an hour apart ----------

  const FIRST := HOUR
  const SECOND_TICK := HOUR + 30 * MINUTE

  function TwoTicks(rows: seq<Setting>, n: nat): seq<Step> {
    [TickStep(LoneTick(FIRST, rows, n)), TickStep(LoneTick(SECOND_TICK, rows, n))]
  }

  function FirstRun(): Run { Born(map[], map[], FIRST) }

  lemma TwoTicksLive(rows: seq<Setting>, n: nat)
    ensures LifeReadings(FIRST, TwoTicks(rows, n))
    ensures Life(FirstRun(), TwoTicks(rows, n))
         == Tick(Tick(FirstRun(), LoneTick(FIRST, rows, n)), LoneTick(SECOND_TICK, rows, n))
  {
    LoneIsAt(FIRST, rows, n);
    LoneIsAt(SECOND_TICK, rows, n);
    TickReads(FIRST, FIRST, rows, [Lists(0, FIRST, rows, n, Some(0))]);
    TickReads(FIRST, SECOND_TICK, rows, [Lists(0, SECOND_TICK, rows, n, Some(0))]);
    hide Tick, TickReadings, AllAt, TickEnd;
    var steps := TwoTicks(rows, n);
    var one := [steps[0]];
    assert steps[..1] == one && one[..0] == [];
    assert Life(FirstRun(), []) == FirstRun();
    assert Life(FirstRun(), one) == Tick(FirstRun(), LoneTick(FIRST, rows, n));
    assert LifeReadings(FIRST, []);
    assert LifeReadings(FIRST, one) && LifeEnd(FIRST, one) == FIRST;
  }

  /** Both ticks commit a cycle of the instance, the second continuing from the first one's interval. */
  lemma TwoTicksCycle(rows: seq<Setting>, n: nat) returns (c0: Cycle, c1: Cycle, k: nat)
    requires var g := ResolveGlobal(rows);
             && Searches(g) && g.batchSize >= 1 && n >= 1 && Min(n, g.batchSize) < g.searchLimit
             && Interval.ComputeNextInterval(g.searchInterval, g.searchInterval, n, g.batchSize) <= 30 * MINUTE
    ensures var g, r := ResolveGlobal(rows), Life(FirstRun(), TwoTicks(rows, n));
            && 2 < k < |r.trace| && r.trace[2] == Commit(c0) && r.trace[k] == Commit(c1)
            && (forall i :: 0 <= i < |r.trace| && r.trace[i].Commit? ==> i == 2 || i == k)
            && c0.inst == c1.inst == Named(0) && c0.settings == c1.settings == g && c0.stamps == c1.stamps == []
            && c0.sent == c1.sent == FirstBatch(Numbers(n), g.batchSize)
            && c0.checkedAt == FIRST && c1.checkedAt == SECOND_TICK
            && c0.interval == Interval.ComputeNextInterval(g.searchInterval, g.searchInterval, n, g.batchSize)
            && c1.interval == Interval.ComputeNextInterval(g.searchInterval,
                  Interval.Previous(g.searchInterval, c0.interval), n, g.batchSize)
            && Schedules.Entry(r.state, 0) == Some(NextSchedule(c1))
  {
    var g, r0 := ResolveGlobal(rows), FirstRun();
    TwoTicksLive(rows, n);
    hide ResolveGlobal, Tick, Life, Interval.ComputeNextInterval, FirstBatch, Numbers, LoneTick, TwoTicks;
    ReadyFirst(g);
    LoneTickCycles(r0, FIRST, rows, n);
    c0 := LoneCycle(r0.state, FIRST, g, n);
    var r1 := Tick(r0, LoneTick(FIRST, rows, n));
    LaterTick(r1.state, g, Min(n, g.batchSize), c0);
    LoneTickCycles(r1, SECOND_TICK, rows, n);
    c1 := LoneCycle(r1.state, SECOND_TICK, g, n);
    k := |r1.trace| + 2;
    hide Ready, LoneCycle;
    var r2 := Tick(r1, LoneTick(SECOND_TICK, rows, n));
    assert forall i :: 0 <= i < |r1.trace| ==> r2.trace[i] == r1.trace[i];
  }

  lemma ReadyFirst(g: Resolved)
    requires Searches(g) && g.searchLimit >= 1
    ensures Ready(FirstRun().state, FIRST, g) && Apply(FirstRun().state, TickStart(FIRST)).searchCount == 0
    ensures Apply(FirstRun().state, TickStart(FIRST)).hourResetAt == 2 * HOUR
    ensures forall base :: PreviousInterval(FirstRun().state, 0, base) == base
  {
  }

  lemma LaterTick(s: State, g: Resolved, count: int, c: Cycle)
    requires !s.crashed && Searches(g) && s.cooldowns == map[] && s.hourResetAt == 2 * HOUR
    requires s.searchCount == count < g.searchLimit
    requires Schedules.Entry(s, 0) == Some(NextSchedule(c)) && c.inst == Named(0)
    requires c.endedAt == FIRST && c.interval <= 30 * MINUTE
    ensures Ready(s, SECOND_TICK, g)
    ensures forall base :: PreviousInterval(s, 0, base) == Interval.Previous(base, c.interval)
  {
    hide NextHourBoundary, Searches;
  }

  lemma DefaultsResolved()
    ensures ResolveGlobal([]) == DEFAULTS
  {
    NoRows(DEFAULTS);
  }

  /** The stamp is what protects. With the default settings, when recording a search fails, the next cycle of the
      instance, half an hour later, searches the same item again although its cooldown period is a day. */
  lemma UnrecordedMayRepeat()
    ensures exists steps: seq<Step>, t0, i, j ::
              && LifeReadings(t0, steps)
              && var ls := Life(Born(map[], map[], t0), steps).trace;
              && 0 <= i < j < |ls| && ls[i].Commit? && ls[j].Commit? && ls[i].cycle.stamps == []
              && ls[i].cycle.inst == ls[j].cycle.inst && ls[i].cycle.sent == ls[j].cycle.sent == [0]
              && Millis(ls[j].cycle.checkedAt)
                 < Millis(ls[i].cycle.checkedAt) + 1000 * WholeSeconds(ls[j].cycle.settings.cooldownPeriod)
  {
    DefaultsResolved();
    assert Interval.ComputeNextInterval(30 * MINUTE, 30 * MINUTE, 1, 4) == 30 * MINUTE;
    BatchNotEmpty(1, 4);
    assert Millis(SECOND_TICK) < Millis(FIRST) + 1000 * WholeSeconds(24 * HOUR);
    hide ResolveGlobal, Interval.ComputeNextInterval, Life, LifeReadings, FirstBatch, Millis, WholeSeconds, TwoTicks;
    TwoTicksLive([], 1);
    var c0, c1, k := TwoTicksCycle([], 1);
    assert Born(map[], map[], FIRST) == FirstRun();
    assert Life(Born(map[], map[], FIRST), TwoTicks([], 1)).trace[2] == Commit(c0);
  }

  // ---------- a base below four nanoseconds ----------

  function BaseRow(base: nat): Setting { Setting(None, SearchInterval, PrintNat(base) + "ns") }

  lemma BaseMeans(base: nat)
    requires 0 < base <= MAX_SEARCH_INTERVAL
    ensures ValidateEntry(SearchInterval, BaseRow(base).value)
    ensures Meaning(SearchInterval, BaseRow(base).value) == Some(Span(base))
  {
    assert BaseRow(base).value == PrintNat(base) + "ns" && base <= MaxSpan(SearchInterval);
    hide *;
    Durations.NanosParse(base);
    DurationMeans(SearchInterval, PrintNat(base) + "ns", base);
  }

  lemma BaseResolves(base: nat)
    requires 0 < base <= MAX_SEARCH_INTERVAL
    ensures ValidateEntry(SearchInterval, BaseRow(base).value)
    ensures ResolveGlobal([BaseRow(base)]) == DEFAULTS.(searchInterval := base)
  {
    BaseMeans(base);
    hide ValidateEntry, Meaning, Overlay, PrintNat;
    OneRow(DEFAULTS, BaseRow(base));
  }

  /** In this life every cycle has the base, and the instance ends up enabled with a zero interval. */
  ghost predicate ReachesZero(steps: seq<Step>, t0: int, base: int) {
    && LifeReadings(t0, steps)
    && var r := Life(Born(map[], map[], t0), steps);
    && (forall i :: 0 <= i < |r.trace| && r.trace[i].Commit? ==> r.trace[i].cycle.settings.searchInterval == base)
    && exists id :: id in r.state.schedules && r.state.schedules[id].enabled && r.state.schedules[id].interval == 0
  }

  /** Some life of the daemon brings an enabled instance's interval to zero exactly when its base is below 4ns; such a
      base passes validation. */
  lemma TinyBaseReachesZero(base: nat)
    requires 0 < base <= MAX_SEARCH_INTERVAL
    ensures ValidateEntry(SearchInterval, BaseRow(base).value)
    ensures (exists steps, t0 :: ReachesZero(steps, t0, base)) <==> base < 4
  {
    BaseResolves(base);
    if base < 4 {
      ZeroWitness(base);
    } else {
      forall steps, t0
        ensures !ReachesZero(steps, t0, base)
      {
        StaysAboveZero(steps, t0, base);
      }
    }
    hide ReachesZero, ParseDuration;
  }

  lemma StaysAboveZero(steps: seq<Step>, t0: int, base: int)
    requires base >= 4
    ensures !ReachesZero(steps, t0, base)
  {
    hide Life, LifeReadings, Execution, Replay;
    if ReachesZero(steps, t0, base) {
      LifeIsExecution(map[], map[], t0, steps);
      Schedules.IntervalsArePositive(New(map[], map[], t0), Life(Born(map[], map[], t0), steps).trace);
    }
  }

  lemma ZeroWitness(base: nat)
    requires 0 < base < 4
    ensures ReachesZero(TwoTicks([BaseRow(base)], 9), FIRST, base)
  {
    BaseResolves(base);
    var rows := [BaseRow(base)];
    assert Interval.ComputeNextInterval(base, base, 9, 4) == base / 2;
    assert Interval.ComputeNextInterval(base, Interval.Previous(base, base / 2), 9, 4) == 0;
    var g := ResolveGlobal(rows);
    assert Searches(g) && g.searchInterval == base && g.batchSize == 4 && Min(9, 4) < g.searchLimit;
    hide *;
    TwoTicksLive(rows, 9);
    var c0, c1, k := TwoTicksCycle(rows, 9);
    ShowsZero(TwoTicks(rows, 9), base, c1);
  }

  lemma ShowsZero(steps: seq<Step>, base: int, c: Cycle)
    requires LifeReadings(FIRST, steps) && c.interval == 0
    requires var r := Life(FirstRun(), steps);
             && Schedules.Entry(r.state, 0) == Some(NextSchedule(c))
             && forall i :: 0 <= i < |r.trace| && r.trace[i].Commit? ==>
                  r.trace[i].cycle.settings.searchInterval == base
    ensures ReachesZero(steps, FIRST, base)
  {
    hide Life, LifeReadings;
    assert Born(map[], map[], FIRST) == FirstRun();
  }

  // ---------- a negative batch size ----------

  const NEGATIVE_BATCH := Setting(None, BatchSize, "-1")

  /** A stored batch size of -1 could not have been written by the service, but is resolved as it stands, and the first
      tick that has something to search panics. */
  lemma NegativeBatchPanics()
    ensures !ValidateEntry(BatchSize, "-1") && ResolveGlobal([NEGATIVE_BATCH]) == DEFAULTS.(batchSize := -1)
    ensures var steps := [TickStep(LoneTick(FIRST, [NEGATIVE_BATCH], 1))];
            LifeReadings(FIRST, steps) && Life(FirstRun(), steps).state.crashed
  {
    MinusOne();
    var rows, t := [NEGATIVE_BATCH], FIRST;
    var steps := [TickStep(LoneTick(t, rows, 1))];
    hide ResolveGlobal, ValidateEntry;
    LoneIsAt(t, rows, 1);
    TickReads(t, t, rows, [Lists(0, t, rows, 1, Some(0))]);
    TickIsItsLoop(FirstRun(), t, rows, [Lists(0, t, rows, 1, Some(0))]);
    LoneLoopPanics(rows);
    hide Tick, TickReadings, AllAt, Instances, Listed;
    assert steps[..0] == [];
    assert LifeReadings(FIRST, []) && Life(FirstRun(), []) == FirstRun();
  }

  lemma MinusOne()
    ensures !ValidateEntry(BatchSize, "-1") && ResolveGlobal([NEGATIVE_BATCH]) == DEFAULTS.(batchSize := -1)
  {
    AtoiInvertsPrintInt(-1);
    assert PrintInt(-1) == "-1" by { assert PrintNat(1) == "1"; }
    OneRow(DEFAULTS, NEGATIVE_BATCH);
    hide Atoi, Overlay, PrintInt;
  }

  lemma LoneLoopPanics(rows: seq<Setting>)
    requires ResolveGlobal(rows) == DEFAULTS.(batchSize := -1)
    ensures var begun := Begun(FirstRun(), FIRST, DEFAULTS.searchLimit);
            Instances(begun, FIRST, DEFAULTS.searchLimit, [Lists(0, FIRST, rows, 1, Some(0))]).0.state.crashed
  {
    var g, x := ResolveGlobal(rows), Lists(0, FIRST, rows, 1, Some(0));
    var begun := Begun(FirstRun(), FIRST, DEFAULTS.searchLimit);
    OwnRowsAbsent(rows);
    LibraryCandidates(1);
    PanicCondition(map[], 0, g, x.cycle);
    hide ResolveGlobal, Resolve, RunInstanceCycle, Candidates, Library;
    assert 0 in Numbers(1) by { assert Numbers(1)[0] == 0; }
    assert RunInstanceCycle(map[], 0, g, x.cycle).Panic?;
  }

  // ---------- the hourly budget, attained ----------

  function BudgetRows(L: int, B: int): seq<Setting> {
    [Setting(None, SearchLimit, PrintInt(L)), Setting(None, BatchSize, PrintInt(B))]
  }

  lemma BudgetResolves(L: int, B: int)
    requires 1 <= L <= MAX_INT64 && 1 <= B <= MAX_INT64
    ensures forall s :: s in BudgetRows(L, B) ==> ValidateEntry(s.key, s.value)
    ensures ResolveGlobal(BudgetRows(L, B)) == DEFAULTS.(searchLimit := L, batchSize := B)
  {
    var rows := BudgetRows(L, B);
    AtoiInvertsPrintInt(L);
    AtoiInvertsPrintInt(B);
    OneRow(DEFAULTS, rows[0]);
    OneRow(DEFAULTS.(searchLimit := L), rows[1]);
    hide Atoi, PrintInt, Overlay;
    OverlayConcat(DEFAULTS, [rows[0]], [rows[1]]);
    assert rows == [rows[0]] + [rows[1]];
  }

  /** L instances in one tick: all but the last have one missing item, the last has B. */
  function Crowd(L: nat, B: nat): seq<InstanceInput> { seq(L, i requires 0 <= i < L => Member(L, B, i)) }

  function Member(L: nat, B: nat, i: nat): InstanceInput {
    Lists(i, FIRST, BudgetRows(L, B), if i < L - 1 then 1 else B, None)
  }

  lemma CrowdMembers(L: nat, B: nat)
    ensures |Crowd(L, B)| == L && AllAt(FIRST, Crowd(L, B))
    ensures forall i :: 0 <= i < L ==> Crowd(L, B)[i] == Member(L, B, i)
  {
    hide BudgetRows, Library;
    forall i | 0 <= i < L
      ensures Crowd(L, B)[i] == Member(L, B, i)
    {
    }
  }

  /** Nothing is known yet of the instances from i on. */
  ghost predicate Untried(s: State, i: nat) {
    (forall id :: id in s.schedules ==> id < i) && (forall row :: row in s.cooldowns ==> row.0 < i)
  }

  /** All its cycles ran under the limit L, with the batch size B. */
  ghost predicate Under(trace: seq<Label>, L: int, B: int) {
    forall k :: 0 <= k < |trace| && trace[k].Commit? ==>
      trace[k].cycle.limit == L && trace[k].cycle.settings.batchSize == B
  }

  lemma {:induction false} RecordedKeys(rows: Table, id: UUID, items: seq<int>, stamps: seq<int>)
    requires |stamps| >= |items|
    ensures forall row :: row in Recorded(rows, id, items, stamps) ==> row in rows || row.0 == id
  {
    if items != [] {
      RecordedKeys(rows, id, items[..|items| - 1], stamps);
    }
  }

  /** One instance of the crowd adds its batch to the count. */
  lemma CrowdCycle(r: Run, L: nat, B: nat, i: nat)
    requires 1 <= L <= MAX_INT64 && 1 <= B <= MAX_INT64 && i < L
    requires !r.state.crashed && Untried(r.state, i) && r.state.searchCount == i && Under(r.trace, L, B)
    ensures var next := OneInstance(r, FIRST, L, Member(L, B, i));
            && !next.state.crashed && Untried(next.state, i + 1) && Under(next.trace, L, B)
            && next.state.searchCount == if i < L - 1 then i + 1 else L + B - 1
  {
    BudgetResolves(L, B);
    var rows, n := BudgetRows(L, B), if i < L - 1 then 1 else B;
    var g, x := ResolveGlobal(rows), Lists(i, FIRST, rows, n, None);
    hide BudgetRows, ResolveGlobal, OneInstance, RunInstanceCycle, ValidateEntry, FirstBatch, Numbers, Library,
      Interval.ComputeNextInterval, Under, Apply;
    CycleSends(r, FIRST, L, i, rows, n, None);
    BatchNotEmpty(n, B);
    var o := RunInstanceCycle(r.state.cooldowns, i, g, x.cycle);
    var c := CycleOf(r.state, FIRST, L, x, g, o);
    CommitOne(r, c, i, L, B);
  }

  lemma CommitOne(r: Run, c: Cycle, i: nat, L: int, B: int)
    requires !r.state.crashed && Untried(r.state, i) && Under(r.trace, L, B)
    requires c.inst.id == i && c.limit == L && c.settings.batchSize == B
    ensures var next := Do(r, Commit(c));
            && !next.state.crashed && Untried(next.state, i + 1) && Under(next.trace, L, B)
            && next.state.searchCount == r.state.searchCount + |c.sent|
  {
    if |c.stamps| >= |c.sent| {
      RecordedKeys(r.state.cooldowns, i, c.sent, c.stamps);
    }
    hide Recorded;
  }

  lemma {:induction false} CrowdCycles(r: Run, L: nat, B: nat, i: nat)
    requires 1 <= L <= MAX_INT64 && 1 <= B <= MAX_INT64 && i <= L
    requires !r.state.crashed && Untried(r.state, i) && Under(r.trace, L, B)
    requires r.state.searchCount == if i < L then i else L + B - 1
    ensures var end := Instances(r, FIRST, L, Crowd(L, B)[i..]).0;
            end.state.searchCount == L + B - 1 && Under(end.trace, L, B)
    decreases L - i
  {
    var list := Crowd(L, B);
    hide OneInstance, Untried, Under, Crowd, Member, AllAt;
    CrowdMembers(L, B);
    if i < L {
      assert list[i..][0] == Member(L, B, i) && list[i..][1..] == list[i + 1..];
      assert Member(L, B, i).live by { MemberLives(L, B, i); }
      CrowdCycle(r, L, B, i);
      CrowdCycles(OneInstance(r, FIRST, L, Member(L, B, i)), L, B, i + 1);
    }
  }

  lemma MemberLives(L: nat, B: nat, i: nat)
    ensures Member(L, B, i).live
  {
  }

  /** The hourly bound is attained, for every limit and batch size: a tick over L instances admits L - 1 single searches
      and then a whole batch. */
  lemma BudgetIsTight(L: nat, B: nat)
    requires L >= 1 && B >= 1 && L + B - 1 <= MAX_INT64
    ensures exists steps: seq<Step>, t0 ::
              && LifeReadings(t0, steps) && Under(Life(Born(map[], map[], t0), steps).trace, L, B)
              && Life(Born(map[], map[], t0), steps).state.searchCount == L + B - 1
  {
    var rows, list := BudgetRows(L, B), Crowd(L, B);
    var input := At(FIRST, rows, list);
    var steps := [TickStep(input)];
    BudgetResolves(L, B);
    CrowdMembers(L, B);
    hide BudgetRows, ResolveGlobal, Crowd, Member, ValidateEntry, AllAt, Instances, Listed, Tick, TickReadings, Under;
    TickReads(FIRST, FIRST, rows, list);
    TickIsItsLoop(FirstRun(), FIRST, rows, list);
    assert list[0..] == list;
    BegunIsFresh(L, B);
    CrowdCycles(Begun(FirstRun(), FIRST, L), L, B, 0);
    var cycled, next := Instances(Begun(FirstRun(), FIRST, L), FIRST, L, list).0, Tick(FirstRun(), input);
    UnderExtends(cycled.trace, next.trace, L, B);
    assert steps[..0] == [];
    assert LifeReadings(FIRST, []) && Life(FirstRun(), []) == FirstRun();
    assert LifeReadings(FIRST, steps) && Life(Born(map[], map[], FIRST), steps) == next;
  }

  lemma BegunIsFresh(L: nat, B: nat)
    ensures var begun := Begun(FirstRun(), FIRST, L);
            !begun.state.crashed && Untried(begun.state, 0) && begun.state.searchCount == 0 && Under(begun.trace, L, B)
  {
  }

  lemma UnderExtends(front: seq<Label>, trace: seq<Label>, L: int, B: int)
    requires Under(front, L, B) && front <= trace
    requires forall k :: |front| <= k < |trace| ==> !trace[k].Commit?
    ensures Under(trace, L, B)
  {
    assert forall k :: 0 <= k < |front| ==> trace[k] == front[k];
  }

  // ---------- a batch size whose double leaves int64 ----------

  /** One tick over a one-item library under an accepted batch size: what is in effect a full sweep halves the interval
      exactly when the batch size is 2^62 or more. */
  lemma HugeBatchHalves(B: nat)
    requires 1 <= B <= MAX_INT64
    ensures forall s :: s in BudgetRows(100, B) ==> ValidateEntry(s.key, s.value)
    ensures var steps := [TickStep(LoneTick(FIRST, BudgetRows(100, B), 1))];
            var r := Life(FirstRun(), steps);
            && LifeReadings(FIRST, steps) && 0 in r.state.schedules && r.state.schedules[0].enabled
            && r.state.schedules[0].interval == if B >= TWO_63 / 2 then 15 * MINUTE else 30 * MINUTE
  {
    var rows := BudgetRows(100, B);
    var g, steps := ResolveGlobal(rows), [TickStep(LoneTick(FIRST, rows, 1))];
    BudgetResolves(100, B);
    OneItemStep(B);
    hide BudgetRows, ResolveGlobal, ValidateEntry, Interval.ComputeNextInterval, Tick, TickReadings, AllAt, FirstBatch;
    ReadyFirst(g);
    LoneIsAt(FIRST, rows, 1);
    TickReads(FIRST, FIRST, rows, [Lists(0, FIRST, rows, 1, Some(0))]);
    LoneTickCycles(FirstRun(), FIRST, rows, 1);
    hide Ready;
    assert steps[..0] == [];
    assert LifeReadings(FIRST, []) && Life(FirstRun(), []) == FirstRun();
  }

  lemma OneItemStep(B: nat)
    requires 1 <= B <= MAX_INT64
    ensures Interval.ComputeNextInterval(30 * MINUTE, 30 * MINUTE, 1, B)
         == if B >= TWO_63 / 2 then 15 * MINUTE else 30 * MINUTE
  {
    Interval.BacklogTest(1, B);
  }

  // ---------- a record dated after the poll that logs it ----------

  /** An import dated three hours into the daemon's time. */
  const LATE := History.RawRecord(1, 3 * HOUR, false, 0, 7, 0, "", 0, None, "", "", 0)

  /** An instance whose settings cannot be loaded, and whose history has one page with that import. */
  function PollsLate(t: int): InstanceInput {
    InstanceInput(Named(0), true, None, None, 0, Meets(t, 0, None),
                  PollInput(true, true, t, None, [Some([LATE])], t, true))
  }

  function PollTick(t: int): TickInput { TickInput(t, Some([]), Some([PollsLate(t)]), t, false, false, t) }

  function LatePoll(t: int, since: int): Poll {
    Poll(Named(0), since, [History.Convert(LATE, History.MovieField, None)], t, true)
  }

  lemma LateIsFetched(since: int)
    requires since < 3 * HOUR
    ensures History.FetchHistory(since, None, [Some([LATE])], History.MovieField)
         == Some([History.Convert(LATE, History.MovieField, None)])
  {
    var page, pages := [LATE], [Some([LATE])];
    assert History.Contents(pages) == [page];
    var none: seq<seq<History.RawRecord>> := [];
    assert History.Flatten([page]) == page by {
      assert [page][..0] == none && History.Flatten(none) == [];
    }
    assert History.Dedup(page, since) == page by {
      assert page[..0] == [] && History.Dedup([], since) == [];
    }
    assert History.Record(LATE, since, History.MovieField, []) == History.Convert(LATE, History.MovieField, None);
    var records := [History.Convert(LATE, History.MovieField, None)];
    assert History.Records(page, since, History.MovieField, []) == records;
    assert History.Sorted(records) == records by { assert records[..0] == []; }
    assert History.NewestPerItem(records) == records by {
      assert records[..0] == [] && History.NewestPerItem([]) == [];
    }
    hide History.Convert;
  }

  /** Its settings failing to load, the instance loop passes it over. */
  lemma LateLoop(r: Run, t: int, limit: int)
    requires !r.state.crashed
    ensures Instances(r, t, limit, [PollsLate(t)]) == (r, true)
  {
    var list := [PollsLate(t)];
    assert list[1..] == [];
  }

  function Since(polls: map<UUID, int>, t: int): int {
    var last := if 0 in polls then polls[0] else ZERO_TIME;
    if last == ZERO_TIME then t - FIRST_POLL_LOOKBACK else last
  }

  lemma LatePolls(r: Run, t: int)
    requires Since(r.state.polls, t) < 3 * HOUR
    ensures PollInstances(r, [PollsLate(t)]) == Do(r, Polled(LatePoll(t, Since(r.state.polls, t))))
  {
    LateIsFetched(Since(r.state.polls, t));
    hide History.FetchHistory, History.Convert, Apply;
    var list := [PollsLate(t)];
    assert list[1..] == [];
    assert PollInstance(r, list[0]) == Do(r, Polled(LatePoll(t, Since(r.state.polls, t))));
  }

  /** Such a tick polls the instance once and stores the time. */
  lemma PollTickLogs(r: Run, t: int)
    requires !r.state.crashed && t > r.state.lastHistoryPoll + HISTORY_POLL_INTERVAL
    requires Since(r.state.polls, t) < 3 * HOUR
    ensures var next := Tick(r, PollTick(t));
            && |next.trace| == |r.trace| + 5 && r.trace <= next.trace
            && next.trace[|r.trace| + 4] == Polled(LatePoll(t, Since(r.state.polls, t)))
            && !next.state.crashed && next.state.lastHistoryPoll == t
            && next.state.polls == r.state.polls[0 := t]
  {
    hide ResolveGlobal, NextHourBoundary, Listed, LatePoll, Instances, PollInstances, Since;
    var list, limit := [PollsLate(t)], ResolveGlobal([]).searchLimit;
    var begun := Begun(r, t, limit);
    LateLoop(begun, t, limit);
    var due := Do(Do(begun, Retain(Listed(list))), PollDue(t));
    LatePolls(due, t);
    LatePollStores(due, t, Since(r.state.polls, t));
  }

  lemma LatePollStores(r: Run, t: int, since: int)
    ensures var next := Do(r, Polled(LatePoll(t, since)));
            next.state == r.state.(polls := r.state.polls[0 := t], clock := t)
  {
    hide History.Convert;
  }

  lemma PollTickReads(t0: int, t: int)
    requires t0 <= t
    ensures TickReadings(t0, PollTick(t)) && TickEnd(PollTick(t)) == t
  {
    var list := [PollsLate(t)];
    assert list[1..] == [];
    assert InstanceReadings(t, []) && PollReadings(t, []);
  }

  /** A record dated after the poll that logs it is logged again: a life of two ticks, an hour apart, each of
      which polls the instance and stores the time. */
  lemma LateRecordIsRepeated()
    ensures exists steps: seq<Step>, t0, i, j ::
              && LifeReadings(t0, steps)
              && var ls := Life(Born(map[], map[], t0), steps).trace;
              && 0 <= i < j < |ls| && ls[i].Polled? && ls[j].Polled? && ls[i].poll.inst == ls[j].poll.inst
              && ls[i].poll.stored && ls[j].poll.stored && Polling.Repeats(ls[i].poll.records, ls[j].poll.records)
  {
    TwoPollsLog();
    TwoPollsLive();
    hide Tick, PollTick, Life, LifeReadings, TwoPolls, LatePoll;
    var r2 := Tick(Tick(FirstRun(), PollTick(FIRST)), PollTick(2 * HOUR));
    assert Life(Born(map[], map[], FIRST), TwoPolls()) == r2;
    BothHold(r2.trace[4].poll.records, r2.trace[9].poll.records, History.Convert(LATE, History.MovieField, None));
  }

  lemma TwoPollsLog()
    ensures var ls := Tick(Tick(FirstRun(), PollTick(FIRST)), PollTick(2 * HOUR)).trace;
            && |ls| == 10 && ls[4].Polled? && ls[9].Polled? && ls[4].poll.inst == ls[9].poll.inst
            && ls[4].poll.stored && ls[9].poll.stored
            && ls[4].poll.records == ls[9].poll.records == [History.Convert(LATE, History.MovieField, None)]
  {
    var r0, t1 := FirstRun(), 2 * HOUR;
    PollTickLogs(r0, FIRST);
    var r1 := Tick(r0, PollTick(FIRST));
    assert Since(r0.state.polls, FIRST) < 3 * HOUR && Since(r1.state.polls, t1) == FIRST;
    PollTickLogs(r1, t1);
    hide Tick, PollTick, Since, History.Convert;
    var r2 := Tick(r1, PollTick(t1));
    assert r2.trace[4] == r1.trace[4];
  }

  lemma BothHold(first: seq<History.HistoryRecord>, second: seq<History.HistoryRecord>, record: History.HistoryRecord)
    requires record in first && record in second
    ensures Polling.Repeats(first, second)
  {
    assert Polling.SameEntry(record, record);
  }

  function TwoPolls(): seq<Step> { [TickStep(PollTick(FIRST)), TickStep(PollTick(2 * HOUR))] }

  lemma TwoPollsLive()
    ensures LifeReadings(FIRST, TwoPolls())
    ensures Life(Born(map[], map[], FIRST), TwoPolls()) == Tick(Tick(FirstRun(), PollTick(FIRST)), PollTick(2 * HOUR))
  {
    PollTickReads(FIRST, FIRST);
    PollTickReads(FIRST, 2 * HOUR);
    hide Tick, TickReadings, TickEnd, PollTick;
    var r0, one := FirstRun(), [TickStep(PollTick(FIRST))];
    assert TwoPolls()[..1] == one && one[..0] == [];
    assert LifeReadings(FIRST, []) && Life(r0, []) == r0;
    assert LifeReadings(FIRST, one) && LifeEnd(FIRST, one) == FIRST && Life(r0, one) == Tick(r0, PollTick(FIRST));
  }
}
