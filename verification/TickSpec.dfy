/** One tick as a function of the scheduler's state and of everything outside it: clock readings, fetched data, and
    which calls fail. Its critical sections are those of the state machine. */
module TickSpec {
  import opened Core
  import opened Settings
  import opened Window
  import opened Interval
  import opened Quality
  import opened History
  import opened Cooldown
  import opened Machine
  import HistoryShape

  /** What one search cycle meets: the context, the two fetches, the cooldown query and its clock reading, the search
      command, the clock readings of the cooldown records and where recording fails, and the clock at the end. */
  datatype CycleInput = CycleInput(
    live: bool, profiles: Option<seq<QualityProfile>>, library: Option<seq<LibraryItem>>,
    checkedAt: int, filterOk: bool, searchOk: bool, stamps: seq<int>, recordFailAt: Option<nat>, endedAt: int)

  /** What polling one instance's history meets. */
  datatype PollInput = PollInput(
    live: bool, lastPolledOk: bool, lookbackFrom: int,
    deletePage: Option<seq<RawRecord>>, importPages: seq<Option<seq<RawRecord>>>, storedAt: int, storeOk: bool)

  /** One listed instance: the context, its two setting layers as loaded (None: the query failed), the local minute of
      the day, and what its cycle and its poll meet if they run. */
  datatype InstanceInput = InstanceInput(
    inst: Instance, live: bool, global: Option<seq<Setting>>, own: Option<seq<Setting>>, minute: int,
    cycle: CycleInput, poll: PollInput)

  datatype TickInput = TickInput(
    now: int, global: Option<seq<Setting>>, listed: Option<seq<InstanceInput>>,
    pollNow: int, pruneOk: bool, deleteOk: bool, deleteAt: int)

  /** A state together with the critical sections that led to it. */
  datatype Run = Run(state: State, trace: seq<Label>)

  function Do(r: Run, l: Label): Run { Run(Apply(r.state, l), r.trace + [l]) }

  // ---------- one search cycle ----------

  /** The clock readings of n cooldown records; one that is not listed falls at the end of the cycle. */
  function Stamps(c: CycleInput, n: nat): (stamps: seq<int>)
    ensures |stamps| == n
  {
    seq(n, i requires 0 <= i < n => if i < |c.stamps| then c.stamps[i] else c.endedAt)
  }

  /** A cycle panics when it slices its batch with a negative size; otherwise it reports what its successful search
      command contained, the candidates it fetched, whether its calls were answered, and the stamps recorded. */
  datatype CycleOutcome = Panic | Done(candidates: seq<int>, answered: bool, sent: seq<int>, stamps: seq<int>)

  function RunInstanceCycle(rows: Table, id: UUID, r: Resolved, c: CycleInput): CycleOutcome {
    if !c.live || c.profiles.None? || c.library.None? then Done([], false, [], [])
    else
      var items := Candidates(c.profiles.value, c.library.value, r.searchMissing);
      if items == [] then Done([], c.filterOk && c.searchOk, [], [])
      else if !c.filterOk then Done(items, false, [], [])
      else
        var searchIDs := Uncooled(rows, id, items, r.cooldownPeriod, c.checkedAt);
        if searchIDs == [] then Done(items, c.searchOk, [], [])
        else if r.batchSize < 0 then Panic
        else
          var batch := if |searchIDs| > r.batchSize then searchIDs[..r.batchSize] else searchIDs;
          if !c.searchOk then Done(items, false, [], [])
          else Done(items, true, batch, if Records(c, |batch|) then Stamps(c, |batch|) else [])
  }

  /** What a cycle reports. It counts every candidate it fetched. It sends, when every call before the search
      and the search itself succeed, the first batch of the uncooled candidates in list order; what it stamps is all
      of what it sent, or nothing. */
  lemma CycleMeaning(rows: Table, id: UUID, r: Resolved, c: CycleInput)
    requires RunInstanceCycle(rows, id, r, c).Done?
    ensures var o := RunInstanceCycle(rows, id, r, c);
            if !c.live || c.profiles.None? || c.library.None? then o.candidates == [] && o.sent == [] && !o.answered
            else
              var items := Candidates(c.profiles.value, c.library.value, r.searchMissing);
              var left := Uncooled(rows, id, items, r.cooldownPeriod, c.checkedAt);
              && o.candidates == items && o.answered == (c.filterOk && c.searchOk)
              && (if c.filterOk && c.searchOk then o.sent <= left && |o.sent| == Min(|left|, Max(r.batchSize, 0))
                  else o.sent == [])
              && (o.stamps == [] || |o.stamps| == |o.sent|)
              && (o.sent != [] ==> (o.stamps != [] <==> !(c.recordFailAt.Some? && c.recordFailAt.value <= |o.sent|)))
  {
    hide Candidates;
    if c.profiles.Some? && c.library.Some? {
      var items := Candidates(c.profiles.value, c.library.value, r.searchMissing);
      assert items == [] ==> Uncooled(rows, id, items, r.cooldownPeriod, c.checkedAt) == [];
    }
    hide Uncooled, Stamps;
  }

  predicate Records(c: CycleInput, n: nat) { n == 0 || !(c.recordFailAt.Some? && c.recordFailAt.value <= n) }

  function CycleOf(s: State, now: int, limit: int, x: InstanceInput, r: Resolved, o: CycleOutcome): Cycle
    requires o.Done?
  {
    var previous := PreviousInterval(s, x.inst.id, r.searchInterval);
    Cycle(x.inst, now, limit, r, x.minute, o.candidates, o.answered, x.cycle.checkedAt, o.sent, o.stamps, previous,
          ComputeNextInterval(r.searchInterval, previous, |o.candidates|, r.batchSize), x.cycle.endedAt)
  }

  // ---------- the tick ----------

  function OneInstance(r: Run, now: int, limit: int, x: InstanceInput): Run {
    if x.global.None? || x.own.None? then r
    else WithSettings(r, now, limit, x, Resolve(x.global.value, x.own.value))
  }

  function WithSettings(r: Run, now: int, limit: int, x: InstanceInput, settings: Resolved): Run {
    if !settings.enabled then Do(r, SeenDisabled(x.inst))
    else if x.inst.id in r.state.schedules && now < r.state.schedules[x.inst.id].nextSearchAt then r
    else if !InSearchWindow(settings.searchWindowStart, settings.searchWindowEnd, x.minute) then r
    else AfterOutcome(r, now, limit, x, settings, RunInstanceCycle(r.state.cooldowns, x.inst.id, settings, x.cycle))
  }

  function AfterOutcome(r: Run, now: int, limit: int, x: InstanceInput, settings: Resolved, o: CycleOutcome): Run {
    if o.Panic? then Do(r, Crash) else Do(r, Commit(CycleOf(r.state, now, limit, x, settings, o)))
  }

  /** The instance loop; the flag tells whether the tick goes on after it. */
  function Instances(r: Run, now: int, limit: int, list: seq<InstanceInput>): (Run, bool)
    decreases |list|
  {
    if list == [] then (r, true)
    else if !list[0].live then (r, false)
    else if r.state.searchCount >= limit then (r, true)
    else
      var next := OneInstance(r, now, limit, list[0]);
      if next.state.crashed then (next, false) else Instances(next, now, limit, list[1..])
  }

  function PollInstance(r: Run, x: InstanceInput): Run {
    var p, id := x.poll, x.inst.id;
    if !p.lastPolledOk then r
    else
      var last := if id in r.state.polls then r.state.polls[id] else ZERO_TIME;
      var since := if last == ZERO_TIME then p.lookbackFrom - FIRST_POLL_LOOKBACK else last;
      match FetchHistory(since, p.deletePage, p.importPages, x.inst.field)
      case None => r
      case Some(records) => Do(r, Polled(Poll(x.inst, since, records, p.storedAt, p.storeOk)))
  }

  function PollInstances(r: Run, list: seq<InstanceInput>): Run
    decreases |list|
  {
    if list == [] || !list[0].poll.live then r
    else PollInstances(PollInstance(r, list[0]), list[1..])
  }

  function PollPhase(r: Run, pollNow: int, list: seq<InstanceInput>): Run {
    if pollNow > r.state.lastHistoryPoll + HISTORY_POLL_INTERVAL then PollInstances(Do(r, PollDue(pollNow)), list)
    else r
  }

  function PrunePhase(r: Run, input: TickInput): Run {
    if input.now > r.state.lastPrunedAt + PRUNE_INTERVAL && input.pruneOk then
      Do(r, Prune(input.now, input.deleteAt, input.deleteOk))
    else r
  }

  function Listed(list: seq<InstanceInput>): set<UUID> { set x | x in list :: x.inst.id }

  function Tick(r: Run, input: TickInput): Run {
    if r.state.crashed then r
    else
      var started := Do(r, TickStart(input.now));
      if input.global.None? then started
      else
        var limit := ResolveGlobal(input.global.value).searchLimit;
        var limited := Do(started, LimitRead(limit));
        if input.listed.None? then limited
        else
          AfterLimit(limited, limit, input.listed.value, input)
  }

  /** The rest of a tick once the limit and the instances are known. */
  function AfterLimit(r: Run, limit: int, list: seq<InstanceInput>, input: TickInput): Run {
    var (cycled, goesOn) := Instances(r, input.now, limit, list);
    if !goesOn then cycled
    else PrunePhase(PollPhase(Do(cycled, Retain(Listed(list))), input.pollNow, list), input)
  }

  function Ticks(r: Run, inputs: seq<TickInput>): Run {
    if inputs == [] then r else Tick(Ticks(r, inputs[..|inputs| - 1]), inputs[|inputs| - 1])
  }

  // ---------- readings of a clock that never goes back ----------

  function InstancesEnd(t: int, list: seq<InstanceInput>): int {
    if list == [] then t else list[|list| - 1].cycle.endedAt
  }

  ghost predicate InstanceReadings(t: int, list: seq<InstanceInput>)
    decreases |list|
  {
    list == [] ||
    var c := list[0].cycle;
    && t <= c.checkedAt <= c.endedAt && Ascending(c.stamps)
    && (forall i :: 0 <= i < |c.stamps| ==> c.checkedAt <= c.stamps[i] <= c.endedAt)
    && InstanceReadings(c.endedAt, list[1..])
  }

  function PollsEnd(t: int, list: seq<InstanceInput>): int {
    if list == [] then t else list[|list| - 1].poll.storedAt
  }

  ghost predicate PollReadings(t: int, list: seq<InstanceInput>)
    decreases |list|
  {
    list == [] || (t <= list[0].poll.storedAt && PollReadings(list[0].poll.storedAt, list[1..]))
  }

  function TickEnd(input: TickInput): int { if input.listed.None? then input.now else input.deleteAt }

  ghost predicate TickReadings(t: int, input: TickInput) {
    && t <= input.now
    && (input.listed.Some? ==>
          var list := input.listed.value;
          && InstanceReadings(input.now, list) && InstancesEnd(input.now, list) <= input.pollNow
          && PollReadings(input.pollNow, list) && PollsEnd(input.pollNow, list) <= input.deleteAt)
  }

  // ---------- every tick is an execution of the machine ----------

  ghost predicate Reached(s0: State, r: Run) { Execution(s0, r.trace) && r.state == Replay(s0, r.trace) }

  lemma DoReaches(s0: State, r: Run, l: Label)
    requires Reached(s0, r) && Guard(r.state, l)
    ensures Reached(s0, Do(r, l))
  {
    assert (r.trace + [l])[..|r.trace|] == r.trace;
    hide Guard, Apply;
  }

  /** Only what qualifies is searched: every ID in a cycle's search command is that of an item of the fetched library
      that is upgradeable under the fetched profiles, or missing and wanted, and that was not in cooldown. */
  lemma SearchedItemsQualify(rows: Table, id: UUID, r: Resolved, c: CycleInput, item: int)
    requires RunInstanceCycle(rows, id, r, c).Done? && item in RunInstanceCycle(rows, id, r, c).sent
    ensures c.profiles.Some? && c.library.Some?
    ensures exists x :: x in c.library.value && x.id == item && Qualifies(x, c.profiles.value, r.searchMissing)
    ensures !IsCooling(rows, id, item, r.cooldownPeriod, c.checkedAt)
  {
    hide Candidates, Uncooled, IsCooling, Qualifies;
    var items := Candidates(c.profiles.value, c.library.value, r.searchMissing);
    assert item in Uncooled(rows, id, items, r.cooldownPeriod, c.checkedAt);
    UncooledMeaning(rows, id, items, r.cooldownPeriod, c.checkedAt);
    CandidateMeaning(c.profiles.value, c.library.value, r.searchMissing, item);
  }

  lemma CycleIsGuarded(s: State, now: int, limit: int, x: InstanceInput, r: Resolved)
    requires now == s.tickNow && limit == s.hourlyLimit && s.searchCount < limit && r.enabled && Bounded(r)
    requires x.inst.id in s.schedules ==> s.schedules[x.inst.id].nextSearchAt <= now
    requires InSearchWindow(r.searchWindowStart, r.searchWindowEnd, x.minute)
    requires s.clock <= x.cycle.checkedAt && InstanceReadings(s.clock, [x])
    requires RunInstanceCycle(s.cooldowns, x.inst.id, r, x.cycle).Done?
    ensures CycleGuard(s, CycleOf(s, now, limit, x, r, RunInstanceCycle(s.cooldowns, x.inst.id, r, x.cycle)))
  {
    var c, o := x.cycle, RunInstanceCycle(s.cooldowns, x.inst.id, r, x.cycle);
    assert o.candidates == [] ==> Uncooled(s.cooldowns, x.inst.id, o.candidates, r.cooldownPeriod, c.checkedAt) == [];
    hide Uncooled, Candidates, ComputeNextInterval, IsCooling, InSearchWindow;
  }

  lemma OneInstanceReaches(s0: State, r: Run, now: int, limit: int, x: InstanceInput)
    requires Reached(s0, r) && !r.state.crashed
    requires now == r.state.tickNow && limit == r.state.hourlyLimit && r.state.searchCount < limit
    requires InstanceReadings(r.state.clock, [x])
    ensures var next := OneInstance(r, now, limit, x);
            && Reached(s0, next) && next.state.clock <= x.cycle.endedAt
            && next.state.tickNow == now && next.state.hourlyLimit == limit
  {
    if x.global.Some? && x.own.Some? {
      ResolveBounded(x.global.value, x.own.value);
      hide Resolve, Bounded, WithSettings;
      WithSettingsReaches(s0, r, now, limit, x, Resolve(x.global.value, x.own.value));
    }
  }

  lemma WithSettingsReaches(s0: State, r: Run, now: int, limit: int, x: InstanceInput, settings: Resolved)
    requires Reached(s0, r) && !r.state.crashed && Bounded(settings)
    requires now == r.state.tickNow && limit == r.state.hourlyLimit && r.state.searchCount < limit
    requires InstanceReadings(r.state.clock, [x])
    ensures var next := WithSettings(r, now, limit, x, settings);
            && Reached(s0, next) && next.state.clock <= x.cycle.endedAt
            && next.state.tickNow == now && next.state.hourlyLimit == limit
  {
    hide RunInstanceCycle, InSearchWindow, CycleGuard, Recorded, Pruned, ComputeNextInterval, Reached, Bounded;
    var s := r.state;
    if !settings.enabled {
      DoReaches(s0, r, SeenDisabled(x.inst));
    } else if !(x.inst.id in s.schedules && now < s.schedules[x.inst.id].nextSearchAt)
           && InSearchWindow(settings.searchWindowStart, settings.searchWindowEnd, x.minute) {
      var o := RunInstanceCycle(s.cooldowns, x.inst.id, settings, x.cycle);
      if o.Panic? {
        DoReaches(s0, r, Crash);
      } else {
        CycleIsGuarded(s, now, limit, x, settings);
        DoReaches(s0, r, Commit(CycleOf(s, now, limit, x, settings, o)));
      }
    }
  }

  lemma {:induction false} InstancesReach(s0: State, r: Run, now: int, limit: int, list: seq<InstanceInput>, t: int)
    requires Reached(s0, r) && !r.state.crashed && r.state.clock <= t
    requires now == r.state.tickNow && limit == r.state.hourlyLimit && InstanceReadings(t, list)
    ensures var (next, goesOn) := Instances(r, now, limit, list);
            && Reached(s0, next) && next.state.clock <= InstancesEnd(t, list)
            && next.state.tickNow == now && (goesOn ==> !next.state.crashed)
    decreases |list|
  {
    hide OneInstance, Reached;
    ReadingsAscend(t, list);
    if list != [] && list[0].live && r.state.searchCount < limit {
      assert InstanceReadings(r.state.clock, [list[0]]) by { assert [list[0]][1..] == []; }
      OneInstanceReaches(s0, r, now, limit, list[0]);
      var next := OneInstance(r, now, limit, list[0]);
      if next.state.crashed {
        ReadingsAscend(list[0].cycle.endedAt, list[1..]);
      } else {
        InstancesReach(s0, next, now, limit, list[1..], list[0].cycle.endedAt);
      }
    }
  }

  lemma {:induction false} ReadingsAscend(t: int, list: seq<InstanceInput>)
    requires InstanceReadings(t, list)
    ensures t <= InstancesEnd(t, list)
    decreases |list|
  {
    if list != [] {
      ReadingsAscend(list[0].cycle.endedAt, list[1..]);
    }
  }

  lemma PollInstanceReaches(s0: State, r: Run, x: InstanceInput)
    requires Reached(s0, r) && !r.state.crashed && r.state.clock <= x.poll.storedAt
    ensures var next := PollInstance(r, x);
            && Reached(s0, next) && !next.state.crashed && next.state.clock <= x.poll.storedAt
            && next.state.tickNow == r.state.tickNow && next.state.schedules == r.state.schedules
            && next.state.lastPrunedAt == r.state.lastPrunedAt
  {
    hide FetchHistory, Replay, Execution;
    var next := PollInstance(r, x);
    if next != r {
      var l := next.trace[|r.trace|];
      FetchedAfterSince(l.poll.since, x.poll.deletePage, x.poll.importPages, x.inst.field);
      DoReaches(s0, r, l);
    }
  }

  lemma FetchedAfterSince(since: int, deletePage: Option<seq<RawRecord>>, importPages: seq<Option<seq<RawRecord>>>,
                          field: ItemField)
    ensures var f := FetchHistory(since, deletePage, importPages, field);
            f.Some? ==> forall x :: x in f.value ==> x.date > since
  {
    HistoryShape.FetchedShape(since, deletePage.GetOr([]), Contents(importPages), field);
    hide Fetched;
  }

  lemma {:induction false} PollInstancesReach(s0: State, r: Run, list: seq<InstanceInput>, t: int)
    requires Reached(s0, r) && !r.state.crashed && r.state.clock <= t && PollReadings(t, list)
    ensures var next := PollInstances(r, list);
            && Reached(s0, next) && !next.state.crashed && next.state.clock <= PollsEnd(t, list)
            && next.state.tickNow == r.state.tickNow && next.state.schedules == r.state.schedules
            && next.state.lastPrunedAt == r.state.lastPrunedAt
    decreases |list|
  {
    hide PollInstance, Reached;
    PollsAscend(t, list);
    if list != [] && list[0].poll.live {
      PollInstanceReaches(s0, r, list[0]);
      PollInstancesReach(s0, PollInstance(r, list[0]), list[1..], list[0].poll.storedAt);
    }
  }

  lemma {:induction false} PollsAscend(t: int, list: seq<InstanceInput>)
    requires PollReadings(t, list)
    ensures t <= PollsEnd(t, list)
    decreases |list|
  {
    if list != [] {
      PollsAscend(list[0].poll.storedAt, list[1..]);
    }
  }

  /** What follows the instance loop: sweep deleted instances, poll, prune. */
  lemma TailReaches(s0: State, r: Run, list: seq<InstanceInput>, input: TickInput, t: int)
    requires Reached(s0, r) && !r.state.crashed && r.state.clock <= t <= input.pollNow && r.state.tickNow == input.now
    requires PollReadings(input.pollNow, list) && PollsEnd(input.pollNow, list) <= input.deleteAt
    ensures var next := PrunePhase(PollPhase(Do(r, Retain(Listed(list))), input.pollNow, list), input);
            && Reached(s0, next) && !next.state.crashed && next.state.clock <= input.deleteAt
            && next.state.schedules.Keys <= Listed(list)
  {
    hide Reached, PollInstances, PollReadings, PollsEnd, Listed;
    PollsAscend(input.pollNow, list);
    var swept := Do(r, Retain(Listed(list)));
    DoReaches(s0, r, Retain(Listed(list)));
    var polled := PollPhase(swept, input.pollNow, list);
    if input.pollNow > swept.state.lastHistoryPoll + HISTORY_POLL_INTERVAL {
      DoReaches(s0, swept, PollDue(input.pollNow));
      PollInstancesReach(s0, Do(swept, PollDue(input.pollNow)), list, input.pollNow);
    }
    if input.now > polled.state.lastPrunedAt + PRUNE_INTERVAL && input.pruneOk {
      DoReaches(s0, polled, Prune(input.now, input.deleteAt, input.deleteOk));
    }
    hide Pruned;
  }

  lemma LoopReaches(s0: State, r: Run, limit: int, list: seq<InstanceInput>, input: TickInput)
    requires Reached(s0, r) && !r.state.crashed && r.state.clock <= input.now
    requires r.state.tickNow == input.now && r.state.hourlyLimit == limit
    requires InstanceReadings(input.now, list) && InstancesEnd(input.now, list) <= input.pollNow
    requires PollReadings(input.pollNow, list) && PollsEnd(input.pollNow, list) <= input.deleteAt
    ensures var next := AfterLimit(r, limit, list, input);
            && Reached(s0, next) && next.state.clock <= input.deleteAt
            && (Instances(r, input.now, limit, list).1 ==> next.state.schedules.Keys <= Listed(list))
  {
    PollsAscend(input.pollNow, list);
    hide Reached, Instances, PollPhase, PrunePhase, InstanceReadings, PollReadings, InstancesEnd, PollsEnd,
      Apply, Listed;
    InstancesReach(s0, r, input.now, limit, list, input.now);
    var (cycled, goesOn) := Instances(r, input.now, limit, list);
    if goesOn {
      TailReaches(s0, cycled, list, input, InstancesEnd(input.now, list));
    }
  }

  /** Each tick runs critical sections of the machine, in states in which their guards hold. */
  lemma TickReaches(s0: State, r: Run, input: TickInput)
    requires Reached(s0, r) && TickReadings(r.state.clock, input)
    ensures Reached(s0, Tick(r, input))
    ensures !r.state.crashed ==> Tick(r, input).state.clock <= TickEnd(input)
  {
    TickSpansForward(r.state.clock, input);
    hide Reached, AfterLimit, InstanceReadings, PollReadings, ResolveGlobal, InstancesEnd, PollsEnd, Do;
    if !r.state.crashed {
      StartReaches(s0, r, input.now);
      var started := Do(r, TickStart(input.now));
      if input.global.Some? {
        var limit := ResolveGlobal(input.global.value).searchLimit;
        LimitReaches(s0, started, limit);
        if input.listed.Some? {
          LoopReaches(s0, Do(started, LimitRead(limit)), limit, input.listed.value, input);
        }
      }
    }
  }

  lemma StartReaches(s0: State, r: Run, now: int)
    requires Reached(s0, r) && !r.state.crashed && r.state.clock <= now
    ensures var started := Do(r, TickStart(now));
            Reached(s0, started) && !started.state.crashed && started.state.clock == started.state.tickNow == now
  {
    DoReaches(s0, r, TickStart(now));
    hide Reached, NextHourBoundary;
  }

  lemma LimitReaches(s0: State, r: Run, limit: int)
    requires Reached(s0, r) && !r.state.crashed
    ensures var limited := Do(r, LimitRead(limit));
            Reached(s0, limited) && limited.state == r.state.(hourlyLimit := limit)
  {
    DoReaches(s0, r, LimitRead(limit));
    hide Reached;
  }

  lemma TickSpansForward(t: int, input: TickInput)
    requires TickReadings(t, input)
    ensures t <= input.now <= TickEnd(input)
  {
    if input.listed.Some? {
      ReadingsAscend(input.now, input.listed.value);
      PollsAscend(input.pollNow, input.listed.value);
    }
    hide InstanceReadings, PollReadings;
  }

  /** Even a crashed run stays within the readings of its inputs. */
  lemma TickEndsBy(s0: State, r: Run, input: TickInput, t: int)
    requires Reached(s0, r) && r.state.clock <= t && TickReadings(t, input)
    ensures TickReadings(r.state.clock, input)
    ensures Reached(s0, Tick(r, input)) && Tick(r, input).state.clock <= TickEnd(input)
  {
    TickSpansForward(t, input);
    hide Reached, InstanceReadings, PollReadings, AfterLimit;
    TickReaches(s0, r, input);
  }
}
