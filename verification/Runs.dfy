/** Whole lives of the daemon: any sequence of ticks and process restarts. */
module Runs {
  import opened Core
  import opened Settings
  import opened Quality
  import opened Cooldown
  import opened Machine
  import opened TickSpec
  import History
  import Window
  import SettingsStore

  datatype Step = TickStep(input: TickInput) | RestartStep(now: int)

  function After(r: Run, step: Step): Run {
    match step
    case TickStep(input) => Tick(r, input)
    case RestartStep(now) => Do(r, Restart(now))
  }

  function Life(r: Run, steps: seq<Step>): Run {
    if steps == [] then r else After(Life(r, steps[..|steps| - 1]), steps[|steps| - 1])
  }

  /** A fresh process over the persisted tables. */
  function Born(cooldowns: Table, polls: map<UUID, int>, t0: int): Run { Run(New(cooldowns, polls, t0), []) }

  function LifeEnd(t0: int, steps: seq<Step>): int {
    if steps == [] then t0
    else match steps[|steps| - 1]
      case TickStep(input) => TickEnd(input)
      case RestartStep(now) => now
  }

  /** The clock readings of a life, in order, on a clock that never goes back. */
  ghost predicate LifeReadings(t0: int, steps: seq<Step>) {
    if steps == [] then t0 > ZERO_TIME
    else
      var front := steps[..|steps| - 1];
      LifeReadings(t0, front) &&
      match steps[|steps| - 1]
      case TickStep(input) => TickReadings(LifeEnd(t0, front), input)
      case RestartStep(now) => LifeEnd(t0, front) <= now
  }

  /** Every life is an execution of the machine, so every property of executions holds of every life. */
  lemma {:induction false} LifeIsExecution(cooldowns: Table, polls: map<UUID, int>, t0: int, steps: seq<Step>)
    requires LifeReadings(t0, steps)
    ensures var r := Life(Born(cooldowns, polls, t0), steps);
            && Reached(New(cooldowns, polls, t0), r)
            && ZERO_TIME < r.state.clock <= LifeEnd(t0, steps)
  {
    var s0 := New(cooldowns, polls, t0);
    hide TickReadings, Tick, TickEnd;
    if steps != [] {
      var front, step := steps[..|steps| - 1], steps[|steps| - 1];
      LifeIsExecution(cooldowns, polls, t0, front);
      var r := Life(Born(cooldowns, polls, t0), front);
      hide Reached;
      match step {
        case TickStep(input) =>
          TickEndsBy(s0, r, input, LifeEnd(t0, front));
          TickClock(s0, r, input);
        case RestartStep(now) =>
          DoReaches(s0, r, Restart(now));
      }
    }
  }

  lemma TickClock(s0: State, r: Run, input: TickInput)
    requires Reached(s0, r) && Reached(s0, Tick(r, input))
    ensures r.state.clock <= Tick(r, input).state.clock
  {
    TraceGrows(r, input);
    var n := |r.trace|;
    assert Tick(r, input).trace[..n] == r.trace;
    ClockIsMonotone(s0, Tick(r, input).trace, n, |Tick(r, input).trace|);
    assert Tick(r, input).trace[..|Tick(r, input).trace|] == Tick(r, input).trace;
    hide Tick;
  }

  lemma TraceGrows(r: Run, input: TickInput)
    ensures r.trace <= Tick(r, input).trace
  {
    hide Instances, PollInstances, Apply, ResolveGlobal;
    if !r.state.crashed && input.global.Some? && input.listed.Some? {
      var limit := ResolveGlobal(input.global.value).searchLimit;
      var limited := Do(Do(r, TickStart(input.now)), LimitRead(limit));
      InstancesGrow(limited, input.now, limit, input.listed.value);
      var (cycled, goesOn) := Instances(limited, input.now, limit, input.listed.value);
      var due := Do(Do(cycled, Retain(Listed(input.listed.value))), PollDue(input.pollNow));
      PollsGrow(due, input.listed.value);
    }
  }

  lemma {:induction false} InstancesGrow(r: Run, now: int, limit: int, list: seq<InstanceInput>)
    ensures r.trace <= Instances(r, now, limit, list).0.trace
    decreases |list|
  {
    hide RunInstanceCycle, Resolve, Apply;
    if list != [] && list[0].live && r.state.searchCount < limit {
      InstancesGrow(OneInstance(r, now, limit, list[0]), now, limit, list[1..]);
    }
  }

  lemma {:induction false} PollsGrow(r: Run, list: seq<InstanceInput>)
    ensures r.trace <= PollInstances(r, list).trace
    decreases |list|
  {
    hide History.FetchHistory, Apply;
    if list != [] && list[0].poll.live {
      PollsGrow(PollInstance(r, list[0]), list[1..]);
    }
  }

  /** A tick that gets past the instance loop leaves entries of listed instances only. */
  lemma CompletedTickKeepsListed(s0: State, r: Run, input: TickInput)
    requires Reached(s0, r) && TickReadings(r.state.clock, input) && !r.state.crashed
    requires input.global.Some? && input.listed.Some?
    requires var limit := ResolveGlobal(input.global.value).searchLimit;
             Instances(Do(Do(r, TickStart(input.now)), LimitRead(limit)), input.now, limit, input.listed.value).1
    ensures Tick(r, input).state.schedules.Keys <= Listed(input.listed.value)
  {
    hide Reached, AfterLimit, Instances, InstanceReadings, PollReadings, ResolveGlobal, InstancesEnd, PollsEnd, Listed;
    var limit := ResolveGlobal(input.global.value).searchLimit;
    DoReaches(s0, r, TickStart(input.now));
    var started := Do(r, TickStart(input.now));
    DoReaches(s0, started, LimitRead(limit));
    LoopReaches(s0, Do(started, LimitRead(limit)), limit, input.listed.value, input);
  }

  // ---------- no due instance is passed over ----------

  /** What decides, in the state at hand, that a listed instance is to be cycled now. */
  ghost predicate IsDue(s: State, now: int, x: InstanceInput) {
    && x.global.Some? && x.own.Some?
    && var r := Resolve(x.global.value, x.own.value);
    && r.enabled && Window.InSearchWindow(r.searchWindowStart, r.searchWindowEnd, x.minute)
    && (x.inst.id in s.schedules ==> s.schedules[x.inst.id].nextSearchAt <= now)
  }

  ghost predicate CycledSince(r: Run, next: Run, x: InstanceInput) {
    exists k :: |r.trace| <= k < |next.trace| && next.trace[k].Commit? && next.trace[k].cycle.inst == x.inst
  }

  lemma OtherEntryStays(r: Run, now: int, limit: int, y: InstanceInput, x: InstanceInput)
    requires y.inst.id != x.inst.id
    ensures IsDue(OneInstance(r, now, limit, y).state, now, x) <==> IsDue(r.state, now, x)
    ensures r.trace <= OneInstance(r, now, limit, y).trace
  {
    hide RunInstanceCycle, Resolve, Window.InSearchWindow, Recorded, Pruned;
  }

  lemma DueIsCycled(r: Run, now: int, limit: int, x: InstanceInput)
    requires IsDue(r.state, now, x) && !OneInstance(r, now, limit, x).state.crashed
    ensures CycledSince(r, OneInstance(r, now, limit, x), x)
  {
    hide Resolve, Window.InSearchWindow, RunInstanceCycle, Recorded, Pruned;
    var next := OneInstance(r, now, limit, x);
    assert next.trace[|r.trace|].Commit?;
  }

  /** Nothing of x happens while another instance has its turn. */
  lemma OtherIsNotCycled(r: Run, now: int, limit: int, y: InstanceInput, end: Run, x: InstanceInput)
    requires y.inst.id != x.inst.id && OneInstance(r, now, limit, y).trace <= end.trace
    ensures CycledSince(r, end, x) <==> CycledSince(OneInstance(r, now, limit, y), end, x)
  {
    hide RunInstanceCycle, Resolve, Window.InSearchWindow, Apply;
    var next := OneInstance(r, now, limit, y);
    assert forall k :: |r.trace| <= k < |next.trace| && next.trace[k].Commit? ==> next.trace[k].cycle.inst != x.inst;
    assert forall k :: 0 <= k < |next.trace| ==> end.trace[k] == next.trace[k];
  }

  /** A turn that ends in a panic commits nothing. */
  lemma PanicCommitsNothing(r: Run, now: int, limit: int, y: InstanceInput, x: InstanceInput)
    requires !r.state.crashed && OneInstance(r, now, limit, y).state.crashed
    ensures !CycledSince(r, OneInstance(r, now, limit, y), x)
  {
    hide RunInstanceCycle, Resolve, Window.InSearchWindow, Recorded, Pruned;
    assert OneInstance(r, now, limit, y).trace == r.trace + [Crash];
  }

  /** Who is cycled and who is passed over: a due instance has its cycle exactly when the loop gets to its turn,
      with the context live and the count still below the limit, and its own cycle does not panic. What happens after
      its turn does not matter; what happens before it matters only through the count. */
  lemma {:induction false} EveryDueInstanceIsCycled(r: Run, now: int, limit: int, list: seq<InstanceInput>, i: nat)
    requires !r.state.crashed && i < |list| && IsDue(r.state, now, list[i])
    requires forall j, k :: 0 <= j < k < |list| ==> list[j].inst.id != list[k].inst.id
    ensures var (turn, goesOn) := Instances(r, now, limit, list[..i]);
            CycledSince(r, Instances(r, now, limit, list).0, list[i]) <==>
              goesOn && list[i].live && turn.state.searchCount < limit
              && !OneInstance(turn, now, limit, list[i]).state.crashed
    decreases |list|
  {
    hide OneInstance, IsDue, CycledSince;
    var x, y := list[i], list[0];
    var end, next := Instances(r, now, limit, list).0, OneInstance(r, now, limit, y);
    NothingSince(r, x);
    if y.live && r.state.searchCount < limit {
      if next.state.crashed {
        PanicCommitsNothing(r, now, limit, y, x);
      } else {
        InstancesGrow(next, now, limit, list[1..]);
      }
      if i == 0 && !next.state.crashed {
        DueIsCycled(r, now, limit, x);
        CycledStays(r, next, end, x);
      }
      if i > 0 && !next.state.crashed {
        assert list[..i][0] == y && list[..i][1..] == list[1..][..i - 1] && list[1..][i - 1] == x;
        OtherEntryStays(r, now, limit, y, x);
        OtherIsNotCycled(r, now, limit, y, end, x);
        EveryDueInstanceIsCycled(next, now, limit, list[1..], i - 1);
      }
    }
  }

  lemma NothingSince(r: Run, x: InstanceInput)
    ensures !CycledSince(r, r, x)
  {
  }

  lemma CycledStays(r: Run, next: Run, end: Run, x: InstanceInput)
    requires CycledSince(r, next, x) && next.trace <= end.trace
    ensures CycledSince(r, end, x)
  {
    var k :| |r.trace| <= k < |next.trace| && next.trace[k].Commit? && next.trace[k].cycle.inst == x.inst;
    assert end.trace[k] == next.trace[k];
  }

  // ---------- the one way a tick can panic ----------

  /** A cycle panics exactly when the stored batch size is negative and there is something to send. */
  lemma PanicCondition(rows: Table, id: UUID, r: Resolved, c: CycleInput)
    ensures RunInstanceCycle(rows, id, r, c).Panic? <==>
      && r.batchSize < 0 && c.live && c.profiles.Some? && c.library.Some? && c.filterOk
      && exists x :: x in Candidates(c.profiles.value, c.library.value, r.searchMissing)
                     && !IsCooling(rows, id, x, r.cooldownPeriod, c.checkedAt)
  {
    hide Candidates, IsCooling, Uncooled;
    if c.profiles.Some? && c.library.Some? {
      var items := Candidates(c.profiles.value, c.library.value, r.searchMissing);
      var left := Uncooled(rows, id, items, r.cooldownPeriod, c.checkedAt);
      UncooledMeaning(rows, id, items, r.cooldownPeriod, c.checkedAt);
      EmptyWhenNoMember(left);
      EmptyWhenNoMember(items);
      assert left == [] <==> forall x :: x in items ==> IsCooling(rows, id, x, r.cooldownPeriod, c.checkedAt);
    }
  }

  lemma EmptyWhenNoMember(s: seq<int>)
    ensures s != [] ==> exists x :: x in s
  {
    if s != [] {
      var x := s[0];
      assert x in s;
    }
  }

  ghost predicate Validated(rows: Option<seq<Setting>>) {
    rows.Some? ==> forall s :: s in rows.value ==> ValidateEntry(s.key, s.value)
  }

  lemma {:induction false} ValidatedBatch(rows: seq<Setting>)
    requires forall s :: s in rows ==> ValidateEntry(s.key, s.value)
    ensures var f := LastValid(rows, Key.BatchSize); f.Some? ==> f.value.n >= 1
  {
    hide ValidateEntry, Meaning;
    if rows != [] {
      var last := rows[|rows| - 1];
      ValidatedBatch(rows[..|rows| - 1]);
      ValidatedIsVerbatim(last.key, last.value);
    }
  }

  /** When every stored row passed validation, no tick panics. */
  lemma {:induction false} ValidatedNeverPanics(r: Run, now: int, limit: int, list: seq<InstanceInput>)
    requires !r.state.crashed
    requires forall x :: x in list ==> Validated(x.global) && Validated(x.own)
    ensures !Instances(r, now, limit, list).0.state.crashed
    decreases |list|
  {
    hide Validated, OneInstance;
    if list != [] && list[0].live && r.state.searchCount < limit {
      OneNeverPanics(r, now, limit, list[0]);
      ValidatedNeverPanics(OneInstance(r, now, limit, list[0]), now, limit, list[1..]);
    }
  }

  lemma OneNeverPanics(r: Run, now: int, limit: int, x: InstanceInput)
    requires !r.state.crashed && Validated(x.global) && Validated(x.own)
    ensures !OneInstance(r, now, limit, x).state.crashed
  {
    if x.global.Some? && x.own.Some? {
      ValidatedBatch(x.global.value);
      ValidatedBatch(x.own.value);
      var s := Resolve(x.global.value, x.own.value);
      assert s.batchSize >= 1 by { hide LastValid; }
      hide Resolve;
      PanicCondition(r.state.cooldowns, x.inst.id, s, x.cycle);
    }
    hide RunInstanceCycle, Recorded, Pruned;
  }

  /** The rows loaded for a layer, if the query succeeded, list that layer of a store that only the settings service
      has written: by any operations, and any others from one query to the next. */
  ghost predicate FromService(rows: Option<seq<Setting>>, layer: Option<UUID>) {
    rows.Some? ==> exists ops :: SettingsStore.Lists(rows.value, SettingsStore.Performed(map[], ops), layer)
  }

  lemma ServiceRowsAreValidated(rows: Option<seq<Setting>>, layer: Option<UUID>)
    requires FromService(rows, layer)
    ensures Validated(rows)
  {
    if rows.Some? {
      var ops :| SettingsStore.Lists(rows.value, SettingsStore.Performed(map[], ops), layer);
      SettingsStore.WritesKeepSound(ops);
    }
    hide ValidateEntry, SettingsStore.Performed;
  }

  lemma {:induction false} PollsNeverPanic(r: Run, list: seq<InstanceInput>)
    ensures PollInstances(r, list).state.crashed == r.state.crashed
    decreases |list|
  {
    hide History.FetchHistory;
    if list != [] && list[0].poll.live {
      PollsNeverPanic(PollInstance(r, list[0]), list[1..]);
    }
  }

  lemma TickNeverPanics(r: Run, input: TickInput)
    requires !r.state.crashed
    requires input.listed.Some? ==> forall x :: x in input.listed.value ==> Validated(x.global) && Validated(x.own)
    ensures !Tick(r, input).state.crashed
  {
    hide Instances, PollInstances, ResolveGlobal, Pruned, Validated, Listed;
    if input.global.Some? && input.listed.Some? {
      var limit, list := ResolveGlobal(input.global.value).searchLimit, input.listed.value;
      var limited := Do(Do(r, TickStart(input.now)), LimitRead(limit));
      ValidatedNeverPanics(limited, input.now, limit, list);
      var swept := Do(Instances(limited, input.now, limit, list).0, Retain(Listed(list)));
      PollsNeverPanic(Do(swept, PollDue(input.pollNow)), list);
    }
  }

  /** A daemon whose settings are written only through the service never panics, whatever else goes wrong in its
      life. */
  lemma {:induction false} ServiceSettingsNeverPanic(cooldowns: Table, polls: map<UUID, int>, t0: int, steps: seq<Step>)
    requires forall i :: 0 <= i < |steps| && steps[i].TickStep? && steps[i].input.listed.Some? ==>
               forall x :: x in steps[i].input.listed.value ==>
                 FromService(x.global, None) && FromService(x.own, Some(x.inst.id))
    ensures !Life(Born(cooldowns, polls, t0), steps).state.crashed
  {
    hide Tick, FromService;
    if steps != [] {
      var front, step := steps[..|steps| - 1], steps[|steps| - 1];
      ServiceSettingsNeverPanic(cooldowns, polls, t0, front);
      if step.TickStep? {
        if step.input.listed.Some? {
          forall x | x in step.input.listed.value
            ensures Validated(x.global) && Validated(x.own)
          {
            ServiceRowsAreValidated(x.global, None);
            ServiceRowsAreValidated(x.own, Some(x.inst.id));
          }
        }
        hide Validated;
        TickNeverPanics(Life(Born(cooldowns, polls, t0), front), step.input);
      }
    }
  }
}
