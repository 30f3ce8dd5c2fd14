/** Pruning never shows: a run in which expired cooldown rows are deleted does exactly what the same run does when
    every deletion fails. */
module Pruning {
  import opened Core
  import opened Settings
  import opened Cooldown
  import opened Quality
  import opened Machine
  import opened TickSpec
  import opened Runs

  /** The same tick with the deletion of expired rows failing. */
  function WithoutDeletion(input: TickInput): TickInput { input.(deleteOk := false) }

  function WithoutDeletions(steps: seq<Step>): seq<Step> {
    if steps == [] then []
    else
      var step := steps[|steps| - 1];
      WithoutDeletions(steps[..|steps| - 1]) + [if step.TickStep? then TickStep(WithoutDeletion(step.input)) else step]
  }

  /** p is q less some rows that no permitted period reaches any more. */
  ghost predicate FreshAlike(p: Table, q: Table, clock: int) {
    forall row ::
      if row in p then row in q && q[row] == p[row]
      else row in q ==> q[row] < Horizon(clock, COOLDOWN_RETENTION)
  }

  /** A label but for whether its deletion took place. */
  function Forget(l: Label): Label { if l.Prune? then l.(deleted := false) else l }

  /** The runs agree on everything but pruned rows: every observable field, every command sent, every poll. */
  ghost predicate Alike(a: Run, b: Run) {
    && a.state == b.state.(cooldowns := a.state.cooldowns)
    && FreshAlike(a.state.cooldowns, b.state.cooldowns, a.state.clock)
    && |a.trace| == |b.trace|
    && forall i :: 0 <= i < |a.trace| ==> Forget(a.trace[i]) == Forget(b.trace[i])
  }

  lemma HorizonMoves(t: int, t': int)
    requires t <= t'
    ensures Horizon(t, COOLDOWN_RETENTION) <= Horizon(t', COOLDOWN_RETENTION)
  {
    MillisMonotone(t, t');
  }

  lemma {:induction false} RecordedAlike(p: Table, q: Table, clock: int, id: UUID, items: seq<int>, stamps: seq<int>)
    requires FreshAlike(p, q, clock) && |stamps| >= |items|
    ensures FreshAlike(Recorded(p, id, items, stamps), Recorded(q, id, items, stamps), clock)
  {
    hide Horizon, Millis;
    if items != [] {
      RecordedAlike(p, q, clock, id, items[..|items| - 1], stamps);
    }
  }

  lemma FreshLater(p: Table, q: Table, t: int, t': int)
    requires FreshAlike(p, q, t) && t <= t'
    ensures FreshAlike(p, q, t')
  {
    HorizonMoves(t, t');
    hide Horizon;
  }

  /** The same section keeps runs alike; deleting expired rows on one side does, too. */
  lemma DoAlike(a: Run, b: Run, l: Label, l': Label)
    requires Alike(a, b) && Forget(l) == Forget(l') && (l.Prune? ==> !l'.deleted)
    requires Guard(a.state, l)
    ensures Alike(Do(a, l), Do(b, l'))
  {
    ClockAdvances(a.state, l);
    FreshLater(a.state.cooldowns, b.state.cooldowns, a.state.clock, Apply(a.state, l).clock);
    hide FreshAlike, CycleGuard, Recorded;
    if l.Commit? {
      var c := l.cycle;
      if |c.stamps| >= |c.sent| {
        RecordedAlike(a.state.cooldowns, b.state.cooldowns, Apply(a.state, l).clock, c.inst.id, c.sent, c.stamps);
      }
    } else if l.Prune? {
      PrunedAlike(a.state.cooldowns, b.state.cooldowns, l.at);
    }
    hide Pruned;
  }

  lemma PrunedAlike(p: Table, q: Table, at: int)
    requires FreshAlike(p, q, at)
    ensures FreshAlike(Pruned(p, COOLDOWN_RETENTION, at), q, at)
  {
    hide Horizon;
  }

  // ---------- decisions are the same ----------

  lemma CoolingAlike(p: Table, q: Table, clock: int, id: UUID, x: int, period: int, now: int)
    requires FreshAlike(p, q, clock) && clock <= now && 0 < period <= MAX_COOLDOWN_PERIOD
    ensures IsCooling(p, id, x, period, now) <==> IsCooling(q, id, x, period, now)
  {
    HorizonMoves(clock, now);
    assert Horizon(now, COOLDOWN_RETENTION) <= Horizon(now, period);
    hide Horizon;
  }

  lemma {:induction false} UncooledAlike(p: Table, q: Table, clock: int, id: UUID, items: seq<int>,
                                         period: int, now: int)
    requires FreshAlike(p, q, clock) && clock <= now && 0 < period <= MAX_COOLDOWN_PERIOD
    ensures Uncooled(p, id, items, period, now) == Uncooled(q, id, items, period, now)
  {
    hide FreshAlike, IsCooling;
    if items != [] {
      CoolingAlike(p, q, clock, id, items[|items| - 1], period, now);
      UncooledAlike(p, q, clock, id, items[..|items| - 1], period, now);
    }
  }

  lemma CycleAlike(p: Table, q: Table, clock: int, id: UUID, r: Resolved, c: CycleInput)
    requires FreshAlike(p, q, clock) && clock <= c.checkedAt && Bounded(r)
    ensures RunInstanceCycle(p, id, r, c) == RunInstanceCycle(q, id, r, c)
  {
    hide FreshAlike, Candidates, Uncooled;
    if c.profiles.Some? && c.library.Some? {
      UncooledAlike(p, q, clock, id, Candidates(c.profiles.value, c.library.value, r.searchMissing),
                    r.cooldownPeriod, c.checkedAt);
    }
  }

  lemma OneInstanceAlike(s0: State, a: Run, b: Run, now: int, limit: int, x: InstanceInput)
    requires Alike(a, b) && Reached(s0, a) && !a.state.crashed
    requires now == a.state.tickNow && limit == a.state.hourlyLimit && a.state.searchCount < limit
    requires InstanceReadings(a.state.clock, [x])
    ensures Alike(OneInstance(a, now, limit, x), OneInstance(b, now, limit, x))
  {
    if x.global.Some? && x.own.Some? {
      ResolveBounded(x.global.value, x.own.value);
      hide Resolve, Bounded, WithSettings, Alike, Reached;
      WithSettingsAlike(a, b, now, limit, x, Resolve(x.global.value, x.own.value));
    }
  }

  lemma WithSettingsAlike(a: Run, b: Run, now: int, limit: int, x: InstanceInput, settings: Resolved)
    requires Alike(a, b) && !a.state.crashed && Bounded(settings)
    requires now == a.state.tickNow && limit == a.state.hourlyLimit && a.state.searchCount < limit
    requires InstanceReadings(a.state.clock, [x])
    ensures Alike(WithSettings(a, now, limit, x, settings), WithSettings(b, now, limit, x, settings))
  {
    hide RunInstanceCycle, Window.InSearchWindow, CycleGuard, Recorded, Pruned, Interval.ComputeNextInterval,
      FreshAlike, Apply, Bounded;
    var s := a.state;
    if !settings.enabled {
      DoAlike(a, b, SeenDisabled(x.inst), SeenDisabled(x.inst));
    } else if !(x.inst.id in s.schedules && now < s.schedules[x.inst.id].nextSearchAt)
           && Window.InSearchWindow(settings.searchWindowStart, settings.searchWindowEnd, x.minute) {
      CycleAlike(s.cooldowns, b.state.cooldowns, s.clock, x.inst.id, settings, x.cycle);
      var o := RunInstanceCycle(s.cooldowns, x.inst.id, settings, x.cycle);
      if o.Panic? {
        DoAlike(a, b, Crash, Crash);
      } else {
        CycleIsGuarded(s, now, limit, x, settings);
        var l := Commit(CycleOf(s, now, limit, x, settings, o));
        assert l == Commit(CycleOf(b.state, now, limit, x, settings, o));
        DoAlike(a, b, l, l);
      }
    }
  }

  lemma {:induction false} InstancesAlike(s0: State, a: Run, b: Run, now: int, limit: int,
                                          list: seq<InstanceInput>, t: int)
    requires Alike(a, b) && Reached(s0, a) && !a.state.crashed && a.state.clock <= t
    requires now == a.state.tickNow && limit == a.state.hourlyLimit && InstanceReadings(t, list)
    ensures Alike(Instances(a, now, limit, list).0, Instances(b, now, limit, list).0)
    ensures Instances(a, now, limit, list).1 == Instances(b, now, limit, list).1
    decreases |list|
  {
    hide OneInstance, Reached, FreshAlike;
    if list != [] && list[0].live && a.state.searchCount < limit {
      assert InstanceReadings(a.state.clock, [list[0]]) by { assert [list[0]][1..] == []; }
      OneInstanceReaches(s0, a, now, limit, list[0]);
      OneInstanceAlike(s0, a, b, now, limit, list[0]);
      var a', b' := OneInstance(a, now, limit, list[0]), OneInstance(b, now, limit, list[0]);
      if !a'.state.crashed {
        InstancesAlike(s0, a', b', now, limit, list[1..], list[0].cycle.endedAt);
      }
    }
  }

  lemma PollInstanceAlike(a: Run, b: Run, x: InstanceInput)
    requires Alike(a, b) && !a.state.crashed && a.state.clock <= x.poll.storedAt
    ensures Alike(PollInstance(a, x), PollInstance(b, x))
  {
    hide History.FetchHistory, FreshAlike, Apply;
    var next := PollInstance(a, x);
    if next != a {
      var l := next.trace[|a.trace|];
      assert PollInstance(b, x) == Do(b, l);
      FetchedAfterSince(l.poll.since, x.poll.deletePage, x.poll.importPages, x.inst.field);
      DoAlike(a, b, l, l);
    }
  }

  lemma {:induction false} PollInstancesAlike(s0: State, a: Run, b: Run, list: seq<InstanceInput>, t: int)
    requires Alike(a, b) && Reached(s0, a) && !a.state.crashed && a.state.clock <= t && PollReadings(t, list)
    ensures Alike(PollInstances(a, list), PollInstances(b, list))
    decreases |list|
  {
    hide PollInstance, Alike, Reached;
    if list != [] && list[0].poll.live {
      PollInstanceReaches(s0, a, list[0]);
      PollInstanceAlike(a, b, list[0]);
      PollInstancesAlike(s0, PollInstance(a, list[0]), PollInstance(b, list[0]), list[1..], list[0].poll.storedAt);
    }
  }

  lemma TailAlike(s0: State, a: Run, b: Run, list: seq<InstanceInput>, input: TickInput)
    requires Alike(a, b) && Reached(s0, a) && !a.state.crashed && a.state.clock <= input.pollNow
    requires a.state.tickNow == input.now
    requires PollReadings(input.pollNow, list) && PollsEnd(input.pollNow, list) <= input.deleteAt
    ensures Alike(PrunePhase(PollPhase(Do(a, Retain(Listed(list))), input.pollNow, list), input),
                  PrunePhase(PollPhase(Do(b, Retain(Listed(list))), input.pollNow, list), WithoutDeletion(input)))
  {
    hide Reached, PollInstances, PollReadings, PollsEnd, FreshAlike;
    PollsAscend(input.pollNow, list);
    DoReaches(s0, a, Retain(Listed(list)));
    DoAlike(a, b, Retain(Listed(list)), Retain(Listed(list)));
    var a1, b1 := Do(a, Retain(Listed(list))), Do(b, Retain(Listed(list)));
    if input.pollNow > a1.state.lastHistoryPoll + HISTORY_POLL_INTERVAL {
      DoReaches(s0, a1, PollDue(input.pollNow));
      DoAlike(a1, b1, PollDue(input.pollNow), PollDue(input.pollNow));
      PollInstancesReach(s0, Do(a1, PollDue(input.pollNow)), list, input.pollNow);
      PollInstancesAlike(s0, Do(a1, PollDue(input.pollNow)), Do(b1, PollDue(input.pollNow)), list, input.pollNow);
    }
    var a2, b2 := PollPhase(a1, input.pollNow, list), PollPhase(b1, input.pollNow, list);
    hide PollPhase;
    if input.now > a2.state.lastPrunedAt + PRUNE_INTERVAL && input.pruneOk {
      DoAlike(a2, b2, Prune(input.now, input.deleteAt, input.deleteOk), Prune(input.now, input.deleteAt, false));
    }
    hide Apply;
  }

  lemma LoopAlike(s0: State, a: Run, b: Run, limit: int, list: seq<InstanceInput>, input: TickInput)
    requires Alike(a, b) && Reached(s0, a) && !a.state.crashed && a.state.clock <= input.now
    requires a.state.tickNow == input.now && a.state.hourlyLimit == limit
    requires InstanceReadings(input.now, list) && InstancesEnd(input.now, list) <= input.pollNow
    requires PollReadings(input.pollNow, list) && PollsEnd(input.pollNow, list) <= input.deleteAt
    ensures Alike(AfterLimit(a, limit, list, input), AfterLimit(b, limit, list, WithoutDeletion(input)))
  {
    hide Reached, Instances, PollPhase, PrunePhase, InstanceReadings, PollReadings, InstancesEnd,
      PollsEnd, Alike, Apply;
    InstancesReach(s0, a, input.now, limit, list, input.now);
    InstancesAlike(s0, a, b, input.now, limit, list, input.now);
    var (cycled, goesOn) := Instances(a, input.now, limit, list);
    if goesOn {
      TailAlike(s0, cycled, Instances(b, input.now, limit, list).0, list, input);
    }
  }

  lemma TickAlike(s0: State, a: Run, b: Run, input: TickInput)
    requires Alike(a, b) && Reached(s0, a) && TickReadings(a.state.clock, input)
    ensures Alike(Tick(a, input), Tick(b, WithoutDeletion(input)))
  {
    hide Reached, AfterLimit, InstanceReadings, PollReadings, ResolveGlobal, InstancesEnd, PollsEnd, FreshAlike;
    if !a.state.crashed {
      DoReaches(s0, a, TickStart(input.now));
      DoAlike(a, b, TickStart(input.now), TickStart(input.now));
      if input.global.Some? {
        var a1, b1 := Do(a, TickStart(input.now)), Do(b, TickStart(input.now));
        var limit := ResolveGlobal(input.global.value).searchLimit;
        DoReaches(s0, a1, LimitRead(limit));
        DoAlike(a1, b1, LimitRead(limit), LimitRead(limit));
        if input.listed.Some? {
          LoopAlike(s0, Do(a1, LimitRead(limit)), Do(b1, LimitRead(limit)), limit, input.listed.value, input);
        }
      }
    }
    hide Alike;
  }

  /** Live the daemon's life twice on the same inputs, restarts included, once with every deletion of expired rows
      failing: both lives send the same commands at the same times, keep the same schedules and counts, and log the same
      history. */
  lemma {:induction false} PruningNeverShows(cooldowns: Table, polls: map<UUID, int>, t0: int, steps: seq<Step>)
    requires LifeReadings(t0, steps)
    ensures var born := Born(cooldowns, polls, t0);
            Alike(Life(born, steps), Life(born, WithoutDeletions(steps)))
  {
    hide TickReadings, Tick, TickEnd, Alike, Reached;
    var born := Born(cooldowns, polls, t0);
    if steps == [] {
      StartAlike(born);
    } else {
      var front, step := steps[..|steps| - 1], steps[|steps| - 1];
      PruningNeverShows(cooldowns, polls, t0, front);
      LifeIsExecution(cooldowns, polls, t0, front);
      SameLength(steps);
      SameLength(front);
      assert WithoutDeletions(steps)[..|steps| - 1] == WithoutDeletions(front);
      StepAlike(born.state, Life(born, front), Life(born, WithoutDeletions(front)), step, LifeEnd(t0, front));
    }
  }

  lemma StepAlike(s0: State, a: Run, b: Run, step: Step, t: int)
    requires Alike(a, b) && Reached(s0, a) && ZERO_TIME < a.state.clock <= t
    requires if step.TickStep? then TickReadings(t, step.input) else t <= step.now
    ensures Alike(After(a, step), After(b, if step.TickStep? then TickStep(WithoutDeletion(step.input)) else step))
  {
    hide TickReadings, Tick, Alike, Reached;
    if step.TickStep? {
      TickEndsBy(s0, a, step.input, t);
      TickAlike(s0, a, b, step.input);
    } else {
      DoAlike(a, b, Restart(step.now), Restart(step.now));
    }
  }

  lemma StartAlike(start: Run)
    requires start.trace == []
    ensures Alike(start, start) && Reached(start.state, start)
  {
    hide Horizon;
  }

  lemma {:induction false} SameLength(steps: seq<Step>)
    ensures |WithoutDeletions(steps)| == |steps|
  {
    if steps != [] {
      SameLength(steps[..|steps| - 1]);
    }
  }
}
