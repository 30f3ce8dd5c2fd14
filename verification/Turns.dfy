/** What one pass of the instance loop does to each listed instance, and when a tick goes on after it. */
module Turns {
  import opened Core
  import opened Settings
  import opened Machine
  import opened TickSpec
  import opened Runs
  import opened Schedules
  import Cooldown
  import Window
  import History

  ghost predicate DistinctInstances(list: seq<InstanceInput>) {
    forall j, k :: 0 <= j < k < |list| ==> list[j].inst.id != list[k].inst.id
  }

  /** The run when the loop gets to the i-th instance. */
  function At(r: Run, now: int, limit: int, list: seq<InstanceInput>, i: nat): Run
    requires i <= |list|
  {
    Instances(r, now, limit, list[..i]).0
  }

  /** The loop gets to the i-th instance, with the context live and the count below the limit. */
  ghost predicate HasTurn(r: Run, now: int, limit: int, list: seq<InstanceInput>, i: nat)
    requires i < |list|
  {
    var (turn, goesOn) := Instances(r, now, limit, list[..i]);
    goesOn && list[i].live && turn.state.searchCount < limit
  }

  // ---------- an instance's entry is its own turn's ----------

  lemma OtherKeepsEntry(r: Run, now: int, limit: int, y: InstanceInput, id: UUID)
    requires y.inst.id != id
    ensures Entry(OneInstance(r, now, limit, y).state, id) == Entry(r.state, id)
    ensures r.trace <= OneInstance(r, now, limit, y).trace
  {
    hide RunInstanceCycle, Resolve, Window.InSearchWindow, Cooldown.Recorded, Interval.ComputeNextInterval;
  }

  lemma {:induction false} RestKeepsEntry(r: Run, now: int, limit: int, list: seq<InstanceInput>, id: UUID)
    requires forall x :: x in list ==> x.inst.id != id
    ensures Entry(Instances(r, now, limit, list).0.state, id) == Entry(r.state, id)
    decreases |list|
  {
    hide OneInstance, Entry;
    if list != [] && list[0].live && r.state.searchCount < limit {
      OtherKeepsEntry(r, now, limit, list[0], id);
      RestKeepsEntry(OneInstance(r, now, limit, list[0]), now, limit, list[1..], id);
    }
  }

  lemma TurnsGrow(r: Run, now: int, limit: int, y: InstanceInput)
    ensures r.trace <= OneInstance(r, now, limit, y).trace
  {
    hide RunInstanceCycle, Resolve, Window.InSearchWindow, Apply;
  }

  /** Before its turn an instance's entry is as at the start; after the loop it is as its turn left it, or as at
      the start if it had none. */
  lemma {:induction false} TurnDecides(r: Run, now: int, limit: int, list: seq<InstanceInput>, i: nat)
    requires !r.state.crashed && i < |list| && DistinctInstances(list)
    ensures var turn, end, id := At(r, now, limit, list, i), Instances(r, now, limit, list).0, list[i].inst.id;
            && Entry(turn.state, id) == Entry(r.state, id) && r.trace <= turn.trace <= end.trace
            && (!HasTurn(r, now, limit, list, i) ==> Entry(end.state, id) == Entry(r.state, id))
            && (HasTurn(r, now, limit, list, i) ==>
                  && !turn.state.crashed
                  && Entry(end.state, id) == Entry(OneInstance(turn, now, limit, list[i]).state, id)
                  && OneInstance(turn, now, limit, list[i]).trace <= end.trace)
    decreases |list|
  {
    hide OneInstance, Entry, DistinctInstances;
    var x, y, rest := list[i], list[0], list[1..];
    var next := OneInstance(r, now, limit, y);
    if y.live && r.state.searchCount < limit {
      TurnsGrow(r, now, limit, y);
      InstancesGrow(next, now, limit, rest);
      if i == 0 {
        OthersDiffer(list);
        if !next.state.crashed {
          RestKeepsEntry(next, now, limit, rest, x.inst.id);
        }
      } else {
        OthersDiffer(list);
        assert list[..i][0] == y && list[..i][1..] == rest[..i - 1] && rest[i - 1] == x;
        OtherKeepsEntry(r, now, limit, y, x.inst.id);
        if !next.state.crashed {
          TurnDecides(next, now, limit, rest, i - 1);
        }
      }
    }
  }

  lemma OthersDiffer(list: seq<InstanceInput>)
    requires DistinctInstances(list) && list != []
    ensures DistinctInstances(list[1..]) && forall x :: x in list[1..] ==> x.inst.id != list[0].inst.id
  {
    forall x | x in list[1..]
      ensures x.inst.id != list[0].inst.id
    {
      var k :| 0 <= k < |list[1..]| && list[1..][k] == x;
      assert list[k + 1] == x;
    }
  }

  // ---------- what a turn does ----------

  function SettingsOf(x: InstanceInput): Option<Resolved> {
    if x.global.Some? && x.own.Some? then Some(Resolve(x.global.value, x.own.value)) else None
  }

  /** Due now and inside its window, by the entry it has and the settings it resolves to. */
  ghost predicate DueIn(e: Option<Schedule>, now: int, x: InstanceInput, g: Resolved) {
    && (e.Some? ==> e.value.nextSearchAt <= now)
    && Window.InSearchWindow(g.searchWindowStart, g.searchWindowEnd, x.minute)
  }

  /** A listed instance that resolves to disabled shows, after the loop, a disabled entry without a next time,
      exactly if it had a turn; without one its entry is what it was. */
  lemma DisabledIsShown(r: Run, now: int, limit: int, list: seq<InstanceInput>, i: nat)
    requires !r.state.crashed && i < |list| && DistinctInstances(list)
    requires SettingsOf(list[i]).Some? && !SettingsOf(list[i]).value.enabled
    ensures var end, inst := Instances(r, now, limit, list).0, list[i].inst;
            if HasTurn(r, now, limit, list, i) then
              && Entry(end.state, inst.id) == Some(Schedule(inst.id, inst.name, 0, 0, false))
              && var k := |At(r, now, limit, list, i).trace|;
                 |r.trace| <= k < |end.trace| && end.trace[k] == SeenDisabled(inst)
            else Entry(end.state, inst.id) == Entry(r.state, inst.id)
  {
    TurnDecides(r, now, limit, list, i);
    var turn := At(r, now, limit, list, i);
    hide Instances, Resolve, HasTurn, DistinctInstances;
    var next := OneInstance(turn, now, limit, list[i]);
    assert next == Do(turn, SeenDisabled(list[i].inst));
    assert next.trace[|turn.trace|] == SeenDisabled(list[i].inst);
  }

  /** An instance that is not due, is outside its window, or whose settings cannot be loaded keeps its entry. */
  lemma OthersKeepTheirEntry(r: Run, now: int, limit: int, list: seq<InstanceInput>, i: nat)
    requires !r.state.crashed && i < |list| && DistinctInstances(list)
    requires SettingsOf(list[i]).Some? ==>
               var g := SettingsOf(list[i]).value;
               g.enabled && !DueIn(Entry(r.state, list[i].inst.id), now, list[i], g)
    ensures Entry(Instances(r, now, limit, list).0.state, list[i].inst.id) == Entry(r.state, list[i].inst.id)
  {
    TurnDecides(r, now, limit, list, i);
    hide Instances, Resolve, HasTurn, DistinctInstances, Window.InSearchWindow;
  }

  /** The section is the cycle of the instance's own settings and inputs, and the entry its end plus the interval
      computed then. */
  ghost predicate ShowsCycle(l: Label, e: Option<Schedule>, now: int, limit: int, x: InstanceInput) {
    && SettingsOf(x).Some? && l.Commit?
    && var c := l.cycle;
       && c.inst == x.inst && c.settings == SettingsOf(x).value && c.limit == limit && c.startedAt == now
       && c.endedAt == x.cycle.endedAt && c.minute == x.minute
       && e == Some(Schedule(x.inst.id, x.inst.name, c.endedAt + c.interval, c.interval, true))
  }

  lemma DueTurn(turn: Run, now: int, limit: int, x: InstanceInput)
    requires !turn.state.crashed && SettingsOf(x).Some? && SettingsOf(x).value.enabled
    requires DueIn(Entry(turn.state, x.inst.id), now, x, SettingsOf(x).value)
    ensures var next := OneInstance(turn, now, limit, x);
            && |next.trace| == |turn.trace| + 1 && turn.trace <= next.trace
            && var l := next.trace[|turn.trace|];
               if next.state.crashed then l == Crash && Entry(next.state, x.inst.id) == Entry(turn.state, x.inst.id)
               else ShowsCycle(l, Entry(next.state, x.inst.id), now, limit, x)
  {
    var g := SettingsOf(x).value;
    hide Resolve, Window.InSearchWindow, RunInstanceCycle, AfterOutcome, ShowsCycle;
    var o := RunInstanceCycle(turn.state.cooldowns, x.inst.id, g, x.cycle);
    assert OneInstance(turn, now, limit, x) == AfterOutcome(turn, now, limit, x, g, o);
    if o.Done? {
      DoneTurn(turn, now, limit, x, g, o);
    } else {
      PanicTurn(turn, now, limit, x, g);
    }
  }

  lemma PanicTurn(turn: Run, now: int, limit: int, x: InstanceInput, g: Resolved)
    ensures var next := AfterOutcome(turn, now, limit, x, g, Panic);
            && next.state.crashed && next.trace == turn.trace + [Crash]
            && Entry(next.state, x.inst.id) == Entry(turn.state, x.inst.id)
  {
  }

  lemma DoneTurn(turn: Run, now: int, limit: int, x: InstanceInput, g: Resolved, o: CycleOutcome)
    requires o.Done? && SettingsOf(x) == Some(g)
    ensures var next, k := AfterOutcome(turn, now, limit, x, g, o), |turn.trace|;
            && next.state.crashed == turn.state.crashed && |next.trace| == k + 1 && turn.trace <= next.trace
            && ShowsCycle(next.trace[k], Entry(next.state, x.inst.id), now, limit, x)
  {
    hide SettingsOf, Cooldown.Recorded, Interval.ComputeNextInterval;
    var c := CycleOf(turn.state, now, limit, x, g, o);
    var next := AfterOutcome(turn, now, limit, x, g, o);
    assert next == Do(turn, Commit(c));
    assert Entry(next.state, x.inst.id) == Some(NextSchedule(c));
    assert next.trace[|turn.trace|] == Commit(c);
  }

  /** A due instance with a turn shows its next time, the end of its cycle plus the interval computed then; if its cycle
      panics it keeps its entry. */
  lemma CycledIsShown(r: Run, now: int, limit: int, list: seq<InstanceInput>, i: nat)
    requires !r.state.crashed && i < |list| && DistinctInstances(list) && HasTurn(r, now, limit, list, i)
    requires SettingsOf(list[i]).Some? && SettingsOf(list[i]).value.enabled
    requires DueIn(Entry(r.state, list[i].inst.id), now, list[i], SettingsOf(list[i]).value)
    ensures var turn, end, x := At(r, now, limit, list, i), Instances(r, now, limit, list).0, list[i];
            var k, e := |turn.trace|, Entry(end.state, x.inst.id);
            && |r.trace| <= k < |end.trace|
            && if OneInstance(turn, now, limit, x).state.crashed then
                 end.trace[k] == Crash && e == Entry(r.state, x.inst.id)
               else ShowsCycle(end.trace[k], e, now, limit, x)
  {
    TurnDecides(r, now, limit, list, i);
    var turn, x := At(r, now, limit, list, i), list[i];
    hide Instances, HasTurn, DistinctInstances, OneInstance, Entry, SettingsOf, DueIn, ShowsCycle, At;
    DueTurn(turn, now, limit, x);
  }

  // ---------- when the tick goes on ----------

  /** With the context live throughout, only a panic keeps the tick from going on: meeting the hourly limit does not. */
  lemma {:induction false} LoopGoesOn(r: Run, now: int, limit: int, list: seq<InstanceInput>)
    requires !r.state.crashed && forall x :: x in list ==> x.live
    ensures var (end, goesOn) := Instances(r, now, limit, list); goesOn <==> !end.state.crashed
    decreases |list|
  {
    hide OneInstance;
    if list != [] && r.state.searchCount < limit && !OneInstance(r, now, limit, list[0]).state.crashed {
      LoopGoesOn(OneInstance(r, now, limit, list[0]), now, limit, list[1..]);
    }
  }

  /** When the context has ended by the time the loop gets to an instance, nothing more happens in the tick. */
  lemma {:induction false} EndedContextStops(r: Run, now: int, limit: int, list: seq<InstanceInput>, i: nat)
    requires i < |list| && !list[i].live
    requires Instances(r, now, limit, list[..i]).1 && At(r, now, limit, list, i).state.searchCount < limit
    ensures Instances(r, now, limit, list) == (At(r, now, limit, list, i), false)
    decreases |list|
  {
    hide OneInstance;
    if i > 0 {
      assert list[..i][0] == list[0] && list[..i][1..] == list[1..][..i - 1] && list[1..][i - 1] == list[i];
      if list[0].live && r.state.searchCount < limit {
        EndedContextStops(OneInstance(r, now, limit, list[0]), now, limit, list[1..], i - 1);
      }
    }
  }

  /** The run when the instance loop begins. */
  function LoopStart(r: Run, input: TickInput): Run
    requires input.global.Some?
  {
    Do(Do(r, TickStart(input.now)), LimitRead(ResolveGlobal(input.global.value).searchLimit))
  }

  function Loop(r: Run, input: TickInput): (Run, bool)
    requires input.global.Some? && input.listed.Some?
  {
    Instances(LoopStart(r, input), input.now, ResolveGlobal(input.global.value).searchLimit, input.listed.value)
  }

  /** A tick that cannot load the global settings, or cannot list the instances, ends there. */
  lemma FailedTickStops(r: Run, input: TickInput)
    requires !r.state.crashed
    ensures input.global.None? ==> Tick(r, input) == Do(r, TickStart(input.now))
    ensures input.global.Some? && input.listed.None? ==> Tick(r, input) == LoopStart(r, input)
  {
    hide ResolveGlobal, Apply;
  }

  lemma {:induction false} PollsKeepEntries(r: Run, list: seq<InstanceInput>, id: UUID)
    ensures Entry(PollInstances(r, list).state, id) == Entry(r.state, id)
    ensures PollInstances(r, list).state.searchCount == r.state.searchCount
    ensures PollInstances(r, list).state.crashed == r.state.crashed
    decreases |list|
  {
    hide History.FetchHistory;
    if list != [] && list[0].poll.live {
      PollsKeepEntries(PollInstance(r, list[0]), list[1..], id);
    }
  }

  /** What a tick shows of the listed instances is what its loop left; when it goes on, no other instance has an
      entry. */
  lemma TickShowsItsLoop(r: Run, input: TickInput, id: UUID)
    requires !r.state.crashed && input.global.Some? && input.listed.Some?
    ensures var (end, goesOn) := Loop(r, input);
            var next := Tick(r, input);
            && (!goesOn ==> next == end)
            && (goesOn ==> next.state.searchCount == end.state.searchCount && next.state.crashed == end.state.crashed)
            && (goesOn ==>
                  Entry(next.state, id) ==
                    if exists x :: x in input.listed.value && x.inst.id == id then Entry(end.state, id) else None)
  {
    hide Instances, ResolveGlobal, Cooldown.Pruned;
    var (end, goesOn) := Loop(r, input);
    var list := input.listed.value;
    if goesOn {
      var swept := Do(end, Retain(Listed(list)));
      assert id in Listed(list) <==> exists x :: x in list && x.inst.id == id;
      PollsKeepEntries(Do(swept, PollDue(input.pollNow)), list, id);
    }
  }

  predicate InWindow(g: Resolved, minute: int) {
    Window.InSearchWindow(g.searchWindowStart, g.searchWindowEnd, minute)
  }

  /** Over the daemon's life: an instance that a tick showed disabled is searched by the next tick that finds it
      enabled, inside its window and with a turn, whatever its interval and next time were before. */
  lemma ReenabledIsCycled(cooldowns: Cooldown.Table, polls: map<UUID, int>, t0: int, steps: seq<Step>,
                          a: TickInput, b: TickInput, i: nat, j: nat)
    requires LifeReadings(t0, steps + [TickStep(a), TickStep(b)])
    requires a.global.Some? && a.listed.Some? && b.global.Some? && b.listed.Some?
    requires i < |a.listed.value| && j < |b.listed.value|
    requires DistinctInstances(a.listed.value) && DistinctInstances(b.listed.value)
    requires a.listed.value[i].inst.id == b.listed.value[j].inst.id
    requires var r0 := Life(Born(cooldowns, polls, t0), steps);
             && !r0.state.crashed && !Tick(r0, a).state.crashed
             && HasTurn(LoopStart(r0, a), a.now, ResolveGlobal(a.global.value).searchLimit, a.listed.value, i)
             && SettingsOf(a.listed.value[i]).Some? && !SettingsOf(a.listed.value[i]).value.enabled
             && var r1, limit, x := Tick(r0, a), ResolveGlobal(b.global.value).searchLimit, b.listed.value[j];
             && HasTurn(LoopStart(r1, b), b.now, limit, b.listed.value, j)
             && SettingsOf(x).Some? && SettingsOf(x).value.enabled
             && InWindow(SettingsOf(x).value, x.minute)
             && !OneInstance(At(LoopStart(r1, b), b.now, limit, b.listed.value, j), b.now, limit, x).state.crashed
    ensures var r1 := Tick(Life(Born(cooldowns, polls, t0), steps), a);
            CycledSince(LoopStart(r1, b), Loop(r1, b).0, b.listed.value[j])
  {
    var r0 := Life(Born(cooldowns, polls, t0), steps);
    var r1, x := Tick(r0, a), b.listed.value[j];
    var la, lb := ResolveGlobal(a.global.value).searchLimit, ResolveGlobal(b.global.value).searchLimit;
    LaterReading(t0, steps, a, b);
    hide LifeReadings, Life;
    StartKeeps(r0, a, x.inst.id);
    StartKeeps(r1, b, x.inst.id);
    DisabledIsShown(LoopStart(r0, a), a.now, la, a.listed.value, i);
    TickShowsItsLoop(r0, a, x.inst.id);
    assert a.listed.value[i] in a.listed.value;
    assert Entry(r1.state, x.inst.id) == Some(Schedule(x.inst.id, a.listed.value[i].inst.name, 0, 0, false));
    hide Tick, Instances, HasTurn, DistinctInstances, Window.InSearchWindow, ResolveGlobal, Resolve,
      LoopStart, OneInstance;
    CycledIsShown(LoopStart(r1, b), b.now, lb, b.listed.value, j);
    var k := |At(LoopStart(r1, b), b.now, lb, b.listed.value, j).trace|;
    assert Loop(r1, b).0.trace[k].Commit? && Loop(r1, b).0.trace[k].cycle.inst == x.inst;
  }

  lemma StartKeeps(r: Run, input: TickInput, id: UUID)
    requires input.global.Some?
    ensures LoopStart(r, input).state.crashed == r.state.crashed
    ensures Entry(LoopStart(r, input).state, id) == Entry(r.state, id)
  {
    hide ResolveGlobal;
  }

  /** Ticks read a clock that is past the zero time. */
  lemma LaterReading(t0: int, steps: seq<Step>, a: TickInput, b: TickInput)
    requires LifeReadings(t0, steps + [TickStep(a), TickStep(b)])
    ensures b.now > ZERO_TIME
  {
    var all, one := steps + [TickStep(a), TickStep(b)], steps + [TickStep(a)];
    assert all[..|all| - 1] == one && one[..|one| - 1] == steps;
    hide TickReadings, TickEnd;
    EndIsPositive(t0, one);
    assert LifeEnd(t0, one) <= b.now by { NowIsLater(LifeEnd(t0, one), b); }
  }

  lemma NowIsLater(t: int, input: TickInput)
    requires TickReadings(t, input)
    ensures t <= input.now <= TickEnd(input)
  {
    TickSpansForward(t, input);
  }

  lemma {:induction false} EndIsPositive(t0: int, steps: seq<Step>)
    requires LifeReadings(t0, steps)
    ensures LifeEnd(t0, steps) > ZERO_TIME
  {
    hide TickReadings, TickEnd;
    if steps != [] {
      var front, step := steps[..|steps| - 1], steps[|steps| - 1];
      EndIsPositive(t0, front);
      if step.TickStep? {
        NowIsLater(LifeEnd(t0, front), step.input);
      }
    }
  }
}
