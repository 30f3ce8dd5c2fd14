/** What follows the instance loop of a tick: which histories are polled, from when and with what result, and which
    cooldown rows are deleted. */
module Phases {
  import opened Core
  import opened Settings
  import opened History
  import opened Machine
  import opened TickSpec
  import opened Runs
  import opened Polling
  import opened Turns
  import Cooldown
  import Window

  // ---------- one instance's poll ----------

  /** The calls a poll needs are answered: its stored time, and every page of imports. */
  ghost predicate Answered(p: PollInput) {
    p.lastPolledOk && forall k :: 0 <= k < |p.importPages| ==> p.importPages[k].Some?
  }

  /** The pages of imports that were fetched. */
  ghost predicate Gathered(fetched: seq<Option<seq<RawRecord>>>, pages: seq<seq<RawRecord>>) {
    |pages| == |fetched| && forall k :: 0 <= k < |pages| ==> fetched[k] == Some(pages[k])
  }

  /** The poll is that of x: from its stored time, or a day back when it has none; of the fetched pages, an
      unfetched page of deletions counting as empty; storing the time it reads afterwards if the call succeeds. */
  ghost predicate PollsFor(p: Poll, x: InstanceInput, polls: map<UUID, int>) {
    && p.inst == x.inst && p.storedAt == x.poll.storedAt && p.stored == x.poll.storeOk
    && p.since == (if x.inst.id in polls && polls[x.inst.id] != 0 then polls[x.inst.id]
                   else x.poll.lookbackFrom - 24 * HOUR)
    && exists pages :: Gathered(x.poll.importPages, pages)
                       && Logs(p, if x.poll.deletePage.Some? then x.poll.deletePage.value else [], pages)
  }

  lemma OwnPoll(r: Run, x: InstanceInput)
    ensures !Answered(x.poll) ==> PollInstance(r, x) == r
    ensures Answered(x.poll) ==>
              var next := PollInstance(r, x);
              && |next.trace| == |r.trace| + 1 && r.trace <= next.trace && next.trace[|r.trace|].Polled?
              && var p := next.trace[|r.trace|].poll;
                 && PollsFor(p, x, r.state.polls)
                 && next.state.polls == if x.poll.storeOk then r.state.polls[x.inst.id := x.poll.storedAt]
                                        else r.state.polls
  {
    hide Fetched;
    if Answered(x.poll) {
      var pages := Contents(x.poll.importPages);
      assert Gathered(x.poll.importPages, pages);
    }
  }

  lemma OtherPoll(r: Run, y: InstanceInput, id: UUID)
    requires y.inst.id != id
    ensures SameTime(PollInstance(r, y).state.polls, r.state.polls, id)
    ensures r.trace <= PollInstance(r, y).trace && NoPollSince(r, PollInstance(r, y), id)
  {
    hide FetchHistory;
  }

  ghost predicate SameTime(after: map<UUID, int>, before: map<UUID, int>, id: UUID) {
    (id in after <==> id in before) && (id in before ==> after[id] == before[id])
  }

  ghost predicate NoPollSince(r: Run, end: Run, id: UUID) {
    forall k :: |r.trace| <= k < |end.trace| ==> !PollOf(end.trace[k], id)
  }

  // ---------- the poll of every instance ----------

  /** Since r, x was polled once, as its inputs say, starting from the times in `polls`. */
  ghost predicate PolledOnce(r: Run, end: Run, x: InstanceInput, polls: map<UUID, int>) {
    exists k ::
      && |r.trace| <= k < |end.trace| && end.trace[k].Polled? && PollsFor(end.trace[k].poll, x, polls)
      && forall j :: |r.trace| <= j < |end.trace| && PollOf(end.trace[j], x.inst.id) ==> j == k
  }

  /** The context is live when the loop gets to the i-th instance. */
  ghost predicate Reaches(list: seq<InstanceInput>, i: nat)
    requires i < |list|
  {
    forall k :: 0 <= k <= i ==> list[k].poll.live
  }

  lemma {:induction false} RestPolls(r: Run, list: seq<InstanceInput>, id: UUID)
    requires forall x :: x in list ==> x.inst.id != id
    ensures SameTime(PollInstances(r, list).state.polls, r.state.polls, id)
    ensures r.trace <= PollInstances(r, list).trace && NoPollSince(r, PollInstances(r, list), id)
    decreases |list|
  {
    hide PollInstance, PollOf;
    if list != [] && list[0].poll.live {
      OtherPoll(r, list[0], id);
      RestPolls(PollInstance(r, list[0]), list[1..], id);
    }
  }

  /** Every instance that the poll loop reaches with its calls answered is polled exactly once, and its new time stored
      exactly if storing succeeds; any other is not polled and keeps its stored time. */
  lemma {:induction false} EveryInstanceIsPolled(r: Run, list: seq<InstanceInput>, i: nat)
    requires i < |list| && DistinctInstances(list)
    ensures var end, x := PollInstances(r, list), list[i];
            && r.trace <= end.trace
            && if Reaches(list, i) && Answered(x.poll) then
                 && PolledOnce(r, end, x, r.state.polls)
                 && if x.poll.storeOk then x.inst.id in end.state.polls && end.state.polls[x.inst.id] == x.poll.storedAt
                    else SameTime(end.state.polls, r.state.polls, x.inst.id)
               else NoPollSince(r, end, x.inst.id) && SameTime(end.state.polls, r.state.polls, x.inst.id)
    decreases |list|
  {
    hide PollInstance, Answered, DistinctInstances, PollsFor;
    var x, y, rest := list[i], list[0], list[1..];
    OthersDiffer(list);
    if y.poll.live {
      var next := PollInstance(r, y);
      var end := PollInstances(next, rest);
      if i == 0 {
        OwnPoll(r, x);
        RestPolls(next, rest, x.inst.id);
        if Answered(x.poll) {
          var k := |r.trace|;
          assert end.trace[k] == next.trace[k];
        }
      } else {
        assert rest[i - 1] == x && forall k :: 0 <= k < |rest| ==> rest[k] == list[k + 1];
        assert Reaches(list, i) <==> Reaches(rest, i - 1) by { ReachesRest(list, i); }
        OtherPoll(r, y, x.inst.id);
        EveryInstanceIsPolled(next, rest, i - 1);
        hide Reaches, PollOf;
        ExtendBack(r, next, end, x, r.state.polls, next.state.polls);
      }
    } else {
      assert !Reaches(list, i) by { assert !list[0].poll.live; }
    }
  }

  lemma ReachesRest(list: seq<InstanceInput>, i: nat)
    requires 0 < i < |list| && list[0].poll.live
    ensures Reaches(list, i) <==> Reaches(list[1..], i - 1)
  {
    var rest := list[1..];
    assert forall k :: 1 <= k <= i ==> list[k] == rest[k - 1];
    if Reaches(rest, i - 1) {
      forall k | 0 <= k <= i
        ensures list[k].poll.live
      {
        assert k > 0 ==> rest[k - 1].poll.live;
      }
    }
    if Reaches(list, i) {
      forall k | 0 <= k <= i - 1
        ensures rest[k].poll.live
      {
        assert list[k + 1].poll.live;
      }
    }
  }

  /** A stretch without polls of x in front changes nothing. */
  lemma ExtendBack(r: Run, next: Run, end: Run, x: InstanceInput, polls: map<UUID, int>, later: map<UUID, int>)
    requires r.trace <= next.trace <= end.trace && NoPollSince(r, next, x.inst.id)
    requires SameTime(later, polls, x.inst.id)
    ensures NoPollSince(next, end, x.inst.id) ==> NoPollSince(r, end, x.inst.id)
    ensures PolledOnce(next, end, x, later) ==> PolledOnce(r, end, x, polls)
  {
    hide PollOf, Logs, Gathered;
    assert forall k :: 0 <= k < |next.trace| ==> end.trace[k] == next.trace[k];
    if PolledOnce(next, end, x, later) {
      var k :| && |next.trace| <= k < |end.trace| && end.trace[k].Polled? && PollsFor(end.trace[k].poll, x, later)
               && forall j :: |next.trace| <= j < |end.trace| && PollOf(end.trace[j], x.inst.id) ==> j == k;
      assert PollsFor(end.trace[k].poll, x, polls);
    }
  }

  /** And one behind it neither. */
  lemma ExtendForward(r: Run, end: Run, later: Run, x: InstanceInput, polls: map<UUID, int>)
    requires r.trace <= end.trace <= later.trace && NoPollSince(end, later, x.inst.id)
    ensures NoPollSince(r, end, x.inst.id) ==> NoPollSince(r, later, x.inst.id)
    ensures PolledOnce(r, end, x, polls) ==> PolledOnce(r, later, x, polls)
  {
    hide PollOf, PollsFor;
    assert forall k :: 0 <= k < |end.trace| ==> later.trace[k] == end.trace[k];
    if PolledOnce(r, end, x, polls) {
      var k :| && |r.trace| <= k < |end.trace| && end.trace[k].Polled? && PollsFor(end.trace[k].poll, x, polls)
               && forall j :: |r.trace| <= j < |end.trace| && PollOf(end.trace[j], x.inst.id) ==> j == k;
      assert later.trace[k].Polled? && PollsFor(later.trace[k].poll, x, polls);
    }
  }

  // ---------- within a tick ----------

  /** The instance loop polls and prunes nothing. */
  lemma {:induction false} LoopKeepsTimes(r: Run, now: int, limit: int, list: seq<InstanceInput>, id: UUID)
    ensures var end := Instances(r, now, limit, list).0;
            && end.state.polls == r.state.polls && end.state.lastHistoryPoll == r.state.lastHistoryPoll
            && end.state.lastPrunedAt == r.state.lastPrunedAt
            && r.trace <= end.trace && NoPollSince(r, end, id)
    decreases |list|
  {
    hide OneInstance;
    if list != [] && list[0].live && r.state.searchCount < limit {
      OneKeepsTimes(r, now, limit, list[0], id);
      LoopKeepsTimes(OneInstance(r, now, limit, list[0]), now, limit, list[1..], id);
    }
  }

  lemma OneKeepsTimes(r: Run, now: int, limit: int, y: InstanceInput, id: UUID)
    ensures var next := OneInstance(r, now, limit, y);
            && next.state.polls == r.state.polls && next.state.lastHistoryPoll == r.state.lastHistoryPoll
            && next.state.lastPrunedAt == r.state.lastPrunedAt
            && r.trace <= next.trace && NoPollSince(r, next, id)
  {
    hide RunInstanceCycle, Resolve, Window.InSearchWindow, Cooldown.Recorded, Interval.ComputeNextInterval;
  }

  lemma LoopFromStart(r: Run, input: TickInput, id: UUID)
    requires input.global.Some? && input.listed.Some?
    ensures var end := Loop(r, input).0;
            && end.state.polls == r.state.polls && end.state.lastHistoryPoll == r.state.lastHistoryPoll
            && end.state.lastPrunedAt == r.state.lastPrunedAt
            && r.trace <= end.trace && NoPollSince(r, end, id)
  {
    hide ResolveGlobal, Instances;
    var limit := ResolveGlobal(input.global.value).searchLimit;
    LoopKeepsTimes(LoopStart(r, input), input.now, limit, input.listed.value, id);
  }

  /** The run when the poll loop begins, if polls are due. */
  function PollStart(end: Run, input: TickInput): Run
    requires input.listed.Some?
  {
    Do(Do(end, Retain(Listed(input.listed.value))), PollDue(input.pollNow))
  }

  /** The tick goes on and the last poll of the histories is more than five minutes ago. */
  ghost predicate PollsAreDue(r: Run, input: TickInput)
    requires input.global.Some? && input.listed.Some?
  {
    Loop(r, input).1 && input.pollNow > r.state.lastHistoryPoll + 5 * MINUTE
  }

  lemma TickUnfolds(r: Run, input: TickInput)
    requires !r.state.crashed && input.global.Some? && input.listed.Some?
    ensures var (end, goesOn) := Loop(r, input);
            Tick(r, input) ==
              if goesOn then PrunePhase(PollPhase(Swept(end, input), input.pollNow, input.listed.value), input) else end
  {
    hide Instances, ResolveGlobal, PollPhase, PrunePhase, Listed, Apply;
  }

  function Swept(end: Run, input: TickInput): Run
    requires input.listed.Some?
  {
    Do(end, Retain(Listed(input.listed.value)))
  }

  /** The tick's parts after the loop. */
  lemma TickParts(r: Run, input: TickInput, id: UUID)
    requires !r.state.crashed && input.global.Some? && input.listed.Some?
    ensures var end, next := Loop(r, input).0, Tick(r, input);
            if PollsAreDue(r, input) then
              var polled := PollInstances(PollStart(end, input), input.listed.value);
              && polled.trace <= next.trace && NoPollSince(polled, next, id) && next.state.polls == polled.state.polls
            else
              && end.trace <= next.trace && NoPollSince(end, next, id) && next.state.polls == end.state.polls
  {
    LoopFromStart(r, input, id);
    TickUnfolds(r, input);
    hide Loop, Tick, PollPhase, PrunePhase, NoPollSince;
    if Loop(r, input).1 {
      var end := Loop(r, input).0;
      var polled := PollPhase(Swept(end, input), input.pollNow, input.listed.value);
      PollPhaseIs(end, input, id);
      PruneIsQuiet(polled, input, id);
    } else {
      NothingIsQuiet(Loop(r, input).0, id);
    }
  }

  lemma NothingIsQuiet(r: Run, id: UUID)
    ensures NoPollSince(r, r, id)
  {
  }

  lemma PruneIsQuiet(r: Run, input: TickInput, id: UUID)
    ensures var next := PrunePhase(r, input);
            r.trace <= next.trace && NoPollSince(r, next, id) && next.state.polls == r.state.polls
    ensures forall before: Run :: before.trace <= r.trace && NoPollSince(before, r, id) ==>
              NoPollSince(before, PrunePhase(r, input), id)
  {
    hide Cooldown.Pruned;
  }

  lemma PollPhaseIs(end: Run, input: TickInput, id: UUID)
    requires input.listed.Some?
    ensures var list := input.listed.value;
            var polled := PollPhase(Swept(end, input), input.pollNow, list);
            if input.pollNow > end.state.lastHistoryPoll + 5 * MINUTE then
              polled == PollInstances(PollStart(end, input), list)
            else end.trace <= polled.trace && NoPollSince(end, polled, id) && polled.state.polls == end.state.polls
  {
    hide PollInstances, Listed;
  }

  /** A tick polls every listed instance whose calls are answered, exactly once, exactly when polls are due and
      the context stays live; otherwise it does not poll the instance and its stored time stays. */
  lemma TickPolls(r: Run, input: TickInput, i: nat)
    requires !r.state.crashed && input.global.Some? && input.listed.Some?
    requires i < |input.listed.value| && DistinctInstances(input.listed.value)
    ensures var next, x := Tick(r, input), input.listed.value[i];
            if PollsAreDue(r, input) && Reaches(input.listed.value, i) && Answered(x.poll) then
              && PolledOnce(r, next, x, r.state.polls)
              && if x.poll.storeOk then x.inst.id in next.state.polls && next.state.polls[x.inst.id] == x.poll.storedAt
                 else SameTime(next.state.polls, r.state.polls, x.inst.id)
            else NoPollSince(r, next, x.inst.id) && SameTime(next.state.polls, r.state.polls, x.inst.id)
  {
    var end, next, list := Loop(r, input).0, Tick(r, input), input.listed.value;
    var x := list[i];
    LoopFromStart(r, input, x.inst.id);
    TickParts(r, input, x.inst.id);
    hide Tick, Loop, PollsFor, Answered, Reaches, PollsAreDue, DistinctInstances, PolledOnce, NoPollSince, Listed;
    if PollsAreDue(r, input) {
      DuePolls(r, end, next, input, i);
    } else {
      ExtendForward(r, end, next, x, r.state.polls);
    }
  }

  lemma DuePolls(r: Run, end: Run, next: Run, input: TickInput, i: nat)
    requires input.listed.Some? && i < |input.listed.value| && DistinctInstances(input.listed.value)
    requires var id, polled := input.listed.value[i].inst.id, PollInstances(PollStart(end, input), input.listed.value);
             && r.trace <= end.trace && NoPollSince(r, end, id) && end.state.polls == r.state.polls
             && polled.trace <= next.trace && NoPollSince(polled, next, id) && next.state.polls == polled.state.polls
    ensures var x := input.listed.value[i];
            if Reaches(input.listed.value, i) && Answered(x.poll) then
              && PolledOnce(r, next, x, r.state.polls)
              && if x.poll.storeOk then x.inst.id in next.state.polls && next.state.polls[x.inst.id] == x.poll.storedAt
                 else SameTime(next.state.polls, r.state.polls, x.inst.id)
            else NoPollSince(r, next, x.inst.id) && SameTime(next.state.polls, r.state.polls, x.inst.id)
  {
    var list, start := input.listed.value, PollStart(end, input);
    var x, polled := list[i], PollInstances(start, list);
    StartIsQuiet(r, end, input, x.inst.id);
    hide PollStart, PollInstances, PollsFor, Answered, Reaches, DistinctInstances, PolledOnce, NoPollSince;
    EveryInstanceIsPolled(start, list, i);
    ExtendBack(r, start, polled, x, r.state.polls, r.state.polls);
    ExtendForward(r, polled, next, x, r.state.polls);
  }

  lemma StartIsQuiet(r: Run, end: Run, input: TickInput, id: UUID)
    requires input.listed.Some? && r.trace <= end.trace && NoPollSince(r, end, id)
    ensures var start := PollStart(end, input);
            NoPollSince(r, start, id) && r.trace <= start.trace && start.state.polls == end.state.polls
  {
    hide Listed;
  }

  lemma {:induction false} PollsKeepTables(r: Run, list: seq<InstanceInput>)
    ensures PollInstances(r, list).state.cooldowns == r.state.cooldowns
    ensures PollInstances(r, list).state.lastPrunedAt == r.state.lastPrunedAt
    ensures PollInstances(r, list).state.lastHistoryPoll == r.state.lastHistoryPoll
    decreases |list|
  {
    hide FetchHistory;
    if list != [] && list[0].poll.live {
      PollsKeepTables(PollInstance(r, list[0]), list[1..]);
    }
  }

  /** The tick goes on, the last pruning is more than a day ago, and the activity log could be pruned. */
  ghost predicate PruneIsDue(r: Run, input: TickInput)
    requires input.global.Some? && input.listed.Some?
  {
    Loop(r, input).1 && input.now > r.state.lastPrunedAt + 24 * HOUR && input.pruneOk
  }

  /** A due pruning deletes every cooldown row stamped more than ninety days and a millisecond before, if the call
      succeeds, and counts as done either way; no other row goes, and nothing is deleted when it is not due. */
  lemma TickPrunes(r: Run, input: TickInput, row: Cooldown.Row)
    requires !r.state.crashed && input.global.Some? && input.listed.Some?
    ensures var before, next := Loop(r, input).0.state.cooldowns, Tick(r, input).state;
            && next.lastPrunedAt == (if PruneIsDue(r, input) then input.now else r.state.lastPrunedAt)
            && next.lastHistoryPoll == (if PollsAreDue(r, input) then input.pollNow else r.state.lastHistoryPoll)
            && (!(PruneIsDue(r, input) && input.deleteOk) ==> next.cooldowns == before)
            && (PruneIsDue(r, input) && input.deleteOk ==>
                  && (row in next.cooldowns ==> row in before && next.cooldowns[row] == before[row])
                  && (row in before && before[row] * MILLISECOND + 90 * DAY >= input.deleteAt ==> row in next.cooldowns)
                  && (row in before && before[row] * MILLISECOND + 90 * DAY + MILLISECOND <= input.deleteAt ==>
                        row !in next.cooldowns))
  {
    var end, list := Loop(r, input).0, input.listed.value;
    LoopFromStart(r, input, 0);
    TickUnfolds(r, input);
    hide Loop, Tick, PollInstances, Listed, Cooldown.Pruned, NoPollSince, PrunePhase, PollPhase;
    if Loop(r, input).1 {
      var polled := PollPhase(Swept(end, input), input.pollNow, list);
      PollPart(end, input);
      PrunePart(polled, input, row);
    }
  }

  lemma PollPart(end: Run, input: TickInput)
    requires input.listed.Some?
    ensures var polled := PollPhase(Swept(end, input), input.pollNow, input.listed.value).state;
            && polled.cooldowns == end.state.cooldowns && polled.lastPrunedAt == end.state.lastPrunedAt
            && polled.lastHistoryPoll ==
                 if input.pollNow > end.state.lastHistoryPoll + 5 * MINUTE then input.pollNow
                 else end.state.lastHistoryPoll
  {
    PollsKeepTables(PollStart(end, input), input.listed.value);
    hide PollInstances, Listed;
  }

  lemma PrunePart(r: Run, input: TickInput, row: Cooldown.Row)
    ensures var before, next := r.state.cooldowns, PrunePhase(r, input).state;
            var due := input.now > r.state.lastPrunedAt + 24 * HOUR && input.pruneOk;
            && next.lastPrunedAt == (if due then input.now else r.state.lastPrunedAt)
            && next.lastHistoryPoll == r.state.lastHistoryPoll
            && (!(due && input.deleteOk) ==> next.cooldowns == before)
            && (due && input.deleteOk ==>
                  && (row in next.cooldowns ==> row in before && next.cooldowns[row] == before[row])
                  && (row in before && before[row] * MILLISECOND + 90 * DAY >= input.deleteAt ==> row in next.cooldowns)
                  && (row in before && before[row] * MILLISECOND + 90 * DAY + MILLISECOND <= input.deleteAt ==>
                        row !in next.cooldowns))
  {
    if row in r.state.cooldowns {
      Cooldown.PrunedInClockTime(r.state.cooldowns, 90 * DAY, input.deleteAt, row);
    }
    hide Cooldown.Horizon;
  }
}
