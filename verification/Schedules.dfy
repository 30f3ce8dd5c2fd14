/** What every execution keeps about the schedule table, and what an observer can conclude from a snapshot. */
module Schedules {
  import opened Core
  import opened Settings
  import opened Interval
  import opened Machine
  import Budget
  import Window

  // ---------- one section, one entry ----------

  function Entry(s: State, id: UUID): Option<Schedule> {
    if id in s.schedules then Some(s.schedules[id]) else None
  }

  /** The sections that write or drop an instance's entry. */
  predicate Touches(l: Label, id: UUID) {
    match l
    case Restart(_) => true
    case Commit(c) => c.inst.id == id
    case SeenDisabled(inst) => inst.id == id
    case Retain(listed) => id !in listed
    case _ => false
  }

  lemma EntryStep(s: State, l: Label, id: UUID)
    ensures Entry(Apply(s, l), id) ==
      if !Touches(l, id) then Entry(s, id)
      else match l
        case Commit(c) => Some(NextSchedule(c))
        case SeenDisabled(inst) => Some(DisabledSchedule(inst))
        case _ => None
    ensures id in Apply(s, l).schedules <==> Entry(Apply(s, l), id).Some?
  {
    hide Cooldown.Recorded, Cooldown.Pruned;
  }

  // ---------- the invariant ----------

  ghost predicate EntryOk(id: UUID, e: Schedule) {
    && e.instanceID == id
    && (e.enabled ==> 0 <= e.interval <= MAX_INTERVAL)
    && (!e.enabled ==> e.interval == 0 && e.nextSearchAt == ZERO_TIME)
  }

  ghost predicate EntriesOk(s: State) {
    forall id :: id in s.schedules ==> EntryOk(id, s.schedules[id])
  }

  /** No interval overflows: whatever the bases were, the stored ones stay within four times the maximum, and the step
      that produced each is the step over unbounded integers. */
  lemma CycleInRange(s: State, c: Cycle)
    requires EntriesOk(s) && CycleGuard(s, c)
    ensures 0 < c.previous <= MAX_INTERVAL && 0 <= c.interval <= MAX_INTERVAL
    ensures c.interval == Next(c.settings.searchInterval, c.previous, FindingOf(|c.candidates|, c.settings.batchSize))
  {
    StepStaysInRange(c.settings.searchInterval, c.previous, |c.candidates|, c.settings.batchSize);
    hide ComputeNextInterval, FindingOf;
  }

  /** What the interval becomes, in any execution: doubled up to four times the base when there were no
      candidates, halved down to a quarter of the base when there were more than two batches of them, and the base
      otherwise, whatever was stored before. */
  lemma IntervalLaw(s0: State, ls: seq<Label>, i: nat)
    requires EntriesOk(s0) && Execution(s0, ls) && i < |ls| && ls[i].Commit?
    requires -TWO_63 / 2 <= ls[i].cycle.settings.batchSize < TWO_63 / 2
    ensures var c, stored := ls[i].cycle, Entry(Replay(s0, ls[..i]), ls[i].cycle.inst.id);
            var base, n, batch := c.settings.searchInterval, |c.candidates|, c.settings.batchSize;
            var p := if stored.Some? && stored.value.interval > 0 then stored.value.interval else base;
            && (n == 0 ==> c.interval == if 2 * p > 4 * base then 4 * base else 2 * p)
            && (n > 0 && n > 2 * batch ==> c.interval == if p / 2 < base / 4 then base / 4 else p / 2)
            && (0 < n <= 2 * batch ==> c.interval == base)
  {
    var s, c := Replay(s0, ls[..i]), ls[i].cycle;
    hide Guard, Replay, Execution, Apply, Next, FindingOf;
    GuardAt(s0, ls, i);
    ScheduleInvariant(s0, ls[..i]);
    CommitInRange(s, ls[i]);
    CommitContinues(s, ls[i]);
    StepCases(c.settings.searchInterval, c.previous, |c.candidates|, c.settings.batchSize);
  }

  lemma {:induction false} ScheduleInvariant(s0: State, ls: seq<Label>)
    requires EntriesOk(s0) && Execution(s0, ls)
    ensures EntriesOk(Replay(s0, ls))
  {
    hide Guard, Apply;
    if ls != [] {
      var front, l := ls[..|ls| - 1], ls[|ls| - 1];
      ScheduleInvariant(s0, front);
      forall id | id in Apply(Replay(s0, front), l).schedules
        ensures EntryOk(id, Apply(Replay(s0, front), l).schedules[id])
      {
        EntryStep(Replay(s0, front), l, id);
        CommitInRange(Replay(s0, front), l);
      }
    }
  }

  lemma CommitInRange(s: State, l: Label)
    requires EntriesOk(s) && Guard(s, l)
    ensures l.Commit? ==> 0 < l.cycle.previous <= MAX_INTERVAL && 0 <= l.cycle.interval <= MAX_INTERVAL
    ensures l.Commit? ==> var c := l.cycle;
                          c.interval == Next(c.settings.searchInterval, c.previous,
                                             FindingOf(|c.candidates|, c.settings.batchSize))
    ensures l.Commit? ==> Bounded(l.cycle.settings)
  {
    if l.Commit? {
      CycleInRange(s, l.cycle);
    }
  }

  /** Enabled entries have a positive interval as long as every base was at least 4ns. */
  lemma {:induction false} IntervalsArePositive(s0: State, ls: seq<Label>)
    requires s0.schedules == map[] && Execution(s0, ls)
    requires forall i :: 0 <= i < |ls| && ls[i].Commit? ==> ls[i].cycle.settings.searchInterval >= 4
    ensures forall id :: id in Replay(s0, ls).schedules && Replay(s0, ls).schedules[id].enabled
              ==> Replay(s0, ls).schedules[id].interval > 0
  {
    hide Guard, Apply;
    if ls != [] {
      var front, l := ls[..|ls| - 1], ls[|ls| - 1];
      IntervalsArePositive(s0, front);
      ScheduleInvariant(s0, front);
      CommitInRange(Replay(s0, front), l);
      if l.Commit? {
        StepStaysPositive(l.cycle.settings.searchInterval, l.cycle.previous,
                          FindingOf(|l.cycle.candidates|, l.cycle.settings.batchSize));
      }
      hide Next, FindingOf;
      forall id {
        EntryStep(Replay(s0, front), l, id);
      }
    }
  }

  // ---------- how long an entry lasts ----------

  ghost predicate Untouched(ls: seq<Label>, i: int, j: int, id: UUID)
    requires 0 <= i && j <= |ls|
  {
    forall k :: i <= k < j ==> !Touches(ls[k], id)
  }

  lemma {:induction false} EntryPersists(s0: State, ls: seq<Label>, i: nat, m: nat, id: UUID)
    requires i <= m <= |ls| && Untouched(ls, i, m, id)
    ensures Entry(Replay(s0, ls[..m]), id) == Entry(Replay(s0, ls[..i]), id)
  {
    hide Apply, Entry;
    if i < m {
      EntryPersists(s0, ls, i, m - 1, id);
      assert ls[..m][..m - 1] == ls[..m - 1];
      EntryStep(Replay(s0, ls[..m - 1]), ls[m - 1], id);
    }
  }

  /** Two consecutive cycles of an instance that was not seen disabled, dropped or restarted in between: the second
      starts no earlier than the first ended plus the interval computed then, and continues from that interval. */
  lemma CyclesAreSpaced(s0: State, ls: seq<Label>, i: nat, j: nat, id: UUID)
    requires Execution(s0, ls) && i < j < |ls|
    requires ls[i].Commit? && ls[j].Commit? && ls[i].cycle.inst.id == id && ls[j].cycle.inst.id == id
    requires Untouched(ls, i + 1, j, id)
    ensures ls[j].cycle.startedAt >= ls[i].cycle.endedAt + ls[i].cycle.interval
    ensures ls[j].cycle.previous == Previous(ls[j].cycle.settings.searchInterval, ls[i].cycle.interval)
  {
    GuardAt(s0, ls, i);
    GuardAt(s0, ls, j);
    EntryPersists(s0, ls, i + 1, j, id);
    EntryStep(Replay(s0, ls[..i]), ls[i], id);
    hide Replay, Apply;
  }

  /** Every cycle runs for an enabled instance and inside its window, read as a circular interval of the day. */
  lemma CyclesStayInWindow(s0: State, ls: seq<Label>, i: nat)
    requires Execution(s0, ls) && i < |ls| && ls[i].Commit? && 0 <= ls[i].cycle.minute < Window.MINUTES_A_DAY
    ensures ls[i].cycle.settings.enabled
    ensures var c := ls[i].cycle;
            var s, e := ParseHHMM(c.settings.searchWindowStart), ParseHHMM(c.settings.searchWindowEnd);
            s.Some? && e.Some? ==> Window.Offset(c.minute, s.value) < Window.Offset(e.value, s.value)
  {
    GuardAt(s0, ls, i);
    var c := ls[i].cycle;
    if ParseHHMM(c.settings.searchWindowStart).Some? && ParseHHMM(c.settings.searchWindowEnd).Some? {
      Window.WindowIsCircular(c.settings.searchWindowStart, c.settings.searchWindowEnd, c.minute);
    }
    hide ParseHHMM, Window.InSearchWindow, Replay, Apply;
  }

  /** An instance seen disabled is due at once when it is enabled again, and starts from the base. */
  lemma ReenabledIsDue(s0: State, ls: seq<Label>, i: nat, j: nat, id: UUID)
    requires Execution(s0, ls) && i < j <= |ls|
    requires ls[i].SeenDisabled? && ls[i].inst.id == id && Untouched(ls, i + 1, j, id)
    ensures var s := Replay(s0, ls[..j]);
            id in s.schedules && s.schedules[id].nextSearchAt == ZERO_TIME
            && forall base :: PreviousInterval(s, id, base) == base
  {
    GuardAt(s0, ls, i);
    EntryPersists(s0, ls, i + 1, j, id);
    EntryStep(Replay(s0, ls[..i]), ls[i], id);
    hide Replay, Apply;
  }

  /** While an instance's base stays the same, every interval computed for it lies in [base/4, 4*base]. */
  lemma {:induction false} ConstantBaseBand(s0: State, ls: seq<Label>, id: UUID, base: int)
    requires s0.schedules == map[] && Execution(s0, ls)
    requires forall i :: 0 <= i < |ls| && ls[i].Commit? && ls[i].cycle.inst.id == id
               ==> ls[i].cycle.settings.searchInterval == base
    ensures var s := Replay(s0, ls);
            id in s.schedules && s.schedules[id].enabled ==> InBand(base, s.schedules[id].interval)
    ensures forall i :: 0 <= i < |ls| && ls[i].Commit? && ls[i].cycle.inst.id == id ==>
              InBand(base, ls[i].cycle.interval)
  {
    hide Guard, Apply;
    if ls != [] {
      var front, l := ls[..|ls| - 1], ls[|ls| - 1];
      ConstantBaseBand(s0, front, id, base);
      assert forall i :: 0 <= i < |front| ==> ls[i] == front[i];
      EntryStep(Replay(s0, front), l, id);
      if l.Commit? && l.cycle.inst.id == id {
        var s, c := Replay(s0, front), l.cycle;
        ScheduleInvariant(s0, front);
        CommitInRange(s, l);
        assert c.previous == PreviousInterval(s, id, base) by { CommitContinues(s, l); }
        assert InBand(base, c.previous);
        BandIsClosed(base, c.previous, FindingOf(|c.candidates|, c.settings.batchSize));
      }
    }
  }

  /** What an instance's cycles found, in order. */
  function FindingsOf(ls: seq<Label>, id: UUID): seq<Finding> {
    if ls == [] then []
    else
      var l := ls[|ls| - 1];
      FindingsOf(ls[..|ls| - 1], id)
        + if l.Commit? && l.cycle.inst.id == id then [FindingOf(|l.cycle.candidates|, l.cycle.settings.batchSize)]
          else []
  }

  /** The cycles of an instance alone write its entry, all of them with one base. */
  ghost predicate SteadyBase(ls: seq<Label>, id: UUID, base: int) {
    forall i :: 0 <= i < |ls| && Touches(ls[i], id) ==> ls[i].Commit? && ls[i].cycle.settings.searchInterval == base
  }

  /** Over such a stretch of any execution the stored interval is the iterated step: it depends on what the instance's
      own cycles found and on nothing else that ran in between. */
  lemma {:induction false} IntervalFollowsFindings(s0: State, ls: seq<Label>, id: UUID, base: int)
    requires EntriesOk(s0) && Execution(s0, ls) && SteadyBase(ls, id, base)
    requires id in s0.schedules && s0.schedules[id].enabled
    ensures var s := Replay(s0, ls);
            && id in s.schedules && s.schedules[id].enabled
            && s.schedules[id].interval == After(base, s0.schedules[id].interval, FindingsOf(ls, id))
  {
    hide Guard, Apply;
    if ls != [] {
      var front, l := ls[..|ls| - 1], ls[|ls| - 1];
      assert forall i :: 0 <= i < |front| ==> ls[i] == front[i];
      IntervalFollowsFindings(s0, front, id, base);
      EntryStep(Replay(s0, front), l, id);
      assert Touches(l, id) ==> l.Commit? && l.cycle.inst.id == id;
      if l.Commit? && l.cycle.inst.id == id {
        assert l.cycle.settings.searchInterval == base;
        var s, c, found := Replay(s0, front), l.cycle, FindingsOf(front, id);
        ScheduleInvariant(s0, front);
        CommitInRange(s, l);
        CommitContinues(s, l);
        assert FindingsOf(ls, id) == found + [FindingOf(|c.candidates|, c.settings.batchSize)];
        assert FindingsOf(ls, id)[..|found|] == found;
      } else {
        assert FindingsOf(ls, id) == FindingsOf(front, id);
      }
    }
  }

  /** So in any execution n cycles of an instance at a steady base bring its interval into the band once 2^n covers the
      distance, whatever they find and whatever other instances do. */
  lemma IntervalConverges(s0: State, ls: seq<Label>, id: UUID, base: int)
    requires EntriesOk(s0) && Execution(s0, ls) && SteadyBase(ls, id, base) && base >= 1
    requires id in s0.schedules && s0.schedules[id].enabled && s0.schedules[id].interval > 0
    requires var p, n := s0.schedules[id].interval, |FindingsOf(ls, id)|;
             p <= 4 * base * Pow2(n) && base / 4 <= p * Pow2(n)
    ensures id in Replay(s0, ls).schedules && InBand(base, Replay(s0, ls).schedules[id].interval)
  {
    hide Replay, Execution, FindingsOf, After, InBand, EntriesOk, SteadyBase;
    IntervalFollowsFindings(s0, ls, id, base);
    BandIsReached(base, s0.schedules[id].interval, FindingsOf(ls, id));
  }

  lemma CommitContinues(s: State, l: Label)
    requires Guard(s, l) && l.Commit?
    ensures l.cycle.previous == PreviousInterval(s, l.cycle.inst.id, l.cycle.settings.searchInterval)
  {
  }

  // ---------- how often the later phases run ----------

  ghost predicate NoRestart(ls: seq<Label>, i: int, j: int)
    requires 0 <= i && j <= |ls|
  {
    forall k :: i <= k < j ==> !ls[k].Restart?
  }

  lemma {:induction false} LastTimesAdvance(s0: State, ls: seq<Label>, m: nat, n: nat)
    requires Execution(s0, ls) && m <= n <= |ls| && NoRestart(ls, m, n)
    ensures Replay(s0, ls[..m]).lastPrunedAt <= Replay(s0, ls[..n]).lastPrunedAt
    ensures Replay(s0, ls[..m]).lastHistoryPoll <= Replay(s0, ls[..n]).lastHistoryPoll
  {
    hide Apply, Guard;
    if m < n {
      LastTimesAdvance(s0, ls, m, n - 1);
      GuardAt(s0, ls, n - 1);
      LastTimesStep(Replay(s0, ls[..n - 1]), ls[n - 1]);
    }
  }

  lemma LastTimesStep(s: State, l: Label)
    requires Guard(s, l) && !l.Restart?
    ensures s.lastPrunedAt <= Apply(s, l).lastPrunedAt && s.lastHistoryPoll <= Apply(s, l).lastHistoryPoll
  {
    hide CycleGuard, Cooldown.Recorded, Cooldown.Pruned;
  }

  /** Within one process, prunings are more than a day apart and polls of the histories more than five minutes. */
  lemma PhasesAreSpaced(s0: State, ls: seq<Label>, i: nat, j: nat)
    requires Execution(s0, ls) && i < j < |ls| && NoRestart(ls, i, j)
    ensures ls[i].Prune? && ls[j].Prune? ==> ls[j].now > ls[i].now + 24 * HOUR
    ensures ls[i].PollDue? && ls[j].PollDue? ==> ls[j].now > ls[i].now + 5 * MINUTE
  {
    hide Guard, Apply, Replay, Execution;
    GuardAt(s0, ls, i);
    GuardAt(s0, ls, j);
    LastTimesAdvance(s0, ls, i + 1, j);
    PhaseStep(Replay(s0, ls[..i]), ls[i]);
    PhaseStep(Replay(s0, ls[..j]), ls[j]);
  }

  lemma PhaseStep(s: State, l: Label)
    requires Guard(s, l)
    ensures l.Prune? ==> l.now > s.lastPrunedAt + 24 * HOUR && Apply(s, l).lastPrunedAt == l.now
    ensures l.PollDue? ==> l.now > s.lastHistoryPoll + 5 * MINUTE && Apply(s, l).lastHistoryPoll == l.now
  {
    hide CycleGuard, Cooldown.Recorded, Cooldown.Pruned;
  }

  // ---------- observers ----------

  /** Where an enabled entry came from: the section that committed it, untouched since. */
  lemma {:induction false} EntryOrigin(s0: State, ls: seq<Label>, id: UUID) returns (i: nat)
    requires s0.schedules == map[] && Execution(s0, ls)
    requires id in Replay(s0, ls).schedules && Replay(s0, ls).schedules[id].enabled
    ensures i < |ls| && ls[i].Commit? && ls[i].cycle.inst.id == id && Untouched(ls, i + 1, |ls|, id)
    ensures Replay(s0, ls).schedules[id] == NextSchedule(ls[i].cycle)
  {
    var front, l := ls[..|ls| - 1], ls[|ls| - 1];
    assert ls != [] && Execution(s0, front) && Replay(s0, ls) == Apply(Replay(s0, front), l);
    hide Guard, Apply, NextSchedule, Replay, Execution;
    EntryStep(Replay(s0, front), l, id);
    if l.Commit? && l.cycle.inst.id == id {
      assert NextSchedule(l.cycle).enabled by { CommittedIsEnabled(l.cycle); }
      i := |ls| - 1;
    } else {
      assert !Touches(l, id);
      hide Touches, Untouched;
      i := EntryOrigin(s0, front, id);
      UntouchedExtends(ls, i + 1, id);
    }
  }

  lemma UntouchedExtends(ls: seq<Label>, i: nat, id: UUID)
    requires ls != [] && Untouched(ls[..|ls| - 1], i, |ls| - 1, id) && !Touches(ls[|ls| - 1], id)
    ensures Untouched(ls, i, |ls|, id)
  {
    hide Touches;
    assert forall k :: 0 <= k < |ls| - 1 ==> ls[..|ls| - 1][k] == ls[k];
  }

  lemma CommittedIsEnabled(c: Cycle)
    ensures NextSchedule(c).enabled
  {
  }

  lemma {:induction false} SentIncludes(ls: seq<Label>, i: nat)
    requires i < |ls| && ls[i].Commit?
    ensures Budget.Sent(ls) >= |ls[i].cycle.sent|
  {
    if i < |ls| - 1 {
      SentIncludes(ls[..|ls| - 1], i);
    }
  }

  /** Whatever Status reads, at any point of any execution: an enabled entry shows the end of a committed cycle plus
      its interval, and the IDs that cycle sent are in the count it reads, unless the count was reset since. */
  lemma SnapshotIsAtomic(cooldowns: Cooldown.Table, polls: map<UUID, int>, t0: int, ls: seq<Label>, n: nat, id: UUID)
    returns (i: nat, k: nat)
    requires Execution(New(cooldowns, polls, t0), ls) && n <= |ls|
    requires var seen := Replay(New(cooldowns, polls, t0), ls[..n]);
             id in seen.schedules && seen.schedules[id].enabled
    ensures var seen := Replay(New(cooldowns, polls, t0), ls[..n]);
            && i < n && ls[i].Commit? && seen.schedules[id] == NextSchedule(ls[i].cycle)
            && seen.schedules[id] == Schedule(id, ls[i].cycle.inst.name, ls[i].cycle.endedAt + ls[i].cycle.interval,
                                              ls[i].cycle.interval, true)
            && k <= n && seen.searchCount == Budget.Sent(ls[k..n])
            && (k <= i ==> seen.searchCount >= |ls[i].cycle.sent|)
            && (i < k ==> ls[i].cycle.startedAt <= seen.hourResetAt - HOUR || exists j :: i < j < k && ls[j].Restart?)
  {
    var s0 := New(cooldowns, polls, t0);
    PrefixExecutes(s0, ls, n);
    i := EntryOrigin(s0, ls[..n], id);
    k := Budget.CountIsOfThisHour(cooldowns, polls, t0, ls[..n]);
    assert ls[..n][k..] == ls[k..n];
    if k <= i {
      assert ls[k..n][i - k] == ls[i];
      SentIncludes(ls[k..n], i - k);
    } else {
      assert forall j :: 0 <= j < n ==> ls[..n][j] == ls[j];
    }
    hide Replay;
  }
}
