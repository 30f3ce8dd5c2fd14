/** No item is searched again before its cooldown has run, in any execution: through failures, settings changes,
    pruning and restarts of the process. */
module CooldownSafety {
  import opened Core
  import opened Cooldown
  import opened Machine

  const RETENTION_MILLIS := 1000 * WholeSeconds(COOLDOWN_RETENTION)

  /** The table still shows a search stamped at `stamp`, or the search is past the longest period there is. */
  ghost predicate Remembers(s: State, row: Row, stamp: int) {
    (row in s.cooldowns && s.cooldowns[row] >= stamp) || stamp + RETENTION_MILLIS < Millis(s.clock)
  }

  lemma RemembersCycle(s: State, c: Cycle, row: Row, stamp: int)
    requires CycleGuard(s, c) && Remembers(s, row, stamp) && stamp <= Millis(s.clock)
    ensures Remembers(Apply(s, Commit(c)), row, stamp)
  {
    MillisMonotone(s.clock, c.endedAt);
    if |c.stamps| >= |c.sent| && row in s.cooldowns && s.cooldowns[row] >= stamp {
      forall i | 0 <= i < |c.stamps|
        ensures Millis(c.stamps[i]) >= stamp
      {
        MillisMonotone(s.clock, c.stamps[i]);
      }
      hide CycleGuard, Millis;
      RecordedAdvances(s.cooldowns, c.inst.id, c.sent, c.stamps, row, stamp);
    }
  }

  lemma RemembersStep(s: State, l: Label, row: Row, stamp: int)
    requires Guard(s, l) && Remembers(s, row, stamp) && stamp <= Millis(s.clock)
    ensures Remembers(Apply(s, l), row, stamp)
  {
    ClockAdvances(s, l);
    MillisMonotone(s.clock, Apply(s, l).clock);
    hide CycleGuard, Recorded, Millis;
    if l.Commit? {
      RemembersCycle(s, l.cycle, row, stamp);
    } else if l.Prune? {
      hide Apply, Guard;
      RemembersPrune(s, l.now, l.at, l.deleted, row, stamp);
    }
  }

  lemma RemembersPrune(s: State, now: int, at: int, deleted: bool, row: Row, stamp: int)
    requires Guard(s, Prune(now, at, deleted)) && Remembers(s, row, stamp)
    ensures Remembers(Apply(s, Prune(now, at, deleted)), row, stamp)
  {
    MillisMonotone(s.clock, at);
    assert Horizon(at, COOLDOWN_RETENTION) == Millis(at) - RETENTION_MILLIS;
    hide Millis, Horizon;
  }

  lemma {:induction false} RemembersLater(s0: State, ls: seq<Label>, m: nat, n: nat, row: Row, stamp: int)
    requires Execution(s0, ls) && m <= n <= |ls|
    requires Remembers(Replay(s0, ls[..m]), row, stamp) && stamp <= Millis(Replay(s0, ls[..m]).clock)
    ensures Remembers(Replay(s0, ls[..n]), row, stamp)
  {
    hide Guard, Apply, Remembers, Millis;
    if m < n {
      RemembersLater(s0, ls, m, n - 1, row, stamp);
      GuardAt(s0, ls, n - 1);
      ClockIsMonotone(s0, ls, m, n - 1);
      MillisMonotone(Replay(s0, ls[..m]).clock, Replay(s0, ls[..n - 1]).clock);
      RemembersStep(Replay(s0, ls[..n - 1]), ls[n - 1], row, stamp);
    }
  }

  lemma RecordedIsRemembered(s: State, c: Cycle, p: nat)
    requires CycleGuard(s, c) && c.stamps != [] && p < |c.sent|
    ensures Remembers(Apply(s, Commit(c)), (c.inst.id, c.sent[p]), Millis(c.stamps[p]))
    ensures Millis(c.stamps[p]) <= Millis(Apply(s, Commit(c)).clock)
  {
    RecordedAt(s.cooldowns, c.inst.id, c.sent, c.stamps, p);
    MillisMonotone(c.stamps[p], c.endedAt);
    hide Millis, Recorded;
  }

  lemma SentWasNotCooling(s: State, c: Cycle, item: int, stamp: int)
    requires CycleGuard(s, c) && item in c.sent && Remembers(s, (c.inst.id, item), stamp)
    ensures Millis(c.checkedAt) >= stamp + 1000 * WholeSeconds(c.settings.cooldownPeriod)
  {
    SentMeaning(s, c);
    MillisMonotone(s.clock, c.checkedAt);
    assert WholeSeconds(c.settings.cooldownPeriod) <= WholeSeconds(COOLDOWN_RETENTION);
    assert !IsCooling(s.cooldowns, c.inst.id, item, c.settings.cooldownPeriod, c.checkedAt);
    hide CycleGuard, Millis, WholeSeconds;
  }

  /** If cycle i searched an item and recorded it at a stamp, any later cycle that searches it again had its cooldown
      check at or after that stamp plus the whole seconds of the period in force at that check. */
  lemma CooldownIsRespected(s0: State, ls: seq<Label>, i: nat, p: nat, j: nat)
    requires Execution(s0, ls) && i < j < |ls| && ls[i].Commit? && ls[j].Commit?
    requires ls[i].cycle.inst.id == ls[j].cycle.inst.id
    requires ls[i].cycle.stamps != [] && p < |ls[i].cycle.sent| == |ls[i].cycle.stamps|
    requires ls[i].cycle.sent[p] in ls[j].cycle.sent
    ensures Millis(ls[j].cycle.checkedAt)
         >= Millis(ls[i].cycle.stamps[p]) + 1000 * WholeSeconds(ls[j].cycle.settings.cooldownPeriod)
    ensures ls[j].cycle.checkedAt
          > ls[i].cycle.stamps[p] + ls[j].cycle.settings.cooldownPeriod - SECOND - MILLISECOND
  {
    hide Apply, CycleGuard, Remembers, Millis, WholeSeconds, Replay, Execution;
    var ci, cj := ls[i].cycle, ls[j].cycle;
    GuardAt(s0, ls, i);
    GuardAt(s0, ls, j);
    RecordedIsRemembered(Replay(s0, ls[..i]), ci, p);
    RemembersLater(s0, ls, i + 1, j, (ci.inst.id, ci.sent[p]), Millis(ci.stamps[p]));
    SentWasNotCooling(Replay(s0, ls[..j]), cj, ci.sent[p], Millis(ci.stamps[p]));
    InClockTime(ci.stamps[p], cj.settings.cooldownPeriod, cj.checkedAt);
  }

  lemma InClockTime(t: int, period: int, now: int)
    requires Millis(now) >= Millis(t) + 1000 * WholeSeconds(period)
    ensures now > t + period - SECOND - MILLISECOND
  {
  }

  // ---------- and no longer ----------

  /** Cycle i recorded a search of the item, whose period has not run at `now`. */
  ghost predicate Earned(ls: seq<Label>, i: int, id: UUID, item: int, period: int, now: int) {
    && 0 <= i < |ls| && ls[i].Commit? && ls[i].cycle.inst.id == id && |ls[i].cycle.stamps| >= |ls[i].cycle.sent|
    && exists p :: 0 <= p < |ls[i].cycle.sent| && ls[i].cycle.sent[p] == item && now < ls[i].cycle.stamps[p] + period
  }

  /** Where a row came from: a recorded search, or the table the execution started with. */
  lemma {:induction false} RowOrigin(s0: State, ls: seq<Label>, row: Row) returns (i: int, p: int)
    requires row in Replay(s0, ls).cooldowns
    ensures (i == -1 && row in s0.cooldowns && Replay(s0, ls).cooldowns[row] == s0.cooldowns[row])
         || (&& 0 <= i < |ls| && ls[i].Commit? && ls[i].cycle.inst.id == row.0
             && 0 <= p < |ls[i].cycle.sent| <= |ls[i].cycle.stamps| && ls[i].cycle.sent[p] == row.1
             && Replay(s0, ls).cooldowns[row] == ls[i].cycle.stamps[p] / MILLISECOND)
  {
    if ls == [] {
      i, p := -1, 0;
    } else {
      var front, l := ls[..|ls| - 1], ls[|ls| - 1];
      var s := Replay(s0, front);
      assert Replay(s0, ls) == Apply(s, l);
      hide Replay, Apply;
      RowStep(s, l, row);
      if row in s.cooldowns && Apply(s, l).cooldowns[row] == s.cooldowns[row] {
        i, p := RowOrigin(s0, front, row);
      } else {
        i := |ls| - 1;
        p :| 0 <= p < |l.cycle.sent| && l.cycle.sent[p] == row.1
             && Apply(s, l).cooldowns[row] == l.cycle.stamps[p] / MILLISECOND;
      }
    }
  }

  lemma RowStep(s: State, l: Label, row: Row)
    requires row in Apply(s, l).cooldowns
    ensures (row in s.cooldowns && Apply(s, l).cooldowns[row] == s.cooldowns[row])
         || (&& l.Commit? && l.cycle.inst.id == row.0 && |l.cycle.sent| <= |l.cycle.stamps|
             && exists p :: 0 <= p < |l.cycle.sent| && l.cycle.sent[p] == row.1
                            && Apply(s, l).cooldowns[row] == l.cycle.stamps[p] / MILLISECOND)
  {
    hide Horizon, Recorded;
    if l.Commit? && |l.cycle.stamps| >= |l.cycle.sent| {
      RecordedFrom(s.cooldowns, l.cycle.inst.id, l.cycle.sent, l.cycle.stamps, row);
    }
  }

  /** A candidate is passed over only for a reason: when a cycle whose calls were answered sends less than a full batch,
      every candidate it left out was searched and recorded on that instance less than the period before its check, or
      was in the table the execution started with. */
  lemma CooldownIsEarned(s0: State, ls: seq<Label>, j: nat, item: int)
    requires Execution(s0, ls) && j < |ls| && ls[j].Commit? && ls[j].cycle.answered
    requires |ls[j].cycle.sent| < ls[j].cycle.settings.batchSize
    requires item in ls[j].cycle.candidates && item !in ls[j].cycle.sent
    ensures var c := ls[j].cycle;
            || (exists i :: i < j && Earned(ls, i, c.inst.id, item, c.settings.cooldownPeriod, c.checkedAt))
            || (&& (c.inst.id, item) in s0.cooldowns
                && c.checkedAt < (s0.cooldowns[(c.inst.id, item)] + 1) * MILLISECOND + c.settings.cooldownPeriod)
  {
    var c, s := ls[j].cycle, Replay(s0, ls[..j]);
    var row := (c.inst.id, item);
    GuardAt(s0, ls, j);
    UnsentIsCooling(s, c, item);
    assert c.settings.cooldownPeriod > 0;
    hide CycleGuard, Apply, Execution, IsCooling;
    var i, p := RowOrigin(s0, ls[..j], row);
    hide Replay;
    if i >= 0 {
      CoolingInClockTime(s.cooldowns, c.inst.id, item, ls[i].cycle.stamps[p], c.settings.cooldownPeriod, c.checkedAt);
      assert Earned(ls, i, c.inst.id, item, c.settings.cooldownPeriod, c.checkedAt);
    } else {
      CoolingInClockTime(s.cooldowns, c.inst.id, item, s0.cooldowns[row] * MILLISECOND, c.settings.cooldownPeriod,
                        c.checkedAt);
    }
  }

  lemma UnsentIsCooling(s: State, c: Cycle, item: int)
    requires CycleGuard(s, c) && c.answered && |c.sent| < c.settings.batchSize
    requires item in c.candidates && item !in c.sent
    ensures IsCooling(s.cooldowns, c.inst.id, item, c.settings.cooldownPeriod, c.checkedAt)
    ensures (c.inst.id, item) in s.cooldowns
  {
    UncooledMeaning(s.cooldowns, c.inst.id, c.candidates, c.settings.cooldownPeriod, c.checkedAt);
    hide Uncooled, Horizon, Interval.ComputeNextInterval;
  }
}
