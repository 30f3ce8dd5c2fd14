/** The hourly budget over every execution. */
module Budget {
  import opened Core
  import opened Machine

  /** The item IDs in the successful search commands of a stretch of an execution. */
  function Sent(ls: seq<Label>): nat {
    if ls == [] then 0
    else Sent(ls[..|ls| - 1]) + if ls[|ls| - 1].Commit? then |ls[|ls| - 1].cycle.sent| else 0
  }

  /** The reset time is the hour boundary next to the current tick. */
  ghost predicate HourInvariant(s: State) {
    s.hourResetAt % HOUR == 0 && s.hourResetAt - HOUR <= s.tickNow <= s.hourResetAt && s.tickNow <= s.clock
  }

  lemma BoundaryIsNext(t: int)
    ensures NextHourBoundary(t) % HOUR == 0 && NextHourBoundary(t) - HOUR <= t < NextHourBoundary(t)
  {
  }

  lemma HourStep(s: State, l: Label)
    requires HourInvariant(s) && Guard(s, l)
    ensures HourInvariant(Apply(s, l))
    ensures !l.Restart? ==> s.hourResetAt <= Apply(s, l).hourResetAt
    ensures l.TickStart? && l.now > s.hourResetAt ==> s.hourResetAt <= Apply(s, l).hourResetAt - HOUR
    ensures !l.Restart? && !(l.TickStart? && l.now > s.hourResetAt) ==> Apply(s, l).hourResetAt == s.hourResetAt
  {
    ClockAdvances(s, l);
    if l.TickStart? || l.Restart? {
      BoundaryIsNext(l.now);
    }
    hide CycleGuard, Cooldown.Recorded, Cooldown.Pruned;
  }

  /** The cycles of ls[k..] come from ticks of the clock hour ending at `hour`, and each was admitted while the
      count was still below its limit. */
  ghost predicate Admitted(ls: seq<Label>, k: nat, hour: int)
    requires k <= |ls|
  {
    forall i :: k <= i < |ls| ==>
      && !ls[i].Restart?
      && (ls[i].Commit? ==>
            && hour - HOUR <= ls[i].cycle.startedAt <= hour
            && Sent(ls[k..i]) < ls[i].cycle.limit
            && (ls[i].cycle.sent != [] ==> |ls[i].cycle.sent| <= ls[i].cycle.settings.batchSize))
  }

  /** The cycles of ls[..k] come from earlier hours, or from before a restart. */
  ghost predicate Earlier(ls: seq<Label>, k: nat, hour: int)
    requires k <= |ls|
  {
    forall i :: 0 <= i < k && ls[i].Commit? ==>
      ls[i].cycle.startedAt <= hour - HOUR || exists j :: i < j < k && ls[j].Restart?
  }

  /** ls[k..] is the stretch the count stands for. */
  ghost predicate CountedFrom(s: State, ls: seq<Label>, k: nat) {
    && k <= |ls|
    && var end := Replay(s, ls);
    && end.searchCount == Sent(ls[k..])
    && Admitted(ls, k, end.hourResetAt)
    && Earlier(ls, k, end.hourResetAt)
  }

  /** In every execution from New the count is that of the current clock hour, with the process restarted at most
      before it. */
  lemma {:induction false} CountIsOfThisHour(cooldowns: Cooldown.Table, polls: map<UUID, int>, t0: int, ls: seq<Label>)
    returns (k: nat)
    requires Execution(New(cooldowns, polls, t0), ls)
    ensures HourInvariant(Replay(New(cooldowns, polls, t0), ls))
    ensures CountedFrom(New(cooldowns, polls, t0), ls, k)
  {
    var s0 := New(cooldowns, polls, t0);
    if ls == [] {
      BoundaryIsNext(t0);
      k := 0;
    } else {
      var front, l := ls[..|ls| - 1], ls[|ls| - 1];
      k := CountIsOfThisHour(cooldowns, polls, t0, front);
      HourStep(Replay(s0, front), l);
      if l.Restart? || (l.TickStart? && l.now > Replay(s0, front).hourResetAt) {
        ResetStep(s0, front, l, k);
        k := |ls|;
      } else {
        CountStep(s0, front, l, k);
      }
      assert front + [l] == ls;
    }
  }

  lemma ResetStep(s0: State, front: seq<Label>, l: Label, k: nat)
    requires CountedFrom(s0, front, k)
    requires l.Restart? || (l.TickStart? && l.now > Replay(s0, front).hourResetAt)
    requires l.TickStart? ==> Replay(s0, front).hourResetAt <= Apply(Replay(s0, front), l).hourResetAt - HOUR
    ensures CountedFrom(s0, front + [l], |front| + 1)
  {
    var ls := front + [l];
    assert ls[..|ls| - 1] == front && ls[|ls|..] == [];
    assert ls[|front|] == l;
    forall i | 0 <= i < |ls| && ls[i].Commit?
      ensures ls[i].cycle.startedAt <= Replay(s0, ls).hourResetAt - HOUR || exists j :: i < j < |ls| && ls[j].Restart?
    {
      assert ls[i] == front[i];
      if l.TickStart? && i < k && exists j :: i < j < k && front[j].Restart? {
        var j :| i < j < k && front[j].Restart?;
        assert ls[j].Restart?;
      }
    }
  }

  lemma EarlierExtends(front: seq<Label>, l: Label, k: nat, hour: int)
    requires k <= |front| && Earlier(front, k, hour)
    ensures Earlier(front + [l], k, hour)
  {
    var ls := front + [l];
    forall i | 0 <= i < k && ls[i].Commit?
      ensures ls[i].cycle.startedAt <= hour - HOUR || exists j :: i < j < k && ls[j].Restart?
    {
      assert ls[i] == front[i];
      if exists j :: i < j < k && front[j].Restart? {
        var j :| i < j < k && front[j].Restart?;
        assert ls[j].Restart?;
      }
    }
  }

  lemma AdmittedExtends(front: seq<Label>, l: Label, k: nat, hour: int)
    requires k <= |front| && Admitted(front, k, hour) && !l.Restart?
    requires l.Commit? ==>
               && hour - HOUR <= l.cycle.startedAt <= hour && Sent(front[k..]) < l.cycle.limit
               && (l.cycle.sent != [] ==> |l.cycle.sent| <= l.cycle.settings.batchSize)
    ensures Admitted(front + [l], k, hour)
    ensures Sent((front + [l])[k..]) == Sent(front[k..]) + if l.Commit? then |l.cycle.sent| else 0
  {
    var ls := front + [l];
    assert ls[k..] == front[k..] + [l] && ls[k..][..|ls[k..]| - 1] == front[k..];
    forall i | k <= i < |ls|
      ensures ls[k..i] == front[k..i] && ls[i] == if i < |front| then front[i] else l
    {
    }
    assert front[k..|front|] == front[k..];
    hide Sent;
  }

  lemma CountStep(s0: State, front: seq<Label>, l: Label, k: nat)
    requires CountedFrom(s0, front, k) && Guard(Replay(s0, front), l) && HourInvariant(Replay(s0, front))
    requires !l.Restart? && !(l.TickStart? && l.now > Replay(s0, front).hourResetAt)
    requires Apply(Replay(s0, front), l).hourResetAt == Replay(s0, front).hourResetAt
    ensures CountedFrom(s0, front + [l], k)
  {
    var s := Replay(s0, front);
    assert (front + [l])[..|front|] == front;
    assert Apply(s, l).searchCount == s.searchCount + if l.Commit? then |l.cycle.sent| else 0;
    if l.Commit? {
      SentMeaning(s, l.cycle);
    }
    hide LeftOf, FirstBatch;
    hide Apply, Sent, Admitted, Earlier;
    EarlierExtends(front, l, k, s.hourResetAt);
    AdmittedExtends(front, l, k, s.hourResetAt);
  }

  /** No cycle after i sent anything. */
  ghost predicate SilentAfter(ls: seq<Label>, i: int) {
    forall j :: 0 <= j < |ls| && i < j && ls[j].Commit? ==> ls[j].cycle.sent == []
  }

  /** The last cycle of a stretch that sent anything. */
  lemma {:induction false} LastSender(ls: seq<Label>) returns (i: nat)
    requires Sent(ls) > 0
    ensures i < |ls| && ls[i].Commit? && ls[i].cycle.sent != []
    ensures Sent(ls) == Sent(ls[..i]) + |ls[i].cycle.sent|
    ensures SilentAfter(ls, i)
  {
    var front, l := ls[..|ls| - 1], ls[|ls| - 1];
    if l.Commit? && l.cycle.sent != [] {
      i := |ls| - 1;
    } else {
      i := LastSender(front);
      assert front[..i] == ls[..i] && forall j :: 0 <= j < |front| ==> ls[j] == front[j];
    }
  }

  /** At any moment the count exceeds neither the limit nor the batch by more than the one batch that was let in:
      it is at most limit + batch - 1 of the last cycle that added to it, whatever the settings were before. */
  lemma CountIsBounded(cooldowns: Cooldown.Table, polls: map<UUID, int>, t0: int, ls: seq<Label>) returns (i: nat)
    requires Execution(New(cooldowns, polls, t0), ls)
    requires Replay(New(cooldowns, polls, t0), ls).searchCount != 0
    ensures i < |ls| && ls[i].Commit? && ls[i].cycle.sent != [] && SilentAfter(ls, i)
    ensures Replay(New(cooldowns, polls, t0), ls).searchCount
         <= ls[i].cycle.limit + ls[i].cycle.settings.batchSize - 1
    ensures forall j :: i <= j < |ls| ==> !ls[j].Restart?
  {
    var k := CountIsOfThisHour(cooldowns, polls, t0, ls);
    var at := LastSender(ls[k..]);
    i := k + at;
    assert ls[k..][..at] == ls[k..i];
    assert ls[k..][at] == ls[i] && forall j :: k <= j < |ls| ==> ls[j] == ls[k..][j - k];
    hide Replay, Execution;
  }

  /** With a constant limit L >= 1 and batches of at most B >= 1 the count never exceeds L + B - 1. */
  lemma ConstantBudget(cooldowns: Cooldown.Table, polls: map<UUID, int>, t0: int, ls: seq<Label>, L: int, B: int)
    requires Execution(New(cooldowns, polls, t0), ls) && L >= 1 && B >= 1
    requires forall i :: 0 <= i < |ls| && ls[i].Commit? ==>
               ls[i].cycle.limit == L && ls[i].cycle.settings.batchSize <= B
    ensures Replay(New(cooldowns, polls, t0), ls).searchCount <= L + B - 1
  {
    if Replay(New(cooldowns, polls, t0), ls).searchCount != 0 {
      var i := CountIsBounded(cooldowns, polls, t0, ls);
    }
  }
}
