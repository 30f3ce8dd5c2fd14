/** The scheduler as a state machine. Each label is one critical section (or one crash or restart of the process);
    between two labels any number of Status observers may read the state. */
module Machine {
  import opened Core
  import opened Settings
  import opened Interval
  import opened History
  import opened Cooldown
  import opened Window

  datatype Instance = Instance(id: UUID, name: string, field: ItemField)

  datatype Schedule = Schedule(instanceID: UUID, name: string, nextSearchAt: int, interval: int, enabled: bool)

  /** The mutex-protected fields, the persisted tables, and two auxiliary clock readings: the latest one, and that of
      the current tick's start. */
  datatype State = State(
    schedules: map<UUID, Schedule>, searchCount: int, hourlyLimit: int, hourResetAt: int,
    lastPrunedAt: int, lastHistoryPoll: int,
    cooldowns: Table, polls: map<UUID, int>,
    crashed: bool, clock: int, tickNow: int)

  /** One search cycle, begun at a local minute of the day, over the candidate IDs it fetched ([] if it fetched none).
      `answered` tells whether its cooldown query, read at `checkedAt`, and its search command succeed; `sent` is the
      content of a command that succeeded ([] if none did); `stamps` are the clock readings of its cooldown records ([]
      if recording failed). */
  datatype Cycle = Cycle(
    inst: Instance, startedAt: int, limit: int, settings: Resolved, minute: int,
    candidates: seq<int>, answered: bool, checkedAt: int,
    sent: seq<int>, stamps: seq<int>, previous: int, interval: int, endedAt: int)

  /** One history poll that fetched its records; `stored` tells whether storing the poll time succeeded. */
  datatype Poll = Poll(inst: Instance, since: int, records: seq<HistoryRecord>, storedAt: int, stored: bool)

  datatype Label =
    | Restart(now: int)
    | TickStart(now: int)
    | LimitRead(limit: int)
    | SeenDisabled(inst: Instance)
    | Commit(cycle: Cycle)
    | Retain(listed: set<UUID>)
    | PollDue(now: int)
    | Polled(poll: Poll)
    | Prune(now: int, at: int, deleted: bool)
    | Crash

  const PRUNE_INTERVAL := 24 * HOUR
  const HISTORY_POLL_INTERVAL := 5 * MINUTE
  const FIRST_POLL_LOOKBACK := 24 * HOUR

  /** t.Truncate(time.Hour).Add(time.Hour). */
  function NextHourBoundary(t: int): int { t - t % HOUR + HOUR }

  /** A scheduler from New over the persisted tables. */
  function New(cooldowns: Table, polls: map<UUID, int>, now: int): State {
    State(map[], 0, 0, NextHourBoundary(now), ZERO_TIME, ZERO_TIME, cooldowns, polls, false, now, now)
  }

  function DisabledSchedule(inst: Instance): Schedule {
    Schedule(inst.id, inst.name, ZERO_TIME, 0, false)
  }

  function NextSchedule(c: Cycle): Schedule {
    Schedule(c.inst.id, c.inst.name, c.endedAt + c.interval, c.interval, true)
  }

  /** The effect of a label. */
  function Apply(s: State, l: Label): State {
    match l
    case Restart(now) => New(s.cooldowns, s.polls, now)
    case TickStart(now) =>
      var t := s.(clock := now, tickNow := now);
      if now > s.hourResetAt then t.(searchCount := 0, hourResetAt := NextHourBoundary(now)) else t
    case LimitRead(limit) => s.(hourlyLimit := limit)
    case SeenDisabled(inst) => s.(schedules := s.schedules[inst.id := DisabledSchedule(inst)])
    case Commit(c) =>
      s.(schedules := s.schedules[c.inst.id := NextSchedule(c)],
         searchCount := s.searchCount + |c.sent|,
         cooldowns := if |c.stamps| >= |c.sent| then Recorded(s.cooldowns, c.inst.id, c.sent, c.stamps)
                      else s.cooldowns,
         clock := c.endedAt)
    case Retain(listed) => s.(schedules := map id | id in s.schedules && id in listed :: s.schedules[id])
    case PollDue(now) => s.(lastHistoryPoll := now, clock := now)
    case Polled(p) => s.(polls := if p.stored then s.polls[p.inst.id := p.storedAt] else s.polls, clock := p.storedAt)
    case Prune(now, at, deleted) =>
      s.(lastPrunedAt := now, clock := at,
         cooldowns := if deleted then Pruned(s.cooldowns, COOLDOWN_RETENTION, at) else s.cooldowns)
    case Crash => s.(crashed := true)
  }

  /** The interval a cycle starts from: the stored one if positive, else the base. */
  function PreviousInterval(s: State, id: UUID, base: int): int {
    if id in s.schedules then Previous(base, s.schedules[id].interval) else base
  }

  /** The candidates not in cooldown at the cycle's check. */
  function LeftOf(s: State, c: Cycle): seq<int> {
    Uncooled(s.cooldowns, c.inst.id, c.candidates, c.settings.cooldownPeriod, c.checkedAt)
  }

  function FirstBatch(items: seq<int>, size: int): (batch: seq<int>)
    ensures batch <= items && |batch| <= Max(size, 0)
  {
    if size < 0 then [] else if |items| > size then items[..size] else items
  }

  /** What the code has established when it runs a cycle's critical section. */
  ghost predicate CycleGuard(s: State, c: Cycle) {
    && c.startedAt == s.tickNow && c.limit == s.hourlyLimit && s.searchCount < c.limit
    && c.settings.enabled && Bounded(c.settings)
    && InSearchWindow(c.settings.searchWindowStart, c.settings.searchWindowEnd, c.minute)
    && (c.inst.id in s.schedules ==> s.schedules[c.inst.id].nextSearchAt <= c.startedAt)
    && s.clock <= c.endedAt
    && (c.answered ==> s.clock <= c.checkedAt <= c.endedAt)
    && c.sent == (if c.answered then FirstBatch(LeftOf(s, c), c.settings.batchSize) else [])
    && (c.stamps != [] ==>
          && |c.stamps| == |c.sent| && Ascending(c.stamps)
          && forall i :: 0 <= i < |c.stamps| ==> c.checkedAt <= c.stamps[i] <= c.endedAt)
    && c.previous == PreviousInterval(s, c.inst.id, c.settings.searchInterval)
    && c.interval == ComputeNextInterval(c.settings.searchInterval, c.previous, |c.candidates|, c.settings.batchSize)
  }

  ghost predicate PollGuard(s: State, p: Poll) {
    && s.clock <= p.storedAt
    && (p.inst.id in s.polls && s.polls[p.inst.id] != ZERO_TIME ==> p.since == s.polls[p.inst.id])
    && forall r :: r in p.records ==> r.date > p.since
  }

  ghost predicate Guard(s: State, l: Label) {
    match l
    case Restart(now) => now > ZERO_TIME && s.clock <= now
    case TickStart(now) => !s.crashed && s.clock <= now
    case Commit(c) => !s.crashed && CycleGuard(s, c)
    case PollDue(now) => !s.crashed && s.clock <= now && now > s.lastHistoryPoll + HISTORY_POLL_INTERVAL
    case Polled(p) => !s.crashed && PollGuard(s, p)
    case Prune(now, at, _) =>
      !s.crashed && now == s.tickNow && now > s.lastPrunedAt + PRUNE_INTERVAL && s.clock <= at
    case _ => !s.crashed
  }

  /** The state after a sequence of critical sections. */
  function Replay(s: State, ls: seq<Label>): State {
    if ls == [] then s else Apply(Replay(s, ls[..|ls| - 1]), ls[|ls| - 1])
  }

  /** Every section ran where the code could run it. */
  ghost predicate Execution(s: State, ls: seq<Label>) {
    ls == [] || (Execution(s, ls[..|ls| - 1]) && Guard(Replay(s, ls[..|ls| - 1]), ls[|ls| - 1]))
  }

  /** Every prefix of an execution is one: this is how far an observer may have seen it. */
  lemma {:induction false} PrefixExecutes(s: State, ls: seq<Label>, n: nat)
    requires Execution(s, ls) && n <= |ls|
    ensures Execution(s, ls[..n])
  {
    if n == |ls| {
      assert ls[..n] == ls;
    } else {
      PrefixExecutes(s, ls[..|ls| - 1], n);
      assert ls[..|ls| - 1][..n] == ls[..n];
    }
  }

  /** The i-th section ran in the state its predecessors left. */
  lemma GuardAt(s: State, ls: seq<Label>, i: nat)
    requires Execution(s, ls) && i < |ls|
    ensures Execution(s, ls[..i]) && Guard(Replay(s, ls[..i]), ls[i])
    ensures Replay(s, ls[..i + 1]) == Apply(Replay(s, ls[..i]), ls[i])
  {
    PrefixExecutes(s, ls, i + 1);
    PrefixExecutes(s, ls, i);
    assert ls[..i + 1][..i] == ls[..i];
    hide Guard, Apply;
  }

  /** From any point on, the rest of an execution is one. */
  lemma {:induction false} SuffixExecutes(s: State, ls: seq<Label>, m: nat)
    requires Execution(s, ls) && m <= |ls|
    ensures Execution(Replay(s, ls[..m]), ls[m..]) && Replay(Replay(s, ls[..m]), ls[m..]) == Replay(s, ls)
  {
    hide Guard, Apply;
    if m == |ls| {
      assert ls[..m] == ls && ls[m..] == [];
    } else {
      var front := ls[..|ls| - 1];
      SuffixExecutes(s, front, m);
      assert front[..m] == ls[..m] && ls[m..][..|ls| - m - 1] == front[m..] && ls[m..][|ls| - m - 1] == ls[|ls| - 1];
    }
  }

  /** Only candidates are sent, at most a batch of them, and none that is in cooldown at the check. */
  lemma SentMeaning(s: State, c: Cycle)
    requires CycleGuard(s, c)
    ensures |c.sent| <= Max(c.settings.batchSize, 0) && (c.sent != [] ==> c.answered)
    ensures forall x :: x in c.sent ==>
              x in c.candidates && !IsCooling(s.cooldowns, c.inst.id, x, c.settings.cooldownPeriod, c.checkedAt)
  {
    UncooledMeaning(s.cooldowns, c.inst.id, c.candidates, c.settings.cooldownPeriod, c.checkedAt);
    var left := LeftOf(s, c);
    assert forall x :: x in c.sent ==> x in left;
    hide Uncooled, IsCooling, ComputeNextInterval;
  }

  // ---------- the clock ----------

  lemma ClockAdvances(s: State, l: Label)
    requires Guard(s, l)
    ensures s.clock <= Apply(s, l).clock
  {
    hide CycleGuard, Recorded, Pruned;
    if l.Commit? {
      EndsLater(s, l.cycle);
    }
  }

  lemma EndsLater(s: State, c: Cycle)
    requires CycleGuard(s, c)
    ensures s.clock <= c.endedAt
  {
  }

  lemma {:induction false} ClockIsMonotone(s: State, ls: seq<Label>, m: nat, n: nat)
    requires Execution(s, ls) && m <= n <= |ls|
    ensures Replay(s, ls[..m]).clock <= Replay(s, ls[..n]).clock
  {
    hide Guard, Apply;
    if m < n {
      GuardAt(s, ls, n - 1);
      ClockIsMonotone(s, ls, m, n - 1);
      ClockAdvances(Replay(s, ls[..n - 1]), ls[n - 1]);
    }
  }
}
