/** The scheduler as the program runs it: fields updated in place, section by section. Every method is proved to have
    the effect of its function in TickSpec, including the sequence of critical sections it went through. */
module SchedulerEngine {
  import opened Core
  import opened Settings
  import opened Window
  import opened Interval
  import opened Quality
  import opened History
  import opened Cooldown
  import opened PollState
  import opened Machine
  import T = TickSpec

  type Run = T.Run

  // ---------- excludeIDs ----------

  function Excluding(all: seq<int>, excluded: seq<int>): seq<int> {
    if all == [] then []
    else
      var last := all[|all| - 1];
      Excluding(all[..|all| - 1], excluded) + if last in excluded then [] else [last]
  }

  method ExcludeIDs(all: seq<int>, excluded: seq<int>) returns (result: seq<int>)
    ensures result == Excluding(all, excluded)
  {
    var excludeSet: set<int> := {};
    for i := 0 to |excluded|
      invariant forall x :: x in excludeSet <==> x in excluded[..i]
    {
      assert excluded[..i + 1] == excluded[..i] + [excluded[i]];
      excludeSet := excludeSet + {excluded[i]};
    }
    assert excluded[..|excluded|] == excluded;
    result := [];
    for i := 0 to |all|
      invariant result == Excluding(all[..i], excluded)
    {
      assert all[..i + 1][..i] == all[..i];
      if all[i] !in excludeSet {
        result := result + [all[i]];
      }
    }
    assert all[..|all|] == all;
  }

  /** Excluding the listed cooling items leaves the uncooled ones. */
  lemma {:induction false} ExcludingCooling(all: seq<int>, excluded: seq<int>, rows: Table, id: UUID,
                                            period: int, now: int)
    requires forall x :: x in all ==> (x in excluded <==> IsCooling(rows, id, x, period, now))
    ensures Excluding(all, excluded) == Uncooled(rows, id, all, period, now)
  {
    hide IsCooling;
    if all != [] {
      assert all[|all| - 1] in all;
      ExcludingCooling(all[..|all| - 1], excluded, rows, id, period, now);
    }
  }

  // ---------- Status ----------

  datatype Snapshot = Snapshot(searchesThisHour: int, hourlyLimit: int, instances: seq<Schedule>)

  /** strings.Compare(a, b) <= 0 on byte strings. */
  predicate NameAtMost(a: string, b: string) {
    a == "" || (b != "" && (a[0] < b[0] || (a[0] == b[0] && NameAtMost(a[1..], b[1..]))))
  }

  /** The order of the names: a prefix comes first, otherwise the first byte that differs decides. */
  lemma {:induction false} NameOrder(a: string, b: string)
    ensures NameAtMost(a, b) <==> a <= b || exists k :: FirstDifference(a, b, k) && a[k] < b[k]
  {
    if a != "" && b != "" {
      NameOrder(a[1..], b[1..]);
      assert a == [a[0]] + a[1..] && b == [b[0]] + b[1..];
      if a[0] == b[0] {
        if exists k :: FirstDifference(a, b, k) && a[k] < b[k] {
          var k :| FirstDifference(a, b, k) && a[k] < b[k];
          assert FirstDifference(a[1..], b[1..], k - 1);
        }
        if exists k :: FirstDifference(a[1..], b[1..], k) && a[1..][k] < b[1..][k] {
          var k :| FirstDifference(a[1..], b[1..], k) && a[1..][k] < b[1..][k];
          assert FirstDifference(a, b, k + 1);
        }
      } else {
        assert FirstDifference(a, b, 0);
      }
    }
  }

  ghost predicate FirstDifference(a: string, b: string, k: int) {
    0 <= k < |a| && k < |b| && a[k] != b[k] && forall j :: 0 <= j < k ==> a[j] == b[j]
  }

  lemma {:induction false} NamesAreTotal(a: string, b: string)
    ensures NameAtMost(a, b) || NameAtMost(b, a)
  {
    if a != "" && b != "" && a[0] == b[0] {
      NamesAreTotal(a[1..], b[1..]);
    }
  }

  lemma {:induction false} NamesAreTransitive(a: string, b: string, c: string)
    requires NameAtMost(a, b) && NameAtMost(b, c)
    ensures NameAtMost(a, c)
  {
    if a != "" && a[0] == b[0] && b[0] == c[0] {
      NamesAreTransitive(a[1..], b[1..], c[1..]);
    }
  }

  ghost predicate SortedByName(s: seq<Schedule>) {
    forall i, j :: 0 <= i < j < |s| ==> NameAtMost(s[i].name, s[j].name)
  }

  /** One step of the sort: e goes in before the first entry it is at most. */
  method InsertByName(e: Schedule, s: seq<Schedule>) returns (r: seq<Schedule>)
    requires SortedByName(s)
    ensures SortedByName(r) && multiset(r) == multiset(s) + multiset{e}
  {
    var k := 0;
    while k < |s| && !NameAtMost(e.name, s[k].name)
      invariant 0 <= k <= |s|
      invariant forall i :: 0 <= i < k ==> NameAtMost(s[i].name, e.name)
    {
      NamesAreTotal(e.name, s[k].name);
      k := k + 1;
    }
    r := s[..k] + [e] + s[k..];
    forall i | k <= i < |s|
      ensures NameAtMost(e.name, s[i].name)
    {
      if i > k {
        NamesAreTransitive(e.name, s[k].name, s[i].name);
      }
    }
    hide NameAtMost;
    assert s == s[..k] + s[k..];
  }

  class Scheduler {
    const cooldowns: CooldownTable
    const polls: PollTable

    var schedules: map<UUID, Schedule>
    var searchCount: int
    var hourlyLimit: int
    var hourResetAt: int
    var lastPrunedAt: int
    var lastHistoryPoll: int
    var crashed: bool

    // The critical sections so far, the latest clock reading, and that of the current tick's start.
    ghost var trace: seq<Label>
    ghost var clock: int
    ghost var tickNow: int

    constructor (cooldowns: CooldownTable, polls: PollTable, now: int)
      ensures this.cooldowns == cooldowns && this.polls == polls
      ensures View() == T.Run(New(cooldowns.rows, polls.rows, now), [])
    {
      this.cooldowns, this.polls := cooldowns, polls;
      schedules, searchCount, hourlyLimit := map[], 0, 0;
      hourResetAt := NextHourBoundary(now);
      lastPrunedAt, lastHistoryPoll, crashed := ZERO_TIME, ZERO_TIME, false;
      trace, clock, tickNow := [], now, now;
    }

    /** New: a non-positive tick interval is rejected. */
    static method Create(tickInterval: int, cooldowns: CooldownTable, polls: PollTable, now: int)
      returns (s: Scheduler?)
      ensures s == null <==> tickInterval <= 0
      ensures s != null ==> fresh(s) && s.cooldowns == cooldowns && s.polls == polls
      ensures s != null ==> s.View() == T.Run(New(cooldowns.rows, polls.rows, now), [])
    {
      if tickInterval <= 0 {
        return null;
      }
      s := new Scheduler(cooldowns, polls, now);
    }

    ghost function View(): Run
      reads this, cooldowns, polls
    {
      T.Run(State(schedules, searchCount, hourlyLimit, hourResetAt, lastPrunedAt, lastHistoryPoll,
                  cooldowns.rows, polls.rows, crashed, clock, tickNow), trace)
    }

    /** A snapshot: the counts as they are and every schedule once, ordered by instance name. */
    method Status() returns (st: Snapshot)
      ensures st.searchesThisHour == searchCount && st.hourlyLimit == hourlyLimit
      ensures SortedByName(st.instances) && |st.instances| == |schedules|
      ensures forall id :: id in schedules ==> schedules[id] in st.instances
      ensures forall e :: e in st.instances ==> exists id :: id in schedules && schedules[id] == e
    {
      assert SortedByName([]);
      hide NameAtMost, SortedByName;
      var instances: seq<Schedule> := [];
      var todo := schedules.Keys;
      while todo != {}
        invariant todo <= schedules.Keys && SortedByName(instances)
        invariant |instances| + |todo| == |schedules|
        invariant forall id :: id in schedules && id !in todo ==> schedules[id] in multiset(instances)
        invariant forall e :: e in multiset(instances) ==> exists id :: id in schedules && schedules[id] == e
        decreases |todo|
      {
        var id := AnyOf(todo);
        var more := InsertByName(schedules[id], instances);
        assert |multiset(more)| == |multiset(instances)| + 1;
        instances := more;
        todo := todo - {id};
      }
      forall id | id in schedules
        ensures schedules[id] in instances
      {
        assert schedules[id] in multiset(instances);
      }
      forall e | e in instances
        ensures exists id :: id in schedules && schedules[id] == e
      {
        assert e in multiset(instances);
      }
      st := Snapshot(searchCount, hourlyLimit, instances);
    }

    /** The scheduling loop: one tick after another until the context ends. */
    method RunTicks(inputs: seq<T.TickInput>)
      modifies this, cooldowns, polls
      ensures View() == T.Ticks(old(View()), inputs)
    {
      for i := 0 to |inputs|
        invariant View() == T.Ticks(old(View()), inputs[..i])
      {
        assert inputs[..i + 1][..i] == inputs[..i];
        Tick(inputs[i]);
      }
      assert inputs[..|inputs|] == inputs;
    }

    method Tick(input: T.TickInput)
      modifies this, cooldowns, polls
      ensures View() == T.Tick(old(View()), input)
    {
      hide T.Instances, T.PollPhase, T.PrunePhase, T.Listed, Overlay;
      if crashed {
        return;
      }
      var now := input.now;
      if now > hourResetAt {
        searchCount := 0;
        hourResetAt := NextHourBoundary(now);
      }
      trace, clock, tickNow := trace + [TickStart(now)], now, now;
      if input.global.None? {
        return;
      }
      var globalSettings := ApplyOverrides(DEFAULTS, input.global.value);
      hourlyLimit := globalSettings.searchLimit;
      trace := trace + [LimitRead(hourlyLimit)];
      if input.listed.None? {
        return;
      }
      var list := input.listed.value;
      assert View() == T.Do(T.Do(old(View()), TickStart(now)), LimitRead(globalSettings.searchLimit));
      var goesOn := CycleInstances(now, globalSettings.searchLimit, list);
      if !goesOn {
        return;
      }
      RetainListed(list);
      PollUpgradeHistory(input.pollNow, list);
      PruneActivityLog(input);
    }

    /** The loop over the listed instances; false when the tick ends inside it. */
    method CycleInstances(now: int, limit: int, list: seq<T.InstanceInput>) returns (goesOn: bool)
      modifies this, cooldowns
      ensures (View(), goesOn) == T.Instances(old(View()), now, limit, list)
    {
      hide T.OneInstance;
      var i := 0;
      assert list[0..] == list;
      while i < |list|
        invariant 0 <= i <= |list|
        invariant polls.rows == old(polls.rows)
        invariant T.Instances(old(View()), now, limit, list) == T.Instances(View(), now, limit, list[i..])
      {
        assert list[i..][0] == list[i] && list[i..][1..] == list[i + 1..];
        if !list[i].live {
          return false;
        }
        if searchCount >= limit {
          break;
        }
        CycleInstance(now, limit, list[i]);
        if crashed {
          return false;
        }
        i := i + 1;
      }
      goesOn := true;
    }

    /** One listed instance: its settings are resolved first; if that fails it is passed over. */
    method CycleInstance(now: int, limit: int, x: T.InstanceInput)
      modifies this, cooldowns
      ensures View() == T.OneInstance(old(View()), now, limit, x)
    {
      hide T.WithSettings, Overlay;
      if x.global.None? || x.own.None? {
        return;
      }
      var resolved := ApplyOverrides(DEFAULTS, x.global.value);
      resolved := ApplyOverrides(resolved, x.own.value);
      CycleResolved(now, limit, x, resolved);
    }

    /** If the instance is enabled, due and inside its window, a cycle is run and committed. */
    method CycleResolved(now: int, limit: int, x: T.InstanceInput, resolved: Resolved)
      modifies this, cooldowns
      ensures View() == T.WithSettings(old(View()), now, limit, x, resolved)
    {
      hide T.RunInstanceCycle, T.CycleOf, InSearchWindow, Recorded;
      var id := x.inst.id;
      if !resolved.enabled {
        schedules := schedules[id := Schedule(id, x.inst.name, ZERO_TIME, 0, false)];
        trace := trace + [SeenDisabled(x.inst)];
        return;
      }
      if id in schedules && now < schedules[id].nextSearchAt {
        return;
      }
      if !InSearchWindow(resolved.searchWindowStart, resolved.searchWindowEnd, x.minute) {
        return;
      }
      var panicked, searched, totalItems, o := RunInstanceCycle(id, resolved, x.cycle);
      if panicked {
        crashed := true;
        trace := trace + [Crash];
        return;
      }
      CycleKeeps(View().state, old(View()).state, now, limit, x, resolved, o);
      CommitCycle(now, limit, x, resolved, searched, totalItems, o);
    }

    /** The critical section after a cycle: the new schedule and the searches it made appear together. */
    method CommitCycle(now: int, limit: int, x: T.InstanceInput, resolved: Resolved, searched: nat, totalItems: nat,
                       ghost o: T.CycleOutcome)
      requires o.Done? && searched == |o.sent| && totalItems == |o.candidates|
      modifies this
      ensures cooldowns.rows == old(cooldowns.rows)
      ensures var was := old(View()).state;
              var c := T.CycleOf(was, now, limit, x, resolved, o);
              View() == T.Run(was.(schedules := was.schedules[x.inst.id := NextSchedule(c)],
                                   searchCount := was.searchCount + |o.sent|, clock := c.endedAt),
                              old(View()).trace + [Commit(c)])
    {
      hide ComputeNextInterval;
      var id, cycleEnd := x.inst.id, x.cycle.endedAt;
      var prevInterval := resolved.searchInterval;
      if id in schedules && schedules[id].interval > 0 {
        prevInterval := schedules[id].interval;
      }
      var nextInterval := ComputeNextInterval(resolved.searchInterval, prevInterval, totalItems, resolved.batchSize);
      trace := trace + [Commit(T.CycleOf(View().state, now, limit, x, resolved, o))];
      clock := cycleEnd;
      schedules := schedules[id := Schedule(id, x.inst.name, cycleEnd + nextInterval, nextInterval, true)];
      if searched > 0 {
        searchCount := searchCount + searched;
      }
    }

    /** One search cycle; it changes the cooldown table alone, and only by recording what its search command sent. */
    method RunInstanceCycle(id: UUID, resolved: Resolved, c: T.CycleInput)
      returns (panicked: bool, searched: nat, totalItems: nat, ghost o: T.CycleOutcome)
      modifies cooldowns
      ensures o == T.RunInstanceCycle(old(cooldowns.rows), id, resolved, c)
      ensures panicked == o.Panic?
      ensures o.Done? ==> searched == |o.sent| && totalItems == |o.candidates|
      ensures cooldowns.rows == if o.Done? && |o.stamps| >= |o.sent|
                                then Recorded(old(cooldowns.rows), id, o.sent, o.stamps) else old(cooldowns.rows)
    {
      hide Upgradeable, Missing, Recorded, ProfileMap;
      panicked, searched, totalItems, o := false, 0, 0, T.Done([], false, [], []);
      assert Recorded(cooldowns.rows, id, [], []) == cooldowns.rows by { NothingRecorded(cooldowns.rows, id); }
      if !c.live {
        return;
      }
      var result := UpgradeableWith(c.profiles, c.library);
      if result.None? {
        return;
      }
      var items := result.value.items;
      if resolved.searchMissing {
        items := items + result.value.missingItems;
      }
      totalItems := |items|;
      if totalItems == 0 {
        o := T.Done([], c.filterOk && c.searchOk, [], []);
        return;
      }
      var itemIDs := IDs(items);
      ghost var rows := cooldowns.rows;
      assert itemIDs == Candidates(c.profiles.value, c.library.value, resolved.searchMissing);
      hide Candidates, IDs;
      o := T.Done(itemIDs, false, [], []);
      var coolingDown := cooldowns.FilterCoolingDown(id, itemIDs, resolved.cooldownPeriod, c.checkedAt, c.filterOk);
      if coolingDown.None? {
        return;
      }
      var searchIDs := ExcludeIDs(itemIDs, coolingDown.value);
      ExcludingCooling(itemIDs, coolingDown.value, rows, id, resolved.cooldownPeriod, c.checkedAt);
      hide Uncooled, Excluding;
      if |searchIDs| == 0 {
        o := T.Done(itemIDs, c.searchOk, [], []);
        return;
      }
      if |searchIDs| > resolved.batchSize {
        if resolved.batchSize < 0 {
          panicked, o := true, T.Panic;
          return;
        }
        searchIDs := searchIDs[..resolved.batchSize];
      }
      if !c.searchOk {
        return;
      }
      ghost var stamps := T.Stamps(c, |searchIDs|);
      var recorded := cooldowns.RecordSearches(id, searchIDs, T.Stamps(c, |searchIDs|), c.recordFailAt);
      searched := |searchIDs|;
      o := T.Done(itemIDs, true, searchIDs, if recorded then stamps else []);
    }

    static method SeenIDs(list: seq<T.InstanceInput>) returns (seen: set<UUID>)
      ensures seen == T.Listed(list)
    {
      seen := {};
      for i := 0 to |list|
        invariant seen == T.Listed(list[..i])
      {
        assert list[..i + 1] == list[..i] + [list[i]];
        seen := seen + {list[i].inst.id};
      }
      assert list[..|list|] == list;
    }

    /** Drops the entries of instances that are no longer listed. */
    method RetainListed(list: seq<T.InstanceInput>)
      modifies this
      ensures View() == T.Do(old(View()), Retain(T.Listed(list)))
    {
      var seen := SeenIDs(list);
      hide T.Listed;
      ghost var was := schedules;
      var todo := schedules.Keys;
      while todo != {}
        invariant todo <= was.Keys
        invariant forall id :: id in schedules <==> id in was && (id in todo || id in seen)
        invariant forall id :: id in schedules ==> schedules[id] == was[id]
        modifies `schedules
        decreases |todo|
      {
        var id := AnyOf(todo);
        todo := todo - {id};
        if id !in seen {
          schedules := schedules - {id};
        }
      }
      assert schedules == map id | id in was && id in seen :: was[id];
      trace := trace + [Retain(T.Listed(list))];
    }

    /** Polls every instance's history, at most once per poll interval. */
    method PollUpgradeHistory(pollNow: int, list: seq<T.InstanceInput>)
      modifies this, polls
      ensures View() == T.PollPhase(old(View()), pollNow, list)
    {
      hide T.PollInstance;
      if !(pollNow > lastHistoryPoll + HISTORY_POLL_INTERVAL) {
        return;
      }
      lastHistoryPoll, clock := pollNow, pollNow;
      trace := trace + [PollDue(pollNow)];
      var i := 0;
      assert list[0..] == list;
      while i < |list| && list[i].poll.live
        invariant 0 <= i <= |list|
        invariant cooldowns.rows == old(cooldowns.rows)
        invariant T.PollPhase(old(View()), pollNow, list) == T.PollInstances(View(), list[i..])
      {
        assert list[i..][0] == list[i] && list[i..][1..] == list[i + 1..];
        PollInstanceHistory(list[i]);
        i := i + 1;
      }
    }

    method PollInstanceHistory(x: T.InstanceInput)
      modifies this, polls
      ensures View() == T.PollInstance(old(View()), x)
    {
      hide FetchHistory;
      var p, id := x.poll, x.inst.id;
      var since := polls.LastPolled(id, p.lastPolledOk);
      if since.None? {
        return;
      }
      var from := since.value;
      if from == ZERO_TIME {
        from := p.lookbackFrom - FIRST_POLL_LOOKBACK;
      }
      var records := FetchArrHistory(from, p.deletePage, p.importPages, x.inst.field);
      if records.None? {
        return;
      }
      var stored := polls.RecordPoll(id, p.storedAt, p.storeOk);
      trace := trace + [Polled(Poll(x.inst, from, records.value, p.storedAt, stored))];
      clock := p.storedAt;
    }

    /** Once a day, prunes the activity log and then the expired cooldown rows. */
    method PruneActivityLog(input: T.TickInput)
      modifies this, cooldowns
      ensures View() == T.PrunePhase(old(View()), input)
    {
      if !(input.now > lastPrunedAt + PRUNE_INTERVAL) {
        return;
      }
      if !input.pruneOk {
        return;
      }
      var deleted := cooldowns.DeleteExpired(COOLDOWN_RETENTION, input.deleteAt, input.deleteOk);
      lastPrunedAt, clock := input.now, input.deleteAt;
      trace := trace + [Prune(input.now, input.deleteAt, deleted.Some?)];
    }
  }

  /** A committed cycle carries what its command sent, and reads nothing of the cooldown table. */
  lemma CycleKeeps(s: State, was: State, now: int, limit: int, x: T.InstanceInput, r: Resolved, o: T.CycleOutcome)
    requires o.Done? && s.schedules == was.schedules
    ensures var c := T.CycleOf(s, now, limit, x, r, o);
            && c == T.CycleOf(was, now, limit, x, r, o) && c.inst == x.inst && c.sent == o.sent && c.stamps == o.stamps
  {
  }

  lemma NothingRecorded(rows: Table, id: UUID)
    ensures Recorded(rows, id, [], []) == rows
  {
  }
}
