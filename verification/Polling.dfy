/** History polling over every execution: poll times only advance, and no record is logged twice. */
module Polling {
  import opened Core
  import opened History
  import opened HistoryShape
  import opened Machine

  ghost predicate PollsInPast(s: State) {
    s.clock > ZERO_TIME && forall id :: id in s.polls ==> s.polls[id] <= s.clock
  }

  lemma PollStep(s: State, l: Label, id: UUID)
    requires Guard(s, l) && PollsInPast(s)
    ensures PollsInPast(Apply(s, l))
    ensures id in s.polls ==> id in Apply(s, l).polls && s.polls[id] <= Apply(s, l).polls[id]
  {
    ClockAdvances(s, l);
    hide CycleGuard, Cooldown.Recorded, Cooldown.Pruned;
  }

  lemma {:induction false} PollsStayInPast(s0: State, ls: seq<Label>)
    requires PollsInPast(s0) && Execution(s0, ls)
    ensures PollsInPast(Replay(s0, ls))
  {
    hide Guard, Apply, PollsInPast;
    if ls != [] {
      PollsStayInPast(s0, ls[..|ls| - 1]);
      PollStep(Replay(s0, ls[..|ls| - 1]), ls[|ls| - 1], 0);
    }
  }

  /** The stored poll time of an instance never decreases. */
  lemma {:induction false} LastPolledAdvances(s0: State, ls: seq<Label>, m: nat, n: nat, id: UUID)
    requires PollsInPast(s0) && Execution(s0, ls) && m <= n <= |ls|
    ensures var before, after := Replay(s0, ls[..m]).polls, Replay(s0, ls[..n]).polls;
            id in before ==> id in after && before[id] <= after[id]
  {
    hide Guard, Apply, PollsInPast;
    if m < n {
      LastPolledAdvances(s0, ls, m, n - 1, id);
      GuardAt(s0, ls, n - 1);
      PollsStayInPast(s0, ls[..n - 1]);
      PollStep(Replay(s0, ls[..n - 1]), ls[n - 1], id);
    }
  }

  /** After a poll whose time was stored, a later poll of the instance logs only records dated after that time. */
  lemma LaterPollsLogLaterRecords(s0: State, ls: seq<Label>, i: nat, j: nat)
    requires PollsInPast(s0) && Execution(s0, ls) && i < j < |ls| && ls[i].Polled? && ls[j].Polled?
    requires ls[i].poll.inst.id == ls[j].poll.inst.id && ls[i].poll.stored
    ensures forall r :: r in ls[j].poll.records ==> r.date > ls[i].poll.storedAt
  {
    GuardAt(s0, ls, i);
    GuardAt(s0, ls, j);
    PollsStayInPast(s0, ls[..i]);
    LastPolledAdvances(s0, ls, i + 1, j, ls[i].poll.inst.id);
    hide Replay, Execution;
  }

  /** At most once: if no record of a poll is dated after the time that poll stored, none of them is logged again by
      a later poll of the instance. */
  lemma LoggedAtMostOnce(s0: State, ls: seq<Label>, i: nat, j: nat)
    requires PollsInPast(s0) && Execution(s0, ls) && i < j < |ls| && ls[i].Polled? && ls[j].Polled?
    requires ls[i].poll.inst.id == ls[j].poll.inst.id && ls[i].poll.stored
    requires forall r :: r in ls[i].poll.records ==> r.date <= ls[i].poll.storedAt
    ensures forall r, r' :: r in ls[i].poll.records && r' in ls[j].poll.records ==> r.date < r'.date
    ensures forall r, r' :: r in ls[i].poll.records && r' in ls[j].poll.records ==>
              !(r.id == r'.id && r.date == r'.date)
  {
    LaterPollsLogLaterRecords(s0, ls, i, j);
    hide Replay, Execution;
  }

  /** Two fetches of the same imports: the later one, started from `storedAt`, finds a record again exactly when
      the first found one dated after that time. */
  lemma RefetchedExactlyWhenLate(since: int, storedAt: int, deletes: seq<RawRecord>, moreDeletes: seq<RawRecord>,
                                 pages: seq<seq<RawRecord>>, field: ItemField)
    requires IdenticalByID(Flatten(pages))
    ensures Repeats(Fetched(since, deletes, pages, field), Fetched(storedAt, moreDeletes, pages, field))
       <==> exists r :: r in Fetched(since, deletes, pages, field) && r.date > storedAt
  {
    hide Fetched, Flatten;
    var first, second := Fetched(since, deletes, pages, field), Fetched(storedAt, moreDeletes, pages, field);
    if Repeats(first, second) {
      var r, r' :| r in first && r' in second && SameEntry(r, r');
      Refetched(since, storedAt, deletes, moreDeletes, pages, field, r);
    }
    if exists r :: r in first && r.date > storedAt {
      var r :| r in first && r.date > storedAt;
      Refetched(since, storedAt, deletes, moreDeletes, pages, field, r);
      var r' :| r' in second && r'.id == r.id && r'.date == r.date;
      assert SameEntry(r, r');
    }
  }

  lemma Refetched(since: int, storedAt: int, deletes: seq<RawRecord>, moreDeletes: seq<RawRecord>,
                  pages: seq<seq<RawRecord>>, field: ItemField, r: HistoryRecord)
    requires IdenticalByID(Flatten(pages)) && r in Fetched(since, deletes, pages, field)
    ensures (exists r' :: r' in Fetched(storedAt, moreDeletes, pages, field) && r'.id == r.id && r'.date == r.date)
       <==> r.date > storedAt
  {
    if since <= storedAt {
      LaterFetchIsFilter(since, storedAt, deletes, moreDeletes, pages, field, r.id, r.date);
    } else {
      LaterFetchIsFilter(storedAt, since, moreDeletes, deletes, pages, field, r.id, r.date);
      FetchedShape(since, deletes, pages, field);
    }
    hide Fetched, Flatten;
  }

  ghost predicate SameEntry(r: HistoryRecord, r': HistoryRecord) { r.id == r'.id && r.date == r'.date }

  /** Some history record is in both lists. */
  ghost predicate Repeats(first: seq<HistoryRecord>, second: seq<HistoryRecord>) {
    exists r, r' :: r in first && r' in second && SameEntry(r, r')
  }

  predicate PollOf(l: Label, id: UUID) { l.Polled? && l.poll.inst.id == id }

  /** Only the instance's own polls change its stored time. */
  lemma {:induction false} PollTimeIsKept(s0: State, ls: seq<Label>, m: nat, n: nat, id: UUID)
    requires m <= n <= |ls| && forall k :: m <= k < n ==> !PollOf(ls[k], id)
    ensures var before, after := Replay(s0, ls[..m]).polls, Replay(s0, ls[..n]).polls;
            (id in after <==> id in before) && (id in before ==> after[id] == before[id])
  {
    hide Apply, PollOf;
    if m < n {
      PollTimeIsKept(s0, ls, m, n - 1, id);
      assert ls[..n][..n - 1] == ls[..n - 1];
      OtherKeepsPollTime(Replay(s0, ls[..n - 1]), ls[n - 1], id);
    }
  }

  lemma OtherKeepsPollTime(s: State, l: Label, id: UUID)
    requires !PollOf(l, id)
    ensures id in Apply(s, l).polls <==> id in s.polls
    ensures id in s.polls ==> Apply(s, l).polls[id] == s.polls[id]
  {
    hide Cooldown.Recorded, Cooldown.Pruned;
  }

  /** A poll whose time was stored is where the instance's next poll starts. */
  lemma NextPollStartsThere(s0: State, ls: seq<Label>, i: nat, j: nat)
    requires PollsInPast(s0) && Execution(s0, ls) && i < j < |ls| && ls[i].Polled? && PollOf(ls[j], ls[i].poll.inst.id)
    requires ls[i].poll.stored && forall k :: i < k < j ==> !PollOf(ls[k], ls[i].poll.inst.id)
    ensures ls[j].poll.since == ls[i].poll.storedAt
  {
    GuardAt(s0, ls, i);
    GuardAt(s0, ls, j);
    PollsStayInPast(s0, ls[..i]);
    PollTimeIsKept(s0, ls, i + 1, j, ls[i].poll.inst.id);
    hide Replay, Execution;
  }

  /** The poll logged what fetching these pages gave it. */
  ghost predicate Logs(p: Poll, deletes: seq<RawRecord>, pages: seq<seq<RawRecord>>) {
    p.records == Fetched(p.since, deletes, pages, p.inst.field)
  }

  /** The proviso is exact, in any execution: of two consecutive polls of an instance, the first of them stored,
      over the same imports, the second logs a record again exactly when the first logged one dated after the time it
      stored. */
  lemma RepeatedExactlyWhenLate(s0: State, ls: seq<Label>, i: nat, j: nat, deletes: seq<RawRecord>,
                                moreDeletes: seq<RawRecord>, pages: seq<seq<RawRecord>>)
    requires PollsInPast(s0) && Execution(s0, ls) && i < j < |ls| && ls[i].Polled? && PollOf(ls[j], ls[i].poll.inst.id)
    requires ls[i].poll.stored && forall k :: i < k < j ==> !PollOf(ls[k], ls[i].poll.inst.id)
    requires ls[i].poll.inst.field == ls[j].poll.inst.field && IdenticalByID(Flatten(pages))
    requires Logs(ls[i].poll, deletes, pages) && Logs(ls[j].poll, moreDeletes, pages)
    ensures Repeats(ls[i].poll.records, ls[j].poll.records)
       <==> exists r :: r in ls[i].poll.records && r.date > ls[i].poll.storedAt
  {
    NextPollStartsThere(s0, ls, i, j);
    hide Replay, Execution, Fetched, Repeats, Flatten;
    RefetchedExactlyWhenLate(ls[i].poll.since, ls[i].poll.storedAt, deletes, moreDeletes, pages, ls[i].poll.inst.field);
  }
}
