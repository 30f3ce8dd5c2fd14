/** The search_cooldowns table: one row per instance and item, stamped in whole milliseconds. */
module Cooldown {
  import opened Core
  import opened Settings

  type Row = (UUID, int)
  type Table = map<Row, int>

  /** The database clock reads milliseconds; its fixed-width text compares like the number. */
  function Millis(t: int): int { t / MILLISECOND }

  /** A period reaches the query as int64(d.Seconds()): whole seconds, truncated. */
  function WholeSeconds(d: int): int { if d < 0 then -(-d / SECOND) else d / SECOND }

  /** The oldest stamp, in milliseconds, that a period still reaches back to at `now`. */
  function Horizon(now: int, period: int): int { Millis(now) - 1000 * WholeSeconds(period) }

  predicate IsCooling(rows: Table, inst: UUID, item: int, period: int, now: int) {
    (inst, item) in rows && rows[(inst, item)] > Horizon(now, period)
  }

  /** excludeIDs against the items in cooldown. */
  function Uncooled(rows: Table, id: UUID, items: seq<int>, period: int, now: int): seq<int> {
    if items == [] then []
    else
      var front, last := items[..|items| - 1], items[|items| - 1];
      Uncooled(rows, id, front, period, now) + if IsCooling(rows, id, last, period, now) then [] else [last]
  }

  lemma {:induction false} UncooledMeaning(rows: Table, id: UUID, items: seq<int>, period: int, now: int)
    ensures forall x :: x in Uncooled(rows, id, items, period, now)
              <==> x in items && !IsCooling(rows, id, x, period, now)
  {
    hide IsCooling;
    if items != [] {
      UncooledMeaning(rows, id, items[..|items| - 1], period, now);
    }
  }

  /** The upserts of one transaction; each statement reads the clock for itself. */
  function Recorded(rows: Table, inst: UUID, items: seq<int>, stamps: seq<int>): Table
    requires |stamps| >= |items|
  {
    if items == [] then rows
    else
      var n := |items| - 1;
      Recorded(rows, inst, items[..n], stamps)[(inst, items[n]) := Millis(stamps[n])]
  }

  function Pruned(rows: Table, olderThan: int, now: int): Table {
    map row | row in rows && rows[row] >= Horizon(now, olderThan) :: rows[row]
  }

  class CooldownTable {
    var rows: Table

    constructor (rows: Table)
      ensures this.rows == rows
    {
      this.rows := rows;
    }

    /** The listed items with a fresh row, each once, in whatever order the query yields them. */
    method FilterCoolingDown(inst: UUID, items: seq<int>, period: int, now: int, queryOk: bool)
      returns (coolingDown: Option<seq<int>>)
      ensures coolingDown.Some? <==> items == [] || queryOk
      ensures coolingDown.Some? ==> Distinct(coolingDown.value)
      ensures coolingDown.Some? ==>
                forall x :: x in coolingDown.value <==> x in items && IsCooling(rows, inst, x, period, now)
    {
      if |items| == 0 {
        return Some([]);
      }
      if !queryOk {
        return None;
      }
      var matching := set x | x in items && IsCooling(rows, inst, x, period, now);
      var found: seq<int> := [];
      var todo := matching;
      while todo != {}
        invariant todo <= matching && Distinct(found)
        invariant forall x :: x in found <==> x in matching && x !in todo
        decreases |todo|
      {
        var x := AnyOf(todo);
        DistinctConcat(found, [x]);
        found := found + [x];
        todo := todo - {x};
      }
      coolingDown := Some(found);
    }

    /** One transaction; the statement at index failAt fails (the commit, when it is the length). */
    method RecordSearches(inst: UUID, items: seq<int>, stamps: seq<int>, failAt: Option<nat>) returns (ok: bool)
      requires |stamps| >= |items|
      modifies this
      ensures ok <==> items == [] || !(failAt.Some? && failAt.value <= |items|)
      ensures rows == if ok then Recorded(old(rows), inst, items, stamps) else old(rows)
    {
      if |items| == 0 {
        return true;
      }
      var tx := rows;
      for i := 0 to |items|
        invariant failAt.Some? ==> i <= failAt.value
        invariant tx == Recorded(rows, inst, items[..i], stamps)
      {
        if failAt == Some(i) {
          return false;
        }
        assert items[..i + 1][..i] == items[..i];
        tx := tx[(inst, items[i]) := Millis(stamps[i])];
      }
      assert items[..|items|] == items;
      if failAt == Some(|items|) {
        return false;
      }
      rows := tx;
      ok := true;
    }

    method DeleteExpired(olderThan: int, now: int, execOk: bool) returns (deleted: Option<nat>)
      modifies this
      ensures deleted.Some? <==> execOk
      ensures rows == if execOk then Pruned(old(rows), olderThan, now) else old(rows)
      ensures execOk ==> deleted.value == |old(rows)| - |rows|
    {
      if !execOk {
        return None;
      }
      var kept := Pruned(rows, olderThan, now);
      assert kept.Keys <= rows.Keys;
      assert |rows.Keys - kept.Keys| == |rows| - |kept|;
      deleted := Some(|rows.Keys - kept.Keys|);
      rows := kept;
    }
  }

  // ---------- in clock time ----------

  /** A row stamped at t cools for the period, less at most the second and the millisecond that rounding loses,
      and never longer. */
  lemma CoolingInClockTime(rows: Table, inst: UUID, item: int, t: int, period: int, now: int)
    requires (inst, item) in rows && rows[(inst, item)] == t / MILLISECOND && period >= 0
    ensures now <= t + period - SECOND - MILLISECOND ==> IsCooling(rows, inst, item, period, now)
    ensures now >= t + period ==> !IsCooling(rows, inst, item, period, now)
  {
  }

  /** Deleting with a retention that is a whole number of seconds removes every row older than it by a millisecond, and
      no row that is not older. */
  lemma PrunedInClockTime(rows: Table, retention: int, now: int, row: Row)
    requires retention >= 0 && retention % SECOND == 0 && row in rows
    ensures rows[row] * MILLISECOND + retention >= now ==> row in Pruned(rows, retention, now)
    ensures rows[row] * MILLISECOND + retention + MILLISECOND <= now ==> row !in Pruned(rows, retention, now)
    ensures row in Pruned(rows, retention, now) ==> Pruned(rows, retention, now)[row] == rows[row]
  {
  }

  // ---------- what is left out of a list ----------

  /** Leaving out the cooling items works element by element, so order and repetitions are those of the list. */
  lemma {:induction false} UncooledSplits(rows: Table, id: UUID, a: seq<int>, b: seq<int>, period: int, now: int)
    ensures Uncooled(rows, id, a + b, period, now)
         == Uncooled(rows, id, a, period, now) + Uncooled(rows, id, b, period, now)
  {
    hide IsCooling;
    if b == [] {
      assert a + b == a;
    } else {
      assert (a + b)[..|a + b| - 1] == a + b[..|b| - 1];
      UncooledSplits(rows, id, a, b[..|b| - 1], period, now);
    }
  }

  lemma UncooledOne(rows: Table, id: UUID, x: int, period: int, now: int)
    ensures Uncooled(rows, id, [x], period, now) == if IsCooling(rows, id, x, period, now) then [] else [x]
  {
    hide IsCooling;
    assert [x][..0] == [];
  }

  // ---------- recording ----------

  /** Every row afterwards is an old one, or carries the stamp read for the item somewhere in the batch. */
  lemma {:induction false} RecordedFrom(rows: Table, inst: UUID, items: seq<int>, stamps: seq<int>, row: Row)
    requires |stamps| >= |items| && row in Recorded(rows, inst, items, stamps)
    ensures (row in rows && Recorded(rows, inst, items, stamps)[row] == rows[row])
         || (row.0 == inst && exists k :: 0 <= k < |items| && items[k] == row.1
                                          && Recorded(rows, inst, items, stamps)[row] == stamps[k] / MILLISECOND)
  {
    if items != [] {
      var n := |items| - 1;
      if row != (inst, items[n]) {
        RecordedFrom(rows, inst, items[..n], stamps, row);
      }
    }
  }

  lemma {:induction false} RecordedElsewhere(rows: Table, inst: UUID, items: seq<int>, stamps: seq<int>, row: Row)
    requires |stamps| >= |items| && (row.0 != inst || row.1 !in items)
    ensures (row in Recorded(rows, inst, items, stamps) <==> row in rows)
         && (row in rows ==> Recorded(rows, inst, items, stamps)[row] == rows[row])
  {
    if items != [] {
      RecordedElsewhere(rows, inst, items[..|items| - 1], stamps, row);
    }
  }

  ghost predicate Ascending(s: seq<int>) { forall i, j :: 0 <= i < j < |s| ==> s[i] <= s[j] }

  /** Every recorded item ends up with a stamp no earlier than that of each of its positions. */
  lemma {:induction false} RecordedAt(rows: Table, inst: UUID, items: seq<int>, stamps: seq<int>, k: nat)
    requires k < |items| && |stamps| >= |items| && Ascending(stamps)
    ensures (inst, items[k]) in Recorded(rows, inst, items, stamps)
         && Recorded(rows, inst, items, stamps)[(inst, items[k])] >= Millis(stamps[k])
  {
    var n := |items| - 1;
    assert stamps[k] <= stamps[n];
    if k < n {
      RecordedAt(rows, inst, items[..n], stamps, k);
    }
  }

  /** Recording never moves a row back, when the stamps are no earlier than the row. */
  lemma {:induction false} RecordedAdvances(rows: Table, inst: UUID, items: seq<int>, stamps: seq<int>,
                                           row: Row, bound: int)
    requires |stamps| >= |items| && forall i :: 0 <= i < |stamps| ==> Millis(stamps[i]) >= bound
    requires row in rows && rows[row] >= bound
    ensures row in Recorded(rows, inst, items, stamps) && Recorded(rows, inst, items, stamps)[row] >= bound
  {
    if items != [] {
      RecordedAdvances(rows, inst, items[..|items| - 1], stamps, row, bound);
    }
  }

  // ---------- pruning ----------

  lemma MillisMonotone(a: int, b: int)
    requires a <= b
    ensures Millis(a) <= Millis(b)
  {
  }

  ghost predicate SameAnswer(rows: Table, retention: int, pruneAt: int, inst: UUID, item: int, period: int, now: int) {
    IsCooling(Pruned(rows, retention, pruneAt), inst, item, period, now) <==> IsCooling(rows, inst, item, period, now)
  }

  /** Pruning with a retention is invisible to every query from then on exactly when the retention, in whole seconds,
      is at least the period. */
  lemma PruningIsInvisible(retention: int, pruneAt: int, period: int)
    ensures (forall rows, inst, item, now | now >= pruneAt ::
               SameAnswer(rows, retention, pruneAt, inst, item, period, now))
       <==> WholeSeconds(period) <= WholeSeconds(retention)
  {
    if WholeSeconds(period) <= WholeSeconds(retention) {
      forall rows: Table, inst, item, now | now >= pruneAt
        ensures SameAnswer(rows, retention, pruneAt, inst, item, period, now)
      {
        MillisMonotone(pruneAt, now);
        assert Horizon(pruneAt, retention) <= Horizon(now, period);
      }
    } else {
      var rows: Table := map[(0, 0) := Horizon(pruneAt, retention) - 1];
      assert !SameAnswer(rows, retention, pruneAt, 0, 0, period, pruneAt);
    }
  }

  const COOLDOWN_RETENTION := MAX_COOLDOWN_PERIOD

  /** Every period the settings resolve to is within the retention, so the scheduler's pruning is invisible. */
  lemma ResolvedPeriodsSurvivePruning(global: seq<Setting>, own: seq<Setting>, pruneAt: int)
    ensures var period := Resolve(global, own).cooldownPeriod;
            forall rows, inst, item, now | now >= pruneAt ::
              SameAnswer(rows, COOLDOWN_RETENTION, pruneAt, inst, item, period, now)
  {
    ResolveBounded(global, own);
    PruningIsInvisible(COOLDOWN_RETENTION, pruneAt, Resolve(global, own).cooldownPeriod);
  }
}
