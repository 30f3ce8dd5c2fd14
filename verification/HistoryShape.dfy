/** What a history fetch returns, and that it depends on the set of import records alone. */
module HistoryShape {
  import opened History

  ghost function Members(s: seq<HistoryRecord>): set<HistoryRecord> { set r | r in s }

  /** The newest of its item, or a record without an item. */
  ghost predicate Kept(r: HistoryRecord, all: set<HistoryRecord>) {
    r in all && (r.itemID == 0 || forall o :: o in all && o.itemID == r.itemID && o != r ==> Newer(r, o))
  }

  // ---------- sorting ----------

  lemma {:induction false} InsertMembers(x: HistoryRecord, s: seq<HistoryRecord>)
    ensures multiset(Insert(x, s)) == multiset(s) + multiset{x}
  {
    if s != [] && !Newer(x, s[0]) {
      InsertMembers(x, s[1..]);
      assert s == [s[0]] + s[1..];
    }
  }

  lemma {:induction false} InsertKeepsOrder(x: HistoryRecord, s: seq<HistoryRecord>)
    requires NewestFirst(s) && forall r :: r in s ==> r.id != x.id
    ensures NewestFirst(Insert(x, s))
  {
    if s != [] && !Newer(x, s[0]) {
      InsertKeepsOrder(x, s[1..]);
      InsertMembers(x, s[1..]);
      var t := Insert(x, s[1..]);
      forall r | r in t
        ensures Newer(s[0], r)
      {
        assert r in multiset(t);
        assert r == x || r in s[1..];
      }
    }
  }

  lemma {:induction false} SortedSorts(s: seq<HistoryRecord>)
    requires forall i, j :: 0 <= i < j < |s| ==> s[i].id != s[j].id
    ensures NewestFirst(Sorted(s)) && multiset(Sorted(s)) == multiset(s)
  {
    if s != [] {
      var front, last := s[..|s| - 1], s[|s| - 1];
      SortedSorts(front);
      assert s == front + [last];
      forall r | r in Sorted(front)
        ensures r.id != last.id
      {
        assert r in multiset(Sorted(front));
        assert r in front;
      }
      InsertMembers(last, Sorted(front));
      InsertKeepsOrder(last, Sorted(front));
    }
  }

  lemma SameMembers(s: seq<HistoryRecord>, t: seq<HistoryRecord>)
    requires multiset(s) == multiset(t)
    ensures Members(s) == Members(t)
  {
    forall r
      ensures r in s <==> r in t
    {
      assert r in s <==> r in multiset(s);
      assert r in t <==> r in multiset(t);
    }
  }

  /** A strictly newest-first list is determined by its members, so any correct sort gives the same list. */
  lemma {:induction false} OrderIsUnique(s: seq<HistoryRecord>, t: seq<HistoryRecord>)
    requires NewestFirst(s) && NewestFirst(t) && Members(s) == Members(t)
    ensures s == t
  {
    NonEmptyMembers(s);
    NonEmptyMembers(t);
    if s != [] {
      assert s[0] in Members(t);
      HeadIsNewest(s);
      HeadIsNewest(t);
      assert t[0] in Members(s);
      assert s[0] == t[0];
      TailMembers(s);
      TailMembers(t);
      OrderIsUnique(s[1..], t[1..]);
    }
  }

  lemma NonEmptyMembers(s: seq<HistoryRecord>)
    ensures s == [] <==> Members(s) == {}
  {
    if s != [] {
      assert s[0] in Members(s);
    }
  }

  lemma HeadIsNewest(s: seq<HistoryRecord>)
    requires s != [] && NewestFirst(s)
    ensures forall r :: r in Members(s) ==> r == s[0] || Newer(s[0], r)
  {
  }

  lemma TailMembers(s: seq<HistoryRecord>)
    requires s != [] && NewestFirst(s)
    ensures Members(s[1..]) == Members(s) - {s[0]}
  {
    assert forall r :: r in s <==> r == s[0] || r in s[1..];
    assert s[0] !in s[1..];
  }

  // ---------- reduction ----------

  lemma {:induction false} ReductionSelects(s: seq<HistoryRecord>)
    ensures forall r :: r in NewestPerItem(s) ==> r in s
  {
    if s != [] {
      ReductionSelects(s[..|s| - 1]);
    }
  }

  lemma {:induction false} ReductionKeepsOrder(s: seq<HistoryRecord>)
    requires NewestFirst(s)
    ensures NewestFirst(NewestPerItem(s))
  {
    if s != [] {
      var front, last := s[..|s| - 1], s[|s| - 1];
      ReductionKeepsOrder(front);
      ReductionSelects(front);
      hide ItemsOf;
      forall r | r in front
        ensures Newer(r, last)
      {
        var i :| 0 <= i < |front| && front[i] == r;
        assert s[i] == r;
      }
      forall i | 0 <= i < |NewestPerItem(front)|
        ensures Newer(NewestPerItem(front)[i], last)
      {
        assert NewestPerItem(front)[i] in front;
      }
    }
  }

  lemma {:induction false} ReductionKeepsItems(s: seq<HistoryRecord>)
    ensures ItemsOf(NewestPerItem(s)) == ItemsOf(s)
  {
    if s != [] {
      var front, last := s[..|s| - 1], s[|s| - 1];
      assert s == front + [last];
      ReductionKeepsItems(front);
      ItemsAppend(front, last);
      ItemsAppend(NewestPerItem(front), last);
      hide ItemsOf;
    }
  }

  lemma {:induction false} ReductionMembers(s: seq<HistoryRecord>)
    requires NewestFirst(s)
    ensures forall r :: r in NewestPerItem(s) <==> Kept(r, Members(s))
  {
    if s != [] {
      var front, last := s[..|s| - 1], s[|s| - 1];
      assert s == front + [last];
      ReductionMembers(front);
      forall r {
        KeptStep(front, last, r);
      }
      hide Kept, ItemsOf, NewestFirst, Members;
    } else {
      assert Members([]) == {};
    }
  }

  lemma KeptStep(front: seq<HistoryRecord>, last: HistoryRecord, r: HistoryRecord)
    requires NewestFirst(front + [last])
    ensures Kept(r, Members(front + [last]))
       <==> Kept(r, Members(front)) || (r == last && last.itemID !in ItemsOf(front))
  {
    var s := front + [last];
    assert forall x :: x in s <==> x in front || x == last;
    forall x | x in front
      ensures Newer(x, last)
    {
      var i :| 0 <= i < |front| && front[i] == x;
      assert s[i] == x && s[|front|] == last;
    }
  }

  // ---------- the fetch ----------

  /** All records built from the qualifying imports, one per record ID. */
  ghost function Qualifying(since: int, deletes: seq<RawRecord>, imports: seq<RawRecord>,
                            field: ItemField): set<HistoryRecord> {
    set r | r in Dedup(imports, since) :: Record(r, since, field, deletes)
  }

  lemma RecordsMembers(since: int, deletes: seq<RawRecord>, imports: seq<RawRecord>, field: ItemField)
    ensures Members(Records(imports, since, field, deletes)) == Qualifying(since, deletes, imports, field)
    ensures var rs := Records(imports, since, field, deletes);
            forall i, j :: 0 <= i < j < |rs| ==> rs[i].id != rs[j].id
    ensures forall r :: r in Qualifying(since, deletes, imports, field) ==> r.date > since
  {
    DedupKeepsFirsts(imports, since);
    hide Dedup, FirstDeletion;
    var kept, rs := Dedup(imports, since), Records(imports, since, field, deletes);
    forall r | r in kept
      ensures Record(r, since, field, deletes) in rs
    {
      var i :| 0 <= i < |kept| && kept[i] == r;
      assert rs[i] == Record(r, since, field, deletes);
    }
  }

  /** Every record ID at most once, and every item. */
  ghost predicate NoRepeats(out: seq<HistoryRecord>) {
    && (forall i, j :: 0 <= i < j < |out| ==> out[i].id != out[j].id)
    && (forall i, j :: 0 <= i < j < |out| && out[i].itemID != 0 ==> out[i].itemID != out[j].itemID)
  }

  ghost predicate Shaped(out: seq<HistoryRecord>, all: set<HistoryRecord>, since: int) {
    && NewestFirst(out)
    && (forall r :: r in out <==> Kept(r, all))
    && (forall r :: r in out ==> r.date > since)
    && (forall r :: r in all && r.itemID != 0 ==> exists o :: o in out && o.itemID == r.itemID)
    && NoRepeats(out)
  }

  /** The result is strictly descending in (date, ID) and holds exactly the newest qualifying record of each item,
      plus every qualifying record without an item. */
  lemma FetchedShape(since: int, deletes: seq<RawRecord>, pages: seq<seq<RawRecord>>, field: ItemField)
    ensures Shaped(Fetched(since, deletes, pages, field), Qualifying(since, deletes, Flatten(pages), field), since)
  {
    var imports := Flatten(pages);
    var rs := Records(imports, since, field, deletes);
    var all := Qualifying(since, deletes, imports, field);
    RecordsMembers(since, deletes, imports, field);
    SortedSorts(rs);
    SameMembers(rs, Sorted(rs));
    ReductionKeepsOrder(Sorted(rs));
    ReductionKeepsItems(Sorted(rs));
    ReductionMembers(Sorted(rs));
    var out := Fetched(since, deletes, pages, field);
    forall r | r in all && r.itemID != 0
      ensures exists o :: o in out && o.itemID == r.itemID
    {
      assert r in Members(Sorted(rs));
      assert r.itemID in ItemsOf(Sorted(rs));
    }
    hide Records, Sorted, NewestPerItem, Fetched, Qualifying;
    DistinctResults(out, all, rs);
  }

  lemma DistinctResults(out: seq<HistoryRecord>, all: set<HistoryRecord>, rs: seq<HistoryRecord>)
    requires NewestFirst(out) && (forall r :: r in out ==> Kept(r, all)) && all == Members(rs)
    requires forall i, j :: 0 <= i < j < |rs| ==> rs[i].id != rs[j].id
    ensures NoRepeats(out)
  {
    forall i, j | 0 <= i < j < |out|
      ensures out[i].id != out[j].id && (out[i].itemID != 0 ==> out[i].itemID != out[j].itemID)
    {
      assert out[i] in out && out[j] in out && Newer(out[i], out[j]);
      var a :| 0 <= a < |rs| && rs[a] == out[i];
      var b :| 0 <= b < |rs| && rs[b] == out[j];
    }
  }

  /** A returned record is flagged an upgrade exactly when the delete page lists a qualifying upgrade deletion of its
      item; the previous file is that of the first such deletion. */
  lemma UpgradeFlags(since: int, deletes: seq<RawRecord>, pages: seq<seq<RawRecord>>,
                    field: ItemField, r: HistoryRecord)
    requires r in Fetched(since, deletes, pages, field)
    ensures r.isUpgrade <==> exists d :: d in deletes && UpgradeDeletion(d, since) && ItemID(d, field) == r.itemID
    ensures r.isUpgrade ==>
              exists i :: 0 <= i < |deletes| && UpgradeDeletion(deletes[i], since)
                && ItemID(deletes[i], field) == r.itemID
                && DeletedFile(r.previousQuality, r.previousSize, r.previousScore) == FileOf(deletes[i])
                && forall j :: 0 <= j < i ==>
                      !(UpgradeDeletion(deletes[j], since) && ItemID(deletes[j], field) == r.itemID)
  {
    FetchedShape(since, deletes, pages, field);
    assert Kept(r, Qualifying(since, deletes, Flatten(pages), field));
    FirstDeletionMeaning(deletes, since, field, r.itemID);
    var raw :| raw in Dedup(Flatten(pages), since) && Record(raw, since, field, deletes) == r;
    hide FirstDeletion;
    assert r == Convert(raw, field, FirstDeletion(deletes, since, field, r.itemID));
  }

  // ---------- independence of the pages ----------

  /** Records that carry one ID are one record. */
  ghost predicate IdenticalByID(imports: seq<RawRecord>) {
    forall a, b :: a in imports && b in imports && a.id == b.id ==> a == b
  }

  lemma QualifyingIsSetDetermined(since: int, deletes: seq<RawRecord>, imports: seq<RawRecord>, field: ItemField)
    requires IdenticalByID(imports)
    ensures Qualifying(since, deletes, imports, field)
         == set r | r in imports && r.date > since :: Record(r, since, field, deletes)
  {
    DedupKeepsFirsts(imports, since);
    hide Dedup, Record;
    forall r | r in imports && r.date > since
      ensures r in Dedup(imports, since)
    {
      var k :| k in Dedup(imports, since) && k.id == r.id;
    }
  }

  /** With the delete page fixed, two fetches that saw the same set of import records return the same list, whatever
      the page boundaries, the order within pages, repetitions, or the choices of an unstable sort. */
  lemma FetchIsOrderIndependent(since: int, deletes: seq<RawRecord>, pages: seq<seq<RawRecord>>,
                                others: seq<seq<RawRecord>>, field: ItemField)
    requires IdenticalByID(Flatten(pages))
    requires forall r :: r in Flatten(pages) <==> r in Flatten(others)
    ensures Fetched(since, deletes, pages, field) == Fetched(since, deletes, others, field)
  {
    QualifyingIsSetDetermined(since, deletes, Flatten(pages), field);
    QualifyingIsSetDetermined(since, deletes, Flatten(others), field);
    FetchedShape(since, deletes, pages, field);
    FetchedShape(since, deletes, others, field);
    hide Fetched, Record, Kept, Qualifying;
    assert Qualifying(since, deletes, Flatten(pages), field) == Qualifying(since, deletes, Flatten(others), field);
    OrderIsUnique(Fetched(since, deletes, pages, field), Fetched(since, deletes, others, field));
  }

  /** Fetching the same import pages again from a later time returns exactly the earlier records dated after it. */
  lemma LaterFetchIsFilter(since: int, later: int, deletes: seq<RawRecord>, moreDeletes: seq<RawRecord>,
                           pages: seq<seq<RawRecord>>, field: ItemField, id: int, date: int)
    requires since <= later && IdenticalByID(Flatten(pages))
    ensures (exists r :: r in Fetched(later, moreDeletes, pages, field) && r.id == id && r.date == date) <==>
            (exists r :: r in Fetched(since, deletes, pages, field) && r.id == id && r.date == date && date > later)
  {
    var imports := Flatten(pages);
    QualifyingIsSetDetermined(since, deletes, imports, field);
    QualifyingIsSetDetermined(later, moreDeletes, imports, field);
    FetchedShape(since, deletes, pages, field);
    FetchedShape(later, moreDeletes, pages, field);
    hide Fetched, FirstDeletion, Flatten, Qualifying;
    var before, after := Qualifying(since, deletes, imports, field), Qualifying(later, moreDeletes, imports, field);
    forall x | x in imports && x.date > later
      ensures Kept(Record(x, later, field, moreDeletes), after) <==> Kept(Record(x, since, field, deletes), before)
    {
      SameStanding(since, later, deletes, moreDeletes, imports, field, x);
    }
  }

  lemma SameStanding(since: int, later: int, deletes: seq<RawRecord>, moreDeletes: seq<RawRecord>,
                     imports: seq<RawRecord>, field: ItemField, x: RawRecord)
    requires since <= later && x in imports && x.date > later
    ensures Kept(Record(x, later, field, moreDeletes),
                 set r | r in imports && r.date > later :: Record(r, later, field, moreDeletes))
       <==> Kept(Record(x, since, field, deletes),
                 set r | r in imports && r.date > since :: Record(r, since, field, deletes))
  {
  }
}
