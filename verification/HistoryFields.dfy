/** What a history fetch returns, read off the fields of the raw records, for each kind of application. */
module HistoryFields {
  import opened Core
  import opened History
  import opened HistoryShape

  /** How an application numbers the item of a record. */
  type ItemOf = RawRecord -> int

  /** Import i is dated after `since` and the first such with its ID. */
  ghost predicate First(imports: seq<RawRecord>, i: int, since: int) {
    && 0 <= i < |imports| && imports[i].date > since
    && forall j :: 0 <= j < i && imports[j].id == imports[i].id ==> imports[j].date <= since
  }

  ghost predicate Describes(r: HistoryRecord, raw: RawRecord, item: int) {
    && r.id == raw.id && r.itemID == item && r.date == raw.date && r.releaseTitle == raw.sourceTitle
    && r.quality == raw.quality && r.size == raw.size && r.score == raw.score
    && r.releaseGroup == raw.releaseGroup && r.fileID == raw.fileID
  }

  /** The deletion of an item's file by an upgrade, after `since`. */
  ghost predicate Replaces(d: RawRecord, since: int, item: int, id: ItemOf) {
    d.upgradeReason && d.date > since && id(d) == item
  }

  ghost predicate FirstReplacing(deletes: seq<RawRecord>, k: int, since: int, item: int, id: ItemOf) {
    && 0 <= k < |deletes| && Replaces(deletes[k], since, item, id)
    && forall j :: 0 <= j < k ==> !Replaces(deletes[j], since, item, id)
  }

  /** Flagged exactly when such a deletion is listed; the previous file is that of the first. */
  ghost predicate Flagged(r: HistoryRecord, since: int, deletes: seq<RawRecord>, item: int, id: ItemOf) {
    && (r.isUpgrade <==> exists d :: d in deletes && Replaces(d, since, item, id))
    && (r.isUpgrade ==>
          exists k :: FirstReplacing(deletes, k, since, item, id)
                      && r.previousQuality == deletes[k].quality && r.previousSize == deletes[k].size
                      && r.previousScore == deletes[k].score)
    && (!r.isUpgrade ==> r.previousQuality == "" && r.previousSize == 0 && r.previousScore == None)
  }

  ghost predicate Sound(r: HistoryRecord, since: int, deletes: seq<RawRecord>, imports: seq<RawRecord>, id: ItemOf) {
    exists i :: First(imports, i, since) && Describes(r, imports[i], id(imports[i]))
                && Flagged(r, since, deletes, id(imports[i]), id)
  }

  /** A returned record stands for import i: of the same item, no older, and the import itself when it has no item. */
  ghost predicate StandsFor(r: HistoryRecord, raw: RawRecord, id: ItemOf) {
    && r.itemID == id(raw) && (id(raw) == 0 ==> r.id == raw.id)
    && (r.date > raw.date || (r.date == raw.date && r.id >= raw.id))
  }

  ghost predicate DescendingRecords(out: seq<HistoryRecord>) {
    forall i, j :: 0 <= i < j < |out| ==>
      out[i].date > out[j].date || (out[i].date == out[j].date && out[i].id > out[j].id)
  }

  /** The records returned: each is one qualifying import, described and flagged by its own fields; they descend by date
      and ID; no item occurs twice; and every qualifying import is stood for. */
  ghost predicate Returns(out: seq<HistoryRecord>, since: int, deletes: seq<RawRecord>, imports: seq<RawRecord>,
                          id: ItemOf) {
    && (forall r :: r in out ==> Sound(r, since, deletes, imports, id))
    && DescendingRecords(out)
    && (forall i, j :: 0 <= i < j < |out| && out[i].itemID != 0 ==> out[i].itemID != out[j].itemID)
    && (forall i :: 0 <= i < |imports| && First(imports, i, since) ==>
          exists r :: r in out && StandsFor(r, imports[i], id))
  }

  lemma EpisodeHistory(since: int, deletes: seq<RawRecord>, pages: seq<seq<RawRecord>>)
    ensures Returns(Fetched(since, deletes, pages, EpisodeField), since, deletes, Flatten(pages),
                    (r: RawRecord) => r.episodeID)
  {
    hide Returns, Fetched, Flatten;
    FetchedReturns(since, deletes, pages, EpisodeField, (r: RawRecord) => r.episodeID);
  }

  lemma MovieHistory(since: int, deletes: seq<RawRecord>, pages: seq<seq<RawRecord>>)
    ensures Returns(Fetched(since, deletes, pages, MovieField), since, deletes, Flatten(pages),
                    (r: RawRecord) => r.movieID)
  {
    hide Returns, Fetched, Flatten;
    FetchedReturns(since, deletes, pages, MovieField, (r: RawRecord) => r.movieID);
  }

  lemma AlbumHistory(since: int, deletes: seq<RawRecord>, pages: seq<seq<RawRecord>>)
    ensures Returns(Fetched(since, deletes, pages, AlbumField), since, deletes, Flatten(pages),
                    (r: RawRecord) => r.albumID)
  {
    hide Returns, Fetched, Flatten;
    FetchedReturns(since, deletes, pages, AlbumField, (r: RawRecord) => r.albumID);
  }

  /** An application without items has every qualifying import returned. */
  lemma OtherHistory(since: int, deletes: seq<RawRecord>, pages: seq<seq<RawRecord>>)
    ensures Returns(Fetched(since, deletes, pages, OtherField), since, deletes, Flatten(pages),
                    (r: RawRecord) => 0)
  {
    hide Returns, Fetched, Flatten;
    FetchedReturns(since, deletes, pages, OtherField, (r: RawRecord) => 0);
  }

  // ---------- for any numbering ----------

  ghost predicate FirstAt(imports: seq<RawRecord>, i: int, since: int, r: RawRecord) {
    First(imports, i, since) && imports[i] == r
  }

  /** What is kept of the imports are the first qualifying ones of each ID. */
  lemma {:induction false} DedupIsFirsts(imports: seq<RawRecord>, since: int)
    ensures forall r :: r in Dedup(imports, since) <==> exists i :: FirstAt(imports, i, since, r)
  {
    if imports != [] {
      var front, last, n := imports[..|imports| - 1], imports[|imports| - 1], |imports| - 1;
      DedupIsFirsts(front, since);
      LastIsFirst(imports, since);
      var kept := Dedup(front, since);
      assert imports == front + [last];
      assert Dedup(imports, since) == if First(imports, n, since) then kept + [last] else kept;
      forall r
        ensures r in Dedup(imports, since) <==> exists i :: FirstAt(imports, i, since, r)
      {
        FirstSplits(front, last, since, r);
      }
    }
  }

  lemma FirstSplits(front: seq<RawRecord>, last: RawRecord, since: int, r: RawRecord)
    ensures (exists i :: FirstAt(front + [last], i, since, r)) <==>
              FirstAt(front + [last], |front|, since, r) || exists i :: FirstAt(front, i, since, r)
  {
    var imports := front + [last];
    assert forall i :: 0 <= i < |front| ==> imports[i] == front[i];
    if exists i :: FirstAt(front, i, since, r) {
      var i :| FirstAt(front, i, since, r);
      assert FirstAt(imports, i, since, r);
    }
    if exists i :: FirstAt(imports, i, since, r) {
      var i :| FirstAt(imports, i, since, r);
      assert i < |front| ==> FirstAt(front, i, since, r);
    }
  }

  lemma LastIsFirst(imports: seq<RawRecord>, since: int)
    requires imports != []
    requires var front := imports[..|imports| - 1];
             forall r :: r in Dedup(front, since) <==> exists i :: FirstAt(front, i, since, r)
    ensures var front, last := imports[..|imports| - 1], imports[|imports| - 1];
            First(imports, |imports| - 1, since) <==> last.date > since && last.id !in IDsOf(Dedup(front, since))
  {
    var front, last, n := imports[..|imports| - 1], imports[|imports| - 1], |imports| - 1;
    DedupKeepsFirsts(front, since);
    hide Dedup;
    assert forall j :: 0 <= j < n ==> imports[j] == front[j] && front[j] in front;
    if last.id in IDsOf(Dedup(front, since)) {
      var r :| r in Dedup(front, since) && r.id == last.id;
      var i :| FirstAt(front, i, since, r);
      assert imports[i].id == last.id && imports[i].date > since;
    }
  }

  lemma FlagsByField(since: int, deletes: seq<RawRecord>, raw: RawRecord, field: ItemField, id: ItemOf)
    requires forall r :: ItemID(r, field) == id(r)
    ensures var r := Record(raw, since, field, deletes);
            Describes(r, raw, id(raw)) && Flagged(r, since, deletes, id(raw), id)
  {
    var item := id(raw);
    FirstDeletionMeaning(deletes, since, field, item);
    hide FirstDeletion, ItemID;
    assert forall d :: Replaces(d, since, item, id) <==> UpgradeDeletion(d, since) && ItemID(d, field) == item;
    var first := FirstDeletion(deletes, since, field, item);
    if first.Some? {
      var k :| 0 <= k < |deletes| && UpgradeDeletion(deletes[k], since) && ItemID(deletes[k], field) == item
               && first.value == FileOf(deletes[k])
               && forall j :: 0 <= j < k ==> !(UpgradeDeletion(deletes[j], since) && ItemID(deletes[j], field) == item);
      assert FirstReplacing(deletes, k, since, item, id);
    }
  }

  lemma FetchedReturns(since: int, deletes: seq<RawRecord>, pages: seq<seq<RawRecord>>, field: ItemField, id: ItemOf)
    requires forall r :: ItemID(r, field) == id(r)
    ensures Returns(Fetched(since, deletes, pages, field), since, deletes, Flatten(pages), id)
  {
    var imports, out := Flatten(pages), Fetched(since, deletes, pages, field);
    var all := Qualifying(since, deletes, imports, field);
    FetchedShape(since, deletes, pages, field);
    DedupIsFirsts(imports, since);
    hide Fetched, Flatten, Dedup, First;
    forall r | r in out
      ensures Sound(r, since, deletes, imports, id)
    {
      assert Kept(r, all);
      var raw :| raw in Dedup(imports, since) && Record(raw, since, field, deletes) == r;
      var i :| FirstAt(imports, i, since, raw);
      FirstIsIndex(imports, i, since);
      FlagsByField(since, deletes, raw, field, id);
    }
    forall i | 0 <= i < |imports| && First(imports, i, since)
      ensures exists r :: r in out && StandsFor(r, imports[i], id)
    {
      assert FirstAt(imports, i, since, imports[i]);
      var raw := imports[i];
      var r := Record(raw, since, field, deletes);
      FlagsByField(since, deletes, raw, field, id);
      assert raw in Dedup(imports, since) && r in all;
      Stands(out, all, r, raw, id);
    }
    assert DescendingRecords(out);
  }

  lemma FirstIsIndex(imports: seq<RawRecord>, i: int, since: int)
    requires First(imports, i, since)
    ensures 0 <= i < |imports|
  {
  }

  /** Some returned record stands for a qualifying one. */
  lemma Stands(out: seq<HistoryRecord>, all: set<HistoryRecord>, r: HistoryRecord, raw: RawRecord, id: ItemOf)
    requires (forall o :: o in out <==> Kept(o, all)) && r in all
    requires r.itemID != 0 ==> exists o :: o in out && o.itemID == r.itemID
    requires r.itemID == id(raw) && r.id == raw.id && r.date == raw.date
    ensures exists o :: o in out && StandsFor(o, raw, id)
  {
    if r.itemID == 0 {
      assert Kept(r, all) && StandsFor(r, raw, id);
    } else {
      var o :| o in out && o.itemID == r.itemID;
      assert Kept(o, all);
      assert o == r || Newer(o, r);
      hide Kept;
      assert StandsFor(o, raw, id);
    }
  }
}
