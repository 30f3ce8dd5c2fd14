/** Import history: pages merged, cross-referenced with deletions, sorted newest first and reduced to one record per
    item. */
module History {
  import opened Core

  /** A record as an *arr application returns it; upgradeReason says whether its reason entry reads "upgrade". */
  datatype RawRecord = RawRecord(
    id: int, date: int, upgradeReason: bool, episodeID: int, movieID: int, albumID: int,
    quality: string, size: int, score: Option<int>, sourceTitle: string, releaseGroup: string, fileID: int)

  datatype ItemField = EpisodeField | MovieField | AlbumField | OtherField

  function ItemID(r: RawRecord, field: ItemField): int {
    match field
    case EpisodeField => r.episodeID
    case MovieField => r.movieID
    case AlbumField => r.albumID
    case OtherField => 0
  }

  datatype DeletedFile = DeletedFile(quality: string, size: int, score: Option<int>)

  datatype HistoryRecord = HistoryRecord(
    id: int, itemID: int, date: int, releaseTitle: string, quality: string, size: int, score: Option<int>,
    releaseGroup: string, fileID: int,
    isUpgrade: bool, previousQuality: string, previousSize: int, previousScore: Option<int>)

  // ---------- deletions ----------

  predicate UpgradeDeletion(r: RawRecord, since: int) { r.upgradeReason && r.date > since }

  function FileOf(r: RawRecord): DeletedFile { DeletedFile(r.quality, r.size, r.score) }

  /** The first qualifying deletion on the page for an item. */
  function FirstDeletion(page: seq<RawRecord>, since: int, field: ItemField, item: int): Option<DeletedFile> {
    if page == [] then None
    else if UpgradeDeletion(page[0], since) && ItemID(page[0], field) == item then Some(FileOf(page[0]))
    else FirstDeletion(page[1..], since, field, item)
  }

  /** The deletion map holds exactly the first qualifying deletion of each item. */
  ghost predicate Deletions(upgraded: map<int, DeletedFile>, page: seq<RawRecord>, since: int, field: ItemField) {
    forall item :: FirstDeletion(page, since, field, item)
                == if item in upgraded then Some(upgraded[item]) else None
  }

  method UpgradedItems(page: seq<RawRecord>, since: int, field: ItemField) returns (upgraded: map<int, DeletedFile>)
    ensures Deletions(upgraded, page, since, field)
  {
    upgraded := map[];
    for i := 0 to |page|
      invariant Deletions(upgraded, page[..i], since, field)
    {
      var r := page[i];
      forall item {
        FirstDeletionExtends(page[..i], r, since, field, item);
      }
      assert page[..i + 1] == page[..i] + [r];
      if !UpgradeDeletion(r, since) {
        continue;
      }
      var itemID := ItemID(r, field);
      if itemID in upgraded {
        continue;
      }
      upgraded := upgraded[itemID := FileOf(r)];
    }
    assert page[..|page|] == page;
  }

  lemma {:induction false} FirstDeletionExtends(page: seq<RawRecord>, r: RawRecord, since: int,
                                                field: ItemField, item: int)
    ensures FirstDeletion(page + [r], since, field, item)
         == if FirstDeletion(page, since, field, item).Some? then FirstDeletion(page, since, field, item)
            else if UpgradeDeletion(r, since) && ItemID(r, field) == item then Some(FileOf(r)) else None
  {
    if page != [] {
      FirstDeletionExtends(page[1..], r, since, field, item);
      assert (page + [r])[1..] == page[1..] + [r];
    } else {
      assert ([r])[1..] == [];
      assert page + [r] == [r];
    }
  }

  /** An item has an upgrade deletion if and only if the page lists one dated after `since`, and the file described
      is that of the first. */
  lemma {:induction false} FirstDeletionMeaning(page: seq<RawRecord>, since: int, field: ItemField, item: int)
    ensures FirstDeletion(page, since, field, item).Some? <==>
              exists r :: r in page && UpgradeDeletion(r, since) && ItemID(r, field) == item
    ensures FirstDeletion(page, since, field, item).Some? ==>
              exists i :: 0 <= i < |page| && UpgradeDeletion(page[i], since) && ItemID(page[i], field) == item
                && FirstDeletion(page, since, field, item).value == FileOf(page[i])
                && forall j :: 0 <= j < i ==> !(UpgradeDeletion(page[j], since) && ItemID(page[j], field) == item)
  {
    if page != [] && !(UpgradeDeletion(page[0], since) && ItemID(page[0], field) == item) {
      FirstDeletionMeaning(page[1..], since, field, item);
      assert forall r :: r in page <==> r == page[0] || r in page[1..];
      if FirstDeletion(page, since, field, item).Some? {
        var i :| 0 <= i < |page[1..]| && UpgradeDeletion(page[1..][i], since) && ItemID(page[1..][i], field) == item
                && FirstDeletion(page, since, field, item).value == FileOf(page[1..][i])
                && forall j :: 0 <= j < i ==>
                      !(UpgradeDeletion(page[1..][j], since) && ItemID(page[1..][j], field) == item);
        assert page[i + 1] == page[1..][i];
        forall j | 0 <= j < i + 1
          ensures !(UpgradeDeletion(page[j], since) && ItemID(page[j], field) == item)
        {
          if j > 0 {
            assert page[j] == page[1..][j - 1];
          }
        }
      }
    }
  }

  // ---------- imports ----------

  function Convert(r: RawRecord, field: ItemField, deleted: Option<DeletedFile>): HistoryRecord {
    HistoryRecord(r.id, ItemID(r, field), r.date, r.sourceTitle, r.quality, r.size, r.score, r.releaseGroup, r.fileID,
      deleted.Some?,
      (match deleted case Some(d) => d.quality case None => ""),
      (match deleted case Some(d) => d.size case None => 0),
      (match deleted case Some(d) => d.score case None => None))
  }

  /** The record built for an import, given the page of deletions. */
  function Record(r: RawRecord, since: int, field: ItemField, deletes: seq<RawRecord>): HistoryRecord {
    Convert(r, field, FirstDeletion(deletes, since, field, ItemID(r, field)))
  }

  function IDsOf(rs: seq<RawRecord>): set<int> { set r | r in rs :: r.id }

  /** The imports dated after `since`, the first of each ID. */
  function Dedup(imports: seq<RawRecord>, since: int): seq<RawRecord> {
    if imports == [] then []
    else
      var front, last := Dedup(imports[..|imports| - 1], since), imports[|imports| - 1];
      if last.date > since && last.id !in IDsOf(front) then front + [last] else front
  }

  lemma {:induction false} DedupKeepsFirsts(imports: seq<RawRecord>, since: int)
    ensures var kept := Dedup(imports, since);
            && (forall r :: r in kept ==> r in imports && r.date > since)
            && (forall i, j :: 0 <= i < j < |kept| ==> kept[i].id != kept[j].id)
            && (forall r :: r in imports && r.date > since ==> r.id in IDsOf(kept))
  {
    if imports != [] {
      var before, last := imports[..|imports| - 1], imports[|imports| - 1];
      DedupKeepsFirsts(before, since);
      assert forall r :: r in imports <==> r in before || r == last;
      var front := Dedup(before, since);
      IDsAppend(front, last);
      if last.date > since && last.id !in IDsOf(front) {
        forall i | 0 <= i < |front|
          ensures front[i].id != last.id
        {
          assert front[i] in front;
        }
      }
    }
  }

  lemma IDsAppend(rs: seq<RawRecord>, r: RawRecord)
    ensures IDsOf(rs + [r]) == IDsOf(rs) + {r.id}
  {
    forall x | x in rs
      ensures x in rs + [r]
    {
    }
    assert r in rs + [r];
    assert forall x :: x in rs + [r] ==> x in rs || x == r;
  }

  function ConvertAll(kept: seq<RawRecord>, since: int, field: ItemField, deletes: seq<RawRecord>): seq<HistoryRecord> {
    seq(|kept|, i requires 0 <= i < |kept| => Record(kept[i], since, field, deletes))
  }

  function Records(imports: seq<RawRecord>, since: int, field: ItemField, deletes: seq<RawRecord>): seq<HistoryRecord> {
    ConvertAll(Dedup(imports, since), since, field, deletes)
  }

  function Flatten(pages: seq<seq<RawRecord>>): seq<RawRecord> {
    if pages == [] then [] else Flatten(pages[..|pages| - 1]) + pages[|pages| - 1]
  }

  /** The pages one after the other, each in its own order. */
  lemma {:induction false} FlattenSplits(a: seq<seq<RawRecord>>, b: seq<seq<RawRecord>>)
    ensures Flatten(a + b) == Flatten(a) + Flatten(b)
  {
    if b == [] {
      assert a + b == a;
    } else {
      FlattenSplits(a, b[..|b| - 1]);
      assert (a + b)[..|a + b| - 1] == a + b[..|b| - 1];
    }
  }

  lemma FlattenOne(page: seq<RawRecord>)
    ensures Flatten([page]) == page
  {
    var one := [page];
    assert Flatten(one[..0]) == [];
  }

  // ---------- order and reduction ----------

  /** Later date first, then higher ID. */
  predicate Newer(a: HistoryRecord, b: HistoryRecord) { a.date > b.date || (a.date == b.date && a.id > b.id) }

  ghost predicate NewestFirst(s: seq<HistoryRecord>) {
    forall i, j :: 0 <= i < j < |s| ==> Newer(s[i], s[j])
  }

  function Insert(r: HistoryRecord, s: seq<HistoryRecord>): seq<HistoryRecord> {
    if s == [] then [r] else if Newer(r, s[0]) then [r] + s else [s[0]] + Insert(r, s[1..])
  }

  function Sorted(s: seq<HistoryRecord>): seq<HistoryRecord> {
    if s == [] then [] else Insert(s[|s| - 1], Sorted(s[..|s| - 1]))
  }

  function ItemsOf(s: seq<HistoryRecord>): set<int> { set r | r in s && r.itemID != 0 :: r.itemID }

  /** The first record of each non-zero item, and every record without an item. */
  function NewestPerItem(s: seq<HistoryRecord>): seq<HistoryRecord> {
    if s == [] then []
    else
      var front, last := s[..|s| - 1], s[|s| - 1];
      NewestPerItem(front) + if last.itemID in ItemsOf(front) then [] else [last]
  }

  lemma ItemsAppend(s: seq<HistoryRecord>, r: HistoryRecord)
    ensures ItemsOf(s + [r]) == ItemsOf(s) + if r.itemID != 0 then {r.itemID} else {}
  {
    assert r in s + [r];
    assert forall x :: x in s ==> x in s + [r];
    assert forall x :: x in s + [r] ==> x in s || x == r;
  }

  /** fetchArrHistory before file enrichment, on successfully fetched pages. */
  function Fetched(since: int, deletes: seq<RawRecord>, pages: seq<seq<RawRecord>>,
                   field: ItemField): seq<HistoryRecord> {
    NewestPerItem(Sorted(Records(Flatten(pages), since, field, deletes)))
  }

  /** The pages as fetched: an absent delete page only disables upgrade detection, an absent import page fails the
      call. */
  function FetchHistory(since: int, deletePage: Option<seq<RawRecord>>, importPages: seq<Option<seq<RawRecord>>>,
                        field: ItemField): Option<seq<HistoryRecord>> {
    if exists i :: 0 <= i < |importPages| && importPages[i].None? then None
    else Some(Fetched(since, deletePage.GetOr([]), Contents(importPages), field))
  }

  // ---------- the code ----------

  lemma {:induction false} InsertAt(x: HistoryRecord, s: seq<HistoryRecord>, j: nat)
    requires j <= |s| && (forall k :: 0 <= k < j ==> !Newer(x, s[k])) && (j < |s| ==> Newer(x, s[j]))
    ensures Insert(x, s) == s[..j] + [x] + s[j..]
  {
    if j > 0 {
      InsertAt(x, s[1..], j - 1);
      assert s[..j] == [s[0]] + s[1..][..j - 1];
      assert s[1..][j - 1..] == s[j..];
    }
  }

  /** Never newer than its predecessor: what sorting establishes even between equal keys. */
  ghost predicate Descending(s: seq<HistoryRecord>) {
    forall i, j :: 0 <= i < j < |s| ==> !Newer(s[j], s[i])
  }

  /** Sinks the record at i into the sorted records before it. */
  method SinkAt(a: array<HistoryRecord>, i: nat)
    requires i < a.Length && Descending(a[..i])
    modifies a
    ensures a[..i + 1] == Insert(old(a[i]), old(a[..i])) && Descending(a[..i + 1])
    ensures a[i + 1..] == old(a[i + 1..])
  {
    hide Newer, Insert;
    ghost var s := a[..i];
    ghost var x := a[i];
    var j := i;
    while j > 0 && Newer(a[j], a[j - 1])
      invariant 0 <= j <= i
      invariant a[..i + 1] == s[..j] + [x] + s[j..]
      invariant a[i + 1..] == old(a[i + 1..])
      invariant forall k :: j <= k < i ==> Newer(x, s[k])
    {
      assert a[..i + 1][j] == x && a[..i + 1][j - 1] == s[j - 1];
      a[j], a[j - 1] := a[j - 1], a[j];
      j := j - 1;
      assert a[..i + 1] == s[..j] + [x] + s[j..];
    }
    assert a[..i + 1][j] == x && (j > 0 ==> a[..i + 1][j - 1] == s[j - 1]);
    InsertDescending(x, s, j);
    InsertAt(x, s, j);
  }

  /** The in-place sort, as an insertion sort. */
  method SortNewestFirst(a: array<HistoryRecord>)
    modifies a
    ensures a[..] == Sorted(old(a[..]))
  {
    hide Descending, Insert;
    ghost var was := a[..];
    assert Descending(a[..0]) by { NothingDescends(); }
    for i := 0 to a.Length
      invariant a[..i] == Sorted(was[..i]) && Descending(a[..i])
      invariant a[i..] == was[i..]
    {
      assert a[i] == a[i..][0] && was[i] == was[i..][0];
      assert a[i + 1..] == a[i..][1..] && was[i + 1..] == was[i..][1..];
      SinkAt(a, i);
      assert was[..i + 1][..i] == was[..i];
    }
    assert a[..a.Length] == a[..] && was[..a.Length] == was;
  }

  lemma NothingDescends()
    ensures Descending([])
  {
  }

  lemma InsertDescending(x: HistoryRecord, s: seq<HistoryRecord>, j: nat)
    requires j <= |s| && Descending(s) && (j > 0 ==> !Newer(x, s[j - 1]))
    requires (forall k :: j <= k < |s| ==> Newer(x, s[k]))
    ensures Descending(s[..j] + [x] + s[j..])
    ensures forall k :: 0 <= k < j ==> !Newer(x, s[k])
  {
    forall k | 0 <= k < j
      ensures !Newer(x, s[k])
    {
      assert k < j - 1 ==> !Newer(s[j - 1], s[k]);
    }
  }

  /** The in-place compaction: kept records move to the front, the first m cells are the result. */
  method CompactNewestPerItem(a: array<HistoryRecord>) returns (m: nat)
    modifies a
    ensures m <= a.Length && a[..m] == NewestPerItem(old(a[..]))
  {
    hide ItemsOf;
    ghost var was := a[..];
    var seenItems: set<int> := {};
    m := 0;
    assert ItemsOf([]) == {} by { NoItems(); }
    for i := 0 to a.Length
      invariant m <= i && a[..m] == NewestPerItem(was[..i])
      invariant a[i..] == was[i..]
      invariant seenItems == ItemsOf(was[..i])
    {
      var r := a[i];
      assert r == a[i..][0] == was[i];
      assert was[..i + 1] == was[..i] + [r] && was[..i + 1][..i] == was[..i];
      ItemsAppend(was[..i], r);
      NoZeroItem(was[..i]);
      assert a[i + 1..] == a[i..][1..];
      if r.itemID != 0 {
        if r.itemID in seenItems {
          continue;
        }
        seenItems := seenItems + {r.itemID};
      }
      ghost var kept := a[..m];
      a[m] := r;
      m := m + 1;
      assert a[..m] == kept + [r];
      assert a[i + 1..] == was[i..][1..];
    }
    assert was[..a.Length] == was;
  }

  lemma NoItems()
    ensures ItemsOf([]) == {}
  {
  }

  lemma NoZeroItem(s: seq<HistoryRecord>)
    ensures 0 !in ItemsOf(s)
  {
  }

  method FetchArrHistory(since: int, deletePage: Option<seq<RawRecord>>, importPages: seq<Option<seq<RawRecord>>>,
                         field: ItemField) returns (result: Option<seq<HistoryRecord>>)
    ensures result == FetchHistory(since, deletePage, importPages, field)
  {
    hide Records, Sorted, NewestPerItem, Deletions, Flatten;
    var upgradedItems := UpgradedItems(deletePage.GetOr([]), since, field);
    var records := MergePages(since, importPages, field, upgradedItems, deletePage.GetOr([]));
    if records.None? {
      return None;
    }
    var a := new HistoryRecord[|records.value|](i requires 0 <= i < |records.value| => records.value[i]);
    assert a[..] == records.value;
    SortNewestFirst(a);
    var m := CompactNewestPerItem(a);
    result := Some(a[..m]);
  }

  function Contents(importPages: seq<Option<seq<RawRecord>>>): seq<seq<RawRecord>> {
    seq(|importPages|, i requires 0 <= i < |importPages| => importPages[i].GetOr([]))
  }

  /** The loop over the import event types. */
  method MergePages(since: int, importPages: seq<Option<seq<RawRecord>>>, field: ItemField,
                    upgradedItems: map<int, DeletedFile>, ghost deletes: seq<RawRecord>)
    returns (result: Option<seq<HistoryRecord>>)
    requires Deletions(upgradedItems, deletes, since, field)
    ensures result == if exists i :: 0 <= i < |importPages| && importPages[i].None? then None
                      else Some(Records(Flatten(Contents(importPages)), since, field, deletes))
  {
    hide Records, Deletions, Dedup, IDsOf;
    ghost var pages := Contents(importPages);
    NoRecords(since, field, deletes);
    var records: seq<HistoryRecord> := [];
    var seen: set<int> := {};
    for p := 0 to |importPages|
      invariant forall i :: 0 <= i < p ==> importPages[i].Some?
      invariant records == Records(Flatten(pages[..p]), since, field, deletes)
      invariant seen == IDsOf(Dedup(Flatten(pages[..p]), since))
    {
      if importPages[p].None? {
        return None;
      }
      records, seen := MergePage(importPages[p].value, Flatten(pages[..p]), since, field,
                                 upgradedItems, deletes, records, seen);
      assert pages[..p + 1][..p] == pages[..p];
    }
    assert pages[..|importPages|] == pages;
    result := Some(records);
  }

  lemma NoRecords(since: int, field: ItemField, deletes: seq<RawRecord>)
    ensures Records([], since, field, deletes) == [] && IDsOf(Dedup([], since)) == {}
  {
  }

  /** One page's imports appended to the records so far. */
  method MergePage(page: seq<RawRecord>, ghost earlier: seq<RawRecord>, since: int, field: ItemField,
                   upgradedItems: map<int, DeletedFile>, ghost deletes: seq<RawRecord>,
                   records0: seq<HistoryRecord>, seen0: set<int>)
    returns (records: seq<HistoryRecord>, seen: set<int>)
    requires Deletions(upgradedItems, deletes, since, field)
    requires records0 == Records(earlier, since, field, deletes)
    requires seen0 == IDsOf(Dedup(earlier, since))
    ensures records == Records(earlier + page, since, field, deletes)
    ensures seen == IDsOf(Dedup(earlier + page, since))
  {
    records, seen := records0, seen0;
    assert earlier + page[..0] == earlier;
    hide IDsOf, Convert, FirstDeletion;
    for i := 0 to |page|
      invariant records == Records(earlier + page[..i], since, field, deletes)
      invariant seen == IDsOf(Dedup(earlier + page[..i], since))
    {
      var r := page[i];
      DedupStep(earlier + page[..i], r, since, field, deletes);
      assert earlier + page[..i + 1] == earlier + page[..i] + [r];
      if r.date <= since || r.id in seen {
        continue;
      }
      seen := seen + {r.id};
      var itemID := ItemID(r, field);
      var rec := Convert(r, field, if itemID in upgradedItems then Some(upgradedItems[itemID]) else None);
      records := records + [rec];
    }
    assert page[..|page|] == page;
  }

  lemma DedupStep(imports: seq<RawRecord>, r: RawRecord, since: int, field: ItemField, deletes: seq<RawRecord>)
    ensures var kept := Dedup(imports, since);
            if r.date > since && r.id !in IDsOf(kept) then
              && IDsOf(Dedup(imports + [r], since)) == IDsOf(kept) + {r.id}
              && Records(imports + [r], since, field, deletes)
                 == Records(imports, since, field, deletes) + [Record(r, since, field, deletes)]
            else
              && Dedup(imports + [r], since) == kept
              && Records(imports + [r], since, field, deletes) == Records(imports, since, field, deletes)
  {
    hide Record;
    var kept := Dedup(imports, since);
    assert (imports + [r])[..|imports|] == imports;
    IDsAppend(kept, r);
  }
}
