/** Which library items are upgradeable or missing: the cached filter against the plain definition on the profile. */
module Quality {
  import opened Core

  /** One row of a profile: a single quality, or a named group of nested entries. */
  datatype ProfileEntry = ProfileEntry(id: int, quality: Option<int>, items: seq<ProfileEntry>, allowed: bool)

  /** Items run from the lowest to the highest quality. */
  datatype QualityProfile = QualityProfile(id: int, upgradeAllowed: bool, cutoff: int, items: seq<ProfileEntry>)

  datatype LibraryItem = LibraryItem(
    id: int, name: string, detailPath: string, qualityProfileID: int, currentQualityIDs: seq<int>,
    hasFile: bool, monitored: bool)

  datatype UpgradeItem = UpgradeItem(id: int, name: string, detailPath: string)

  datatype FilterStats = FilterStats(
    libraryTotal: int, noFile: int, unmonitored: int, noProfile: int, upgradeBlocked: int,
    unknownQuality: int, atOrAbove: int, upgradeable: int)

  // ---------- the plain definition ----------

  /** An entry gives its rank to its quality, or to its group ID (unless zero) and its members. */
  predicate Mentions(e: ProfileEntry, q: int) {
    if e.quality.Some? then q == e.quality.value
    else (e.id != 0 && q == e.id) || exists c :: c in e.items && c.quality == Some(q)
  }

  /** The position of the last allowed entry that mentions q. */
  function Rank(entries: seq<ProfileEntry>, q: int): (r: Option<nat>)
    ensures r.Some? ==> r.value < |entries| && entries[r.value].allowed && Mentions(entries[r.value], q)
    ensures forall i :: 0 <= i < |entries| && entries[i].allowed && Mentions(entries[i], q) ==> r.Some? && i <= r.value
  {
    if entries == [] then None
    else
      var n := |entries| - 1;
      if entries[n].allowed && Mentions(entries[n], q) then Some(n) else Rank(entries[..n], q)
  }

  predicate RanksBelowCutoff(p: QualityProfile, q: int) {
    Rank(p.items, q).Some? && Rank(p.items, p.cutoff).Some? && Rank(p.items, q).value < Rank(p.items, p.cutoff).value
  }

  predicate IsUpgradeable(item: LibraryItem, profiles: map<int, QualityProfile>) {
    && item.hasFile && item.monitored && item.qualityProfileID in profiles
    && var p := profiles[item.qualityProfileID];
       p.upgradeAllowed && exists q :: q in item.currentQualityIDs && RanksBelowCutoff(p, q)
  }

  predicate IsMissing(item: LibraryItem) { !item.hasFile && item.monitored }

  function Reference(item: LibraryItem): UpgradeItem { UpgradeItem(item.id, item.name, item.detailPath) }

  function Upgradeable(items: seq<LibraryItem>, profiles: map<int, QualityProfile>): seq<UpgradeItem> {
    if items == [] then []
    else
      var n := |items| - 1;
      Upgradeable(items[..n], profiles) + if IsUpgradeable(items[n], profiles) then [Reference(items[n])] else []
  }

  function Missing(items: seq<LibraryItem>): seq<UpgradeItem> {
    if items == [] then []
    else
      var n := |items| - 1;
      Missing(items[..n]) + if IsMissing(items[n]) then [Reference(items[n])] else []
  }

  /** Why an item was or was not selected; the first reason that applies. */
  datatype Category = NoFile | Unmonitored | NoProfile | UpgradeBlocked | UnknownQuality | AtOrAbove | Selected

  function Classify(item: LibraryItem, profiles: map<int, QualityProfile>): Category {
    if !item.hasFile then NoFile
    else if !item.monitored then Unmonitored
    else if item.qualityProfileID !in profiles then NoProfile
    else
      var p := profiles[item.qualityProfileID];
      if !p.upgradeAllowed then UpgradeBlocked
      else if forall q :: q in item.currentQualityIDs ==> Rank(p.items, q).None? then UnknownQuality
      else if IsUpgradeable(item, profiles) then Selected
      else AtOrAbove
  }

  function Tally(items: seq<LibraryItem>, profiles: map<int, QualityProfile>, c: Category): nat {
    if items == [] then 0
    else
      var n := |items| - 1;
      Tally(items[..n], profiles, c) + if Classify(items[n], profiles) == c then 1 else 0
  }

  /** The classification singles out exactly the items of the definition. */
  lemma ClassifySelects(item: LibraryItem, profiles: map<int, QualityProfile>)
    ensures Classify(item, profiles) == Selected <==> IsUpgradeable(item, profiles)
  {
    hide Rank;
    if IsUpgradeable(item, profiles) {
      var p := profiles[item.qualityProfileID];
      var q :| q in item.currentQualityIDs && RanksBelowCutoff(p, q);
      assert Rank(p.items, q).Some?;
    }
  }

  // ---------- the code ----------

  /** The index agrees with the definition on every quality. */
  ghost predicate Agrees(ranks: map<int, int>, entries: seq<ProfileEntry>) {
    forall q :: (q in ranks <==> Rank(entries, q).Some?) && (q in ranks ==> ranks[q] == Rank(entries, q).value)
  }

  /** `ranks` is `before` with every quality of `now` set to i. */
  ghost predicate Sets(ranks: map<int, int>, before: map<int, int>, now: iset<int>, i: int) {
    forall q :: if q in now then q in ranks && ranks[q] == i
                else (q in ranks <==> q in before) && (q in ranks ==> ranks[q] == before[q])
  }

  ghost function MemberQualities(children: seq<ProfileEntry>): iset<int> {
    iset c | c in children && c.quality.Some? :: c.quality.value
  }

  method RankMembers(children: seq<ProfileEntry>, before: map<int, int>, i: nat) returns (ranks: map<int, int>)
    ensures Sets(ranks, before, MemberQualities(children), i)
  {
    ranks := before;
    for j := 0 to |children|
      invariant Sets(ranks, before, MemberQualities(children[..j]), i)
    {
      var child := children[j];
      if child.quality.Some? {
        ranks := ranks[child.quality.value := i];
      }
      assert children[..j + 1] == children[..j] + [child];
      assert MemberQualities(children[..j + 1])
          == MemberQualities(children[..j]) + if child.quality.Some? then iset{child.quality.value} else iset{};
    }
    assert children[..|children|] == children;
  }

  /** The qualities one entry gives its rank to. */
  ghost function RankedBy(entry: ProfileEntry): iset<int> {
    iset q | entry.allowed && Mentions(entry, q)
  }

  method RankEntry(entry: ProfileEntry, before: map<int, int>, i: nat) returns (ranks: map<int, int>)
    ensures Sets(ranks, before, RankedBy(entry), i)
  {
    ranks := before;
    if !entry.allowed {
      return;
    }
    if entry.quality.Some? {
      ranks := ranks[entry.quality.value := i];
      return;
    }
    if entry.id != 0 {
      ranks := ranks[entry.id := i];
    }
    ranks := RankMembers(entry.items, ranks, i);
    assert forall q :: q in MemberQualities(entry.items) <==> exists c :: c in entry.items && c.quality == Some(q);
  }

  lemma AgreesStep(ranks: map<int, int>, before: map<int, int>, entries: seq<ProfileEntry>, entry: ProfileEntry)
    requires Agrees(before, entries) && Sets(ranks, before, RankedBy(entry), |entries|)
    ensures Agrees(ranks, entries + [entry])
  {
    hide Mentions;
    var all := entries + [entry];
    assert all[..|entries|] == entries && all[|entries|] == entry;
    forall q
      ensures (q in ranks <==> Rank(all, q).Some?) && (q in ranks ==> ranks[q] == Rank(all, q).value)
    {
      assert q in RankedBy(entry) <==> entry.allowed && Mentions(entry, q);
    }
  }

  method QualityRank(profile: QualityProfile) returns (ranks: map<int, int>)
    ensures Agrees(ranks, profile.items)
  {
    var items := profile.items;
    ranks := map[];
    assert Agrees(ranks, []);
    hide Agrees, Sets, RankedBy;
    for i := 0 to |items|
      invariant Agrees(ranks, items[..i])
    {
      assert items[..i + 1] == items[..i] + [items[i]];
      var next := RankEntry(items[i], ranks, i);
      AgreesStep(next, ranks, items[..i], items[i]);
      ranks := next;
    }
    assert items[..|items|] == items;
  }

  method CutoffRank(profile: QualityProfile, ranks: map<int, int>) returns (rank: int)
    requires Agrees(ranks, profile.items)
    ensures rank == match Rank(profile.items, profile.cutoff) case Some(r) => r case None => -1
  {
    rank := if profile.cutoff in ranks then ranks[profile.cutoff] else -1;
  }

  datatype ProfileCache = ProfileCache(ranks: map<int, int>, cutoff: int, upgradeAllowed: bool)

  ghost predicate Caches(pc: ProfileCache, p: QualityProfile) {
    && Agrees(pc.ranks, p.items) && pc.upgradeAllowed == p.upgradeAllowed
    && pc.cutoff == match Rank(p.items, p.cutoff) case Some(r) => r case None => -1
  }

  /** The lowest rank among an item's known qualities, -1 when none is known. */
  method LowestRank(ids: seq<int>, ranks: map<int, int>) returns (lowest: int)
    requires forall q :: q in ranks ==> ranks[q] >= 0
    ensures lowest == -1 <==> forall q :: q in ids ==> q !in ranks
    ensures lowest >= -1
    ensures lowest >= 0 ==> exists q :: q in ids && q in ranks && ranks[q] == lowest
    ensures forall q :: q in ids && q in ranks ==> lowest <= ranks[q]
  {
    lowest := -1;
    for i := 0 to |ids|
      invariant lowest == -1 <==> forall q :: q in ids[..i] ==> q !in ranks
      invariant lowest >= -1
      invariant lowest >= 0 ==> exists q :: q in ids[..i] && q in ranks && ranks[q] == lowest
      invariant forall q :: q in ids[..i] && q in ranks ==> lowest <= ranks[q]
    {
      var qid := ids[i];
      assert ids[..i + 1] == ids[..i] + [qid];
      if qid in ranks {
        var rank := ranks[qid];
        if lowest < 0 || rank < lowest {
          lowest := rank;
          assert qid in ids[..i + 1];
        } else {
          var q :| q in ids[..i] && q in ranks && ranks[q] == lowest;
          assert q in ids[..i + 1];
        }
      } else if lowest >= 0 {
        var q :| q in ids[..i] && q in ranks && ranks[q] == lowest;
        assert q in ids[..i + 1];
      }
    }
    assert ids[..|ids|] == ids;
  }

  /** Comparing the lowest cached rank with the cached cutoff decides the definition. */
  lemma LowestDecides(item: LibraryItem, profiles: map<int, QualityProfile>, pc: ProfileCache, lowest: int)
    requires item.hasFile && item.monitored && item.qualityProfileID in profiles
    requires Caches(pc, profiles[item.qualityProfileID]) && pc.upgradeAllowed
    requires lowest >= -1 && (lowest == -1 <==> forall q :: q in item.currentQualityIDs ==> q !in pc.ranks)
    requires lowest >= 0 ==> exists q :: q in item.currentQualityIDs && q in pc.ranks && pc.ranks[q] == lowest
    requires forall q :: q in item.currentQualityIDs && q in pc.ranks ==> lowest <= pc.ranks[q]
    ensures Classify(item, profiles)
         == if lowest == -1 then UnknownQuality else if 0 <= lowest < pc.cutoff then Selected else AtOrAbove
  {
    hide Rank;
    if lowest >= 0 {
      var p := profiles[item.qualityProfileID];
      var q :| q in item.currentQualityIDs && q in pc.ranks && pc.ranks[q] == lowest;
      if lowest < pc.cutoff {
        assert RanksBelowCutoff(p, q);
      }
    }
  }

  method CacheProfile(p: QualityProfile) returns (pc: ProfileCache)
    ensures Caches(pc, p)
  {
    var r := QualityRank(p);
    var c := CutoffRank(p, r);
    pc := ProfileCache(r, c, p.upgradeAllowed);
  }

  method BuildCache(profiles: map<int, QualityProfile>) returns (cache: map<int, ProfileCache>)
    ensures cache.Keys == profiles.Keys && forall id :: id in profiles ==> Caches(cache[id], profiles[id])
  {
    hide Caches;
    cache := map[];
    var todo := profiles.Keys;
    while todo != {}
      invariant todo <= profiles.Keys && cache.Keys == profiles.Keys - todo
      invariant forall id :: id in cache ==> Caches(cache[id], profiles[id])
      decreases |todo|
    {
      var id := AnyOf(todo);
      var pc := CacheProfile(profiles[id]);
      cache := cache[id := pc];
      todo := todo - {id};
    }
  }

  ghost predicate StatsCount(stats: FilterStats, items: seq<LibraryItem>, profiles: map<int, QualityProfile>) {
    && stats.libraryTotal == |items|
    && stats.noFile == Tally(items, profiles, NoFile) && stats.unmonitored == Tally(items, profiles, Unmonitored)
    && stats.noProfile == Tally(items, profiles, NoProfile)
    && stats.upgradeBlocked == Tally(items, profiles, UpgradeBlocked)
    && stats.unknownQuality == Tally(items, profiles, UnknownQuality)
    && stats.atOrAbove == Tally(items, profiles, AtOrAbove)
  }

  /** The counters after one more item of a category; selected items are counted at the end. */
  ghost function Counted(stats: FilterStats, c: Category): FilterStats {
    match c
    case NoFile => stats.(noFile := stats.noFile + 1)
    case Unmonitored => stats.(unmonitored := stats.unmonitored + 1)
    case NoProfile => stats.(noProfile := stats.noProfile + 1)
    case UpgradeBlocked => stats.(upgradeBlocked := stats.upgradeBlocked + 1)
    case UnknownQuality => stats.(unknownQuality := stats.unknownQuality + 1)
    case AtOrAbove => stats.(atOrAbove := stats.atOrAbove + 1)
    case Selected => stats
  }

  lemma CountStep(stats: FilterStats, items: seq<LibraryItem>, i: nat, profiles: map<int, QualityProfile>)
    requires i < |items| && StatsCount(stats.(libraryTotal := i), items[..i], profiles)
    ensures StatsCount(Counted(stats, Classify(items[i], profiles)).(libraryTotal := i + 1), items[..i + 1], profiles)
    ensures Upgradeable(items[..i + 1], profiles)
         == Upgradeable(items[..i], profiles)
           + if Classify(items[i], profiles) == Selected then [Reference(items[i])] else []
  {
    assert items[..i + 1][..i] == items[..i];
    ClassifySelects(items[i], profiles);
    hide Classify, IsUpgradeable;
  }

  method FilterUpgradeable(items: seq<LibraryItem>, profiles: map<int, QualityProfile>)
    returns (result: seq<UpgradeItem>, stats: FilterStats)
    ensures result == Upgradeable(items, profiles)
    ensures StatsCount(stats, items, profiles) && stats.upgradeable == |result|
  {
    var cache := BuildCache(profiles);
    stats := FilterStats(|items|, 0, 0, 0, 0, 0, 0, 0);
    result := [];
    assert StatsCount(stats.(libraryTotal := 0), [], profiles);
    hide Rank, IsUpgradeable, StatsCount, Upgradeable;
    assert Upgradeable([], profiles) == [] by { NoneUpgradeable(profiles); }
    for i := 0 to |items|
      invariant result == Upgradeable(items[..i], profiles)
      invariant StatsCount(stats.(libraryTotal := i), items[..i], profiles)
      invariant stats.libraryTotal == |items|
    {
      var item := items[i];
      CountStep(stats, items, i, profiles);
      if !item.hasFile {
        stats := stats.(noFile := stats.noFile + 1);
        continue;
      }
      if !item.monitored {
        stats := stats.(unmonitored := stats.unmonitored + 1);
        continue;
      }
      if item.qualityProfileID !in cache {
        stats := stats.(noProfile := stats.noProfile + 1);
        continue;
      }
      var pc := cache[item.qualityProfileID];
      if !pc.upgradeAllowed {
        stats := stats.(upgradeBlocked := stats.upgradeBlocked + 1);
        continue;
      }
      var lowest := LowestRank(item.currentQualityIDs, pc.ranks);
      LowestDecides(item, profiles, pc, lowest);
      if lowest < 0 {
        stats := stats.(unknownQuality := stats.unknownQuality + 1);
        continue;
      }
      if lowest < pc.cutoff {
        result := result + [UpgradeItem(item.id, item.name, item.detailPath)];
      } else {
        stats := stats.(atOrAbove := stats.atOrAbove + 1);
      }
    }
    assert items[..|items|] == items;
    stats := stats.(upgradeable := |result|);
    CountIgnoresUpgradeable(stats, items, profiles);
  }

  lemma NoneUpgradeable(profiles: map<int, QualityProfile>)
    ensures Upgradeable([], profiles) == []
  {
  }

  lemma CountIgnoresUpgradeable(stats: FilterStats, items: seq<LibraryItem>, profiles: map<int, QualityProfile>)
    ensures forall m :: StatsCount(stats.(upgradeable := m), items, profiles) <==> StatsCount(stats, items, profiles)
  {
  }

  method FilterMissing(items: seq<LibraryItem>) returns (result: seq<UpgradeItem>)
    ensures result == Missing(items)
  {
    result := [];
    for i := 0 to |items|
      invariant result == Missing(items[..i])
    {
      var item := items[i];
      assert items[..i + 1][..i] == items[..i];
      if item.hasFile || !item.monitored {
        continue;
      }
      result := result + [UpgradeItem(item.id, item.name, item.detailPath)];
    }
    assert items[..|items|] == items;
  }

  // ---------- the two filters joined ----------

  datatype UpgradeResult = UpgradeResult(items: seq<UpgradeItem>, missingItems: seq<UpgradeItem>, stats: FilterStats)

  /** Profiles by ID; a later profile with the same ID replaces an earlier one. */
  function ProfileMap(profiles: seq<QualityProfile>): map<int, QualityProfile> {
    if profiles == [] then map[]
    else
      var p := profiles[|profiles| - 1];
      ProfileMap(profiles[..|profiles| - 1])[p.id := p]
  }

  /** upgradeableWith; each fetch may fail. */
  method UpgradeableWith(profiles: Option<seq<QualityProfile>>, library: Option<seq<LibraryItem>>)
    returns (r: Option<UpgradeResult>)
    ensures r.Some? <==> profiles.Some? && library.Some?
    ensures r.Some? ==> r.value.items == Upgradeable(library.value, ProfileMap(profiles.value))
    ensures r.Some? ==> r.value.missingItems == Missing(library.value)
    ensures r.Some? ==> StatsCount(r.value.stats, library.value, ProfileMap(profiles.value))
    ensures r.Some? ==> r.value.stats.upgradeable == |r.value.items|
  {
    if profiles.None? {
      return None;
    }
    var profileMap := map[];
    for i := 0 to |profiles.value|
      invariant profileMap == ProfileMap(profiles.value[..i])
    {
      var p := profiles.value[i];
      assert profiles.value[..i + 1][..i] == profiles.value[..i];
      profileMap := profileMap[p.id := p];
    }
    assert profiles.value[..|profiles.value|] == profiles.value;
    if library.None? {
      return None;
    }
    var upgradeItems, stats := FilterUpgradeable(library.value, profileMap);
    var missingItems := FilterMissing(library.value);
    r := Some(UpgradeResult(upgradeItems, missingItems, stats));
  }

  // ---------- what the result is ----------

  /** Every item falls in exactly one category: the seven counts sum to the library. */
  lemma {:induction false} CategoriesPartition(items: seq<LibraryItem>, profiles: map<int, QualityProfile>)
    ensures |items| == Tally(items, profiles, NoFile) + Tally(items, profiles, Unmonitored)
                     + Tally(items, profiles, NoProfile) + Tally(items, profiles, UpgradeBlocked)
                     + Tally(items, profiles, UnknownQuality) + Tally(items, profiles, AtOrAbove)
                     + |Upgradeable(items, profiles)|
  {
    hide Rank;
    if items != [] {
      CategoriesPartition(items[..|items| - 1], profiles);
      ClassifySelects(items[|items| - 1], profiles);
      hide Classify, IsUpgradeable;
    }
  }

  /** The positions of the selected items, in library order. */
  function UpgradeablePositions(items: seq<LibraryItem>, profiles: map<int, QualityProfile>): (ps: seq<nat>)
    ensures forall k :: 0 <= k < |ps| ==> ps[k] < |items| && IsUpgradeable(items[ps[k]], profiles)
    ensures forall j, k :: 0 <= j < k < |ps| ==> ps[j] < ps[k]
    ensures forall i :: 0 <= i < |items| && IsUpgradeable(items[i], profiles) ==> i in ps
  {
    if items == [] then []
    else
      var n := |items| - 1;
      var front := UpgradeablePositions(items[..n], profiles);
      assert forall i :: 0 <= i < n ==> items[i] == items[..n][i];
      if IsUpgradeable(items[n], profiles) then front + [n] else front
  }

  /** An item is returned if and only if the definition holds of it, once per position, in library order. */
  lemma {:induction false} UpgradeableInOrder(items: seq<LibraryItem>, profiles: map<int, QualityProfile>)
    ensures var ps := UpgradeablePositions(items, profiles);
            && |Upgradeable(items, profiles)| == |ps|
            && forall k :: 0 <= k < |ps| ==>
                 var x := items[ps[k]]; Upgradeable(items, profiles)[k] == UpgradeItem(x.id, x.name, x.detailPath)
  {
    hide IsUpgradeable;
    if items != [] {
      UpgradeableInOrder(items[..|items| - 1], profiles);
    }
  }

  function IDs(items: seq<UpgradeItem>): seq<int> {
    seq(|items|, i requires 0 <= i < |items| => items[i].id)
  }

  /** What a cycle may search: the upgradeable items, then the missing ones when they are wanted. */
  function Candidates(profiles: seq<QualityProfile>, library: seq<LibraryItem>, searchMissing: bool): seq<int> {
    IDs(Upgradeable(library, ProfileMap(profiles)) + if searchMissing then Missing(library) else [])
  }

  lemma {:induction false} UpgradeableMembers(items: seq<LibraryItem>, profiles: map<int, QualityProfile>, id: int)
    ensures id in IDs(Upgradeable(items, profiles))
       <==> exists x :: x in items && x.id == id && IsUpgradeable(x, profiles)
  {
    hide IsUpgradeable;
    if items != [] {
      var front, last := items[..|items| - 1], items[|items| - 1];
      UpgradeableMembers(front, profiles, id);
      assert forall x :: x in items <==> x in front || x == last;
      assert IDs(Upgradeable(items, profiles))
          == IDs(Upgradeable(front, profiles)) + if IsUpgradeable(last, profiles) then [last.id] else [];
    }
  }

  lemma {:induction false} MissingMembers(items: seq<LibraryItem>, id: int)
    ensures id in IDs(Missing(items)) <==> exists x :: x in items && x.id == id && IsMissing(x)
  {
    if items != [] {
      var front, last := items[..|items| - 1], items[|items| - 1];
      MissingMembers(front, id);
      assert forall x :: x in items <==> x in front || x == last;
      assert IDs(Missing(items)) == IDs(Missing(front)) + if IsMissing(last) then [last.id] else [];
    }
  }

  // ---------- read off the fields ----------

  /** The qualities, and the group ID, an entry stands for. */
  ghost function Given(e: ProfileEntry): iset<int> {
    if e.quality.Some? then iset{e.quality.value}
    else (if e.id != 0 then iset{e.id} else iset{}) + MemberQualities(e.items)
  }

  /** The a-th entry is allowed and stands for q, and no later allowed entry does. */
  ghost predicate RankedAt(entries: seq<ProfileEntry>, q: int, a: int) {
    && 0 <= a < |entries| && entries[a].allowed && q in Given(entries[a])
    && forall j :: a < j < |entries| && entries[j].allowed ==> q !in Given(entries[j])
  }

  lemma MentionsIsGiven(e: ProfileEntry, q: int)
    ensures Mentions(e, q) <==> q in Given(e)
  {
  }

  lemma RankIsRankedAt(entries: seq<ProfileEntry>, q: int, a: nat)
    ensures Rank(entries, q) == Some(a) <==> RankedAt(entries, q, a)
  {
    forall e {
      MentionsIsGiven(e, q);
    }
    hide Mentions, Given;
    if RankedAt(entries, q, a) {
      var r := Rank(entries, q).value;
      assert entries[r].allowed && Mentions(entries[r], q) && a <= r;
    }
  }

  /** The k-th profile is the last with its ID. */
  ghost predicate Holds(profiles: seq<QualityProfile>, id: int, k: int) {
    && 0 <= k < |profiles| && profiles[k].id == id
    && forall j :: k < j < |profiles| ==> profiles[j].id != id
  }

  lemma {:induction false} ProfileMapMeaning(profiles: seq<QualityProfile>, id: int)
    ensures id in ProfileMap(profiles) <==> exists k :: Holds(profiles, id, k)
    ensures forall k :: Holds(profiles, id, k) ==> ProfileMap(profiles)[id] == profiles[k]
  {
    if profiles != [] {
      var n := |profiles| - 1;
      var front := profiles[..n];
      ProfileMapMeaning(front, id);
      assert forall k :: 0 <= k < n ==> profiles[k] == front[k];
      if profiles[n].id == id {
        assert Holds(profiles, id, n);
      } else {
        assert forall k :: Holds(profiles, id, k) <==> Holds(front, id, k);
      }
    }
  }

  /** The item's profile is fetched and allows upgrades, and some quality of its files ranks below its cutoff. */
  ghost predicate UpgradeDue(x: LibraryItem, profiles: seq<QualityProfile>) {
    exists k, q, a, b ::
      && Holds(profiles, x.qualityProfileID, k) && profiles[k].upgradeAllowed && q in x.currentQualityIDs
      && RankedAt(profiles[k].items, q, a) && RankedAt(profiles[k].items, profiles[k].cutoff, b) && a < b
  }

  /** What makes an item of the library one a cycle may search: it is monitored, and either an upgrade of its file
      is due or it has none and missing items are wanted. */
  ghost predicate Qualifies(x: LibraryItem, profiles: seq<QualityProfile>, searchMissing: bool) {
    x.monitored && if x.hasFile then UpgradeDue(x, profiles) else searchMissing
  }

  lemma BelowCutoff(p: QualityProfile, q: int)
    ensures RanksBelowCutoff(p, q) <==>
              exists a, b :: RankedAt(p.items, q, a) && RankedAt(p.items, p.cutoff, b) && a < b
  {
    RankPosition(p.items, q);
    RankPosition(p.items, p.cutoff);
    hide Rank, RankedAt;
    if RanksBelowCutoff(p, q) {
      var a, b := Rank(p.items, q).value, Rank(p.items, p.cutoff).value;
      assert RankedAt(p.items, q, a) && RankedAt(p.items, p.cutoff, b) && a < b;
    }
  }

  lemma RankPosition(entries: seq<ProfileEntry>, q: int)
    ensures forall a :: RankedAt(entries, q, a) <==> a >= 0 && Rank(entries, q) == Some(a)
  {
    forall a
      ensures RankedAt(entries, q, a) <==> a >= 0 && Rank(entries, q) == Some(a)
    {
      if a >= 0 {
        RankIsRankedAt(entries, q, a);
      }
    }
  }

  /** The definition, on the item's and the profiles' fields. */
  lemma UpgradeableMeaning(x: LibraryItem, profiles: seq<QualityProfile>)
    ensures IsUpgradeable(x, ProfileMap(profiles)) <==> x.hasFile && x.monitored && UpgradeDue(x, profiles)
  {
    ProfileMapMeaning(profiles, x.qualityProfileID);
    forall k, q | Holds(profiles, x.qualityProfileID, k) {
      BelowCutoff(profiles[k], q);
    }
    assert forall k :: Holds(profiles, x.qualityProfileID, k) ==> 0 <= k < |profiles|;
    hide RanksBelowCutoff, RankedAt, Holds, ProfileMap;
  }

  lemma QualifiesMeaning(x: LibraryItem, profiles: seq<QualityProfile>, searchMissing: bool)
    ensures Qualifies(x, profiles, searchMissing)
       <==> IsUpgradeable(x, ProfileMap(profiles)) || (searchMissing && IsMissing(x))
  {
    UpgradeableMeaning(x, profiles);
    ghost var upgradeable := IsUpgradeable(x, ProfileMap(profiles));
    hide UpgradeDue, IsUpgradeable;
  }

  /** The candidates are exactly the IDs of the qualifying items. */
  lemma CandidateMeaning(profiles: seq<QualityProfile>, library: seq<LibraryItem>, searchMissing: bool, id: int)
    ensures id in Candidates(profiles, library, searchMissing)
       <==> exists x :: x in library && x.id == id && Qualifies(x, profiles, searchMissing)
  {
    var up, missing := Upgradeable(library, ProfileMap(profiles)), Missing(library);
    UpgradeableMembers(library, ProfileMap(profiles), id);
    MissingMembers(library, id);
    forall x {
      QualifiesMeaning(x, profiles, searchMissing);
    }
    hide Upgradeable, Missing, IsUpgradeable, IsMissing, Qualifies;
    assert IDs(up + missing) == IDs(up) + IDs(missing);
    assert up + [] == up;
  }

  /** Upgrades come first: up to some position every candidate has a file, from there on none has. */
  lemma UpgradesComeFirst(profiles: seq<QualityProfile>, library: seq<LibraryItem>, searchMissing: bool)
    returns (n: nat)
    ensures n <= |Candidates(profiles, library, searchMissing)|
    ensures var ids := Candidates(profiles, library, searchMissing);
            && (forall id :: id in ids[..n] ==> exists x :: x in library && x.id == id && x.hasFile)
            && (forall id :: id in ids[n..] ==> exists x :: x in library && x.id == id && !x.hasFile)
  {
    var up, missing := Upgradeable(library, ProfileMap(profiles)), Missing(library);
    forall id
      ensures id in IDs(up) ==> exists x :: x in library && x.id == id && x.hasFile
      ensures id in IDs(missing) ==> exists x :: x in library && x.id == id && !x.hasFile
    {
      UpgradeableMembers(library, ProfileMap(profiles), id);
      MissingMembers(library, id);
    }
    n := |up|;
    var ids := Candidates(profiles, library, searchMissing);
    hide Upgradeable, Missing, IsUpgradeable;
    assert ids[..n] == IDs(up) && ids[n..] == if searchMissing then IDs(missing) else [];
  }

  /** The missing items are found element by element, so they keep the library's order. */
  lemma {:induction false} MissingSplits(a: seq<LibraryItem>, b: seq<LibraryItem>)
    ensures Missing(a + b) == Missing(a) + Missing(b)
  {
    if b == [] {
      assert a + b == a;
    } else {
      MissingSplits(a, b[..|b| - 1]);
      assert (a + b)[..|a + b| - 1] == a + b[..|b| - 1];
    }
  }

  lemma MissingOne(x: LibraryItem)
    ensures Missing([x]) == if x.monitored && !x.hasFile then [UpgradeItem(x.id, x.name, x.detailPath)] else []
  {
    assert [x][..0] == [];
    assert Missing([]) == [];
  }

  // ---------- the counters ----------

  ghost function CountOf(items: seq<LibraryItem>, p: LibraryItem -> bool): nat {
    |set i | 0 <= i < |items| && p(items[i])|
  }

  lemma {:induction false} TallyCounts(items: seq<LibraryItem>, profiles: map<int, QualityProfile>, c: Category,
                                       p: LibraryItem -> bool)
    requires forall x :: p(x) <==> Classify(x, profiles) == c
    ensures Tally(items, profiles, c) == CountOf(items, p)
  {
    hide Classify;
    CountLast(items, p);
    if items != [] {
      TallyCounts(items[..|items| - 1], profiles, c, p);
    }
    hide CountOf;
  }

  lemma CountLast(items: seq<LibraryItem>, p: LibraryItem -> bool)
    ensures CountOf(items, p)
         == if items == [] then 0
            else CountOf(items[..|items| - 1], p) + if p(items[|items| - 1]) then 1 else 0
  {
    if items != [] {
      var n := |items| - 1;
      var before := set i | 0 <= i < n && p(items[..n][i]);
      assert (set i | 0 <= i < |items| && p(items[i])) == before + if p(items[n]) then {n} else {};
    }
  }

  ghost predicate Unranked(x: LibraryItem, p: QualityProfile) {
    forall q, a :: q in x.currentQualityIDs ==> !RankedAt(p.items, q, a)
  }

  lemma UnknownMeaning(x: LibraryItem, p: QualityProfile)
    ensures Unranked(x, p) <==> forall q :: q in x.currentQualityIDs ==> Rank(p.items, q).None?
  {
    forall q
      ensures (exists a :: RankedAt(p.items, q, a)) <==> Rank(p.items, q).Some?
    {
      RankPosition(p.items, q);
      assert Rank(p.items, q).Some? ==> RankedAt(p.items, q, Rank(p.items, q).GetOr(0));
    }
    hide RankedAt, Rank;
  }

  lemma ExclusionCounts(items: seq<LibraryItem>, profiles: map<int, QualityProfile>)
    ensures Tally(items, profiles, NoFile) == CountOf(items, (x: LibraryItem) => !x.hasFile)
    ensures Tally(items, profiles, Unmonitored) == CountOf(items, (x: LibraryItem) => x.hasFile && !x.monitored)
    ensures Tally(items, profiles, NoProfile)
         == CountOf(items, (x: LibraryItem) => x.hasFile && x.monitored && x.qualityProfileID !in profiles)
  {
    hide Rank, IsUpgradeable, Tally, CountOf;
    TallyCounts(items, profiles, NoFile, (x: LibraryItem) => !x.hasFile);
    TallyCounts(items, profiles, Unmonitored, (x: LibraryItem) => x.hasFile && !x.monitored);
    TallyCounts(items, profiles, NoProfile,
                (x: LibraryItem) => x.hasFile && x.monitored && x.qualityProfileID !in profiles);
  }

  /** The item has a file, is monitored, and its profile is fetched. */
  predicate Profiled(x: LibraryItem, profiles: map<int, QualityProfile>) {
    x.hasFile && x.monitored && x.qualityProfileID in profiles
  }

  lemma ProfileCounts(items: seq<LibraryItem>, profiles: map<int, QualityProfile>)
    ensures Tally(items, profiles, UpgradeBlocked)
         == CountOf(items, (x: LibraryItem) => Profiled(x, profiles) && !profiles[x.qualityProfileID].upgradeAllowed)
    ensures Tally(items, profiles, UnknownQuality)
         == CountOf(items, (x: LibraryItem) => Profiled(x, profiles) && profiles[x.qualityProfileID].upgradeAllowed
                                               && Unranked(x, profiles[x.qualityProfileID]))
  {
    forall x: LibraryItem | x.qualityProfileID in profiles {
      UnknownMeaning(x, profiles[x.qualityProfileID]);
    }
    hide Rank, Unranked, IsUpgradeable, Tally, CountOf;
    TallyCounts(items, profiles, UpgradeBlocked,
                (x: LibraryItem) => Profiled(x, profiles) && !profiles[x.qualityProfileID].upgradeAllowed);
    TallyCounts(items, profiles, UnknownQuality,
                (x: LibraryItem) => Profiled(x, profiles) && profiles[x.qualityProfileID].upgradeAllowed
                                    && Unranked(x, profiles[x.qualityProfileID]));
  }

  /** Each counter is the number of items its name says, the exclusions applying in the order of the counters. */
  lemma CountersMeaning(stats: FilterStats, items: seq<LibraryItem>, profiles: map<int, QualityProfile>)
    requires StatsCount(stats, items, profiles)
    ensures stats.libraryTotal == |items|
    ensures stats.noFile == CountOf(items, (x: LibraryItem) => !x.hasFile)
    ensures stats.unmonitored == CountOf(items, (x: LibraryItem) => x.hasFile && !x.monitored)
    ensures stats.noProfile
         == CountOf(items, (x: LibraryItem) => x.hasFile && x.monitored && x.qualityProfileID !in profiles)
    ensures stats.upgradeBlocked
         == CountOf(items, (x: LibraryItem) => Profiled(x, profiles) && !profiles[x.qualityProfileID].upgradeAllowed)
    ensures stats.unknownQuality
         == CountOf(items, (x: LibraryItem) => Profiled(x, profiles) && profiles[x.qualityProfileID].upgradeAllowed
                                               && Unranked(x, profiles[x.qualityProfileID]))
  {
    hide Tally, CountOf, Unranked;
    ExclusionCounts(items, profiles);
    ProfileCounts(items, profiles);
  }

  ghost predicate DistinctIDs(items: seq<LibraryItem>) {
    forall i, j :: 0 <= i < j < |items| ==> items[i].id != items[j].id
  }

  /** The IDs of the items that have, or have not, a file. */
  ghost function IDsWith(items: seq<LibraryItem>, hasFile: bool): set<int> {
    set x | x in items && x.hasFile == hasFile :: x.id
  }

  lemma {:induction false} UpgradeableIDs(items: seq<LibraryItem>, profiles: map<int, QualityProfile>)
    requires DistinctIDs(items)
    ensures Distinct(IDs(Upgradeable(items, profiles)))
    ensures forall id :: id in IDs(Upgradeable(items, profiles)) ==> id in IDsWith(items, true)
  {
    if items != [] {
      var n := |items| - 1;
      var front, last := items[..n], items[n];
      UpgradeableIDs(front, profiles);
      assert IsUpgradeable(last, profiles) ==> last.hasFile;
      hide IsUpgradeable, Rank;
      AppendID(items, IDs(Upgradeable(front, profiles)), true);
      assert IDs(Upgradeable(items, profiles))
          == IDs(Upgradeable(front, profiles)) + if IsUpgradeable(last, profiles) then [last.id] else [];
    }
  }

  lemma {:induction false} MissingIDs(items: seq<LibraryItem>)
    requires DistinctIDs(items)
    ensures Distinct(IDs(Missing(items)))
    ensures forall id :: id in IDs(Missing(items)) ==> id in IDsWith(items, false)
  {
    if items != [] {
      var n := |items| - 1;
      var front, last := items[..n], items[n];
      MissingIDs(front);
      AppendID(items, IDs(Missing(front)), false);
      assert IDs(Missing(items)) == IDs(Missing(front)) + if IsMissing(last) then [last.id] else [];
    }
  }

  lemma AppendID(items: seq<LibraryItem>, ids: seq<int>, hasFile: bool)
    requires items != [] && DistinctIDs(items) && Distinct(ids)
    requires forall id :: id in ids ==> id in IDsWith(items[..|items| - 1], hasFile)
    ensures forall id :: id in ids ==> id in IDsWith(items, hasFile)
    ensures Distinct(ids + [items[|items| - 1].id])
    ensures items[|items| - 1].hasFile == hasFile ==> items[|items| - 1].id in IDsWith(items, hasFile)
  {
    var front, last := items[..|items| - 1], items[|items| - 1];
    forall id | id in ids
      ensures id in IDsWith(items, hasFile) && id != last.id
    {
      var x :| x in front && x.hasFile == hasFile && x.id == id;
      assert x in items;
    }
    DistinctConcat(ids, [last.id]);
  }

  /** Distinct library IDs give distinct candidates: no item is both upgradeable and missing. */
  lemma CandidatesAreDistinct(profiles: seq<QualityProfile>, library: seq<LibraryItem>, searchMissing: bool)
    requires DistinctIDs(library)
    ensures Distinct(Candidates(profiles, library, searchMissing))
  {
    var up, missing := Upgradeable(library, ProfileMap(profiles)), Missing(library);
    UpgradeableIDs(library, ProfileMap(profiles));
    MissingIDs(library);
    hide Upgradeable, Missing;
    forall id | id in IDs(up)
      ensures id !in IDs(missing)
    {
      FileDecides(library, id);
    }
    DistinctConcat(IDs(up), IDs(missing));
    assert IDs(up + missing) == IDs(up) + IDs(missing);
    assert up + [] == up;
  }

  lemma FileDecides(items: seq<LibraryItem>, id: int)
    requires DistinctIDs(items)
    ensures !(id in IDsWith(items, true) && id in IDsWith(items, false))
  {
    forall x, y | x in items && y in items && x.id == y.id
      ensures x == y
    {
    }
  }
}
