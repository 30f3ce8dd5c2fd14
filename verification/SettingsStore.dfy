/** The settings table as a map, the service that writes it, and what every sequence of writes keeps. */
module SettingsStore {
  import opened Core
  import opened Settings
  import opened Text

  type Slot = (Option<UUID>, Key)
  type Store = map<Slot, string>

  datatype Error = UnknownKey | InvalidValue | StorageFailure
  datatype Outcome = Ok | Err(error: Error)

  datatype SettingEntry = SettingEntry(key: Key, value: string)

  function Slots(inst: Option<UUID>, entries: seq<SettingEntry>): seq<Setting> {
    seq(|entries|, i requires 0 <= i < |entries| => Setting(inst, entries[i].key, entries[i].value))
  }

  function UpsertAll(m: Store, settings: seq<Setting>): Store {
    if settings == [] then m
    else
      var last := settings[|settings| - 1];
      UpsertAll(m, settings[..|settings| - 1])[(last.instanceID, last.key) := last.value]
  }

  function DeleteAll(m: Store, inst: Option<UUID>, keys: seq<Key>): Store {
    m - (set k | k in keys :: (inst, k))
  }

  // ---------- the table ----------

  /** `out` lists exactly the rows of one layer, one row per key, in any order. */
  ghost predicate Lists(out: seq<Setting>, m: Store, inst: Option<UUID>) {
    && (forall i, j :: 0 <= i < j < |out| ==> out[i].key != out[j].key)
    && (forall s :: s in out ==> s.instanceID == inst && (inst, s.key) in m && m[(inst, s.key)] == s.value)
    && (forall k :: (inst, k) in m ==> exists s :: s in out && s.key == k)
  }

  class Repository {
    var rows: Store

    constructor ()
      ensures rows == map[]
    {
      rows := map[];
    }

    /** ListGlobal and ListByInstance; the query itself may fail. */
    method List(inst: Option<UUID>, queryOk: bool) returns (out: Option<seq<Setting>>)
      ensures out.Some? <==> queryOk
      ensures out.Some? ==> Lists(out.value, rows, inst)
    {
      if !queryOk {
        return None;
      }
      var todo := set slot | slot in rows && slot.0 == inst;
      var found: seq<Setting> := [];
      while todo != {}
        invariant forall slot :: slot in todo ==> slot in rows && slot.0 == inst
        invariant forall i, j :: 0 <= i < j < |found| ==> found[i].key != found[j].key
        invariant forall s :: s in found ==>
          s.instanceID == inst && (inst, s.key) in rows && rows[(inst, s.key)] == s.value && (inst, s.key) !in todo
        invariant forall k :: (inst, k) in rows ==> (inst, k) in todo || exists s :: s in found && s.key == k
        decreases |todo|
      {
        var slot := AnyOf(todo);
        var row := Setting(inst, slot.1, rows[slot]);
        forall k | (inst, k) in rows
          ensures (inst, k) in todo - {slot} || exists s :: s in found + [row] && s.key == k
        {
          if (inst, k) == slot {
            assert row in found + [row];
          } else if (inst, k) !in todo {
            var s :| s in found && s.key == k;
            assert s in found + [row];
          }
        }
        found := found + [row];
        todo := todo - {slot};
      }
      out := Some(found);
    }

    method Upsert(s: Setting, execOk: bool) returns (ok: bool)
      modifies this
      ensures ok == execOk
      ensures rows == if ok then UpsertAll(old(rows), [s]) else old(rows)
    {
      ok := execOk;
      assert [s][..0] == [];
      if ok {
        rows := rows[(s.instanceID, s.key) := s.value];
      }
    }

    /** One transaction: the statement at index failAt fails (the commit, when it is the length). */
    method UpsertBatch(settings: seq<Setting>, failAt: Option<nat>) returns (ok: bool)
      modifies this
      ensures ok <==> !(failAt.Some? && failAt.value <= |settings|)
      ensures rows == if ok then UpsertAll(old(rows), settings) else old(rows)
    {
      var tx := rows;
      for i := 0 to |settings|
        invariant failAt.Some? ==> i <= failAt.value
        invariant tx == UpsertAll(rows, settings[..i])
      {
        if failAt == Some(i) {
          return false;
        }
        var s := settings[i];
        assert settings[..i + 1][..i] == settings[..i];
        tx := tx[(s.instanceID, s.key) := s.value];
      }
      assert settings[..|settings|] == settings;
      if failAt == Some(|settings|) {
        return false;
      }
      rows := tx;
      ok := true;
    }

    method Delete(inst: Option<UUID>, key: Key, execOk: bool) returns (ok: bool)
      modifies this
      ensures ok == execOk
      ensures rows == if ok then DeleteAll(old(rows), inst, [key]) else old(rows)
    {
      ok := execOk;
      assert key in [key];
      if ok {
        rows := rows - {(inst, key)};
      }
    }

    method DeleteBatch(inst: Option<UUID>, keys: seq<Key>, failAt: Option<nat>) returns (ok: bool)
      modifies this
      ensures ok <==> !(failAt.Some? && failAt.value <= |keys|)
      ensures rows == if ok then DeleteAll(old(rows), inst, keys) else old(rows)
    {
      var tx := rows;
      for i := 0 to |keys|
        invariant failAt.Some? ==> i <= failAt.value
        invariant tx == DeleteAll(rows, inst, keys[..i])
      {
        if failAt == Some(i) {
          return false;
        }
        tx := tx - {(inst, keys[i])};
      }
      assert keys[..|keys|] == keys;
      if failAt == Some(|keys|) {
        return false;
      }
      rows := tx;
      ok := true;
    }
  }

  // ---------- the service ----------

  /** The first entry that is refused decides the error. */
  function BatchError(entries: seq<SettingEntry>): Option<Error> {
    if entries == [] then None
    else if !ValidKey(entries[0].key) then Some(UnknownKey)
    else if !ValidateValue(entries[0].key, entries[0].value) then Some(InvalidValue)
    else BatchError(entries[1..])
  }

  lemma OneEntry(e: SettingEntry)
    ensures BatchError([e]) == if !ValidKey(e.key) then Some(UnknownKey)
                               else if !ValidateValue(e.key, e.value) then Some(InvalidValue) else None
  {
    assert [e][1..] == [];
    assert BatchError([]) == None;
    hide ValidateValue;
  }

  datatype Op =
    | SetBatchOp(inst: Option<UUID>, entries: seq<SettingEntry>, failAt: Option<nat>)
    | RemoveBatchOp(inst: Option<UUID>, keys: seq<Key>, failAt: Option<nat>)

  function Result(op: Op): Outcome {
    match op
    case SetBatchOp(_, entries, failAt) =>
      if BatchError(entries).Some? then Err(BatchError(entries).value)
      else if failAt.Some? && failAt.value <= |entries| then Err(StorageFailure)
      else Ok
    case RemoveBatchOp(_, keys, failAt) =>
      if exists k :: k in keys && !ValidKey(k) then Err(UnknownKey)
      else if failAt.Some? && failAt.value <= |keys| then Err(StorageFailure)
      else Ok
  }

  /** All or nothing: an operation that fails leaves the store as it was. */
  function Perform(m: Store, op: Op): Store {
    if Result(op).Err? then m
    else match op
      case SetBatchOp(inst, entries, _) => UpsertAll(m, Slots(inst, entries))
      case RemoveBatchOp(inst, keys, _) => DeleteAll(m, inst, keys)
  }

  class Service {
    const repo: Repository

    constructor (repo: Repository)
      ensures this.repo == repo
    {
      this.repo := repo;
    }

    method ResolveGlobal(queryOk: bool) returns (r: Option<Resolved>)
      ensures r.Some? <==> queryOk
      ensures r.Some? ==> r.value == Effective(repo.rows, None)
    {
      var global := repo.List(None, queryOk);
      if global.None? {
        return None;
      }
      var resolved := ApplyOverrides(DEFAULTS, global.value);
      ListedGlobal(global.value, repo.rows);
      r := Some(resolved);
    }

    method Resolve(id: UUID, globalOk: bool, ownOk: bool) returns (r: Option<Resolved>)
      ensures r.Some? <==> globalOk && ownOk
      ensures r.Some? ==> r.value == Effective(repo.rows, Some(id))
    {
      var global := repo.List(None, globalOk);
      if global.None? {
        return None;
      }
      var resolved := ApplyOverrides(DEFAULTS, global.value);
      var own := repo.List(Some(id), ownOk);
      if own.None? {
        return None;
      }
      ListedResolve(global.value, own.value, repo.rows, id);
      hide Effective, Overlay;
      resolved := ApplyOverrides(resolved, own.value);
      r := Some(resolved);
    }

    method Set(inst: Option<UUID>, key: Key, value: string, execOk: bool) returns (res: Outcome)
      modifies repo
      ensures var op := SetBatchOp(inst, [SettingEntry(key, value)], if execOk then None else Some(0));
              repo.rows == Perform(old(repo.rows), op) && res == Result(op)
    {
      ghost var entry := SettingEntry(key, value);
      OneEntry(entry);
      if !ValidKey(key) {
        return Err(UnknownKey);
      }
      if !ValidateValue(key, value) {
        return Err(InvalidValue);
      }
      assert Slots(inst, [entry]) == [Setting(inst, key, value)];
      var ok := repo.Upsert(Setting(inst, key, value), execOk);
      res := if ok then Ok else Err(StorageFailure);
    }

    method SetBatch(inst: Option<UUID>, entries: seq<SettingEntry>, failAt: Option<nat>) returns (res: Outcome)
      modifies repo
      ensures repo.rows == Perform(old(repo.rows), SetBatchOp(inst, entries, failAt))
      ensures res == Result(SetBatchOp(inst, entries, failAt))
    {
      hide ValidateValue, UpsertAll;
      for i := 0 to |entries|
        invariant BatchError(entries) == BatchError(entries[i..])
      {
        var e := entries[i];
        assert entries[i..][1..] == entries[i + 1..];
        if !ValidKey(e.key) {
          return Err(UnknownKey);
        }
        if !ValidateValue(e.key, e.value) {
          return Err(InvalidValue);
        }
      }
      var settings: seq<Setting> := [];
      for i := 0 to |entries|
        invariant settings == Slots(inst, entries)[..i]
      {
        settings := settings + [Setting(inst, entries[i].key, entries[i].value)];
      }
      assert settings == Slots(inst, entries);
      var ok := repo.UpsertBatch(settings, failAt);
      res := if ok then Ok else Err(StorageFailure);
    }

    method Remove(inst: Option<UUID>, key: Key, execOk: bool) returns (res: Outcome)
      modifies repo
      ensures var op := RemoveBatchOp(inst, [key], if execOk then None else Some(0));
              repo.rows == Perform(old(repo.rows), op) && res == Result(op)
    {
      assert key in [key];
      if !ValidKey(key) {
        return Err(UnknownKey);
      }
      var ok := repo.Delete(inst, key, execOk);
      res := if ok then Ok else Err(StorageFailure);
    }

    method RemoveBatch(inst: Option<UUID>, keys: seq<Key>, failAt: Option<nat>) returns (res: Outcome)
      modifies repo
      ensures repo.rows == Perform(old(repo.rows), RemoveBatchOp(inst, keys, failAt))
      ensures res == Result(RemoveBatchOp(inst, keys, failAt))
    {
      for i := 0 to |keys|
        invariant forall k :: k in keys[..i] ==> ValidKey(k)
      {
        if !ValidKey(keys[i]) {
          return Err(UnknownKey);
        }
      }
      assert keys[..|keys|] == keys;
      var ok := repo.DeleteBatch(inst, keys, failAt);
      res := if ok then Ok else Err(StorageFailure);
    }
  }

  // ---------- what a store resolves to ----------

  /** The value one stored slot contributes, if it is there and not skipped. */
  function Lookup(m: Store, inst: Option<UUID>, key: Key): (f: Option<Field>)
    ensures f.Some? ==> Fits(key, f.value)
  {
    if (inst, key) in m then Meaning(key, m[(inst, key)]) else None
  }

  /** The instance's own value, else the global one, else the default. */
  function EffectiveField(m: Store, inst: Option<UUID>, key: Key): (f: Field)
    requires ValidKey(key)
    ensures Fits(key, f)
  {
    if inst.Some? && Lookup(m, inst, key).Some? then Lookup(m, inst, key).value
    else Lookup(m, None, key).GetOr(FieldOf(DEFAULTS, key))
  }

  function Effective(m: Store, inst: Option<UUID>): Resolved {
    Resolved(
      EffectiveField(m, inst, BatchSize).n, EffectiveField(m, inst, CooldownPeriod).d,
      EffectiveField(m, inst, SearchWindowStart).t, EffectiveField(m, inst, SearchWindowEnd).t,
      EffectiveField(m, inst, SearchInterval).d, EffectiveField(m, inst, SearchLimit).n,
      EffectiveField(m, inst, Enabled).b, EffectiveField(m, inst, SearchMissing).b)
  }

  /** Row order cannot matter: any listing of a layer gives each key the value of its one row. */
  lemma {:induction false} ListedLookup(out: seq<Setting>, m: Store, inst: Option<UUID>, key: Key)
    requires forall i, j :: 0 <= i < j < |out| ==> out[i].key != out[j].key
    requires forall s :: s in out ==> (inst, s.key) in m && m[(inst, s.key)] == s.value
    ensures LastValid(out, key) == if exists s :: s in out && s.key == key then Lookup(m, inst, key) else None
  {
    if out != [] {
      var front, last := out[..|out| - 1], out[|out| - 1];
      ListedLookup(front, m, inst, key);
      hide Meaning;
      assert forall s :: s in out ==> s in front || s == last;
      assert forall i :: 0 <= i < |front| ==> front[i] == out[i];
    }
  }

  lemma ListedLayer(r: Resolved, out: seq<Setting>, m: Store, inst: Option<UUID>)
    requires Lists(out, m, inst)
    ensures forall key | ValidKey(key) :: Overlaid(r, out, key) == Lookup(m, inst, key).GetOr(FieldOf(r, key))
  {
    forall key | ValidKey(key)
      ensures Overlaid(r, out, key) == Lookup(m, inst, key).GetOr(FieldOf(r, key))
    {
      ListedLookup(out, m, inst, key);
    }
  }

  lemma EffectiveIs(m: Store, inst: Option<UUID>, key: Key)
    requires ValidKey(key)
    ensures FieldOf(Effective(m, inst), key) == EffectiveField(m, inst, key)
  {
    hide EffectiveField;
  }

  lemma ListedGlobal(global: seq<Setting>, m: Store)
    requires Lists(global, m, None)
    ensures Settings.ResolveGlobal(global) == Effective(m, None)
  {
    ListedLayer(DEFAULTS, global, m, None);
    hide Overlaid, Lookup, Lists, Overlay, Effective, FieldOf;
    forall key | ValidKey(key)
      ensures FieldOf(Overlay(DEFAULTS, global), key) == FieldOf(Effective(m, None), key)
    {
      OverlayField(DEFAULTS, global, key);
      EffectiveIs(m, None, key);
    }
    SameFields(Overlay(DEFAULTS, global), Effective(m, None));
  }

  /** Resolving the listed rows of the two layers gives the store's effective settings. */
  lemma ListedResolve(global: seq<Setting>, own: seq<Setting>, m: Store, id: UUID)
    requires Lists(global, m, None) && Lists(own, m, Some(id))
    ensures Settings.Resolve(global, own) == Effective(m, Some(id))
  {
    var r := Settings.ResolveGlobal(global);
    ListedGlobal(global, m);
    ListedLayer(r, own, m, Some(id));
    hide Overlaid, Lookup, Lists, Overlay, Effective, FieldOf;
    forall key | ValidKey(key)
      ensures FieldOf(Overlay(r, own), key) == FieldOf(Effective(m, Some(id)), key)
    {
      OverlayField(r, own, key);
      EffectiveIs(m, None, key);
      EffectiveIs(m, Some(id), key);
    }
    SameFields(Overlay(r, own), Effective(m, Some(id)));
  }

  // ---------- read off the stored texts ----------

  function TextAt(m: Store, inst: Option<UUID>, key: Key): Option<string> {
    if (inst, key) in m then Some(m[(inst, key)]) else None
  }

  function CountIn(text: Option<string>, default: int): int {
    if text.Some? then Atoi(text.value).GetOr(default) else default
  }

  function SpanIn(text: Option<string>, max: int, default: int): int {
    if text.None? || ParseDuration(text.value).None? || ParseDuration(text.value).value <= 0 then default
    else if ParseDuration(text.value).value > max then max
    else ParseDuration(text.value).value
  }

  function FlagIn(text: Option<string>, default: bool): bool {
    if text.Some? then ParseBool(text.value).GetOr(default) else default
  }

  function FieldIn(key: Key, text: Option<string>, default: Field): (f: Field)
    requires Fits(key, default)
    ensures Fits(key, f)
  {
    match key
    case BatchSize | SearchLimit => Count(CountIn(text, default.n))
    case CooldownPeriod => Span(SpanIn(text, 90 * DAY, default.d))
    case SearchInterval => Span(SpanIn(text, 7 * DAY, default.d))
    case SearchWindowStart | SearchWindowEnd => Words(text.GetOr(default.t))
    case Enabled | SearchMissing => Flag(FlagIn(text, default.b))
  }

  lemma LookupIsIn(m: Store, layer: Option<UUID>, key: Key, default: Field)
    requires Fits(key, default)
    ensures Lookup(m, layer, key).GetOr(default) == FieldIn(key, TextAt(m, layer, key), default)
  {
    hide Atoi, ParseDuration, ParseBool;
  }

  lemma GlobalField(m: Store, key: Key)
    requires ValidKey(key)
    ensures EffectiveField(m, None, key) == FieldIn(key, TextAt(m, None, key), FieldOf(DEFAULTS, key))
  {
    LookupIsIn(m, None, key, FieldOf(DEFAULTS, key));
    hide Lookup, FieldIn, TextAt, FieldOf;
  }

  lemma InstanceField(m: Store, id: UUID, key: Key)
    requires ValidKey(key)
    ensures EffectiveField(m, Some(id), key) == FieldIn(key, TextAt(m, Some(id), key), EffectiveField(m, None, key))
  {
    LookupIsIn(m, Some(id), key, EffectiveField(m, None, key));
    hide Lookup, FieldIn, TextAt, FieldOf;
  }

  /** What the global texts resolve to: each field is what its own key's text says; a text that says nothing leaves the
      default, and a duration beyond its maximum is cut to it. */
  lemma GlobalFields(m: Store)
    ensures var r := Effective(m, None);
            && r.batchSize == CountIn(TextAt(m, None, BatchSize), 4)
            && r.cooldownPeriod == SpanIn(TextAt(m, None, CooldownPeriod), 90 * DAY, 24 * HOUR)
            && r.searchWindowStart == TextAt(m, None, SearchWindowStart).GetOr("")
            && r.searchWindowEnd == TextAt(m, None, SearchWindowEnd).GetOr("")
            && r.searchInterval == SpanIn(TextAt(m, None, SearchInterval), 7 * DAY, 30 * MINUTE)
            && r.searchLimit == CountIn(TextAt(m, None, SearchLimit), 100)
            && r.enabled == FlagIn(TextAt(m, None, Enabled), true)
            && r.searchMissing == FlagIn(TextAt(m, None, SearchMissing), true)
  {
    GlobalField(m, BatchSize);
    GlobalField(m, CooldownPeriod);
    GlobalField(m, SearchWindowStart);
    GlobalField(m, SearchWindowEnd);
    GlobalField(m, SearchInterval);
    GlobalField(m, SearchLimit);
    GlobalField(m, Enabled);
    GlobalField(m, SearchMissing);
    hide EffectiveField, TextAt, CountIn, SpanIn, FlagIn;
  }

  /** What an instance's own texts make of the global settings, in the same way. */
  lemma InstanceFields(m: Store, id: UUID)
    ensures var g, r, own := Effective(m, None), Effective(m, Some(id)), Some(id);
            && r.batchSize == CountIn(TextAt(m, own, BatchSize), g.batchSize)
            && r.cooldownPeriod == SpanIn(TextAt(m, own, CooldownPeriod), 90 * DAY, g.cooldownPeriod)
            && r.searchWindowStart == TextAt(m, own, SearchWindowStart).GetOr(g.searchWindowStart)
            && r.searchWindowEnd == TextAt(m, own, SearchWindowEnd).GetOr(g.searchWindowEnd)
            && r.searchInterval == SpanIn(TextAt(m, own, SearchInterval), 7 * DAY, g.searchInterval)
            && r.searchLimit == CountIn(TextAt(m, own, SearchLimit), g.searchLimit)
            && r.enabled == FlagIn(TextAt(m, own, Enabled), g.enabled)
            && r.searchMissing == FlagIn(TextAt(m, own, SearchMissing), g.searchMissing)
  {
    InstanceField(m, id, BatchSize);
    InstanceField(m, id, CooldownPeriod);
    InstanceField(m, id, SearchWindowStart);
    InstanceField(m, id, SearchWindowEnd);
    InstanceField(m, id, SearchInterval);
    InstanceField(m, id, SearchLimit);
    InstanceField(m, id, Enabled);
    InstanceField(m, id, SearchMissing);
    hide EffectiveField, TextAt, CountIn, SpanIn, FlagIn;
  }

  // ---------- what a write leaves ----------

  /** Row i is the last of the batch for the slot. */
  ghost predicate LastFor(settings: seq<Setting>, i: int, slot: Slot) {
    && 0 <= i < |settings| && (settings[i].instanceID, settings[i].key) == slot
    && forall j :: i < j < |settings| ==> (settings[j].instanceID, settings[j].key) != slot
  }

  /** A slot holds the value of the last row written to it, or what it held. */
  lemma {:induction false} UpsertMeaning(m: Store, settings: seq<Setting>, slot: Slot)
    ensures (exists i :: LastFor(settings, i, slot)) ==> slot in UpsertAll(m, settings)
    ensures forall i :: LastFor(settings, i, slot) ==> UpsertAll(m, settings)[slot] == settings[i].value
    ensures !(exists i :: LastFor(settings, i, slot)) ==>
              (slot in UpsertAll(m, settings) <==> slot in m) && (slot in m ==> UpsertAll(m, settings)[slot] == m[slot])
  {
    if settings != [] {
      var n := |settings| - 1;
      UpsertMeaning(m, settings[..n], slot);
      assert forall j :: 0 <= j < n ==> settings[j] == settings[..n][j];
      if (settings[n].instanceID, settings[n].key) == slot {
        assert LastFor(settings, n, slot);
      } else {
        assert forall i :: LastFor(settings, i, slot) <==> LastFor(settings[..n], i, slot);
      }
    }
  }

  /** Deleting empties the listed slots of the layer and no other. */
  lemma DeleteMeaning(m: Store, inst: Option<UUID>, keys: seq<Key>, slot: Slot)
    ensures slot in DeleteAll(m, inst, keys) <==> slot in m && !(slot.0 == inst && slot.1 in keys)
    ensures slot in DeleteAll(m, inst, keys) ==> DeleteAll(m, inst, keys)[slot] == m[slot]
  {
  }

  /** Entry i is the first one refused, for an unknown key before its value is looked at. */
  ghost predicate FirstRefused(entries: seq<SettingEntry>, i: int, error: Error) {
    && 0 <= i < |entries| && !ValidateEntry(entries[i].key, entries[i].value)
    && (forall j :: 0 <= j < i ==> ValidateEntry(entries[j].key, entries[j].value))
    && error == if entries[i].key.Unknown? then UnknownKey else InvalidValue
  }

  /** The first entry that is refused decides the error. */
  lemma {:induction false} BatchErrorMeaning(entries: seq<SettingEntry>, error: Error)
    ensures BatchError(entries) == Some(error) <==> exists i :: FirstRefused(entries, i, error)
  {
    hide ValidateValue;
    if entries != [] {
      var rest := entries[1..];
      BatchErrorMeaning(rest, error);
      assert forall k :: 0 <= k < |rest| ==> rest[k] == entries[k + 1];
      if !ValidateEntry(entries[0].key, entries[0].value) {
        assert BatchError(entries) == Some(error) ==> FirstRefused(entries, 0, error);
      } else {
        RefusedShifts(entries, error);
      }
    }
  }

  lemma RefusedShifts(entries: seq<SettingEntry>, error: Error)
    requires entries != [] && ValidateEntry(entries[0].key, entries[0].value)
    ensures (exists i :: FirstRefused(entries, i, error)) <==> exists i :: FirstRefused(entries[1..], i, error)
  {
    hide ValidateEntry;
    var rest := entries[1..];
    if exists i :: FirstRefused(entries, i, error) {
      var i :| FirstRefused(entries, i, error);
      assert forall j :: 0 <= j < i - 1 ==> rest[j] == entries[j + 1];
      assert FirstRefused(rest, i - 1, error);
    }
    if exists i :: FirstRefused(rest, i, error) {
      var i :| FirstRefused(rest, i, error);
      assert forall j :: 0 < j <= i ==> entries[j] == rest[j - 1];
      assert FirstRefused(entries, i + 1, error);
    }
  }

  /** An operation that fails changes nothing. */
  lemma FailedKeeps(m: Store, op: Op)
    requires Result(op).Err?
    ensures Perform(m, op) == m
  {
  }

  // ---------- every sequence of writes ----------

  function Performed(m: Store, ops: seq<Op>): Store {
    if ops == [] then m else Perform(Performed(m, ops[..|ops| - 1]), ops[|ops| - 1])
  }

  ghost predicate Sound(m: Store) {
    forall slot :: slot in m ==> ValidateEntry(slot.1, m[slot])
  }

  lemma {:induction false} UpsertKeepsSound(m: Store, inst: Option<UUID>, entries: seq<SettingEntry>)
    requires Sound(m) && forall e :: e in entries ==> ValidateEntry(e.key, e.value)
    ensures Sound(UpsertAll(m, Slots(inst, entries)))
  {
    hide ValidateEntry;
    if entries != [] {
      var front := entries[..|entries| - 1];
      UpsertKeepsSound(m, inst, front);
      assert Slots(inst, entries)[..|entries| - 1] == Slots(inst, front);
      assert entries[|entries| - 1] in entries;
    }
  }

  lemma {:induction false} BatchErrorFindsRefused(entries: seq<SettingEntry>)
    ensures BatchError(entries).None? <==> forall e :: e in entries ==> ValidateEntry(e.key, e.value)
  {
    if entries != [] {
      BatchErrorFindsRefused(entries[1..]);
      assert forall e :: e in entries <==> e == entries[0] || e in entries[1..];
    }
  }

  /** A store written only through the service holds validated rows alone. */
  lemma {:induction false} WritesKeepSound(ops: seq<Op>)
    ensures Sound(Performed(map[], ops))
  {
    if ops != [] {
      WritesKeepSound(ops[..|ops| - 1]);
      var m, op := Performed(map[], ops[..|ops| - 1]), ops[|ops| - 1];
      if Result(op).Ok? && op.SetBatchOp? {
        BatchErrorFindsRefused(op.entries);
        UpsertKeepsSound(m, op.inst, op.entries);
      }
    }
  }

  /** So after any writes every instance resolves to positive counts, and every stored row is read verbatim. */
  lemma WrittenSettingsAreVerbatim(ops: seq<Op>, inst: Option<UUID>)
    ensures var m := Performed(map[], ops);
            && Effective(m, inst).batchSize >= 1 && Effective(m, inst).searchLimit >= 1
            && (forall slot :: slot in m ==>
                  Meaning(slot.1, m[slot]).Some? && Meaning(slot.1, m[slot]) == Spelled(slot.1, m[slot]))
  {
    WritesKeepSound(ops);
    var m := Performed(map[], ops);
    hide Meaning, Spelled, ValidateEntry, Performed;
    forall slot | slot in m
      ensures Meaning(slot.1, m[slot]).Some? && Meaning(slot.1, m[slot]) == Spelled(slot.1, m[slot])
      ensures slot.1.BatchSize? || slot.1.SearchLimit? ==> Meaning(slot.1, m[slot]).value.n >= 1
    {
      ValidatedIsVerbatim(slot.1, m[slot]);
    }
  }

  lemma {:induction false} UpsertTouches(m: Store, settings: seq<Setting>, slot: Slot)
    requires forall s :: s in settings ==> (s.instanceID, s.key) != slot
    ensures (slot in UpsertAll(m, settings) <==> slot in m)
         && (slot in m ==> UpsertAll(m, settings)[slot] == m[slot])
  {
    if settings != [] {
      assert settings[|settings| - 1] in settings;
      UpsertTouches(m, settings[..|settings| - 1], slot);
    }
  }

  /** Writing one instance's settings changes no other instance's resolved settings, nor the global ones. */
  lemma WritesAreIsolated(m: Store, op: Op, other: Option<UUID>)
    requires op.inst.Some? && op.inst != other
    ensures Effective(Perform(m, op), other) == Effective(m, other)
  {
    forall layer, key | layer in {None, other}
      ensures Lookup(Perform(m, op), layer, key) == Lookup(m, layer, key)
    {
      if op.SetBatchOp? {
        UpsertTouches(m, Slots(op.inst, op.entries), (layer, key));
      }
    }
    hide Meaning, Lookup, Perform;
  }
}
