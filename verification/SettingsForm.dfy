/** The settings page: the API's response record and the form that saves only what differs from the global values. */
module SettingsForm {
  import opened Core
  import opened Text
  import opened Durations
  import opened CanonicalDurations
  import opened Settings
  import opened SettingsStore

  /** The JSON record of resolved settings, and equally the form's fields. */
  datatype Form = Form(
    batchSize: int, cooldownPeriod: string, searchWindowStart: string, searchWindowEnd: string,
    searchInterval: string, searchLimit: int, enabled: bool, searchMissing: bool)

  function ToSettingsResponse(r: Resolved): Form {
    Form(r.batchSize, DurationText(r.cooldownPeriod), r.searchWindowStart, r.searchWindowEnd,
         DurationText(r.searchInterval), r.searchLimit, r.enabled, r.searchMissing)
  }

  /** The keys an instance may override on the page, in the order the form lists them. */
  const FORM_KEYS: seq<Key> :=
    [BatchSize, CooldownPeriod, SearchWindowStart, SearchWindowEnd, SearchInterval, Enabled, SearchMissing]

  predicate FormKey(key: Key) { ValidKey(key) && !key.SearchLimit? }

  lemma FormKeys()
    ensures forall k :: k in FORM_KEYS <==> FormKey(k)
    ensures forall i, j :: 0 <= i < j < |FORM_KEYS| ==> FORM_KEYS[i] != FORM_KEYS[j]
  {
    forall k | FormKey(k)
      ensures k in FORM_KEYS
    {
      assert FORM_KEYS[0] == BatchSize && FORM_KEYS[1] == CooldownPeriod && FORM_KEYS[2] == SearchWindowStart;
      assert FORM_KEYS[3] == SearchWindowEnd && FORM_KEYS[4] == SearchInterval;
      assert FORM_KEYS[5] == Enabled && FORM_KEYS[6] == SearchMissing;
    }
  }

  function FormText(form: Form, key: Key): string {
    match key
    case BatchSize => PrintInt(form.batchSize)
    case CooldownPeriod => form.cooldownPeriod
    case SearchWindowStart => form.searchWindowStart
    case SearchWindowEnd => form.searchWindowEnd
    case SearchInterval => form.searchInterval
    case SearchLimit => PrintInt(form.searchLimit)
    case Enabled => PrintBool(form.enabled)
    case SearchMissing => PrintBool(form.searchMissing)
    case Unknown(_) => ""
  }

  /** The text an entry is compared with; without loaded global values a missing property reads as undefined. */
  function GlobalText(gs: Option<Form>, key: Key): string {
    match gs
    case Some(g) => FormText(g, key)
    case None => if key.BatchSize? || key.Enabled? || key.SearchMissing? then "undefined" else ""
  }

  predicate Differs(form: Form, gs: Option<Form>, key: Key) { FormText(form, key) != GlobalText(gs, key) }

  function Overrides(keys: seq<Key>, form: Form, gs: Option<Form>): seq<SettingEntry> {
    if keys == [] then []
    else
      var k := keys[|keys| - 1];
      Overrides(keys[..|keys| - 1], form, gs)
        + if Differs(form, gs, k) then [SettingEntry(k, FormText(form, k))] else []
  }

  function Removals(keys: seq<Key>, form: Form, gs: Option<Form>): seq<Key> {
    if keys == [] then []
    else
      var k := keys[|keys| - 1];
      Removals(keys[..|keys| - 1], form, gs) + if Differs(form, gs, k) then [] else [k]
  }

  lemma {:induction false} SplitMembers(keys: seq<Key>, form: Form, gs: Option<Form>)
    ensures forall e :: e in Overrides(keys, form, gs) <==>
              e.key in keys && Differs(form, gs, e.key) && e.value == FormText(form, e.key)
    ensures forall k :: k in Removals(keys, form, gs) <==> k in keys && !Differs(form, gs, k)
  {
    hide Differs, FormText;
    if keys != [] {
      var front, last := keys[..|keys| - 1], keys[|keys| - 1];
      SplitMembers(front, form, gs);
      assert forall k :: k in keys <==> k in front || k == last;
    }
  }

  /** The PUT and DELETE requests of one save. */
  function Put(inst: UUID, form: Form, gs: Option<Form>, failAt: Option<nat>): Op {
    SetBatchOp(Some(inst), Overrides(FORM_KEYS, form, gs), failAt)
  }

  function Delete(inst: UUID, form: Form, gs: Option<Form>, failAt: Option<nat>): Op {
    RemoveBatchOp(Some(inst), Removals(FORM_KEYS, form, gs), failAt)
  }

  /** What the two requests leave in the store, and whether the page reports success: an empty request is not
      sent, and the DELETE is sent only after the PUT succeeded. */
  function Saved(m: Store, put: Op, delete: Op): (Store, bool)
    requires put.SetBatchOp? && delete.RemoveBatchOp?
  {
    if put.entries != [] && Result(put).Err? then (m, false)
    else
      var m1 := if put.entries != [] then Perform(m, put) else m;
      if delete.keys == [] then (m1, true) else (Perform(m1, delete), Result(delete).Ok?)
  }

  method SaveInstanceSettings(svc: Service, inst: UUID, form: Form, gs: Option<Form>,
                              putFailAt: Option<nat>, deleteFailAt: Option<nat>)
    returns (ok: bool)
    modifies svc.repo
    ensures (svc.repo.rows, ok)
         == Saved(old(svc.repo.rows), Put(inst, form, gs, putFailAt), Delete(inst, form, gs, deleteFailAt))
  {
    hide FormText, GlobalText, Perform, Result;
    var overrides: seq<SettingEntry> := [];
    var removals: seq<Key> := [];
    for i := 0 to |FORM_KEYS|
      invariant overrides == Overrides(FORM_KEYS[..i], form, gs)
      invariant removals == Removals(FORM_KEYS[..i], form, gs)
    {
      var key := FORM_KEYS[i];
      assert FORM_KEYS[..i + 1][..i] == FORM_KEYS[..i];
      if FormText(form, key) != GlobalText(gs, key) {
        overrides := overrides + [SettingEntry(key, FormText(form, key))];
      } else {
        removals := removals + [key];
      }
    }
    assert FORM_KEYS[..|FORM_KEYS|] == FORM_KEYS;
    if |overrides| > 0 {
      var res := svc.SetBatch(Some(inst), overrides, putFailAt);
      if res.Err? {
        assert svc.repo.rows == old(svc.repo.rows) by {
          FailedKeeps(old(svc.repo.rows), Put(inst, form, gs, putFailAt));
        }
        return false;
      }
    }
    if |removals| > 0 {
      var res := svc.RemoveBatch(Some(inst), removals, deleteFailAt);
      if res.Err? {
        return false;
      }
    }
    ok := true;
  }

  // ---------- a save and the reload after it ----------

  lemma {:induction false} UpsertSets(m: Store, settings: seq<Setting>, slot: Slot, value: string)
    requires exists s :: s in settings && (s.instanceID, s.key) == slot
    requires forall s :: s in settings && (s.instanceID, s.key) == slot ==> s.value == value
    ensures slot in UpsertAll(m, settings) && UpsertAll(m, settings)[slot] == value
  {
    var front, last := settings[..|settings| - 1], settings[|settings| - 1];
    assert forall s :: s in settings <==> s in front || s == last;
    if (last.instanceID, last.key) != slot {
      UpsertSets(m, front, slot, value);
    }
  }

  lemma OverrideRows(inst: UUID, form: Form, gs: Option<Form>)
    ensures var entries := Overrides(FORM_KEYS, form, gs);
            forall s :: s in Slots(Some(inst), entries) <==>
              s.instanceID == Some(inst) && FormKey(s.key) && Differs(form, gs, s.key)
              && s.value == FormText(form, s.key)
  {
    hide FormText, GlobalText, Differs;
    FormKeys();
    SplitMembers(FORM_KEYS, form, gs);
    var entries := Overrides(FORM_KEYS, form, gs);
    forall s
      ensures s in Slots(Some(inst), entries)
              <==> s.instanceID == Some(inst) && SettingEntry(s.key, s.value) in entries
    {
      if s.instanceID == Some(inst) && SettingEntry(s.key, s.value) in entries {
        var i :| 0 <= i < |entries| && entries[i] == SettingEntry(s.key, s.value);
        assert Slots(Some(inst), entries)[i] == s;
      }
    }
  }

  lemma PutSlot(m: Store, inst: UUID, form: Form, gs: Option<Form>, slot: Slot)
    ensures var m1 := UpsertAll(m, Slots(Some(inst), Overrides(FORM_KEYS, form, gs)));
            if slot.0 == Some(inst) && FormKey(slot.1) && Differs(form, gs, slot.1)
            then slot in m1 && m1[slot] == FormText(form, slot.1)
            else (slot in m1 <==> slot in m) && (slot in m ==> m1[slot] == m[slot])
  {
    OverrideRows(inst, form, gs);
    hide Overrides, FormText, GlobalText, Differs;
    var rows := Slots(Some(inst), Overrides(FORM_KEYS, form, gs));
    if slot.0 == Some(inst) && FormKey(slot.1) && Differs(form, gs, slot.1) {
      assert Setting(slot.0, slot.1, FormText(form, slot.1)) in rows;
      UpsertSets(m, rows, slot, FormText(form, slot.1));
    } else {
      UpsertTouches(m, rows, slot);
    }
  }

  lemma SavedStore(m: Store, inst: UUID, form: Form, gs: Option<Form>, f: Option<nat>, g: Option<nat>)
    requires Saved(m, Put(inst, form, gs, f), Delete(inst, form, gs, g)).1
    ensures Saved(m, Put(inst, form, gs, f), Delete(inst, form, gs, g)).0
         == DeleteAll(UpsertAll(m, Slots(Some(inst), Overrides(FORM_KEYS, form, gs))),
                      Some(inst), Removals(FORM_KEYS, form, gs))
    ensures forall e :: e in Overrides(FORM_KEYS, form, gs) ==> ValidateEntry(e.key, e.value)
  {
    var entries := Overrides(FORM_KEYS, form, gs);
    BatchErrorFindsRefused(entries);
    hide Overrides, Removals, ValidateEntry;
    assert entries == [] ==> Slots(Some(inst), entries) == [];
  }

  /** After a save that succeeded the instance overrides exactly the keys whose form text differs from the global
      text, with the form's text; every other slot is as before. */
  lemma SavedSlot(m: Store, inst: UUID, form: Form, gs: Option<Form>, f: Option<nat>, g: Option<nat>, slot: Slot)
    requires Saved(m, Put(inst, form, gs, f), Delete(inst, form, gs, g)).1
    ensures var m' := Saved(m, Put(inst, form, gs, f), Delete(inst, form, gs, g)).0;
            var key := slot.1;
            if slot.0 == Some(inst) && FormKey(key) then
              (slot in m' <==> Differs(form, gs, key))
              && (slot in m' ==> m'[slot] == FormText(form, key) && ValidateEntry(key, FormText(form, key)))
            else
              (slot in m' <==> slot in m) && (slot in m ==> m'[slot] == m[slot])
  {
    SavedStore(m, inst, form, gs, f, g);
    PutSlot(m, inst, form, gs, slot);
    FormKeys();
    SplitMembers(FORM_KEYS, form, gs);
    hide Saved, Overrides, Removals, UpsertAll, FormText, GlobalText, Differs, ValidateEntry;
    if slot.0 == Some(inst) && FormKey(slot.1) && Differs(form, gs, slot.1) {
      assert SettingEntry(slot.1, FormText(form, slot.1)) in Overrides(FORM_KEYS, form, gs);
    }
  }

  /** A validated override shows its own text after a reload, a duration exactly if that text is normal. */
  lemma OverrideShows(m: Store, inst: UUID, key: Key, form: Form)
    requires FormKey(key) && (Some(inst), key) in m && m[(Some(inst), key)] == FormText(form, key)
    requires ValidateEntry(key, FormText(form, key))
    ensures FormText(ToSettingsResponse(Effective(m, Some(inst))), key) == FormText(form, key)
            <==> (key.CooldownPeriod? || key.SearchInterval? ==> Normal(FormText(form, key)))
  {
    CanonicalTexts(FormText(form, key));
    ZeroParses();
    hide Normal;
    hide ParseDuration, DurationText;
    ValidatedIsVerbatim(key, FormText(form, key));
    AtoiInvertsPrintInt(form.batchSize);
    ParseBoolInvertsPrintBool(form.enabled);
    ParseBoolInvertsPrintBool(form.searchMissing);
    hide Atoi, PrintInt, ParseBool, PrintBool;
  }

  /** Without an override the page shows the global text. */
  lemma InheritedShows(m: Store, inst: UUID, key: Key)
    requires FormKey(key) && (Some(inst), key) !in m
    ensures FormText(ToSettingsResponse(Effective(m, Some(inst))), key)
         == FormText(ToSettingsResponse(Effective(m, None)), key)
  {
    hide DurationText, PrintInt, PrintBool, Meaning;
  }

  /** Saving then reloading. With current global values loaded, a save that succeeded is shown again on every key
      exactly when each duration text either repeats the global text or is normal; in any case only differing keys are
      overridden, and nothing else in the store has changed. */
  lemma SaveThenReload(m: Store, inst: UUID, form: Form, putFailAt: Option<nat>, deleteFailAt: Option<nat>)
    requires var gs := Some(ToSettingsResponse(Effective(m, None)));
             Saved(m, Put(inst, form, gs, putFailAt), Delete(inst, form, gs, deleteFailAt)).1
    ensures var gs := Some(ToSettingsResponse(Effective(m, None)));
            var m' := Saved(m, Put(inst, form, gs, putFailAt), Delete(inst, form, gs, deleteFailAt)).0;
            var reloaded := ToSettingsResponse(Effective(m', Some(inst)));
            && ((forall key | FormKey(key) :: FormText(reloaded, key) == FormText(form, key)) <==>
                 (forall key: Key | key.CooldownPeriod? || key.SearchInterval? ::
                    !Differs(form, gs, key) || Normal(FormText(form, key))))
            && (forall key | FormKey(key) && (Some(inst), key) in m' :: m'[(Some(inst), key)] != GlobalText(gs, key))
            && (forall slot: Slot | slot.0 != Some(inst) || !FormKey(slot.1) ::
                  (slot in m' <==> slot in m) && (slot in m ==> m'[slot] == m[slot]))
  {
    var gs := Some(ToSettingsResponse(Effective(m, None)));
    var put, delete := Put(inst, form, gs, putFailAt), Delete(inst, form, gs, deleteFailAt);
    var m' := Saved(m, put, delete).0;
    var reloaded := ToSettingsResponse(Effective(m', Some(inst)));
    forall slot {
      SavedSlot(m, inst, form, gs, putFailAt, deleteFailAt, slot);
    }
    hide Saved, FormText, Normal, ValidateEntry, ToSettingsResponse;
    assert Effective(m', None) == Effective(m, None) by {
      SameGlobalLayer(m, m');
    }
    hide Effective;
    forall key | FormKey(key)
      ensures FormText(reloaded, key) == FormText(form, key)
              <==> ((key.CooldownPeriod? || key.SearchInterval?) && Differs(form, gs, key) ==>
                     Normal(FormText(form, key)))
    {
      if Differs(form, gs, key) {
        OverrideShows(m', inst, key, form);
      } else {
        InheritedShows(m', inst, key);
      }
    }
  }

  lemma SameGlobalLayer(m: Store, m': Store)
    requires forall key :: ((None, key) in m' <==> (None, key) in m)
                             && ((None, key) in m ==> m'[(None, key)] == m[(None, key)])
    ensures Effective(m', None) == Effective(m, None)
  {
    assert forall key :: Lookup(m', None, key) == Lookup(m, None, key);
    hide Lookup;
  }

  // ---------- two texts that the page and the server read differently ----------

  /** The page as it shows the defaults, with the search interval changed to ninety minutes. */
  function NinetyMinutesForm(): (form: Form) { ToSettingsResponse(DEFAULTS).(searchInterval := "90m") }

  lemma DefaultsShow()
    ensures Effective(map[], None) == DEFAULTS
    ensures DurationText(DEFAULTS.searchInterval) == "30m"
  {
    EmptyResolvesToDefaults();
    PrintedClock(0, 30, 0);
    ClockTexts();
    hide DurationText, Effective, Component;
  }

  lemma EmptyResolvesToDefaults()
    ensures Effective(map[], None) == DEFAULTS
  {
    assert forall key :: Lookup(map[], None, key) == None;
    hide Lookup;
  }

  /** Saving it overrides that one key. */
  lemma NinetyMinutesOverride()
    ensures var gs := Some(ToSettingsResponse(DEFAULTS));
            && (forall key | FormKey(key) :: Differs(NinetyMinutesForm(), gs, key) <==> key == SearchInterval)
            && FormText(NinetyMinutesForm(), SearchInterval) == "90m" && ValidateEntry(SearchInterval, "90m")
  {
    DefaultsShow();
    NinetyMinutes();
    hide DurationText, ParseDuration, PrintInt, PrintBool, Normal, ValidDuration;
    assert "30m"[0] != "90m"[0];
  }

  lemma OneOverrideIsSaved(inst: UUID, form: Form, gs: Option<Form>, key: Key)
    requires forall k | FormKey(k) :: Differs(form, gs, k) <==> k == key
    requires ValidateEntry(key, FormText(form, key))
    ensures Saved(map[], Put(inst, form, gs, None), Delete(inst, form, gs, None)).1
  {
    SplitMembers(FORM_KEYS, form, gs);
    FormKeys();
    BatchErrorFindsRefused(Overrides(FORM_KEYS, form, gs));
    hide Overrides, Removals, FormText, GlobalText, Differs, Perform, ValidateEntry;
  }

  lemma NinetyMeaning()
    ensures Meaning(SearchInterval, "90m") == Some(Span(90 * MINUTE))
  {
    NinetyMinutes();
    hide ParseDuration;
  }

  /** A save of "90m" succeeds, and the reload shows "1h30m". */
  lemma NinetyMinutesReload(inst: UUID)
    ensures ValidDuration(NinetyMinutesForm().searchInterval)
    ensures var form, gs := NinetyMinutesForm(), Some(ToSettingsResponse(Effective(map[], None)));
            var (m', ok) := Saved(map[], Put(inst, form, gs, None), Delete(inst, form, gs, None));
            ok && ToSettingsResponse(Effective(m', Some(inst))).searchInterval == "1h30m"
  {
    var form, gs := NinetyMinutesForm(), Some(ToSettingsResponse(DEFAULTS));
    var m' := Saved(map[], Put(inst, form, gs, None), Delete(inst, form, gs, None)).0;
    DefaultsShow();
    NinetyMinutesOverride();
    NinetyMinutes();
    assert FormText(form, SearchInterval) == "90m";
    NinetyMeaning();
    hide ParseDuration, DurationText, Normal, ValidDuration, Saved, FormText, Differs, GlobalText,
      ValidateEntry, Meaning, Put, Delete;
    OneOverrideIsSaved(inst, form, gs, SearchInterval);
    SavedSlot(map[], inst, form, gs, None, None, (Some(inst), SearchInterval));
    assert Lookup(m', Some(inst), SearchInterval) == Some(Span(90 * MINUTE));
  }

  lemma HalfSecondMeans(key: Key)
    requires key.CooldownPeriod? || key.SearchInterval?
    ensures ValidateEntry(key, "500ms") && Meaning(key, "500ms") == Some(Span(500 * MILLISECOND))
  {
    HalfSecond();
    assert 500 * MILLISECOND <= MaxSpan(key);
    hide *;
    DurationMeans(key, "500ms", 500 * MILLISECOND);
  }

  lemma OneWrite(entry: SettingEntry)
    requires ValidateEntry(entry.key, entry.value)
    ensures Performed(map[], [SetBatchOp(None, [entry], None)]) == map[(None, entry.key) := entry.value]
  {
    var op, row := SetBatchOp(None, [entry], None), Setting(None, entry.key, entry.value);
    OneEntry(entry);
    hide ValidateValue;
    assert Slots(None, [entry]) == [row] && [row][..0] == [] && [op][..0] == [];
    assert UpsertAll(map[], [row]) == map[(None, entry.key) := entry.value];
    assert Performed(map[], []) == map[];
  }

  /** The service accepts "500ms" for either duration key and resolves it to half a second, and the page then shows a
      text that its own grammar refuses. */
  lemma HalfSecondIsRefusedBack(key: Key)
    requires key.CooldownPeriod? || key.SearchInterval?
    ensures ValidateEntry(key, "500ms")
    ensures var m := Performed(map[], [SetBatchOp(None, [SettingEntry(key, "500ms")], None)]);
            && FieldOf(Effective(m, None), key) == Span(500 * MILLISECOND)
            && FormText(ToSettingsResponse(Effective(m, None)), key) == "500ms"
    ensures !ValidDuration("500ms")
  {
    HalfSecondMeans(key);
    OneWrite(SettingEntry(key, "500ms"));
    HalfSecond();
    var m := Performed(map[], [SetBatchOp(None, [SettingEntry(key, "500ms")], None)]);
    hide ParseDuration, DurationText, ValidDuration, Meaning, ValidateEntry, Performed;
    assert Lookup(m, None, key) == Some(Span(500 * MILLISECOND));
  }

  lemma SubMillisecondTexts(d: nat)
    requires 0 < d < MILLISECOND
    ensures ParseDuration(PrintNat(d) + "ns") == Some(d) && DurationText(d) == "0ms"
    ensures ParseDuration("0ms") == Some(0) && !ValidDuration("0ms")
  {
    NanosParse(d);
    MillisParse(0);
    FormAcceptsPrinted(d);
    assert d / MILLISECOND == 0 && PrintNat(0) + "ms" == "0ms";
    hide ParseDuration, ValidDuration, PrintNat;
  }

  /** Less than a millisecond: the service accepts and resolves it, for either duration key, and the page then
      shows "0ms", which neither the page's grammar nor the service accepts. */
  lemma SubMillisecondIsRefusedBack(key: Key, d: nat)
    requires (key.CooldownPeriod? || key.SearchInterval?) && 0 < d < MILLISECOND
    ensures ValidateEntry(key, PrintNat(d) + "ns")
    ensures var m := Performed(map[], [SetBatchOp(None, [SettingEntry(key, PrintNat(d) + "ns")], None)]);
            && FieldOf(Effective(m, None), key) == Span(d)
            && FormText(ToSettingsResponse(Effective(m, None)), key) == "0ms"
    ensures !ValidDuration("0ms") && !ValidateEntry(key, "0ms")
  {
    SubMillisecondTexts(d);
    var text := PrintNat(d) + "ns";
    hide ParseDuration, DurationText, ValidDuration, PrintNat;
    DurationMeans(key, text, d);
    assert !ValidateEntry(key, "0ms");
    OneWrite(SettingEntry(key, text));
    var m := Performed(map[], [SetBatchOp(None, [SettingEntry(key, text)], None)]);
    hide Meaning, ValidateEntry, Performed;
    assert Lookup(m, None, key) == Some(Span(d));
  }

  // ---------- the fields of the form ----------

  lemma {:induction false} PrintNatInjective(a: nat, b: nat)
    ensures PrintNat(a) == PrintNat(b) <==> a == b
  {
    PrintNatValue(a);
    PrintNatValue(b);
  }

  lemma PrintIntInjective(a: int, b: int)
    ensures PrintInt(a) == PrintInt(b) <==> a == b
  {
    PrintNatInjective(if a < 0 then -a else a, if b < 0 then -b else b);
    PrintNatValue(if a < 0 then -a else a);
    PrintNatValue(if b < 0 then -b else b);
    hide PrintNat;
    assert a < 0 ==> PrintInt(a)[0] == '-' && PrintInt(a)[1..] == PrintNat(-a);
    assert b < 0 ==> PrintInt(b)[0] == '-' && PrintInt(b)[1..] == PrintNat(-b);
    assert a >= 0 ==> IsDigit(PrintInt(a)[0]);
    assert b >= 0 ==> IsDigit(PrintInt(b)[0]);
  }

  /** The texts of the seven keys are the form but for the search limit. */
  lemma FormTextsAreTheForm(a: Form, b: Form)
    ensures (forall key | FormKey(key) :: FormText(a, key) == FormText(b, key))
       <==> a == b.(searchLimit := a.searchLimit)
  {
    PrintIntInjective(a.batchSize, b.batchSize);
    hide PrintInt;
    if forall key | FormKey(key) :: FormText(a, key) == FormText(b, key) {
      assert FormText(a, BatchSize) == FormText(b, BatchSize);
      assert FormText(a, CooldownPeriod) == FormText(b, CooldownPeriod);
      assert FormText(a, SearchWindowStart) == FormText(b, SearchWindowStart);
      assert FormText(a, SearchWindowEnd) == FormText(b, SearchWindowEnd);
      assert FormText(a, SearchInterval) == FormText(b, SearchInterval);
      assert FormText(a, Enabled) == FormText(b, Enabled) && FormText(a, SearchMissing) == FormText(b, SearchMissing);
      assert |"true"| != |"false"|;
    }
  }

  /** What a successful save leaves under each key, against the loaded global form: the form's own field if it differs
      from the global one, and nothing otherwise. */
  lemma SavedFields(m: Store, inst: UUID, form: Form, g: Form, f: Option<nat>, d: Option<nat>)
    requires Saved(m, Put(inst, form, Some(g), f), Delete(inst, form, Some(g), d)).1
    ensures var m', own := Saved(m, Put(inst, form, Some(g), f), Delete(inst, form, Some(g), d)).0, Some(inst);
            && TextAt(m', own, BatchSize) == Kept(PrintInt(form.batchSize), form.batchSize != g.batchSize)
            && TextAt(m', own, CooldownPeriod) == Kept(form.cooldownPeriod, form.cooldownPeriod != g.cooldownPeriod)
            && TextAt(m', own, SearchWindowStart)
               == Kept(form.searchWindowStart, form.searchWindowStart != g.searchWindowStart)
            && TextAt(m', own, SearchWindowEnd) == Kept(form.searchWindowEnd, form.searchWindowEnd != g.searchWindowEnd)
            && TextAt(m', own, SearchInterval) == Kept(form.searchInterval, form.searchInterval != g.searchInterval)
            && TextAt(m', own, Enabled) == Kept(PrintBool(form.enabled), form.enabled != g.enabled)
            && TextAt(m', own, SearchMissing)
               == Kept(PrintBool(form.searchMissing), form.searchMissing != g.searchMissing)
  {
    SavedText(m, inst, form, g, f, d, BatchSize);
    SavedText(m, inst, form, g, f, d, CooldownPeriod);
    SavedText(m, inst, form, g, f, d, SearchWindowStart);
    SavedText(m, inst, form, g, f, d, SearchWindowEnd);
    SavedText(m, inst, form, g, f, d, SearchInterval);
    SavedText(m, inst, form, g, f, d, Enabled);
    SavedText(m, inst, form, g, f, d, SearchMissing);
    PrintIntInjective(form.batchSize, g.batchSize);
    hide Saved, Put, Delete, PrintInt, TextAt;
    assert |"true"| != |"false"|;
  }

  lemma SavedText(m: Store, inst: UUID, form: Form, g: Form, f: Option<nat>, d: Option<nat>, key: Key)
    requires Saved(m, Put(inst, form, Some(g), f), Delete(inst, form, Some(g), d)).1 && FormKey(key)
    ensures TextAt(Saved(m, Put(inst, form, Some(g), f), Delete(inst, form, Some(g), d)).0, Some(inst), key)
         == Kept(FormText(form, key), FormText(form, key) != FormText(g, key))
  {
    SavedSlot(m, inst, form, Some(g), f, d, (Some(inst), key));
    hide Saved, Put, Delete, FormText, ValidateEntry;
  }

  function Kept(text: string, differs: bool): Option<string> { if differs then Some(text) else None }

  /** The response carries the settings: what it prints of a duration parses back to it at the printed precision, and
      every other field is as resolved. */
  lemma ResponseParsesBack(r: Resolved)
    requires Bounded(r)
    ensures var form := ToSettingsResponse(r);
            && ParseDuration(form.cooldownPeriod) == Some(Printed(r.cooldownPeriod))
            && ParseDuration(form.searchInterval) == Some(Printed(r.searchInterval))
            && form.batchSize == r.batchSize && form.searchLimit == r.searchLimit
            && form.searchWindowStart == r.searchWindowStart && form.searchWindowEnd == r.searchWindowEnd
            && form.enabled == r.enabled && form.searchMissing == r.searchMissing
  {
    ParseInvertsFormat(r.cooldownPeriod);
    ParseInvertsFormat(r.searchInterval);
    hide ParseDuration, DurationText, Printed;
  }

  /** Before the global values are loaded, counts and switches always differ, texts unless they are empty. */
  lemma UnloadedGlobals(form: Form)
    ensures Differs(form, None, BatchSize) && Differs(form, None, Enabled) && Differs(form, None, SearchMissing)
    ensures Differs(form, None, CooldownPeriod) <==> form.cooldownPeriod != ""
    ensures Differs(form, None, SearchWindowStart) <==> form.searchWindowStart != ""
    ensures Differs(form, None, SearchWindowEnd) <==> form.searchWindowEnd != ""
    ensures Differs(form, None, SearchInterval) <==> form.searchInterval != ""
  {
    PrintNatValue(if form.batchSize < 0 then -form.batchSize else form.batchSize);
    hide PrintNat;
    assert PrintInt(form.batchSize)[0] != "undefined"[0];
    assert "true"[0] != "undefined"[0] && "false"[0] != "undefined"[0];
  }

  /** A save that does not succeed has changed nothing, or has done its PUT and nothing else. */
  lemma FailedSave(m: Store, inst: UUID, form: Form, gs: Option<Form>, f: Option<nat>, d: Option<nat>)
    requires !Saved(m, Put(inst, form, gs, f), Delete(inst, form, gs, d)).1
    ensures var m' := Saved(m, Put(inst, form, gs, f), Delete(inst, form, gs, d)).0;
            m' == m || (Result(Put(inst, form, gs, f)).Ok? && m' == Perform(m, Put(inst, form, gs, f)))
  {
    hide Overrides, Removals;
  }
}
