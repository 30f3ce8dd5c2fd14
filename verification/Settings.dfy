/** The setting keys, their validation, and the merge of defaults, global rows and instance rows. */
module Settings {
  import opened Core
  import opened Text

  /** A setting key. Each plain constructor stands for one recognised key text; any other text is Unknown. */
  datatype Key =
    | BatchSize | CooldownPeriod | SearchWindowStart | SearchWindowEnd
    | SearchInterval | SearchLimit | Enabled | SearchMissing
    | Unknown(text: string)

  predicate ValidKey(key: Key) { !key.Unknown? }

  const MAX_COOLDOWN_PERIOD := 90 * DAY
  const MAX_SEARCH_INTERVAL := 7 * DAY

  /** A stored row; None as instance denotes a global setting. */
  datatype Setting = Setting(instanceID: Option<UUID>, key: Key, value: string)

  datatype Resolved = Resolved(
    batchSize: int, cooldownPeriod: int, searchWindowStart: string, searchWindowEnd: string,
    searchInterval: int, searchLimit: int, enabled: bool, searchMissing: bool)

  const DEFAULTS := Resolved(4, 24 * HOUR, "", "", 30 * MINUTE, 100, true, true)

  // ---------- times of day ----------

  /** Two-digit "HH:MM" to minutes since midnight. */
  function ParseHHMM(v: string): Option<int> {
    if |v| != 5 || v[2] != ':' then None
    else match (Atoi(v[..2]), Atoi(v[3..]))
      case (Some(h), Some(m)) =>
        if h < 0 || h > 23 || m < 0 || m > 59 then None else Some(h * 60 + m)
      case _ => None
  }

  // ---------- what one stored value means ----------

  datatype Field = Count(n: int) | Span(d: int) | Words(t: string) | Flag(b: bool)

  /** The kind of field a key sets. */
  predicate Fits(key: Key, f: Field) {
    match key
    case BatchSize | SearchLimit => f.Count?
    case CooldownPeriod | SearchInterval => f.Span?
    case SearchWindowStart | SearchWindowEnd => f.Words?
    case Enabled | SearchMissing => f.Flag?
    case Unknown(_) => false
  }

  function FieldOf(r: Resolved, key: Key): (f: Field)
    requires ValidKey(key)
    ensures Fits(key, f)
  {
    match key
    case BatchSize => Count(r.batchSize)
    case CooldownPeriod => Span(r.cooldownPeriod)
    case SearchWindowStart => Words(r.searchWindowStart)
    case SearchWindowEnd => Words(r.searchWindowEnd)
    case SearchInterval => Span(r.searchInterval)
    case SearchLimit => Count(r.searchLimit)
    case Enabled => Flag(r.enabled)
    case SearchMissing => Flag(r.searchMissing)
  }

  /** The value a text spells for a key, before any bound is applied. */
  function Spelled(key: Key, value: string): (f: Option<Field>)
    ensures f.Some? ==> Fits(key, f.value)
  {
    match key
    case BatchSize | SearchLimit => (match Atoi(value) case Some(n) => Some(Count(n)) case None => None)
    case CooldownPeriod | SearchInterval => (match ParseDuration(value) case Some(d) => Some(Span(d)) case None => None)
    case SearchWindowStart | SearchWindowEnd => Some(Words(value))
    case Enabled | SearchMissing => (match ParseBool(value) case Some(b) => Some(Flag(b)) case None => None)
    case Unknown(_) => None
  }

  function MaxSpan(key: Key): int {
    if key.CooldownPeriod? then MAX_COOLDOWN_PERIOD else MAX_SEARCH_INTERVAL
  }

  /** The value a stored text contributes: None when it is skipped; an oversized duration is clamped. */
  function Meaning(key: Key, value: string): (f: Option<Field>)
    ensures f.Some? ==> Fits(key, f.value)
  {
    match Spelled(key, value)
    case Some(Span(d)) => if d <= 0 then None else Some(Span(Min(d, MaxSpan(key))))
    case f => f
  }

  // ---------- the merge ----------

  /** The contribution of the last row for the key that is not skipped. */
  function LastValid(rows: seq<Setting>, key: Key): (f: Option<Field>)
    ensures f.Some? ==> Fits(key, f.value)
  {
    if rows == [] then None
    else
      var last := rows[|rows| - 1];
      if last.key == key && Meaning(key, last.value).Some? then Meaning(key, last.value)
      else LastValid(rows[..|rows| - 1], key)
  }

  /** Row i is for the key, contributes f, and every later row for the key is skipped. */
  ghost predicate DecidedAt(rows: seq<Setting>, key: Key, f: Field, i: nat) {
    && i < |rows| && rows[i].key == key && Meaning(key, rows[i].value) == Some(f)
    && forall j :: i < j < |rows| && rows[j].key == key ==> Meaning(key, rows[j].value).None?
  }

  /** The contribution found is that of the last row for the key whose value is not skipped. */
  lemma {:induction false} LastValidMeaning(rows: seq<Setting>, key: Key, f: Field)
    ensures LastValid(rows, key) == Some(f) <==> exists i: nat :: DecidedAt(rows, key, f, i)
  {
    if rows != [] {
      var front, last := rows[..|rows| - 1], rows[|rows| - 1];
      LastValidMeaning(front, key, f);
      assert rows == front + [last];
      forall i: nat {
        DecidedStep(front, last, key, f, i);
      }
      hide DecidedAt, Meaning;
      assert DecidedAt(rows, key, f, |front|) <==> last.key == key && Meaning(key, last.value) == Some(f);
    }
  }

  lemma DecidedStep(front: seq<Setting>, last: Setting, key: Key, f: Field, i: nat)
    ensures DecidedAt(front + [last], key, f, i) <==>
      if last.key == key && Meaning(key, last.value).Some? then i == |front| && Meaning(key, last.value) == Some(f)
      else DecidedAt(front, key, f, i)
  {
    hide Meaning;
    var rows := front + [last];
    assert rows[|front|] == last && forall j :: 0 <= j < |front| ==> rows[j] == front[j];
  }

  function Overlaid(r: Resolved, rows: seq<Setting>, key: Key): (f: Field)
    requires ValidKey(key)
    ensures Fits(key, f)
  {
    LastValid(rows, key).GetOr(FieldOf(r, key))
  }

  /** Field by field, the last valid row wins over what was there. */
  function Overlay(r: Resolved, rows: seq<Setting>): Resolved {
    Resolved(
      Overlaid(r, rows, BatchSize).n, Overlaid(r, rows, CooldownPeriod).d,
      Overlaid(r, rows, SearchWindowStart).t, Overlaid(r, rows, SearchWindowEnd).t,
      Overlaid(r, rows, SearchInterval).d, Overlaid(r, rows, SearchLimit).n,
      Overlaid(r, rows, Enabled).b, Overlaid(r, rows, SearchMissing).b)
  }

  function ResolveGlobal(global: seq<Setting>): Resolved {
    Overlay(DEFAULTS, global)
  }

  function Resolve(global: seq<Setting>, own: seq<Setting>): Resolved {
    Overlay(Overlay(DEFAULTS, global), own)
  }

  /** applyOverrides: rows are applied in order, each overwriting the field its key names. */
  method ApplyOverrides(r: Resolved, rows: seq<Setting>) returns (out: Resolved)
    ensures out == Overlay(r, rows)
  {
    hide Overlay, Atoi, ParseDuration, ParseBool;
    assert Overlay(r, rows[..0]) == r by { NoRows(r); }
    out := r;
    for i := 0 to |rows|
      invariant out == Overlay(r, rows[..i])
    {
      var s := rows[i];
      match s.key {
        case BatchSize =>
          var v := Atoi(s.value);
          if v.Some? { out := out.(batchSize := v.value); }
        case CooldownPeriod =>
          var v := ParseDuration(s.value);
          if v.None? || v.value <= 0 {
          } else if v.value > MAX_COOLDOWN_PERIOD {
            out := out.(cooldownPeriod := MAX_COOLDOWN_PERIOD);
          } else {
            out := out.(cooldownPeriod := v.value);
          }
        case SearchWindowStart =>
          out := out.(searchWindowStart := s.value);
        case SearchWindowEnd =>
          out := out.(searchWindowEnd := s.value);
        case SearchInterval =>
          var v := ParseDuration(s.value);
          if v.None? || v.value <= 0 {
          } else if v.value > MAX_SEARCH_INTERVAL {
            out := out.(searchInterval := MAX_SEARCH_INTERVAL);
          } else {
            out := out.(searchInterval := v.value);
          }
        case SearchLimit =>
          var v := Atoi(s.value);
          if v.Some? { out := out.(searchLimit := v.value); }
        case Enabled =>
          var v := ParseBool(s.value);
          if v.Some? { out := out.(enabled := v.value); }
        case SearchMissing =>
          var v := ParseBool(s.value);
          if v.Some? { out := out.(searchMissing := v.value); }
        case Unknown(_) =>
      }
      OverlayStep(r, rows, i);
      OneRow(Overlay(r, rows[..i]), s);
    }
    assert rows[..|rows|] == rows;
  }

  function With(r: Resolved, key: Key, f: Field): Resolved
    requires Fits(key, f)
  {
    match key
    case BatchSize => r.(batchSize := f.n)
    case CooldownPeriod => r.(cooldownPeriod := f.d)
    case SearchWindowStart => r.(searchWindowStart := f.t)
    case SearchWindowEnd => r.(searchWindowEnd := f.t)
    case SearchInterval => r.(searchInterval := f.d)
    case SearchLimit => r.(searchLimit := f.n)
    case Enabled => r.(enabled := f.b)
    case SearchMissing => r.(searchMissing := f.b)
  }

  lemma NoRows(r: Resolved)
    ensures forall rows: seq<Setting> :: rows == [] ==> Overlay(r, rows) == r
  {
  }

  /** Settings are their eight fields. */
  lemma SameFields(a: Resolved, b: Resolved)
    requires forall key | ValidKey(key) :: FieldOf(a, key) == FieldOf(b, key)
    ensures a == b
  {
    assert FieldOf(a, BatchSize) == FieldOf(b, BatchSize) && FieldOf(a, CooldownPeriod) == FieldOf(b, CooldownPeriod);
    assert FieldOf(a, SearchWindowStart) == FieldOf(b, SearchWindowStart);
    assert FieldOf(a, SearchWindowEnd) == FieldOf(b, SearchWindowEnd);
    assert FieldOf(a, SearchInterval) == FieldOf(b, SearchInterval);
    assert FieldOf(a, SearchLimit) == FieldOf(b, SearchLimit);
    assert FieldOf(a, Enabled) == FieldOf(b, Enabled) && FieldOf(a, SearchMissing) == FieldOf(b, SearchMissing);
  }

  lemma OverlayField(r: Resolved, rows: seq<Setting>, key: Key)
    requires ValidKey(key)
    ensures FieldOf(Overlay(r, rows), key) == Overlaid(r, rows, key)
  {
    hide Overlaid;
  }

  lemma WithField(r: Resolved, target: Key, f: Field, key: Key)
    requires Fits(target, f) && ValidKey(key)
    ensures FieldOf(With(r, target, f), key) == if key == target then f else FieldOf(r, key)
  {
  }

  lemma LastOfOne(s: Setting, key: Key)
    ensures LastValid([s], key) == if s.key == key then Meaning(key, s.value) else None
  {
    hide Meaning;
    assert [s][..0] == [];
    assert LastValid([], key) == None;
  }

  lemma OneRow(r: Resolved, s: Setting)
    ensures Overlay(r, [s]) == match Meaning(s.key, s.value) case None => r case Some(f) => With(r, s.key, f)
  {
    hide Overlay, With, FieldOf, LastValid, Meaning;
    var after := match Meaning(s.key, s.value) case None => r case Some(f) => With(r, s.key, f);
    forall key | ValidKey(key)
      ensures FieldOf(Overlay(r, [s]), key) == FieldOf(after, key)
    {
      OverlayField(r, [s], key);
      LastOfOne(s, key);
      if Meaning(s.key, s.value).Some? {
        WithField(r, s.key, Meaning(s.key, s.value).value, key);
      }
    }
    SameFields(Overlay(r, [s]), after);
  }

  lemma OverlayStep(r: Resolved, rows: seq<Setting>, i: nat)
    requires i < |rows|
    ensures Overlay(r, rows[..i + 1]) == Overlay(Overlay(r, rows[..i]), [rows[i]])
  {
    assert rows[..i + 1] == rows[..i] + [rows[i]];
    OverlayConcat(r, rows[..i], [rows[i]]);
  }

  lemma {:induction false} LastValidConcat(a: seq<Setting>, b: seq<Setting>, key: Key)
    ensures LastValid(a + b, key) == if LastValid(b, key).Some? then LastValid(b, key) else LastValid(a, key)
  {
    if b == [] {
      assert a + b == a;
    } else {
      LastValidConcat(a, b[..|b| - 1], key);
      assert (a + b)[..|a + b| - 1] == a + b[..|b| - 1];
    }
  }

  /** Layers compose: overlaying two row lists in turn is overlaying their concatenation. */
  lemma OverlayConcat(r: Resolved, a: seq<Setting>, b: seq<Setting>)
    ensures Overlay(r, a + b) == Overlay(Overlay(r, a), b)
  {
    hide LastValid;
    forall key | ValidKey(key)
      ensures Overlaid(r, a + b, key) == Overlaid(Overlay(r, a), b, key)
    {
      LastValidConcat(a, b, key);
    }
  }

  /** Applying the same rows a second time changes nothing. */
  lemma OverlayIdempotent(r: Resolved, rows: seq<Setting>)
    ensures Overlay(Overlay(r, rows), rows) == Overlay(r, rows)
  {
    hide LastValid;
    forall key | ValidKey(key)
      ensures Overlaid(Overlay(r, rows), rows, key) == Overlaid(r, rows, key)
    {
    }
  }

  // ---------- bounds on whatever is stored ----------

  predicate Bounded(r: Resolved) {
    0 < r.cooldownPeriod <= MAX_COOLDOWN_PERIOD && 0 < r.searchInterval <= MAX_SEARCH_INTERVAL
  }

  lemma {:induction false} LastValidBounds(rows: seq<Setting>, key: Key)
    requires key.CooldownPeriod? || key.SearchInterval?
    ensures var f := LastValid(rows, key); f.Some? ==> 0 < f.value.d <= MaxSpan(key)
  {
    hide Spelled;
    if rows != [] {
      LastValidBounds(rows[..|rows| - 1], key);
    }
  }

  /** Whatever rows are stored, both durations come out positive and within their maximum. */
  lemma ResolveBounded(global: seq<Setting>, own: seq<Setting>)
    ensures Bounded(Resolve(global, own)) && Bounded(ResolveGlobal(global))
  {
    forall rows, key | rows in {global, own} && key in {CooldownPeriod, SearchInterval}
      ensures LastValid(rows, key).Some? ==> 0 < LastValid(rows, key).value.d <= MaxSpan(key)
    {
      LastValidBounds(rows, key);
    }
    hide LastValid;
  }

  // ---------- validation on the way in ----------

  /** validateValue. */
  function ValidateValue(key: Key, value: string): bool {
    match key
    case BatchSize | SearchLimit => Atoi(value).Some? && Atoi(value).value >= 1
    case CooldownPeriod =>
      ParseDuration(value).Some? && 0 < ParseDuration(value).value <= MAX_COOLDOWN_PERIOD
    case SearchInterval =>
      ParseDuration(value).Some? && 0 < ParseDuration(value).value <= MAX_SEARCH_INTERVAL
    case Enabled | SearchMissing => ParseBool(value).Some?
    case SearchWindowStart | SearchWindowEnd => value == "" || ParseHHMM(value).Some?
    case Unknown(_) => true
  }

  /** ValidateEntry: the key is recognised and the value acceptable for it. */
  predicate ValidateEntry(key: Key, value: string) {
    ValidKey(key) && ValidateValue(key, value)
  }

  /** A validated value is applied exactly as spelled: it is never skipped and never clamped. */
  lemma ValidatedIsVerbatim(key: Key, value: string)
    requires ValidateEntry(key, value)
    ensures Meaning(key, value).Some? && Meaning(key, value) == Spelled(key, value)
    ensures key.BatchSize? || key.SearchLimit? ==> Meaning(key, value).value.n >= 1
  {
    hide Atoi, ParseDuration, ParseBool;
  }

  /** A text that parses to a duration within the key's bounds is accepted, and means it. */
  lemma DurationMeans(key: Key, value: string, d: int)
    requires key.CooldownPeriod? || key.SearchInterval?
    requires ParseDuration(value) == Some(d) && 0 < d <= MaxSpan(key)
    ensures ValidateEntry(key, value) && Meaning(key, value) == Some(Span(d))
  {
    hide ParseDuration;
  }

  /** Conversely, a value that is skipped or clamped when read was never accepted; apart from that only a count
      below one and a malformed time of day are read verbatim yet refused. */
  lemma RefusedValues(key: Key, value: string)
    requires ValidKey(key)
    ensures !ValidateEntry(key, value) <==>
              || Meaning(key, value).None?
              || Meaning(key, value) != Spelled(key, value)
              || (Meaning(key, value).value.Count? && Meaning(key, value).value.n < 1)
              || (Meaning(key, value).value.Words? && value != "" && ParseHHMM(value).None?)
  {
    hide Atoi, ParseDuration, ParseBool, ParseHHMM;
  }
}
