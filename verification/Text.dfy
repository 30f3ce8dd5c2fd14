/** The text forms the settings travel in: decimal integers, booleans and Go durations.
    A string is a Go byte string: every char stands for one byte. */
module Text {
  import opened Core

  // ---------- decimal digits ----------

  predicate IsDigit(c: char) { '0' <= c <= '9' }

  predicate AllDigits(s: string) { forall i :: 0 <= i < |s| ==> IsDigit(s[i]) }

  function DigitOf(n: int): char
    requires 0 <= n < 10
  {
    (n + '0' as int) as char
  }

  /** The number a digit string denotes, most significant digit first. */
  function Value(s: string): nat
    requires AllDigits(s)
  {
    ValueUpTo(s, |s|)
  }

  function ValueUpTo(s: string, n: nat): nat
    requires n <= |s| && AllDigits(s)
  {
    if n == 0 then 0 else 10 * ValueUpTo(s, n - 1) + (s[n - 1] as int - '0' as int)
  }

  lemma {:induction false} ValueOfPrefix(s: string, t: string, n: nat)
    requires AllDigits(s) && AllDigits(t) && n <= |s| <= |t| && s <= t
    ensures ValueUpTo(s, n) == ValueUpTo(t, n)
  {
    if n > 0 {
      ValueOfPrefix(s, t, n - 1);
    }
  }

  /** fmt's %d of a non-negative number, and JavaScript's String(n). */
  function PrintNat(n: nat): string {
    if n < 10 then [DigitOf(n)] else PrintNat(n / 10) + [DigitOf(n % 10)]
  }

  function PrintInt(n: int): string {
    if n < 0 then "-" + PrintNat(-n) else PrintNat(n)
  }

  lemma {:induction false} PrintNatValue(n: nat)
    ensures PrintNat(n) != "" && AllDigits(PrintNat(n)) && Value(PrintNat(n)) == n
  {
    if n < 10 {
      assert ValueUpTo(PrintNat(n), 1) == n;
    } else {
      PrintNatValue(n / 10);
      var front := PrintNat(n / 10);
      assert PrintNat(n) == front + [DigitOf(n % 10)];
      ValueOfPrefix(front, PrintNat(n), |front|);
      assert PrintNat(n)[|front|] as int - '0' as int == n % 10;
    }
  }

  /** strconv.Atoi: an optional sign and at least one digit, within int64. */
  function Atoi(s: string): Option<int> {
    var signed := s != "" && (s[0] == '-' || s[0] == '+');
    var digits := if signed then s[1..] else s;
    if digits == "" || !AllDigits(digits) then None
    else
      var v: int := if signed && s[0] == '-' then -(Value(digits) as int) else Value(digits);
      if IsInt64(v) then Some(v) else None
  }

  /** Atoi reads back exactly the printed integers of its range. */
  lemma AtoiInvertsPrintInt(n: int)
    ensures Atoi(PrintInt(n)) == if IsInt64(n) then Some(n) else None
  {
    PrintNatValue(if n < 0 then -n else n);
    if n < 0 {
      assert PrintInt(n)[1..] == PrintNat(-n);
    }
  }

  /** strconv.ParseBool. */
  function ParseBool(s: string): Option<bool> {
    if s in {"1", "t", "T", "TRUE", "true", "True"} then Some(true)
    else if s in {"0", "f", "F", "FALSE", "false", "False"} then Some(false)
    else None
  }

  /** JavaScript's String(b). */
  function PrintBool(b: bool): string { if b then "true" else "false" }

  lemma ParseBoolInvertsPrintBool(b: bool)
    ensures ParseBool(PrintBool(b)) == Some(b)
  {
    if !b {
      assert "false"[0] != "true"[0] && "false"[0] != "TRUE"[0] && "false"[0] != "True"[0];
      assert |"false"| == 5 && |"true"| == 4 && |"TRUE"| == 4 && |"True"| == 4;
    }
  }

  // ---------- Go durations ----------

  function DigitRun(s: string): (n: nat)
    ensures n <= |s| && AllDigits(s[..n])
    ensures n < |s| ==> !IsDigit(s[n])
  {
    if s == "" || !IsDigit(s[0]) then 0
    else
      var n := 1 + DigitRun(s[1..]);
      assert forall i :: 1 <= i < n ==> s[i] == s[1..][..n - 1][i - 1];
      n
  }

  /** The length of the run of characters that can spell a unit: anything but a digit or a period. */
  function UnitRun(s: string): (n: nat)
    ensures n <= |s|
  {
    if s == "" || s[0] == '.' || IsDigit(s[0]) then 0 else 1 + UnitRun(s[1..])
  }

  /** time's unit map; the micro sign has two UTF-8 spellings of two bytes each. */
  function UnitOf(u: string): Option<nat> {
    if |u| == 1 then
      if u[0] == 's' then Some(SECOND) else if u[0] == 'm' then Some(MINUTE)
      else if u[0] == 'h' then Some(HOUR) else None
    else if |u| == 2 && u[1] == 's' then
      if u[0] == 'n' then Some(1) else if u[0] == 'u' then Some(1000)
      else if u[0] == 'm' then Some(MILLISECOND) else None
    else if |u| == 3 && u[2] == 's' then
      if (u[0] == '\U{C2}' && u[1] == '\U{B5}') || (u[0] == '\U{CE}' && u[1] == '\U{BC}') then Some(1000) else None
    else None
  }

  /** time.leadingFraction: digits past the 63-bit range are dropped. */
  function Fraction(s: string, x: nat, scale: nat): (r: (nat, nat))
    requires AllDigits(s) && scale > 0
    ensures r.1 > 0
  {
    if s == "" || x > MAX_INT64 / 10 then (x, scale)
    else
      var y := 10 * x + (s[0] as int - '0' as int);
      if y > TWO_63 then (x, scale) else Fraction(s[1..], y, 10 * scale)
  }

  /** The nanoseconds of one segment v.f unit, or None when it leaves the unsigned 63-bit range. */
  function Scaled(v: nat, f: nat, scale: nat, unit: nat): (r: Option<nat>)
    requires scale > 0
    ensures f == 0 && unit > 0 ==> r == if v * unit > TWO_63 then None else Some(v * unit)
  {
    if unit == 0 || v > TWO_63 / unit then
      assert unit > 0 ==> v * unit > TWO_63 by {
        if unit > 0 { Exceeds(v, unit); }
      }
      None
    else
      assert v * unit <= TWO_63 by { Within(v, unit); }
      var w := v * unit + FractionOf(f, scale, unit);
      if w > TWO_63 then None else Some(w)
  }

  /** The integer part of f * unit / scale. */
  function FractionOf(f: nat, scale: nat, unit: nat): (r: nat)
    requires scale > 0
    ensures f == 0 ==> r == 0
  {
    if f == 0 then 0 else Quotient(f * unit, scale)
  }

  function Quotient(a: nat, b: nat): nat
    requires b > 0
  {
    a / b
  }

  lemma Exceeds(v: nat, unit: nat)
    requires unit > 0 && v > TWO_63 / unit
    ensures v * unit > TWO_63
  {
    var q := TWO_63 / unit;
    assert TWO_63 == q * unit + TWO_63 % unit;
    assert v * unit >= (q + 1) * unit by { Monotone(q + 1, v, unit); }
  }

  lemma Within(v: nat, unit: nat)
    requires unit > 0 && v <= TWO_63 / unit
    ensures v * unit <= TWO_63
  {
    var q := TWO_63 / unit;
    assert TWO_63 == q * unit + TWO_63 % unit;
    Monotone(v, q, unit);
  }

  /** The optional `.digits` at the front of t: the fraction, its scale, and how much it consumed. */
  function FractionPart(t: string): (r: (nat, nat, nat))
    ensures r.1 > 0 && r.2 <= |t|
  {
    if t == "" || t[0] != '.' then (0, 1, 0)
    else
      var k := DigitRun(t[1..]);
      var (f, scale) := Fraction(t[1..][..k], 0, 1);
      (f, scale, 1 + k)
  }

  /** The nanoseconds of v.f in the unit spelled by u. */
  function InUnit(v: nat, f: nat, scale: nat, u: string): Option<nat>
    requires scale > 0
  {
    match UnitOf(u)
    case None => None
    case Some(unit) => if v > TWO_63 then None else Scaled(v, f, scale, unit)
  }

  /** The extents of a segment `[0-9]*(.[0-9]*)?unit` at the front of a string. */
  datatype Extent = Extent(digits: nat, fraction: nat, scale: nat, point: nat, unit: nat)

  function Measure(s: string): (e: Extent)
    ensures e.scale > 0 && e.digits + e.point + e.unit <= |s| && AllDigits(s[..e.digits])
  {
    var n := DigitRun(s);
    var (f, scale, k) := FractionPart(s[n..]);
    Extent(n, f, scale, k, UnitRun(s[n + k..]))
  }

  /** One segment off the front of s: its nanoseconds and how much it consumed. */
  function Segment(s: string): (r: Option<(nat, nat)>)
    ensures r.Some? ==> 0 < r.value.1 <= |s|
  {
    var e := Measure(s);
    var from := e.digits + e.point;
    if (e.digits == 0 && e.point <= 1) || e.unit == 0 then None
    else match InUnit(Value(s[..e.digits]), e.fraction, e.scale, s[from..from + e.unit])
      case None => None
      case Some(w) => Some((w, from + e.unit))
  }

  /** The loop of time.ParseDuration over its segments; `total` is the accumulator. */
  function Segments(s: string, total: nat): Option<nat>
    decreases |s|
  {
    if s == "" then Some(total)
    else
      match Segment(s)
      case None => None
      case Some((w, used)) =>
        if total + w > TWO_63 then None else Segments(s[used..], total + w)
  }

  /** time.ParseDuration, with the fractional part scaled in integers. */
  function ParseDuration(s: string): Option<int> {
    var signed := s != "" && (s[0] == '-' || s[0] == '+');
    var body := if signed then s[1..] else s;
    if body == "0" then Some(0)
    else if body == "" then None
    else match Segments(body, 0)
      case None => None
      case Some(d) =>
        if signed && s[0] == '-' then Some(-(d as int))
        else if d > MAX_INT64 then None
        else Some(d)
  }

  /** A text that starts with a digit and ends with a unit is read segment by segment. */
  lemma UnsignedParse(s: string)
    requires s != "" && IsDigit(s[0]) && !IsDigit(s[|s| - 1])
    ensures ParseDuration(s) == match Segments(s, 0) case None => None
                                case Some(d) => if d > MAX_INT64 then None else Some(d)
  {
    hide Segments;
    assert s[0] != '-' && s[0] != '+';
    assert IsDigit("0"[|"0"| - 1]) && s != "0";
  }

  lemma {:induction false} DigitRunOf(ds: string, t: string)
    requires AllDigits(ds) && (t == "" || !IsDigit(t[0]))
    ensures DigitRun(ds + t) == |ds|
  {
    if ds == "" {
      assert ds + t == t;
    } else {
      assert (ds + t)[1..] == ds[1..] + t;
      DigitRunOf(ds[1..], t);
    }
  }

  predicate UnitChars(u: string) { forall i :: 0 <= i < |u| ==> !IsDigit(u[i]) && u[i] != '.' }

  lemma {:induction false} UnitRunOf(u: string, t: string)
    requires UnitChars(u)
    requires t == "" || IsDigit(t[0])
    ensures UnitRun(u + t) == |u|
  {
    if u == "" {
      assert u + t == t;
    } else {
      assert (u + t)[1..] == u[1..] + t;
      UnitRunOf(u[1..], t);
    }
  }

  lemma SegmentsEnd(total: nat)
    ensures Segments("", total) == Some(total)
  {
  }

  predicate UnitText(u: string) { u == "h" || u == "m" || u == "s" || u == "ms" || u == "ns" }

  function UnitNanos(u: string): (n: nat)
    requires UnitText(u)
    ensures n > 0
  {
    if u == "h" then HOUR else if u == "m" then MINUTE else if u == "s" then SECOND
    else if u == "ms" then MILLISECOND else 1
  }

  lemma UnitTextMeaning(u: string)
    requires UnitText(u)
    ensures UnitOf(u) == Some(UnitNanos(u))
    ensures u != "" && UnitChars(u)
  {
  }

  /** A whole number and its unit read back as their product. */
  lemma WholeInUnit(v: nat, u: string)
    requires UnitText(u)
    ensures InUnit(v, 0, 1, u) == var w := v * UnitNanos(u); if w > TWO_63 then None else Some(w)
  {
    UnitTextMeaning(u);
    if v > TWO_63 {
      Monotone(1, UnitNanos(u), v);
    }
  }

  lemma WholeExtent(ds: string, u: string, rest: string)
    requires ds != "" && AllDigits(ds) && u != "" && UnitChars(u)
    requires rest == "" || IsDigit(rest[0])
    ensures Measure(ds + u + rest) == Extent(|ds|, 0, 1, 0, |u|)
  {
    assert ds + u + rest == ds + (u + rest);
    DigitRunOf(ds, u + rest);
    UnitRunOf(u, rest);
    assert (ds + u + rest)[|ds|..] == u + rest;
  }

  lemma WholeSegment(ds: string, u: string, rest: string)
    requires ds != "" && AllDigits(ds) && UnitText(u)
    requires rest == "" || IsDigit(rest[0])
    ensures Segment(ds + u + rest)
         == (var w := Value(ds) * UnitNanos(u);
             if w > TWO_63 then None else Some((w, |ds| + |u|)))
  {
    UnitTextMeaning(u);
    WholeExtent(ds, u, rest);
    WholeInUnit(Value(ds), u);
    SegmentAs(ds + u + rest, ds, u, InUnit(Value(ds), 0, 1, u));
  }

  lemma SegmentAs(s: string, ds: string, u: string, nanos: Option<nat>)
    requires AllDigits(ds) && ds != "" && u != ""
    requires Measure(s) == Extent(|ds|, 0, 1, 0, |u|) && ds + u <= s
    requires nanos == InUnit(Value(ds), 0, 1, u)
    ensures Segment(s) == match nanos case None => None case Some(w) => Some((w, |ds| + |u|))
  {
    assert s[..|ds|] == ds && s[|ds|..|ds| + |u|] == u;
  }

  /** So a whole-number segment adds its product to the running total, unless 63 bits overflow. */
  lemma SegmentStep(ds: string, u: string, rest: string, total: nat)
    requires ds != "" && AllDigits(ds) && UnitText(u)
    requires rest == "" || IsDigit(rest[0])
    ensures Segments(ds + u + rest, total)
         == (var w := Value(ds) * UnitNanos(u);
             if total + w > TWO_63 then None else Segments(rest, total + w))
  {
    WholeSegment(ds, u, rest);
    assert (ds + u + rest)[|ds| + |u|..] == rest;
  }
}
