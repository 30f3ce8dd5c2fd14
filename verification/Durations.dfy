/** The settings API's duration printer, Go's duration parser and the form's duration grammar, against each other. */
module Durations {
  import opened Core
  import opened Text

  // ---------- the printer ----------

  /** A component of the printed form: a positive count and its unit, or nothing. */
  function Component(n: int, unit: string): string {
    if n > 0 then PrintNat(n) + unit else ""
  }

  /** What FormatDuration builds. Go's int(d.Hours()) truncates toward zero, so a negative duration prints nothing. */
  function DurationText(d: int): string {
    if d == 0 then "0s"
    else if d < 0 then ""
    else if d < SECOND then PrintNat(d / MILLISECOND) + "ms"
    else ClockText(d / SECOND)
  }

  /** A whole number of seconds, in hours, minutes and seconds. */
  function ClockText(seconds: nat): string {
    Component(seconds / 3600, "h") + Component(seconds / 60 % 60, "m") + Component(seconds % 60, "s")
  }

  lemma TimeUnits(d: nat)
    ensures d / MINUTE == d / SECOND / 60 && d / HOUR == d / SECOND / 3600
  {
    DivDiv(d, SECOND, 60);
    DivDiv(d, SECOND, 3600);
  }

  /** Go's integer division, truncating toward zero. */
  function Quot(a: int, b: int): int
    requires b > 0
  {
    if a < 0 then -(-a / b) else a / b
  }

  /** Go's remainder, which takes the sign of the dividend. */
  function Rem(a: int, b: int): int
    requires b > 0
  {
    a - b * Quot(a, b)
  }

  method FormatDuration(d: int) returns (b: string)
    ensures b == DurationText(d)
  {
    if d == 0 {
      return "0s";
    }
    var h := Quot(d, HOUR);
    var m := Rem(Quot(d, MINUTE), 60);
    var s := Rem(Quot(d, SECOND), 60);
    ComponentCounts(d);
    hide Counts, Quot, Rem, DurationText, PrintNat;
    b := "";
    if h > 0 {
      b := b + PrintNat(h) + "h";
    }
    assert b == Component(h, "h");
    if m > 0 {
      b := b + PrintNat(m) + "m";
    }
    assert b == Component(h, "h") + Component(m, "m");
    if s > 0 {
      b := b + PrintNat(s) + "s";
    }
    assert b == Component(h, "h") + Component(m, "m") + Component(s, "s");
    BuiltText(d, h, m, s);
    if |b| == 0 && d > 0 {
      b := b + PrintNat(Quot(d, MILLISECOND)) + "ms";
    }
  }

  /** h, m and s are the counts of d's components, in terms of its whole seconds. */
  ghost predicate Counts(d: int, h: int, m: int, s: int) {
    if d < 0 then h <= 0 && m <= 0 && s <= 0
    else h == d / SECOND / 3600 && m == d / SECOND / 60 % 60 && s == d / SECOND % 60
  }

  lemma ComponentCounts(d: int)
    ensures Counts(d, Quot(d, HOUR), Rem(Quot(d, MINUTE), 60), Rem(Quot(d, SECOND), 60))
    ensures d >= 0 ==> Quot(d, MILLISECOND) == d / MILLISECOND >= 0
  {
    if d >= 0 {
      TimeUnits(d);
    }
  }

  lemma BuiltText(d: int, h: int, m: int, s: int)
    requires d != 0 && Counts(d, h, m, s)
    ensures var b := Component(h, "h") + Component(m, "m") + Component(s, "s");
            DurationText(d) == if |b| == 0 && d > 0 then PrintNat(d / MILLISECOND) + "ms" else b
  {
    hide PrintNat;
    if d >= SECOND {
      assert h > 0 || m > 0 || s > 0;
    }
  }

  /** Only a negative duration prints nothing. */
  lemma EmptyText(d: int)
    ensures DurationText(d) == "" <==> d < 0
  {
    if d > 0 {
      PrintNatValue(d / MILLISECOND);
      if d >= SECOND {
        SplitSeconds(d / SECOND, d / SECOND / 3600, d / SECOND / 60 % 60, d / SECOND % 60);
        NonEmptyClock(d / SECOND / 3600, d / SECOND / 60 % 60, d / SECOND % 60);
      }
    }
    hide PrintNat, Component;
  }

  // ---------- the form's grammar ----------

  /** The regular-expression group `(\d+u)?`. */
  predicate Part(p: string, u: char) {
    p == "" || (|p| >= 2 && AllDigits(p[..|p| - 1]) && p[|p| - 1] == u)
  }

  /** The form's test `^(\d+h)?(\d+m)?(\d+s)?$`; the empty text passes. */
  ghost predicate ValidDuration(v: string) {
    exists h, m, s :: Part(h, 'h') && Part(m, 'm') && Part(s, 's') && v == h + m + s
  }

  function PartNanos(p: string, u: char): nat
    requires Part(p, u) && UnitText([u])
  {
    if p == "" then 0 else Value(p[..|p| - 1]) * UnitNanos([u])
  }

  lemma PartStep(p: string, u: char, rest: string, total: nat)
    requires Part(p, u) && UnitText([u]) && total <= TWO_63
    requires rest == "" || IsDigit(rest[0])
    ensures Segments(p + rest, total)
         == (if total + PartNanos(p, u) > TWO_63 then None else Segments(rest, total + PartNanos(p, u)))
  {
    hide Segments;
    if p == "" {
      assert p + rest == rest;
    } else {
      SegmentStep(p[..|p| - 1], [u], rest, total);
      assert p[..|p| - 1] + [u] + rest == p + rest;
    }
  }

  lemma GrammarSegments(h: string, m: string, s: string)
    requires Part(h, 'h') && Part(m, 'm') && Part(s, 's')
    ensures Segments(h + m + s, 0)
         == (var total := PartNanos(h, 'h') + PartNanos(m, 'm') + PartNanos(s, 's');
             if total > TWO_63 then None else Some(total))
  {
    hide Segments, PartNanos;
    var th := PartNanos(h, 'h');
    var tm := th + PartNanos(m, 'm');
    assert h + m + s == h + (m + s);
    assert m + s == "" || IsDigit((m + s)[0]);
    PartStep(h, 'h', m + s, 0);
    if th <= TWO_63 {
      PartStep(m, 'm', s, th);
      if tm <= TWO_63 {
        assert s + "" == s;
        PartStep(s, 's', "", tm);
        SegmentsEnd(tm + PartNanos(s, 's'));
      }
    }
  }

  /** Every non-empty text of the form's grammar parses on the server to what it says, unless it exceeds int64. */
  lemma GrammarParses(h: string, m: string, s: string)
    requires Part(h, 'h') && Part(m, 'm') && Part(s, 's') && h + m + s != ""
    ensures ParseDuration(h + m + s)
         == (var total := PartNanos(h, 'h') + PartNanos(m, 'm') + PartNanos(s, 's');
             if total > MAX_INT64 then None else Some(total))
  {
    hide Segments, PartNanos;
    var v := h + m + s;
    GrammarSegments(h, m, s);
    assert IsDigit(v[0]) && !IsDigit(v[|v| - 1]);
    hide ParseDuration;
    UnsignedParse(v);
  }

  lemma ComponentPart(n: int, u: char)
    requires UnitText([u])
    ensures Part(Component(n, [u]), u)
    ensures PartNanos(Component(n, [u]), u) == Max(n, 0) * UnitNanos([u])
  {
    if n > 0 {
      PrintNatValue(n);
      var c := Component(n, [u]);
      assert c[..|c| - 1] == PrintNat(n);
    }
  }

  /** The printed precision: whole seconds from a second up, whole milliseconds below. */
  function Printed(d: nat): nat {
    if d >= SECOND then d - d % SECOND else d - d % MILLISECOND
  }

  /** Printing then parsing keeps a duration up to the printed precision. */
  lemma ParseInvertsFormat(d: nat)
    requires d <= MAX_INT64
    ensures ParseDuration(DurationText(d)) == Some(Printed(d))
  {
    hide ParseDuration;
    if d == 0 {
      ZeroParses();
    } else if d < SECOND {
      MillisParse(d / MILLISECOND);
    } else {
      ClockParses(d / SECOND);
    }
  }

  lemma ZeroParses()
    ensures ParseDuration("0s") == Some(0)
  {
    hide ParseDuration;
    assert Part("0s", 's') && "0s"[..1] == "0";
    assert "" + "" + "0s" == "0s";
    assert ValueUpTo("0", 1) == 0;
    GrammarParses("", "", "0s");
  }

  /** A count and a unit read back as their product. */
  lemma UnitParses(ds: string, u: string)
    requires ds != "" && AllDigits(ds) && UnitText(u) && Value(ds) * UnitNanos(u) <= MAX_INT64
    ensures ParseDuration(ds + u) == Some(Value(ds) * UnitNanos(u))
  {
    hide Value, UnitNanos, ParseDuration, Segments, UnitText, AllDigits, IsDigit;
    var t := ds + u;
    UnitEnds(u);
    StartsWithDigit(ds);
    assert t[0] == ds[0] && t[|t| - 1] == u[|u| - 1] && ds + u + "" == t;
    UnsignedParse(t);
    SegmentStep(ds, u, "", 0);
    SegmentsEnd(Value(ds) * UnitNanos(u));
  }

  lemma StartsWithDigit(ds: string)
    requires ds != "" && AllDigits(ds)
    ensures IsDigit(ds[0])
  {
  }

  lemma UnitEnds(u: string)
    requires UnitText(u)
    ensures u != "" && !IsDigit(u[|u| - 1])
  {
  }

  lemma MillisParse(n: nat)
    requires n < 1000
    ensures ParseDuration(PrintNat(n) + "ms") == Some(n * MILLISECOND)
  {
    PrintNatValue(n);
    assert UnitText("ms") && UnitNanos("ms") == MILLISECOND;
    hide *;
    UnitParses(PrintNat(n), "ms");
  }

  /** Nanoseconds are accepted as well. */
  lemma NanosParse(n: nat)
    requires n <= MAX_INT64
    ensures ParseDuration(PrintNat(n) + "ns") == Some(n)
  {
    PrintNatValue(n);
    assert UnitText("ns") && UnitNanos("ns") == 1;
    hide *;
    UnitParses(PrintNat(n), "ns");
  }

  lemma ClockParses(seconds: nat)
    requires 0 < seconds && seconds * SECOND <= MAX_INT64
    ensures ParseDuration(ClockText(seconds)) == Some(seconds * SECOND)
  {
    hide *;
    var h, m, s := seconds / 3600, seconds / 60 % 60, seconds % 60;
    SplitSeconds(seconds, h, m, s);
    ClockTextIs(seconds, h, m, s);
    ComponentsParse(h, m, s);
  }

  lemma ClockTextIs(seconds: nat, h: nat, m: nat, s: nat)
    requires h == seconds / 3600 && m == seconds / 60 % 60 && s == seconds % 60
    ensures ClockText(seconds) == Component(h, "h") + Component(m, "m") + Component(s, "s")
  {
    hide Component;
  }

  lemma SplitSeconds(seconds: nat, h: nat, m: nat, s: nat)
    requires h == seconds / 3600 && m == seconds / 60 % 60 && s == seconds % 60
    ensures h * HOUR + m * MINUTE + s * SECOND == seconds * SECOND
    ensures seconds > 0 ==> h > 0 || m > 0 || s > 0
  {
    assert seconds == 3600 * h + 60 * m + s;
  }

  lemma ComponentsParse(h: nat, m: nat, s: nat)
    requires h > 0 || m > 0 || s > 0
    requires h * HOUR + m * MINUTE + s * SECOND <= MAX_INT64
    ensures ParseDuration(Component(h, "h") + Component(m, "m") + Component(s, "s"))
         == Some(h * HOUR + m * MINUTE + s * SECOND)
  {
    hide ParseDuration, PartNanos, PrintNat;
    ComponentPart(h, 'h');
    ComponentPart(m, 'm');
    ComponentPart(s, 's');
    NonEmptyClock(h, m, s);
    GrammarParses(Component(h, "h"), Component(m, "m"), Component(s, "s"));
  }

  lemma NonEmptyClock(h: nat, m: nat, s: nat)
    requires h > 0 || m > 0 || s > 0
    ensures Component(h, "h") + Component(m, "m") + Component(s, "s") != ""
  {
    hide PrintNat;
  }

  /** The form accepts exactly the printed durations that are zero or at least a second: "500ms" it rejects. */
  lemma FormAcceptsPrinted(d: nat)
    ensures ValidDuration(DurationText(d)) <==> d == 0 || d >= SECOND
  {
    var t := DurationText(d);
    if d == 0 {
      assert Part("0s", 's') by { assert "0s"[..1] == "0"; }
      assert Part("", 'h') && Part("", 'm') && "0s" == "" + "" + "0s";
    } else if d >= SECOND {
      ComponentPart(d / SECOND / 3600, 'h');
      ComponentPart(d / SECOND / 60 % 60, 'm');
      ComponentPart(d / SECOND % 60, 's');
    } else {
      forall h, m, s | Part(h, 'h') && Part(m, 'm') && Part(s, 's')
        ensures t != h + m + s
      {
        var v := h + m + s;
        assert s != "" ==> v[|v| - 2] == s[..|s| - 1][|s| - 2];
        assert t[|t| - 2] == 'm';
      }
    }
  }

  /** Printing what was parsed from the text gives the text back. */
  predicate Canonical(t: string) {
    ParseDuration(t).Some? && DurationText(ParseDuration(t).value) == t
  }

  /** Printing is a normal form: what is printed is canonical. */
  lemma PrintedIsCanonical(d: nat)
    requires d <= MAX_INT64
    ensures Canonical(DurationText(d)) <==> d == 0 || d >= MILLISECOND
  {
    hide ParseDuration;
    ParseInvertsFormat(d);
    if 0 < d < MILLISECOND {
      assert DurationText(d) == "0ms" by { assert d / MILLISECOND == 0; }
    } else if d < SECOND {
      assert Printed(d) / MILLISECOND == d / MILLISECOND;
    } else {
      assert Printed(d) / SECOND == d / SECOND;
    }
  }
}
