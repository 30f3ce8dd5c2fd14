/** Which duration texts come back unchanged after being parsed and printed, read off the text alone. */
module CanonicalDurations {
  import opened Core
  import opened Text
  import opened Durations

  // ---------- normal texts ----------

  /** Absent, or a count without leading zeros, below sixty unless it counts hours. */
  predicate NormalPart(p: string, u: char) {
    p == "" || (Part(p, u) && p[0] != '0' && (u != 'h' ==> Value(p[..|p| - 1]) < 60))
  }

  predicate NormalParts(h: string, m: string, s: string) {
    NormalPart(h, 'h') && NormalPart(m, 'm') && NormalPart(s, 's')
  }

  /** Hours, minutes and seconds in this order, each normal, not all absent. */
  predicate NormalClock(t: string) {
    t != "" && exists i, j :: 0 <= i <= j <= |t| && NormalParts(t[..i], t[i..j], t[j..])
  }

  /** One to 999 milliseconds, without leading zeros. */
  predicate NormalMillis(t: string) {
    |t| >= 3 && t[|t| - 2..] == "ms" && AllDigits(t[..|t| - 2]) && t[0] != '0' && Value(t[..|t| - 2]) < 1000
  }

  predicate Normal(t: string) { NormalClock(t) || NormalMillis(t) }

  // ---------- digits without leading zeros ----------

  /** Printing inverts reading on digits without a leading zero. */
  lemma {:induction false} PrintInvertsValue(ds: string)
    requires ds != "" && AllDigits(ds) && ds[0] != '0'
    ensures Value(ds) > 0 && PrintNat(Value(ds)) == ds
  {
    var n := |ds| - 1;
    var front := ds[..n];
    if n == 0 {
      assert ValueUpTo(ds, 1) == 10 * ValueUpTo(ds, 0) + (ds[0] as int - '0' as int);
    } else {
      PrintInvertsValue(front);
      ValueOfPrefix(front, ds, n);
      assert Value(ds) == 10 * Value(front) + (ds[n] as int - '0' as int);
      assert ds == front + [ds[n]];
    }
  }

  lemma {:induction false} NoLeadingZero(n: nat)
    requires n > 0
    ensures PrintNat(n) != "" && PrintNat(n)[0] != '0'
  {
    if n >= 10 {
      NoLeadingZero(n / 10);
    }
  }

  function PartCount(p: string, u: char): nat
    requires Part(p, u)
  {
    if p == "" then 0 else Value(p[..|p| - 1])
  }

  lemma NormalPartIsPrinted(p: string, u: char)
    requires NormalPart(p, u) && UnitText([u])
    ensures Part(p, u) && p == Component(PartCount(p, u), [u]) && PartNanos(p, u) == PartCount(p, u) * UnitNanos([u])
    ensures (u != 'h' ==> PartCount(p, u) < 60) && (p != "" ==> PartCount(p, u) > 0)
  {
    if p != "" {
      PrintInvertsValue(p[..|p| - 1]);
      hide PrintNat;
      assert p == p[..|p| - 1] + [u];
    }
  }

  lemma PrintedPartIsNormal(n: nat, u: char)
    requires UnitText([u]) && (u != 'h' ==> n < 60)
    ensures NormalPart(Component(n, [u]), u)
  {
    if n > 0 {
      NoLeadingZero(n);
      PrintNatValue(n);
      hide PrintNat;
      var p := Component(n, [u]);
      assert p[..|p| - 1] == PrintNat(n) && p[0] == PrintNat(n)[0];
    }
  }

  // ---------- normal texts are canonical ----------

  lemma NormalClockIsCanonical(h: string, m: string, s: string)
    requires NormalPart(h, 'h') && NormalPart(m, 'm') && NormalPart(s, 's')
    requires h + m + s != "" && ParseDuration(h + m + s).Some?
    ensures Canonical(h + m + s)
  {
    hide *;
    UnitValues();
    NormalPartIsPrinted(h, 'h');
    NormalPartIsPrinted(m, 'm');
    NormalPartIsPrinted(s, 's');
    GrammarParses(h, m, s);
    PrintedClock(PartCount(h, 'h'), PartCount(m, 'm'), PartCount(s, 's'));
    IsCanonical(h + m + s);
  }

  lemma IsCanonical(t: string)
    requires ParseDuration(t).Some? && DurationText(ParseDuration(t).value) == t
    ensures Canonical(t)
  {
  }

  lemma UnitValues()
    ensures UnitText(['h']) && UnitNanos(['h']) == HOUR
    ensures UnitText(['m']) && UnitNanos(['m']) == MINUTE
    ensures UnitText(['s']) && UnitNanos(['s']) == SECOND
  {
  }

  lemma PrintedClock(h: nat, m: nat, s: nat)
    requires m < 60 && s < 60 && (h > 0 || m > 0 || s > 0)
    ensures DurationText(h * HOUR + m * MINUTE + s * SECOND)
         == Component(h, "h") + Component(m, "m") + Component(s, "s")
  {
    hide PrintNat, Component;
    var seconds := h * 3600 + m * 60 + s;
    assert h * HOUR + m * MINUTE + s * SECOND == seconds * SECOND;
    assert seconds / 3600 == h && seconds / 60 == h * 60 + m && seconds % 60 == s;
    assert seconds / 60 % 60 == m;
    assert seconds * SECOND / SECOND == seconds;
  }

  lemma NormalMillisIsCanonical(t: string)
    requires NormalMillis(t)
    ensures Canonical(t)
  {
    var ds := t[..|t| - 2];
    PrintInvertsValue(ds);
    MillisParse(Value(ds));
    assert t == ds + "ms";
    assert Value(ds) * MILLISECOND / MILLISECOND == Value(ds);
    hide ParseDuration, PrintNat, Value;
  }

  // ---------- canonical texts are normal ----------

  lemma CanonicalIsNormal(t: string)
    requires Canonical(t) && t != "0s"
    ensures Normal(t)
  {
    var d := ParseDuration(t).value;
    assert ParseDuration("").None?;
    if d < SECOND {
      var n := d / MILLISECOND;
      MillisParse(n);
      hide ParseDuration, NormalClock;
      PrintNatValue(n);
      assert n > 0;
      NoLeadingZero(n);
      hide PrintNat;
      assert t[..|t| - 2] == PrintNat(n) && t[|t| - 2..] == "ms";
    } else {
      hide ParseDuration, NormalMillis, PrintNat;
      PrintedIsNormalClock(d / SECOND);
    }
  }

  lemma PrintedIsNormalClock(seconds: nat)
    requires seconds > 0
    ensures NormalClock(ClockText(seconds))
  {
    var ch, cm, cs := seconds / 3600, seconds / 60 % 60, seconds % 60;
    PrintedPartIsNormal(ch, 'h');
    PrintedPartIsNormal(cm, 'm');
    PrintedPartIsNormal(cs, 's');
    SplitSeconds(seconds, ch, cm, cs);
    NonEmptyClock(ch, cm, cs);
    var h, m, s, t := Component(ch, "h"), Component(cm, "m"), Component(cs, "s"), ClockText(seconds);
    hide Component, NormalPart, PrintNat;
    assert t == h + m + s;
    var i, j := |h|, |h| + |m|;
    assert t[..i] == h && t[i..j] == m && t[j..] == s;
    assert NormalParts(t[..i], t[i..j], t[j..]);
  }

  /** A text the server parses is canonical exactly when it is "0s" or normal. */
  lemma CanonicalTexts(t: string)
    ensures Canonical(t) <==> ParseDuration(t).Some? && (t == "0s" || Normal(t))
  {
    hide *;
    if t == "0s" {
      ZeroParses();
      ZeroIsCanonical();
    } else if Canonical(t) {
      CanonicalIsNormal(t);
      CanonicalParses(t);
    } else if Normal(t) {
      if ParseDuration(t).Some? {
        NormalIsCanonical(t);
      }
    }
  }

  lemma ZeroIsCanonical()
    ensures Canonical("0s")
  {
    ZeroParses();
    hide ParseDuration;
  }

  lemma CanonicalParses(t: string)
    requires Canonical(t)
    ensures ParseDuration(t).Some?
  {
    hide ParseDuration;
  }

  lemma NormalIsCanonical(t: string)
    requires Normal(t) && ParseDuration(t).Some?
    ensures Canonical(t)
  {
    hide Canonical, ParseDuration, NormalPart, NormalMillis;
    if NormalClock(t) {
      var i, j :| 0 <= i <= j <= |t| && NormalParts(t[..i], t[i..j], t[j..]);
      assert t == t[..i] + t[i..j] + t[j..];
      NormalClockIsCanonical(t[..i], t[i..j], t[j..]);
    } else {
      NormalMillisIsCanonical(t);
    }
  }

  // ---------- on the form's own texts ----------

  /** A unit that occurs in the first part only marks where it ends. */
  lemma UnitMarksEnd(p: string, rest: string, u: char)
    requires Part(p, u) && !IsDigit(u) && u !in rest
    ensures forall k :: 0 <= k < |p + rest| ==> ((p + rest)[k] == u <==> k == |p| - 1)
  {
    forall k | 0 <= k < |p + rest|
      ensures (p + rest)[k] == u <==> k == |p| - 1
    {
      if k < |p| - 1 {
        assert (p + rest)[k] == p[..|p| - 1][k];
      }
    }
  }

  lemma FirstPartIsUnique(p: string, rest: string, p': string, rest': string, u: char)
    requires Part(p, u) && Part(p', u) && !IsDigit(u) && p + rest == p' + rest'
    requires u !in rest && u !in rest'
    ensures p == p' && rest == rest'
  {
    var t := p + rest;
    UnitMarksEnd(p, rest, u);
    UnitMarksEnd(p', rest', u);
    assert |p| > 0 ==> t[|p| - 1] == u;
    assert |p'| > 0 ==> t[|p'| - 1] == u;
    assert |p| == |p'|;
    assert t[..|p|] == p == p' && t[|p|..] == rest == rest';
  }

  lemma PartHasOwnUnit(p: string, u: char, other: char)
    requires Part(p, u) && other != u && !IsDigit(other)
    ensures other !in p
  {
    forall k | 0 <= k < |p|
      ensures p[k] != other
    {
      if k < |p| - 1 {
        assert p[k] == p[..|p| - 1][k];
      }
    }
  }

  lemma SplitIsUnique(h: string, m: string, s: string, h': string, m': string, s': string)
    requires Part(h, 'h') && Part(m, 'm') && Part(s, 's') && Part(h', 'h') && Part(m', 'm') && Part(s', 's')
    requires h + m + s == h' + m' + s'
    ensures h == h' && m == m' && s == s'
  {
    hide *;
    AreUnits();
    PartHasOwnUnit(m, 'm', 'h');
    PartHasOwnUnit(s, 's', 'h');
    PartHasOwnUnit(s, 's', 'm');
    PartHasOwnUnit(m', 'm', 'h');
    PartHasOwnUnit(s', 's', 'h');
    PartHasOwnUnit(s', 's', 'm');
    NotInEither('h', m, s);
    NotInEither('h', m', s');
    assert h + (m + s) == h + m + s && h' + (m' + s') == h' + m' + s';
    FirstPartIsUnique(h, m + s, h', m' + s', 'h');
    FirstPartIsUnique(m, s, m', s', 'm');
  }

  lemma AreUnits()
    ensures !IsDigit('h') && !IsDigit('m') && !IsDigit('s')
  {
  }

  lemma NotInEither(c: char, a: string, b: string)
    requires c !in a && c !in b
    ensures c !in a + b
  {
  }

  /** A text of the form's grammar, in its one split into parts, is canonical exactly when it is "0s", or its parts have
      no leading zeros, fewer than sixty minutes and seconds, and fit in int64: "1h30m" is, "90m" and "05m" are not. */
  lemma CanonicalParts(h: string, m: string, s: string)
    requires Part(h, 'h') && Part(m, 'm') && Part(s, 's') && h + m + s != ""
    ensures Canonical(h + m + s) <==>
      h + m + s == "0s" ||
      (NormalParts(h, m, s) && PartNanos(h, 'h') + PartNanos(m, 'm') + PartNanos(s, 's') <= MAX_INT64)
  {
    hide Canonical, PartNanos, ParseDuration, Part, NormalParts, NormalClock, NormalMillis;
    CanonicalTexts(h + m + s);
    GrammarParses(h, m, s);
    GrammarHasNoMillis(h, m, s);
    NormalClockParts(h, m, s);
    ZeroParses();
  }

  lemma NormalClockParts(h: string, m: string, s: string)
    requires Part(h, 'h') && Part(m, 'm') && Part(s, 's') && h + m + s != ""
    ensures NormalClock(h + m + s) <==> NormalParts(h, m, s)
  {
    hide NormalPart, Part;
    var t := h + m + s;
    if NormalClock(t) {
      var i, j :| 0 <= i <= j <= |t| && NormalParts(t[..i], t[i..j], t[j..]);
      assert t[..i] + t[i..j] + t[j..] == t;
      NormalPartIsPart(t[..i], 'h');
      NormalPartIsPart(t[i..j], 'm');
      NormalPartIsPart(t[j..], 's');
      SplitIsUnique(h, m, s, t[..i], t[i..j], t[j..]);
    }
    var i, j := |h|, |h| + |m|;
    assert t[..i] == h && t[i..j] == m && t[j..] == s;
  }

  lemma NormalPartIsPart(p: string, u: char)
    requires NormalPart(p, u)
    ensures Part(p, u)
  {
  }

  lemma GrammarHasNoMillis(h: string, m: string, s: string)
    requires Part(h, 'h') && Part(m, 'm') && Part(s, 's')
    ensures !NormalMillis(h + m + s)
  {
    var t := h + m + s;
    GrammarEnds(h, m, s);
    assert |t| >= 2 ==> t[|t| - 2..] == [t[|t| - 2], t[|t| - 1]];
    hide Part, Value, AllDigits;
  }

  lemma GrammarEnds(h: string, m: string, s: string)
    requires Part(h, 'h') && Part(m, 'm') && Part(s, 's')
    ensures var t := h + m + s; |t| >= 2 ==> !(t[|t| - 2] == 'm' && t[|t| - 1] == 's')
  {
    var t := h + m + s;
    if s != "" {
      PartEnds(s, 's');
      assert t[|t| - 2] == s[|s| - 2];
    } else if m != "" {
      PartEnds(m, 'm');
      assert t[|t| - 1] == m[|m| - 1];
    } else if h != "" {
      PartEnds(h, 'h');
      assert t[|t| - 1] == h[|h| - 1];
    }
    hide Part;
  }

  lemma PartEnds(p: string, u: char)
    requires Part(p, u) && p != ""
    ensures |p| >= 2 && p[|p| - 1] == u && IsDigit(p[|p| - 2])
  {
    assert p[|p| - 2] == p[..|p| - 1][|p| - 2];
  }

  // ---------- particular texts ----------

  lemma TwoDigits(n: nat)
    requires 10 <= n < 100
    ensures PrintNat(n) == [DigitOf(n / 10), DigitOf(n % 10)]
  {
    assert PrintNat(n / 10) == [DigitOf(n / 10)];
  }

  lemma NinetyMinutesPart()
    ensures Part("90m", 'm') && PartNanos("90m", 'm') == 90 * MINUTE && !NormalPart("90m", 'm')
    ensures Part("", 'h') && PartNanos("", 'h') == 0 && Part("", 's') && PartNanos("", 's') == 0
  {
    var t := "90m";
    assert t[..|t| - 1] == "90" && ValueUpTo("90", 1) == 9;
    assert Value("90") == 90;
  }

  /** "90m" is in the form's grammar and means ninety minutes, but is printed as "1h30m". */
  lemma NinetyMinutes()
    ensures ValidDuration("90m") && ParseDuration("90m") == Some(90 * MINUTE)
    ensures !Normal("90m") && DurationText(90 * MINUTE) == "1h30m"
  {
    hide ParseDuration, PartNanos, Part, NormalPart, DurationText, NormalClock, NormalMillis, PrintNat;
    NinetyMinutesPart();
    assert "" + "90m" + "" == "90m";
    GrammarParses("", "90m", "");
    GrammarHasNoMillis("", "90m", "");
    NormalClockParts("", "90m", "");
    PrintedClock(1, 30, 0);
    ClockTexts();
  }

  lemma ClockTexts()
    ensures Component(0, "h") == "" && Component(1, "h") == "1h"
    ensures Component(30, "m") == "30m" && Component(0, "s") == ""
  {
    TwoDigits(30);
    assert PrintNat(1) == "1";
    hide PrintNat;
  }

  /** Half a second is read from "500ms" and printed so, but the form's grammar has no such text. */
  lemma HalfSecond()
    ensures ParseDuration("500ms") == Some(500 * MILLISECOND) && DurationText(500 * MILLISECOND) == "500ms"
    ensures !ValidDuration("500ms")
  {
    hide ParseDuration, ValidDuration;
    TwoDigits(50);
    assert PrintNat(500) == PrintNat(50) + "0";
    hide PrintNat;
    assert PrintNat(500) + "ms" == "500ms";
    MillisParse(500);
    FormAcceptsPrinted(500 * MILLISECOND);
  }
}
