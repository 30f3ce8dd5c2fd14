/** Times of day and the search window they bound. */
module Window {
  import opened Core
  import opened Text
  import opened Settings

  const MINUTES_A_DAY := 1440

  /** inSearchWindow at local minute-of-day `now`; empty or malformed bounds mean always allowed. */
  function InSearchWindow(start: string, end: string, now: int): bool {
    if start == "" && end == "" then true
    else match (ParseHHMM(start), ParseHHMM(end))
      case (Some(s), Some(e)) => if s <= e then now >= s && now < e else now >= s || now < e
      case _ => true
  }

  lemma ParsedRange(v: string)
    ensures ParseHHMM(v).Some? ==> 0 <= ParseHHMM(v).value < MINUTES_A_DAY
  {
    hide Atoi;
  }

  /** How far a minute lies past s, going round the clock. */
  function Offset(n: int, s: int): int { (n - s) % MINUTES_A_DAY }

  lemma OffsetCases(n: int, s: int)
    requires 0 <= n < MINUTES_A_DAY && 0 <= s < MINUTES_A_DAY
    ensures Offset(n, s) == if n >= s then n - s else n - s + MINUTES_A_DAY
  {
  }

  /** The window is the circular interval from start to end: one test covers windows that cross midnight. */
  lemma WindowIsCircular(start: string, end: string, now: int)
    requires ParseHHMM(start).Some? && ParseHHMM(end).Some? && 0 <= now < MINUTES_A_DAY
    ensures var s, e := ParseHHMM(start).value, ParseHHMM(end).value;
            InSearchWindow(start, end, now) <==> Offset(now, s) < Offset(e, s)
  {
    ParsedRange(start);
    ParsedRange(end);
    assert ParseHHMM("").None?;
    OffsetCases(now, ParseHHMM(start).value);
    OffsetCases(ParseHHMM(end).value, ParseHHMM(start).value);
    hide ParseHHMM, Offset;
  }

  function Interval(s: int, length: int): set<int> {
    set n | 0 <= n < MINUTES_A_DAY && Offset(n, s) < length
  }

  lemma OffsetIsInjective(n: int, m: int, s: int)
    requires 0 <= n < MINUTES_A_DAY && 0 <= m < MINUTES_A_DAY && Offset(n, s) == Offset(m, s)
    ensures n == m
  {
  }

  lemma {:induction false} IntervalSize(s: int, length: nat)
    requires length <= MINUTES_A_DAY
    ensures |Interval(s, length)| == length
  {
    if length > 0 {
      IntervalSize(s, length - 1);
      var last := (s + length - 1) % MINUTES_A_DAY;
      assert Offset(last, s) == length - 1;
      forall n | 0 <= n < MINUTES_A_DAY && Offset(n, s) == length - 1
        ensures n == last
      {
        OffsetIsInjective(n, last, s);
      }
      hide Offset;
      assert Interval(s, length) == Interval(s, length - 1) + {last};
    } else {
      assert Interval(s, 0) == {};
    }
  }

  /** Exactly (end - start) mod 1440 minutes of a day are allowed. */
  lemma WindowSize(start: string, end: string)
    requires ParseHHMM(start).Some? && ParseHHMM(end).Some?
    ensures |set n | 0 <= n < MINUTES_A_DAY && InSearchWindow(start, end, n)|
         == Offset(ParseHHMM(end).value, ParseHHMM(start).value)
  {
    var s, e := ParseHHMM(start).value, ParseHHMM(end).value;
    forall n | 0 <= n < MINUTES_A_DAY {
      WindowIsCircular(start, end, n);
    }
    hide InSearchWindow, ParseHHMM, Offset;
    assert (set n | 0 <= n < MINUTES_A_DAY && InSearchWindow(start, end, n)) == Interval(s, Offset(e, s));
    OffsetIsMinute(e, s);
    IntervalSize(s, Offset(e, s));
  }

  lemma OffsetIsMinute(n: int, s: int)
    ensures 0 <= Offset(n, s) < MINUTES_A_DAY
  {
  }

  /** All day is allowed exactly when a bound is empty or malformed: no two proper bounds admit every minute. */
  lemma AlwaysOpen(start: string, end: string)
    ensures (forall n | 0 <= n < MINUTES_A_DAY :: InSearchWindow(start, end, n))
       <==> ParseHHMM(start).None? || ParseHHMM(end).None?
  {
    assert ParseHHMM("").None?;
    if ParseHHMM(start).Some? && ParseHHMM(end).Some? {
      var s, e := ParseHHMM(start).value, ParseHHMM(end).value;
      ParsedRange(start);
      ParsedRange(end);
      hide ParseHHMM;
      assert !InSearchWindow(start, end, e);
    }
    hide ParseHHMM;
  }

  /** Swapping two bounds gives the complement exactly when they denote different minutes. */
  lemma SwapIsComplement(start: string, end: string)
    requires ParseHHMM(start).Some? && ParseHHMM(end).Some?
    ensures ParseHHMM(start) != ParseHHMM(end)
       <==> forall n | 0 <= n < MINUTES_A_DAY :: InSearchWindow(start, end, n) != InSearchWindow(end, start, n)
  {
    ParsedRange(start);
    assert ParseHHMM("").None?;
    hide ParseHHMM;
    if ParseHHMM(start) == ParseHHMM(end) {
      assert InSearchWindow(start, end, 0) == InSearchWindow(end, start, 0);
    }
  }

  // ---------- the HH:MM texts ----------

  function PrintHHMM(m: int): string
    requires 0 <= m < MINUTES_A_DAY
  {
    [DigitOf(m / 60 / 10), DigitOf(m / 60 % 10), ':', DigitOf(m % 60 / 10), DigitOf(m % 60 % 10)]
  }

  /** The form's test `^([01]\d|2[0-3]):[0-5]\d$`; the empty text passes. */
  predicate ValidHHMM(v: string) {
    v == "" ||
    (|v| == 5 && v[2] == ':' && IsDigit(v[1]) && IsDigit(v[4]) && '0' <= v[3] <= '5' &&
     ('0' <= v[0] <= '1' || (v[0] == '2' && v[1] <= '3')))
  }

  /** Two characters that spell a number up to max without a sign. */
  predicate Plain(a: char, b: char, max: int) {
    IsDigit(a) && IsDigit(b) && 10 * (a as int - '0' as int) + (b as int - '0' as int) <= max
  }

  /** A sign and one digit that strconv.Atoi reads as a non-negative number. */
  predicate Signed(a: char, b: char) {
    (a == '+' && IsDigit(b)) || (a == '-' && b == '0')
  }

  lemma AtoiOfTwo(t: string)
    requires |t| == 2
    ensures Atoi(t) ==
      if IsDigit(t[0]) && IsDigit(t[1]) then Some(10 * (t[0] as int - '0' as int) + (t[1] as int - '0' as int))
      else if t[0] == '+' && IsDigit(t[1]) then Some(t[1] as int - '0' as int)
      else if t[0] == '-' && IsDigit(t[1]) then Some('0' as int - t[1] as int)
      else None
  {
    if IsDigit(t[0]) && IsDigit(t[1]) {
      assert ValueUpTo(t, 1) == t[0] as int - '0' as int;
      assert Value(t) == 10 * ValueUpTo(t, 1) + (t[1] as int - '0' as int);
    } else if t[0] in {'+', '-'} {
      assert t[1..] == [t[1]];
      if IsDigit(t[1]) {
        assert ValueUpTo(t[1..], 1) == t[1] as int - '0' as int;
      }
    }
  }

  /** The parser accepts the form's texts and, beyond them, exactly those with a signed one-digit half ("+5:30"). */
  lemma ParseAccepts(v: string)
    requires v != ""
    ensures ParseHHMM(v).Some? <==>
      |v| == 5 && v[2] == ':' && (Plain(v[0], v[1], 23) || Signed(v[0], v[1]))
      && (Plain(v[3], v[4], 59) || Signed(v[3], v[4]))
    ensures ParseHHMM(v).Some? && (Signed(v[0], v[1]) || Signed(v[3], v[4])) <==> ParseHHMM(v).Some? && !ValidHHMM(v)
    ensures ValidHHMM(v) ==> ParseHHMM(v).Some?
  {
    if |v| == 5 {
      AtoiOfTwo(v[..2]);
      AtoiOfTwo(v[3..]);
      hide Atoi;
    }
  }

  /** Parsing inverts two-digit printing. */
  lemma ParseInvertsPrint(m: int)
    requires 0 <= m < MINUTES_A_DAY
    ensures ParseHHMM(PrintHHMM(m)) == Some(m) && ValidHHMM(PrintHHMM(m))
  {
    var v := PrintHHMM(m);
    AtoiOfTwo(v[..2]);
    AtoiOfTwo(v[3..]);
    hide Atoi;
  }

  function TwoDigitValue(a: char, b: char): int { 10 * (a as int - '0' as int) + (b as int - '0' as int) }

  lemma DigitsPrintBack(a: char, b: char)
    requires IsDigit(a) && IsDigit(b)
    ensures 0 <= TwoDigitValue(a, b) < 100
    ensures DigitOf(TwoDigitValue(a, b) / 10) == a && DigitOf(TwoDigitValue(a, b) % 10) == b
  {
  }

  lemma FormTextParses(v: string)
    requires v != "" && ValidHHMM(v)
    ensures TwoDigitValue(v[0], v[1]) < 24 && TwoDigitValue(v[3], v[4]) < 60
    ensures ParseHHMM(v) == Some(60 * TwoDigitValue(v[0], v[1]) + TwoDigitValue(v[3], v[4]))
  {
    AtoiOfTwo(v[..2]);
    AtoiOfTwo(v[3..]);
    hide Atoi;
  }

  lemma PrintInvertsFormText(v: string)
    requires v != "" && ValidHHMM(v)
    ensures ParseHHMM(v).Some? && 0 <= ParseHHMM(v).value < MINUTES_A_DAY && PrintHHMM(ParseHHMM(v).value) == v
  {
    FormTextParses(v);
    DigitsPrintBack(v[0], v[1]);
    DigitsPrintBack(v[3], v[4]);
    var h, m := TwoDigitValue(v[0], v[1]), TwoDigitValue(v[3], v[4]);
    hide TwoDigitValue, ParseHHMM, DigitOf;
    assert (60 * h + m) / 60 == h && (60 * h + m) % 60 == m;
  }

  /** The number two characters spell: digits, or a sign and a digit. */
  function HalfValue(a: char, b: char): int { if IsDigit(a) then TwoDigitValue(a, b) else b as int - '0' as int }

  /** The minute a text denotes. */
  lemma ParsedMinute(v: string)
    requires ParseHHMM(v).Some?
    ensures |v| == 5 && ParseHHMM(v).value == 60 * HalfValue(v[0], v[1]) + HalfValue(v[3], v[4])
  {
    AtoiOfTwo(v[..2]);
    AtoiOfTwo(v[3..]);
    hide Atoi;
  }

  /** Parsing loses nothing exactly on the form's own texts: printing the minute gives the text back. */
  lemma PrintInvertsParse(v: string)
    requires v != ""
    ensures ParseHHMM(v).Some? ==> 0 <= ParseHHMM(v).value < MINUTES_A_DAY
    ensures ParseHHMM(v).Some? && PrintHHMM(ParseHHMM(v).value) == v <==> ValidHHMM(v)
  {
    hide ParseHHMM, ValidHHMM, PrintHHMM;
    ParsedRange(v);
    if ValidHHMM(v) {
      PrintInvertsFormText(v);
    }
    if ParseHHMM(v).Some? {
      ParseInvertsPrint(ParseHHMM(v).value);
    }
  }

  /** Two texts of one minute, of which the form has only the second. */
  lemma SignedHalfIsAnotherText()
    ensures ParseHHMM("+5:30") == ParseHHMM("05:30") == Some(330)
    ensures !ValidHHMM("+5:30") && ValidHHMM("05:30")
  {
    assert "+5:30"[..2] == "+5" && "+5:30"[3..] == "30" && "05:30"[..2] == "05" && "05:30"[3..] == "30";
    AtoiOfTwo("+5");
    AtoiOfTwo("05");
    AtoiOfTwo("30");
    hide Atoi;
  }
}
