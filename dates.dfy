/**
 * Civil dates and the normalisation of the date texts found on a detail page.
 *
 * The crawler compares the date of a title with the day boundary "today"
 * (midnight in Korean time). Both sides are modelled as calendar days, so
 * the comparison is a comparison of (year, month, day) triples.
 */
module Dates {
  import opened Wrappers

  datatype CivilDate = CivilDate(year: int, month: int, day: int)

  predicate IsLeapYear(y: int) {
    y % 4 == 0 && (y % 100 != 0 || y % 400 == 0)
  }

  function DaysInMonth(y: int, m: int): (n: int)
    requires 1 <= m <= 12
    ensures 28 <= n <= 31
    ensures n == 29 <==> m == 2 && IsLeapYear(y)
  {
    if m == 2 then (if IsLeapYear(y) then 29 else 28)
    else if m == 4 || m == 6 || m == 9 || m == 11 then 30
    else 31
  }

  /** A date that exists in the proleptic Gregorian calendar. */
  predicate ValidDate(d: CivilDate) {
    1 <= d.month <= 12 && 1 <= d.day <= DaysInMonth(d.year, d.month)
  }

  /** `a` is a strictly earlier calendar day than `b`. */
  predicate Before(a: CivilDate, b: CivilDate) {
    a.year < b.year
    || (a.year == b.year && a.month < b.month)
    || (a.year == b.year && a.month == b.month && a.day < b.day)
  }

  lemma BeforeIsStrictTotalOrder(a: CivilDate, b: CivilDate, c: CivilDate)
    ensures !Before(a, a)
    ensures Before(a, b) ==> !Before(b, a)
    ensures Before(a, b) && Before(b, c) ==> Before(a, c)
    ensures a == b || Before(a, b) || Before(b, a)
  {
  }

  // ---------------------------------------------------------------------
  // Stripping a registration-date text to digits and dots

  predicate IsDigit(c: char) {
    '0' <= c <= '9'
  }

  /** The characters kept by the series registration-date cleanup. */
  predicate IsDateChar(c: char) {
    IsDigit(c) || c == '.'
  }

  predicate AllDateChars(s: string) {
    forall i :: 0 <= i < |s| ==> IsDateChar(s[i])
  }

  /** Removes every character that is neither an ASCII digit nor a dot. */
  function StripDateText(s: string): (r: string)
    ensures |r| <= |s|
    ensures AllDateChars(r)
  {
    if s == [] then []
    else if IsDateChar(s[0]) then [s[0]] + StripDateText(s[1..])
    else StripDateText(s[1..])
  }

  lemma {:induction false} StripAppend(a: string, b: string)
    ensures StripDateText(a + b) == StripDateText(a) + StripDateText(b)
  {
    if a == [] {
      assert a + b == b;
    } else {
      assert (a + b)[0] == a[0];
      assert (a + b)[1..] == a[1..] + b;
      StripAppend(a[1..], b);
    }
  }

  /** A text made of digits and dots only is left as it is. */
  lemma {:induction false} StripKeepsDateText(s: string)
    requires AllDateChars(s)
    ensures StripDateText(s) == s
  {
    if s != [] {
      assert AllDateChars(s[1..]) by {
        forall i | 0 <= i < |s[1..]| ensures IsDateChar(s[1..][i]) {
          assert s[1..][i] == s[i + 1];
        }
      }
      StripKeepsDateText(s[1..]);
    }
  }

  /** Stripping twice is the same as stripping once. */
  lemma StripIdempotent(s: string)
    ensures StripDateText(StripDateText(s)) == StripDateText(s)
  {
    StripKeepsDateText(StripDateText(s));
  }

  /** A text with no digit and no dot is removed entirely. */
  lemma {:induction false} StripRemovesNoise(s: string)
    requires forall i :: 0 <= i < |s| ==> !IsDateChar(s[i])
    ensures StripDateText(s) == []
  {
    if s != [] {
      assert forall i :: 0 <= i < |s[1..]| ==> !IsDateChar(s[1..][i]) by {
        forall i | 0 <= i < |s[1..]| ensures !IsDateChar(s[1..][i]) {
          assert s[1..][i] == s[i + 1];
        }
      }
      StripRemovesNoise(s[1..]);
    }
  }

  /** Every digit and every dot of the input survives, and nothing else: counts agree. */
  lemma {:induction false} StripKeepsEveryDateChar(s: string, c: char)
    ensures IsDateChar(c) ==> multiset(StripDateText(s))[c] == multiset(s)[c]
    ensures !IsDateChar(c) ==> multiset(StripDateText(s))[c] == 0
  {
    if s != [] {
      assert s == [s[0]] + s[1..];
      StripKeepsEveryDateChar(s[1..], c);
    }
  }

  // ---------------------------------------------------------------------
  // Decimal digits

  predicate AllDigits(s: string) {
    forall i :: 0 <= i < |s| ==> IsDigit(s[i])
  }

  function DigitValue(c: char): nat
    requires IsDigit(c)
  {
    (c as int - '0' as int) as nat
  }

  function DigitChar(n: nat): (c: char)
    requires n < 10
    ensures IsDigit(c) && DigitValue(c) == n
  {
    (n + '0' as int) as char
  }

  /** The number written by a string of decimal digits, most significant first. */
  function DecimalValue(s: string): nat
    requires AllDigits(s)
    decreases |s|
  {
    if s == [] then 0
    else DecimalValue(s[..|s| - 1]) * 10 + DigitValue(s[|s| - 1])
  }

  function Pow10(k: nat): (p: nat)
    ensures p >= 1
  {
    if k == 0 then 1 else 10 * Pow10(k - 1)
  }

  /** `n` written with exactly `width` digits: leading zeros added, higher digits dropped. */
  function PadDecimal(n: nat, width: nat): (s: string)
    ensures |s| == width && AllDigits(s)
  {
    if width == 0 then [] else PadDecimal(n / 10, width - 1) + [DigitChar(n % 10)]
  }

  lemma {:induction false} DecimalValueBound(s: string)
    requires AllDigits(s)
    ensures DecimalValue(s) < Pow10(|s|)
  {
    if s != [] {
      DecimalValueBound(s[..|s| - 1]);
    }
  }

  lemma {:induction false} DecimalOfPad(n: nat, width: nat)
    requires n < Pow10(width)
    ensures DecimalValue(PadDecimal(n, width)) == n
  {
    if width > 0 {
      var s := PadDecimal(n, width);
      assert s[..|s| - 1] == PadDecimal(n / 10, width - 1);
      assert s[|s| - 1] == DigitChar(n % 10);
      DecimalOfPad(n / 10, width - 1);
    }
  }

  lemma {:induction false} PadOfDecimal(s: string)
    requires AllDigits(s)
    ensures PadDecimal(DecimalValue(s), |s|) == s
  {
    if s != [] {
      var init := s[..|s| - 1];
      var last := DigitValue(s[|s| - 1]);
      var n := DecimalValue(s);
      assert n == DecimalValue(init) * 10 + last;
      assert n / 10 == DecimalValue(init) && n % 10 == last;
      PadOfDecimal(init);
      assert DigitChar(last) == s[|s| - 1];
      assert s == init + [s[|s| - 1]];
    }
  }

  // ---------------------------------------------------------------------
  // The yyyy.mm.dd[.] form

  /** "yyyy.mm.dd": the year in four digits, month and day in two. */
  function FormatDay(d: CivilDate): (s: string)
    requires 0 <= d.year && 0 <= d.month && 0 <= d.day
    ensures |s| == 10 && AllDateChars(s)
  {
    PadDecimal(d.year, 4) + "." + PadDecimal(d.month, 2) + "." + PadDecimal(d.day, 2)
  }

  /** The form the store shows dates in: "yyyy.mm.dd." */
  function FormatDate(d: CivilDate): (s: string)
    requires 0 <= d.year && 0 <= d.month && 0 <= d.day
    ensures |s| == 11 && AllDateChars(s)
  {
    FormatDay(d) + "."
  }

  /** Ten characters: four digits, a dot, two digits, a dot, two digits. */
  predicate IsDateShape(t: string) {
    |t| == 10 && t[4] == '.' && t[7] == '.'
    && AllDigits(t[..4]) && AllDigits(t[5..7]) && AllDigits(t[8..])
  }

  /** The (possibly nonexistent) date that a text of the right shape names. */
  function DateOfShape(t: string): (d: CivilDate)
    requires IsDateShape(t)
    ensures 0 <= d.year < 10000 && 0 <= d.month && 0 <= d.day
  {
    DecimalValueBound(t[..4]);
    CivilDate(DecimalValue(t[..4]), DecimalValue(t[5..7]), DecimalValue(t[8..]))
  }

  lemma ShapeIsFormatted(t: string)
    requires IsDateShape(t)
    ensures FormatDay(DateOfShape(t)) == t
  {
    PadOfDecimal(t[..4]);
    PadOfDecimal(t[5..7]);
    PadOfDecimal(t[8..]);
    assert t == t[..4] + "." + t[5..7] + "." + t[8..];
  }

  lemma {:induction false} FormattedIsShape(d: CivilDate)
    requires 0 <= d.year < 10000 && 0 <= d.month < 100 && 0 <= d.day < 100
    ensures IsDateShape(FormatDay(d)) && DateOfShape(FormatDay(d)) == d
  {
    var t := FormatDay(d);
    var y, m, dd := PadDecimal(d.year, 4), PadDecimal(d.month, 2), PadDecimal(d.day, 2);
    assert t[..4] == y && t[5..7] == m && t[8..] == dd;
    DecimalOfPad(d.year, 4);
    DecimalOfPad(d.month, 2);
    DecimalOfPad(d.day, 2);
  }

  /**
   * Parses "yyyy.mm.dd" or "yyyy.mm.dd." into a calendar date; None when the
   * text has another shape or names a day that does not exist.
   */
  function ParseDate(s: string): (r: Option<CivilDate>)
    ensures r.Some? ==> ValidDate(r.value) && 0 <= r.value.year < 10000
    ensures r.Some? ==> s == FormatDate(r.value) || s == FormatDay(r.value)
  {
    var t := if |s| == 11 && s[10] == '.' then s[..10] else s;
    if IsDateShape(t) && ValidDate(DateOfShape(t)) then
      ShapeIsFormatted(t);
      assert s == t || s == t + ".";
      Some(DateOfShape(t))
    else None
  }

  /**
   * Reading back a formatted date, with or without the trailing dot, gives
   * the date exactly when it exists, and nothing otherwise.
   */
  lemma ParseFormatDate(d: CivilDate)
    requires 0 <= d.year < 10000 && 0 <= d.month < 100 && 0 <= d.day < 100
    ensures ParseDate(FormatDate(d)) == if ValidDate(d) then Some(d) else None
    ensures ParseDate(FormatDay(d)) == if ValidDate(d) then Some(d) else None
  {
    FormattedIsShape(d);
    assert FormatDate(d)[..10] == FormatDay(d);
  }

  /** A date that does not exist is rejected even in the right shape. */
  lemma NonexistentDayRejected()
    ensures ParseDate(FormatDate(CivilDate(2025, 2, 29))) == None
    ensures ParseDate(FormatDate(CivilDate(2025, 4, 31))) == None
  {
    ParseFormatDate(CivilDate(2025, 2, 29));
    ParseFormatDate(CivilDate(2025, 4, 31));
  }

  /** The leap day of a leap year is accepted. */
  lemma LeapDayAccepted()
    ensures ParseDate("2024.02.29.") == Some(CivilDate(2024, 2, 29))
  {
    var t := "2024.02.29";
    assert "2024.02.29."[..10] == t;
    assert t[..4] == "2024" && t[5..7] == "02" && t[8..] == "29";
    assert "2024"[..3] == "202" && "202"[..2] == "20" && "20"[..1] == "2" && "2"[..0] == "";
    assert DecimalValue("2024") == 2024;
    assert "02"[..1] == "0" && "0"[..0] == "" && DecimalValue("02") == 2;
    assert "29"[..1] == "2" && DecimalValue("29") == 29;
  }

  /**
   * A registration-date text that surrounds a formatted date with labels
   * (no digits, no dots) normalises to that date.
   */
  lemma NoisyRegDateParses(before: string, d: CivilDate, after: string)
    requires forall i :: 0 <= i < |before| ==> !IsDateChar(before[i])
    requires forall i :: 0 <= i < |after| ==> !IsDateChar(after[i])
    requires ValidDate(d) && 0 <= d.year < 10000
    ensures ParseDate(StripDateText(before + FormatDate(d) + after)) == Some(d)
  {
    StripAppend(before + FormatDate(d), after);
    StripAppend(before, FormatDate(d));
    StripRemovesNoise(before);
    StripRemovesNoise(after);
    StripKeepsDateText(FormatDate(d));
    assert [] + FormatDate(d) + [] == FormatDate(d);
    ParseFormatDate(d);
  }
}
