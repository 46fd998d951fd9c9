/** The three format and range validators of the store (AnDson_personal_api/_funcs.py).
    Strings are sequences of characters; the regular expressions `^\d{4}-\d{2}$` and
    `^\d{4}-\d{2}-\d{2}$` are read over ASCII digits. */
module Formats {

  predicate IsDigit(c: char) { '0' <= c <= '9' }

  predicate AllDigits(s: string) { forall i :: 0 <= i < |s| ==> IsDigit(s[i]) }

  /** Python's `int(...)` applied to a string of decimal digits. */
  function NumeralValue(s: string): nat
    requires AllDigits(s)
    decreases |s|
  {
    if s == [] then 0 else NumeralValue(s[..|s| - 1]) * 10 + (s[|s| - 1] as int - '0' as int)
  }

  function Pow10(k: nat): nat { if k == 0 then 1 else 10 * Pow10(k - 1) }

  /** The decimal numeral of `n` in exactly `width` digits, zero padded (the inverse of NumeralValue). */
  function Numeral(n: nat, width: nat): (s: string)
    ensures |s| == width && AllDigits(s)
  {
    if width == 0 then [] else Numeral(n / 10, width - 1) + [('0' as int + n % 10) as char]
  }

  lemma {:induction false} NumeralRoundTrip(n: nat, width: nat)
    requires n < Pow10(width)
    ensures NumeralValue(Numeral(n, width)) == n
  {
    if width > 0 {
      var s := Numeral(n, width);
      assert s[..|s| - 1] == Numeral(n / 10, width - 1);
      NumeralRoundTrip(n / 10, width - 1);
    }
  }

  lemma {:induction false} NumeralOfValue(s: string)
    requires AllDigits(s)
    ensures Numeral(NumeralValue(s), |s|) == s
  {
    if s != [] {
      var p := s[..|s| - 1];
      var d := s[|s| - 1] as int - '0' as int;
      NumeralOfValue(p);
      var v := NumeralValue(p) * 10 + d;
      assert v / 10 == NumeralValue(p) && v % 10 == d;
      assert s == p + [s[|s| - 1]];
    }
  }

  // ---------------------------------------------------------------- month strings

  /** The shape `^\d{4}-\d{2}$`: four digits, a dash, two digits. */
  predicate HasMonthShape(s: string)
  {
    |s| == 7 && AllDigits(s[..4]) && s[4] == '-' && AllDigits(s[5..])
  }

  /** `_is_month_string`: the shape matches and the month field, read as a number, lies in 1..12.
      With that shape the only dash is at index 4, so `split("-")[1]` is `s[5..]`. An accepted
      string is the canonical text of the year and month it spells. */
  predicate IsMonthString(s: string): (r: bool)
    ensures r ==> HasMonthShape(s) && s == MonthText(NumeralValue(s[..4]), NumeralValue(s[5..]))
  {
    if HasMonthShape(s) then
      var month := NumeralValue(s[5..]);
      NumeralOfValue(s[..4]);
      NumeralOfValue(s[5..]);
      assert s == s[..4] + "-" + s[5..];
      1 <= month <= 12
    else
      false
  }

  /** The canonical text of a month: year in four digits, month in two. */
  function MonthText(year: nat, month: nat): string
  {
    Numeral(year, 4) + "-" + Numeral(month, 2)
  }

  lemma MonthTextAccepted(year: nat, month: nat)
    requires year < 10000 && 1 <= month <= 12
    ensures IsMonthString(MonthText(year, month))
  {
    var s := MonthText(year, month);
    assert s[5..] == Numeral(month, 2);
    assert s[..4] == Numeral(year, 4);
    NumeralRoundTrip(month, 2);
  }

  /** A month string is exactly the text of a year in 0..9999 and a month in 1..12. */
  lemma MonthStringCharacterization(s: string)
    ensures IsMonthString(s) <==> exists year: nat, month: nat :: year < 10000 && 1 <= month <= 12 && s == MonthText(year, month)
  {
    if IsMonthString(s) {
      var y, m := NumeralValue(s[..4]), NumeralValue(s[5..]);
      assert y < 10000 by { NumeralOfValue(s[..4]); NumeralBound(s[..4]); }
      assert s == MonthText(y, m);
    }
    if exists year: nat, month: nat :: year < 10000 && 1 <= month <= 12 && s == MonthText(year, month) {
      var year: nat, month: nat :| year < 10000 && 1 <= month <= 12 && s == MonthText(year, month);
      MonthTextAccepted(year, month);
    }
  }

  lemma {:induction false} NumeralBound(s: string)
    requires AllDigits(s)
    ensures NumeralValue(s) < Pow10(|s|)
  {
    if s != [] {
      NumeralBound(s[..|s| - 1]);
    }
  }

  /** The month field of a well-shaped string outside 1..12 (00, 13..99) is rejected. */
  lemma MonthOutOfRangeRejected(s: string)
    requires HasMonthShape(s)
    requires NumeralValue(s[5..]) == 0 || NumeralValue(s[5..]) > 12
    ensures !IsMonthString(s)
  {
  }

  // ---------------------------------------------------------------- date strings

  /** The shape `^\d{4}-\d{2}-\d{2}$`. */
  predicate HasDateShape(s: string)
  {
    |s| == 10 && AllDigits(s[..4]) && s[4] == '-' && AllDigits(s[5..7]) && s[7] == '-' && AllDigits(s[8..])
  }

  /** `_is_date_string`: the shape matches, the month field is in 1..12 and the day field in 1..31.
      The dashes sit at indices 4 and 7, so `split("-")` yields `s[..4]`, `s[5..7]`, `s[8..]`. */
  predicate IsDateString(s: string): (r: bool)
    ensures r ==> HasDateShape(s) && s == DateText(NumeralValue(s[..4]), NumeralValue(s[5..7]), NumeralValue(s[8..]))
  {
    if HasDateShape(s) then
      var month := NumeralValue(s[5..7]);
      var day := NumeralValue(s[8..]);
      NumeralOfValue(s[..4]);
      NumeralOfValue(s[5..7]);
      NumeralOfValue(s[8..]);
      assert s == s[..4] + "-" + s[5..7] + "-" + s[8..];
      if 1 <= month <= 12 then 1 <= day <= 31 else false
    else
      false
  }

  function DateText(year: nat, month: nat, day: nat): string
  {
    Numeral(year, 4) + "-" + Numeral(month, 2) + "-" + Numeral(day, 2)
  }

  lemma DateTextAccepted(year: nat, month: nat, day: nat)
    requires year < 10000 && 1 <= month <= 12 && 1 <= day <= 31
    ensures IsDateString(DateText(year, month, day))
  {
    var s := DateText(year, month, day);
    assert s[..4] == Numeral(year, 4);
    assert s[5..7] == Numeral(month, 2);
    assert s[8..] == Numeral(day, 2);
    NumeralRoundTrip(month, 2);
    NumeralRoundTrip(day, 2);
  }

  /** A date string is exactly the text of a year in 0..9999, a month in 1..12 and a day in 1..31. */
  lemma DateStringCharacterization(s: string)
    ensures IsDateString(s) <==>
      exists year: nat, month: nat, day: nat :: year < 10000 && 1 <= month <= 12 && 1 <= day <= 31 && s == DateText(year, month, day)
  {
    if IsDateString(s) {
      NumeralBound(s[..4]);
      var y, m, d := NumeralValue(s[..4]), NumeralValue(s[5..7]), NumeralValue(s[8..]);
      assert s == DateText(y, m, d);
    }
    if exists year: nat, month: nat, day: nat :: year < 10000 && 1 <= month <= 12 && 1 <= day <= 31 && s == DateText(year, month, day) {
      var year: nat, month: nat, day: nat :| year < 10000 && 1 <= month <= 12 && 1 <= day <= 31 && s == DateText(year, month, day);
      DateTextAccepted(year, month, day);
    }
  }

  /** Days are range-checked only: the 31st of February passes. */
  lemma CalendarNotChecked()
    ensures IsDateString("2023-02-31")
  {
    var s := "2023-02-31";
    assert s[5..7] == "02" && s[8..] == "31";
    assert NumeralValue("02") == 2 && NumeralValue("31") == 31;
  }

  /** The first seven characters of every date string form a month string. */
  lemma DatePrefixIsMonth(s: string)
    requires IsDateString(s)
    ensures IsMonthString(s[..7])
  {
    var p := s[..7];
    assert p[..4] == s[..4];
    assert p[5..] == s[5..7];
  }

  // ---------------------------------------------------------------- rankings

  /** The eleven grades a review may carry. */
  const RankingScale: set<int> := {0, 1, 2, 3, 4, 5, 6, 7, 8, 9, 10}

  /** `_is_available_ranking`: accepted exactly on the grades of the scale. */
  predicate IsAvailableRanking(ranking: int): (r: bool)
    ensures r <==> ranking in RankingScale
  {
    ranking >= 0 && ranking <= 10
  }
}
