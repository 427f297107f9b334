/** Calendar dates as pd.to_datetime produces them, and their strftime('%Y-%m-%d')
    rendering. Parsing itself (format inference over a column) belongs to pandas and
    stays abstract; see Frame. */
module Dates {
  import opened Results

  datatype Date = Date(year: int, month: int, day: int)

  predicate IsLeapYear(y: int) { y % 4 == 0 && (y % 100 != 0 || y % 400 == 0) }

  function DaysInMonth(y: int, m: int): int
    requires 1 <= m <= 12
  {
    if m == 2 then (if IsLeapYear(y) then 29 else 28)
    else if m == 4 || m == 6 || m == 9 || m == 11 then 30
    else 31
  }

  /** Lexicographic order on (year, month, day). */
  predicate NotAfter(a: Date, b: Date)
  {
    a.year < b.year || (a.year == b.year && (a.month < b.month || (a.month == b.month && a.day <= b.day)))
  }

  /** A pandas Timestamp counts nanoseconds in 64 bits, which covers 1677-09-21 to 2262-04-11. */
  const FirstTimestamp := Date(1677, 9, 21)
  const LastTimestamp := Date(2262, 4, 11)

  /** A real calendar day that a pandas Timestamp can hold. */
  predicate IsValidDate(d: Date)
  {
    1 <= d.month <= 12 && 1 <= d.day <= DaysInMonth(d.year, d.month) &&
    NotAfter(FirstTimestamp, d) && NotAfter(d, LastTimestamp)
  }

  // ---------------------------------------------------------------- decimal digits

  predicate IsDigit(c: char) { '0' <= c <= '9' }

  predicate AllDigits(s: string) { forall i :: 0 <= i < |s| ==> IsDigit(s[i]) }

  function Pow10(w: nat): nat
    ensures Pow10(w) >= 1
  {
    if w == 0 then 1 else 10 * Pow10(w - 1)
  }

  /** n in exactly w decimal digits, zero-padded on the left (the low w digits of n). */
  function Digits(n: nat, w: nat): (r: string)
    ensures |r| == w && AllDigits(r)
  {
    if w == 0 then [] else Digits(n / 10, w - 1) + [('0' as int + n % 10) as char]
  }

  /** The number a string of decimal digits spells. */
  function Value(s: string): nat
    requires AllDigits(s)
  {
    if s == [] then 0 else Value(s[..|s| - 1]) * 10 + (s[|s| - 1] as int - '0' as int)
  }

  /** Reading back zero-padded digits gives the number, when it fits in w digits. */
  lemma {:induction false} ValueOfDigits(n: nat, w: nat)
    requires n < Pow10(w)
    ensures Value(Digits(n, w)) == n
  {
    if w > 0 {
      var r := Digits(n, w);
      DropLastDigit(n, Pow10(w - 1));
      ValueOfDigits(n / 10, w - 1);
      assert r[..w - 1] == Digits(n / 10, w - 1);
    }
  }

  lemma DropLastDigit(n: nat, p: nat)
    requires n < 10 * p
    ensures n / 10 < p && n == n / 10 * 10 + n % 10
  {
  }

  /** Every digit string is the zero-padded rendering of its value. */
  lemma {:induction false} DigitsOfValue(s: string)
    requires AllDigits(s)
    ensures Value(s) < Pow10(|s|) && Digits(Value(s), |s|) == s
  {
    if s != [] {
      var p := s[..|s| - 1];
      DigitsOfValue(p);
      var v := Value(s);
      assert v / 10 == Value(p) && v % 10 == s[|s| - 1] as int - '0' as int;
      assert s == p + [s[|s| - 1]];
    }
  }

  // ---------------------------------------------------------------- '%Y-%m-%d'

  /** strftime('%Y-%m-%d'): four-digit year, two-digit month, two-digit day, dashes between. */
  function FormatDate(d: Date): (r: string)
    requires IsValidDate(d)
    ensures |r| == 10 && r[4] == '-' && r[7] == '-'
    ensures AllDigits(r[..4]) && AllDigits(r[5..7]) && AllDigits(r[8..])
    ensures Value(r[..4]) == d.year && Value(r[5..7]) == d.month && Value(r[8..]) == d.day
  {
    var y, m, dd := Digits(d.year, 4), Digits(d.month, 2), Digits(d.day, 2);
    ValueOfDigits(d.year, 4);
    ValueOfDigits(d.month, 2);
    ValueOfDigits(d.day, 2);
    var r := y + "-" + m + "-" + dd;
    assert r[..4] == y && r[5..7] == m && r[8..] == dd;
    r
  }

  /** Reads a 'YYYY-MM-DD' string back, the inverse of FormatDate. */
  function ParseIsoDate(s: string): Option<Date>
  {
    if |s| == 10 && s[4] == '-' && s[7] == '-' && AllDigits(s[..4]) && AllDigits(s[5..7]) && AllDigits(s[8..]) then
      var d := Date(Value(s[..4]), Value(s[5..7]), Value(s[8..]));
      if IsValidDate(d) then Some(d) else None
    else None
  }

  /** The formatted date reads back as the same date. */
  lemma ParseFormattedDate(d: Date)
    requires IsValidDate(d)
    ensures ParseIsoDate(FormatDate(d)) == Some(d)
  {
  }

  /** A string that reads as a date is exactly that date's rendering: '%Y-%m-%d' has
      one spelling per date. */
  lemma FormatParsedDate(s: string, d: Date)
    requires ParseIsoDate(s) == Some(d)
    ensures IsValidDate(d) && FormatDate(d) == s
  {
    DigitsOfValue(s[..4]);
    DigitsOfValue(s[5..7]);
    DigitsOfValue(s[8..]);
    assert s == s[..4] + "-" + s[5..7] + "-" + s[8..];
  }

  /** Different dates render differently, so every spelling of one calendar day that
      the parser accepts ends up as the same string, and no two days share one. */
  lemma FormatInjective(d1: Date, d2: Date)
    requires IsValidDate(d1) && IsValidDate(d2)
    ensures FormatDate(d1) == FormatDate(d2) <==> d1 == d2
  {
    ParseFormattedDate(d1);
    ParseFormattedDate(d2);
  }

  /** 3 May 2021 renders as "2021-05-03". */
  lemma FormatExample()
    ensures IsValidDate(Date(2021, 5, 3)) && FormatDate(Date(2021, 5, 3)) == "2021-05-03"
  {
    ExampleDigits();
  }

  lemma ExampleDigits()
    ensures Digits(2021, 4) == "2021" && Digits(5, 2) == "05" && Digits(3, 2) == "03"
  {
    assert Digits(2, 1) == "2";
    assert Digits(20, 2) == "20";
    assert Digits(202, 3) == "202";
  }
}
