/**
 * Texts of the calendar header (jquery.simple-calendar.js, updateHeader and
 * the day-name row that buildCalendar writes into the table head).
 */
module Header {
  import opened Dates

  /** The outcome of code that may throw: the value, or the name of the JavaScript error. */
  datatype Result<T> = Success(value: T) | Failure(error: string)

  /** Reading `names[i]`: a missing entry is `undefined`, which concatenates as "undefined". */
  function NameAt(names: seq<string>, i: int): (s: string)
    ensures 0 <= i < |names| ==> s == names[i]
  {
    if 0 <= i < |names| then names[i] else "undefined"
  }

  function DigitChar(n: int): (c: char)
    requires 0 <= n < 10
    ensures '0' <= c <= '9'
  {
    "0123456789"[n]
  }

  function DigitValue(c: char): int {
    c as int - '0' as int
  }

  /** Decimal digits of a natural number, most significant first, without leading zeros. */
  function NatString(n: nat): (s: string)
    ensures |s| >= 1
    ensures forall i :: 0 <= i < |s| ==> '0' <= s[i] <= '9'
    ensures n > 0 ==> s[0] != '0'
  {
    if n < 10 then [DigitChar(n)] else NatString(n / 10) + [DigitChar(n % 10)]
  }

  /** `String(y)` for an integer year: its digits, after a minus sign when negative. */
  function YearString(y: int): (s: string)
    ensures |s| >= 1
    ensures s[0] == '-' <==> y < 0
    ensures forall i :: (if y < 0 then 1 else 0) <= i < |s| ==> '0' <= s[i] <= '9'
  {
    if y < 0 then "-" + NatString(-y) else NatString(y)
  }

  /** Reading decimal digits back. */
  function ParseNat(s: string): int {
    if s == [] then 0 else ParseNat(s[..|s| - 1]) * 10 + DigitValue(s[|s| - 1])
  }

  function ParseInt(s: string): int {
    if |s| > 0 && s[0] == '-' then -ParseNat(s[1..]) else ParseNat(s)
  }

  /** A digit character reads back as its value. */
  lemma DigitRoundTrip(d: int)
    requires 0 <= d < 10
    ensures DigitValue(DigitChar(d)) == d
  {
  }

  /** Appending a digit multiplies what was read so far by ten and adds the digit. */
  lemma ParseNatAppend(s: string, c: char)
    ensures ParseNat(s + [c]) == ParseNat(s) * 10 + DigitValue(c)
  {
    assert (s + [c])[..|s|] == s;
  }

  /** The digits of n read back as n. */
  lemma {:induction false} ParseNatString(n: nat)
    ensures ParseNat(NatString(n)) == n
  {
    if n < 10 {
      ParseNatAppend([], DigitChar(n));
      DigitRoundTrip(n);
    } else {
      ParseNatString(n / 10);
      ParseNatAppend(NatString(n / 10), DigitChar(n % 10));
      DigitRoundTrip(n % 10);
    }
  }

  /** The year written in the header reads back as the same year. */
  lemma ParseYearString(y: int)
    ensures ParseInt(YearString(y)) == y
  {
    var digits := NatString(if y < 0 then -y else y);
    ParseNatString(if y < 0 then -y else y);
    if y < 0 {
      SignedRead(digits);
    } else {
      UnsignedRead(digits);
    }
  }

  /** A minus sign before digits negates them. */
  lemma SignedRead(digits: string)
    ensures ParseInt("-" + digits) == -ParseNat(digits)
  {
    assert ("-" + digits)[1..] == digits;
  }

  /** Digits without a sign read as themselves. */
  lemma UnsignedRead(digits: string)
    requires |digits| >= 1 && '0' <= digits[0] <= '9'
    ensures ParseInt(digits) == ParseNat(digits)
  {
  }

  /** updateHeader: the month name, then a space and the full year when displayYear is set. */
  function HeaderText(months: seq<string>, date: Date, displayYear: bool): (t: string)
    ensures |t| >= |NameAt(months, date.month)|
    ensures t[..|NameAt(months, date.month)|] == NameAt(months, date.month)
    ensures !displayYear ==> t == NameAt(months, date.month)
    ensures displayYear ==> |t| > |NameAt(months, date.month)| + 1
  {
    NameAt(months, date.month) + (if displayYear then " " + YearString(date.year) else "")
  }

  /**
   * With displayYear the header is exactly the month name, one space and a
   * year string that reads back as the date's year; without it, the month name alone.
   */
  lemma HeaderTextReadsBack(months: seq<string>, date: Date, displayYear: bool)
    ensures var name := NameAt(months, date.month);
      var t := HeaderText(months, date, displayYear);
      displayYear ==> t[|name|] == ' ' && ParseInt(t[|name| + 1..]) == date.year
  {
    var name := NameAt(months, date.month);
    var t := HeaderText(months, date, displayYear);
    if displayYear {
      assert t[|name| + 1..] == YearString(date.year);
      ParseYearString(date.year);
    }
  }

  /** `s.substring(0, 3)`. */
  function Abbrev(s: string): (r: string)
    ensures |r| <= 3 && r <= s
    ensures |s| >= 3 ==> |r| == 3
    ensures |s| < 3 ==> r == s
  {
    if |s| <= 3 then s else s[..3]
  }

  /** The day-name row: entry k is the name of week day (k + 1) % 7, cut to three characters. */
  function DayLabels(days: seq<string>): (r: seq<string>)
    requires |days| == 0 || |days| >= 7
    ensures |r| == |days|
    ensures |days| >= 7 ==> r[0] == Abbrev(days[MONDAY]) && r[6] == Abbrev(days[SUNDAY])
  {
    seq(|days|, k requires 0 <= k < |days| => Abbrev(days[(k + 1) % 7]))
  }

  /**
   * The loop `for (i = 1; i <= days.length; i++)` reading `days[i % 7]`: it
   * throws a TypeError (a substring of undefined) when the list holds one to six
   * names, and otherwise lists one label per name.
   */
  method DayNameHeader(days: seq<string>) returns (r: Result<seq<string>>)
    ensures r.Failure? <==> 0 < |days| < 7
    ensures r.Failure? ==> r.error == "TypeError"
    ensures r.Success? ==> r.value == DayLabels(days)
  {
    var labels: seq<string> := [];
    for i := 1 to |days| + 1
      invariant |labels| == i - 1
      invariant 1 < i <= 7 ==> i - 1 < |days|
      invariant forall k :: 0 <= k < i - 1 ==> labels[k] == Abbrev(days[(k + 1) % 7])
    {
      if i % 7 >= |days| {
        return Failure("TypeError");
      }
      labels := labels + [Abbrev(days[i % 7])];
    }
    return Success(labels);
  }

  /** The label over column c names week day (c + 1) % 7. */
  lemma ColumnLabel(days: seq<string>, c: nat)
    requires |days| >= 7 && c < 7
    ensures |DayLabels(days)| == |days| && DayLabels(days)[c] == Abbrev(days[(c + 1) % 7])
  {
  }

  /** With the seven default-shaped names the row runs Monday to Sunday. */
  lemma MondayFirst(days: seq<string>)
    requires |days| == 7
    ensures DayLabels(days) == [Abbrev(days[1]), Abbrev(days[2]), Abbrev(days[3]),
      Abbrev(days[4]), Abbrev(days[5]), Abbrev(days[6]), Abbrev(days[0])]
  {
  }
}
