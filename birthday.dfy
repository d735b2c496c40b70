/** The birthday shown in the detail overlay: `leadZero` and `dateFormat`
    (js/scripts.js), which turn month, day and year into `MM/DD/YYYY`. */
module Birthday {
  import opened Decimal

  datatype Option<T> = None | Some(value: T)

  datatype Date = Date(month: int, day: int, year: int)

  /** `leadZero(num, length)`: the decimal text of `num`, with a single "0"
      put in front when that text is shorter than `length`. Only one zero is
      ever added, however far the text falls short. */
  function LeadZero(num: int, length: int): (r: string)
    ensures |r| == |ToString(num)| || r == "0" + ToString(num)
    ensures r[|r| - |ToString(num)|..] == ToString(num)
    ensures |r| > |ToString(num)| <==> |ToString(num)| < length
  {
    var dateString := ToString(num);
    if |dateString| < length then "0" + dateString else dateString
  }

  /** `dateFormat(month, day, year)`: the two-digit month, a slash, the
      two-digit day, a slash, the year. */
  function DateFormat(month: int, day: int, year: int): (r: string)
    ensures 0 <= month < 100 && 0 <= day < 100 ==>
              |r| == 6 + |ToString(year)| && r[2] == '/' && r[5] == '/'
  {
    var mm, dd, yyyy := LeadZero(month, 2), LeadZero(day, 2), ToString(year);
    PaddedLength(month);
    PaddedLength(day);
    SlashLayout(mm, dd, yyyy);
    mm + "/" + dd + "/" + yyyy
  }

  lemma PaddedLength(n: int)
    ensures 0 <= n < 100 ==> |LeadZero(n, 2)| == 2
  {
  }

  lemma SlashLayout(mm: string, dd: string, yyyy: string)
    ensures |mm| == 2 && |dd| == 2 ==>
              var r := mm + "/" + dd + "/" + yyyy;
              |r| == 6 + |yyyy| && r[2] == '/' && r[5] == '/'
  {
  }

  /** Reads `MM/DD/Y...` back into its three numbers; anything else is None.
      This is the reading a user makes of the overlay's birthday line, and
      serves as the inverse against which DateFormat is checked. */
  function ParseDate(s: string): Option<Date>
  {
    if |s| >= 7 && s[2] == '/' && s[5] == '/'
       && AllDigits(s[..2]) && AllDigits(s[3..5]) && AllDigits(s[6..])
    then Some(Date(DigitsValue(s[..2]), DigitsValue(s[3..5]), DigitsValue(s[6..])))
    else None
  }

  /** For every number from 0 to 99, leadZero(n, 2) has exactly two digits
      and reads back as n; when it starts with "0", the rest is the decimal
      text of n. */
  lemma TwoDigits(n: int)
    requires 0 <= n < 100
    ensures |LeadZero(n, 2)| == 2 && AllDigits(LeadZero(n, 2))
    ensures DigitsValue(LeadZero(n, 2)) == n
    ensures LeadZero(n, 2)[0] == '0' <==> n < 10
    ensures LeadZero(n, 2)[0] == '0' ==> LeadZero(n, 2)[1..] == ToString(n)
  {
    ToStringRoundTrip(n);
    LeadingZeroValue(ToString(n));
  }

  /** leadZero pads by one zero only: text two or more characters short of
      `length` stays short of it (leadZero(5, 4) is "05", not "0005"). */
  lemma LeadZeroPadsOnce(num: int, length: int)
    requires |ToString(num)| + 2 <= length
    ensures |LeadZero(num, length)| == |ToString(num)| + 1 < length
  {
  }

  lemma LeadZeroShortExample()
    ensures LeadZero(5, 4) == "05"
  {
    assert ToString(5) == "5";
  }

  /** Formatting a month and day from 0 to 99 and a non-negative year, then
      reading the text back, gives the same three numbers. */
  lemma {:induction false} ParseDateFormat(month: int, day: int, year: int)
    requires 0 <= month < 100 && 0 <= day < 100 && year >= 0
    ensures ParseDate(DateFormat(month, day, year)) == Some(Date(month, day, year))
  {
    var m, d, y := LeadZero(month, 2), LeadZero(day, 2), ToString(year);
    var s := DateFormat(month, day, year);
    TwoDigits(month);
    TwoDigits(day);
    ToStringRoundTrip(year);
    assert s == m + "/" + d + "/" + y;
    assert s[..2] == m;
    assert s[3..5] == d;
    assert s[6..] == y;
  }

  /** Different dates (months and days 0 to 99, years non-negative) are
      formatted differently. */
  lemma DateFormatInjective(m1: int, d1: int, y1: int, m2: int, d2: int, y2: int)
    requires 0 <= m1 < 100 && 0 <= d1 < 100 && y1 >= 0
    requires 0 <= m2 < 100 && 0 <= d2 < 100 && y2 >= 0
    requires DateFormat(m1, d1, y1) == DateFormat(m2, d2, y2)
    ensures m1 == m2 && d1 == d2 && y1 == y2
  {
    ParseDateFormat(m1, d1, y1);
    ParseDateFormat(m2, d2, y2);
  }

  /** The birthday of someone born on 7 March 1990. */
  lemma DateFormatExample()
    ensures DateFormat(3, 7, 1990) == "03/07/1990"
  {
    OneDigitTexts();
    FourDigitYears();
    assert DateFormat(3, 7, 1990) == LeadZero(3, 2) + "/" + LeadZero(7, 2) + "/" + ToString(1990);
  }

  /** Two-digit month and day are not padded. */
  lemma DateFormatTwoDigitExample()
    ensures DateFormat(12, 31, 2000) == "12/31/2000"
  {
    TwoDigitTexts();
    FourDigitYears();
    assert DateFormat(12, 31, 2000) == LeadZero(12, 2) + "/" + LeadZero(31, 2) + "/" + ToString(2000);
  }

  lemma OneDigitTexts()
    ensures LeadZero(3, 2) == "03" && LeadZero(7, 2) == "07"
  {
    assert ToString(3) == "3";
    assert ToString(7) == "7";
  }

  lemma TwoDigitTexts()
    ensures LeadZero(12, 2) == "12" && LeadZero(31, 2) == "31"
  {
    assert ToString(12) == "12" by { assert ToString(1) == "1"; }
    assert ToString(31) == "31" by { assert ToString(3) == "3"; }
  }

  lemma FourDigitYears()
    ensures ToString(1990) == "1990" && ToString(2000) == "2000"
  {
    assert ToString(1990) == "1990" by {
      assert ToString(19) == "19" by { assert ToString(1) == "1"; }
      assert ToString(199) == "199";
    }
    assert ToString(2000) == "2000" by {
      assert ToString(20) == "20" by { assert ToString(2) == "2"; }
      assert ToString(200) == "200";
    }
  }
}
