/** The date/filename codec of `src/utils/dateUtils.ts`: a date is named by the
    issue id `DD-MM-YY`, and an id is read back into a date in the 2000s. */
module DateCodec {

  import opened Wrappers
  import opened Strings
  import opened Calendar
  import opened Probing

  /** `date.getDate().toString().padStart(2, '0')` */
  function DayField(d: Date): (field: string)
    ensures 0 <= d.day < 100 ==> field == TwoDigits(d.day)
  {
    PaddedWhenSmall(d.day);
    PadStart2(IntToString(d.day))
  }

  /** `(date.getMonth() + 1).toString().padStart(2, '0')` */
  function MonthField(d: Date): (field: string)
    ensures 0 <= d.month < 100 ==> field == TwoDigits(d.month)
  {
    PaddedWhenSmall(d.month);
    PadStart2(IntToString(d.month))
  }

  /** `date.getFullYear().toString().slice(-2)` */
  function YearField(d: Date): (field: string)
    ensures d.year >= 10 ==> field == TwoDigits(d.year % 100)
  {
    SlicedWhenLong(d.year);
    SliceLast2(IntToString(d.year))
  }

  /** `formatDateForFilename`: the issue id of a date, day, month and year
      field joined by hyphens. For every valid date from year 10 on it is an
      eight-character `DD-MM-YY` with hyphens at positions 2 and 5 and no
      `.pdf` suffix. */
  function FormatDateForFilename(d: Date): (id: string)
    ensures Valid(d) && d.year >= 10 ==>
      |id| == 8 && id[2] == '-' && id[5] == '-' && !EndsWith(id, ".pdf")
  {
    DayField(d) + "-" + MonthField(d) + "-" + YearField(d)
  }

  /** The three fields of a valid date from year 10 on are the two-digit
      renderings of the day (01 to 31), the month (01 to 12) and the year
      modulo 100 (so 2005 gives "05"). */
  lemma FieldsOfValidDate(d: Date)
    requires Valid(d) && d.year >= 10
    ensures DayField(d) == TwoDigits(d.day) && 1 <= d.day <= 31
    ensures MonthField(d) == TwoDigits(d.month) && 1 <= d.month <= 12
    ensures YearField(d) == TwoDigits(d.year % 100)
  {
  }

  /** Whatever the date, its id is digits and hyphens only: `padStart` adds
      zeros and `slice` keeps a suffix of a number's text. In particular no
      id contains a dot, so no `.pdf` occurs in one. */
  lemma IdIsNumericText(d: Date)
    ensures NumericText(FormatDateForFilename(d))
    ensures '.' !in FormatDateForFilename(d)
  {
    PadStart2Numeric(IntToString(d.day));
    PadStart2Numeric(IntToString(d.month));
    SliceLast2Numeric(IntToString(d.year));
    HyphenJoinNumeric(DayField(d), MonthField(d));
    HyphenJoinNumeric(DayField(d) + "-" + MonthField(d), YearField(d));
    NumericHasNoDot(FormatDateForFilename(d));
  }

  /** The file an issue is stored in: its id followed by `.pdf`. Removing the
      first `.pdf` gives back the id, since no id contains a dot. */
  function IssueFilename(d: Date): (filename: string)
    ensures EndsWith(filename, ".pdf")
    ensures ReplaceFirst(filename, ".pdf", "") == FormatDateForFilename(d)
  {
    IdIsNumericText(d);
    ReplaceSuffix(FormatDateForFilename(d), ".pdf");
    FormatDateForFilename(d) + ".pdf"
  }


  /** An issue id is two digits, a hyphen, two digits, a hyphen and two digits. */
  predicate IsIssueId(s: string) {
    |s| == 8 && s[2] == '-' && s[5] == '-'
    && AllDigits(s[..2]) && AllDigits(s[3..5]) && AllDigits(s[6..])
  }

  /** The id of a valid date from year 10 on has the `DD-MM-YY` shape and
      contains no dot, so no `.pdf` can occur in it. */
  lemma FilenameIsIssueId(d: Date)
    requires Valid(d) && d.year >= 10
    ensures IsIssueId(FormatDateForFilename(d))
    ensures '.' !in FormatDateForFilename(d)
  {
    IdIsNumericText(d);
    var id := FormatDateForFilename(d);
    assert id[..2] == DayField(d);
    assert id[3..5] == MonthField(d);
    assert id[6..] == YearField(d);
  }

  /** `new Date(y, m, d)` reads a year from 0 to 99 as 1900 + y. */
  function ConstructorYear(y: int): int {
    if 0 <= y <= 99 then 1900 + y else y
  }

  /** The parse half of `formatDateForDisplay`: split on `-`, take the first
      three fields, prefix the year field with "20", `parseInt` each one and
      build the date. An id that does not name a valid calendar date this way,
      or names one outside the range of a JavaScript `Date`, has no date
      (JavaScript's Invalid Date). */
  function ParseIssueId(s: string): (r: Option<Date>)
    ensures r.Some? ==> Valid(r.value) && InJsRange(r.value)
  {
    var parts := Split(s, '-');
    if |parts| < 3 then None
    else
      match (ParseInt(parts[0]), ParseInt(parts[1]), ParseInt("20" + parts[2]))
      case (Some(day), Some(month), Some(year)) =>
        var d := Date(ConstructorYear(year), month, day);
        if Valid(d) && InJsRange(d) then Some(d) else None
      case _ => None
  }

  /** The text JavaScript gives for an invalid date. */
  const InvalidDateText := "Invalid Date"

  /** `formatDateForDisplay`: the long localised label of the date an id
      names. The locale formatting is the `longDate` parameter. */
  function FormatDateForDisplay(s: string, longDate: Date -> string): (text: string)
    ensures ParseIssueId(s).None? ==> text == InvalidDateText
    ensures ParseIssueId(s).Some? ==> text == longDate(ParseIssueId(s).value)
  {
    match ParseIssueId(s)
    case Some(d) => longDate(d)
    case None => InvalidDateText
  }

  /** An id whose year lies beyond the range of a JavaScript `Date` displays
      as "Invalid Date": "01-01-99999" would be 1 January 2099999. */
  lemma YearBeyondRangeIsInvalid(longDate: Date -> string)
    ensures FormatDateForDisplay("01-01-99999", longDate) == InvalidDateText
  {
    SplitThree("01", "01", "99999", '-');
    assert "01" + ['-'] + "01" + ['-'] + "99999" == "01-01-99999";
    ParseOne();
    ParseYearBeyondRange();
    assert "20" + "99999" == "2099999";
    assert !InJsRange(Date(2099999, 1, 1));
    assert ParseIssueId("01-01-99999") == None;
  }

  /** `parseInt("01")` is 1. */
  lemma ParseOne()
    ensures ParseInt("01") == Some(1)
  {
    LeadingDigitsOfDigits("01");
    assert "01"[..1] == "0";
    assert DigitsValue("0") == 0;
  }

  /** `parseInt("2099999")` is 2099999. */
  lemma ParseYearBeyondRange()
    ensures ParseInt("2099999") == Some(2099999)
  {
    var y := "2099999";
    LeadingDigitsOfDigits(y);
    assert "20"[..1] == "2";
    assert DigitsValue("2") == 2;
    assert DigitsValue("20") == 20;
    assert "209"[..2] == "20";
    assert DigitsValue("209") == 209;
    assert "2099"[..3] == "209";
    assert DigitsValue("2099") == 2099;
    assert "20999"[..4] == "2099";
    assert DigitsValue("20999") == 20999;
    assert "209999"[..5] == "20999";
    assert DigitsValue("209999") == 209999;
    assert y[..6] == "209999";
    assert DigitsValue(y) == 2099999;
  }

  /** Decoding an encoded valid date from year 10 on recovers its day and
      month and maps its year into the 2000s: 2000 + (year mod 100). */
  lemma ParseFormat(d: Date)
    requires Valid(d) && d.year >= 10
    ensures ParseIssueId(FormatDateForFilename(d)) == Some(Date(2000 + d.year % 100, d.month, d.day))
  {
    var dd, mm, yy := TwoDigits(d.day), TwoDigits(d.month), TwoDigits(d.year % 100);
    IdSplits(d);
    ParseTwoDigits(d.day);
    ParseTwoDigits(d.month);
    ParseTwoDigits(d.year % 100);
    LeapYearInTwoThousands(d);
    ParseOfFields(FormatDateForFilename(d), dd, mm, yy, Date(2000 + d.year % 100, d.month, d.day));
  }

  /** The id of a valid date from year 10 on splits on `-` into the two-digit
      day, month and year. */
  lemma IdSplits(d: Date)
    requires Valid(d) && d.year >= 10
    ensures Split(FormatDateForFilename(d), '-') == [TwoDigits(d.day), TwoDigits(d.month), TwoDigits(d.year % 100)]
  {
    FieldsOfValidDate(d);
    var dd, mm, yy := TwoDigits(d.day), TwoDigits(d.month), TwoDigits(d.year % 100);
    assert '-' !in dd && '-' !in mm && '-' !in yy by {
      assert AllDigits(dd) && AllDigits(mm) && AllDigits(yy);
    }
    SplitThree(dd, mm, yy, '-');
    assert FormatDateForFilename(d) == dd + ['-'] + mm + ['-'] + yy;
  }

  /** An id whose three fields parse to the parts of a valid date from 2000 on,
      inside the range of a JavaScript `Date`, decodes to that date. */
  lemma ParseOfFields(s: string, a: string, b: string, c: string, e: Date)
    requires Split(s, '-') == [a, b, c]
    requires ParseInt(a) == Some(e.day) && ParseInt(b) == Some(e.month) && ParseInt("20" + c) == Some(e.year)
    requires 2000 <= e.year <= 2099 && Valid(e)
    ensures ParseIssueId(s) == Some(e)
  {
    assert InJsRange(e);
  }

  /** A valid date stays valid when its year is moved to 2000 + (year mod 100):
      a 29 February falls in a leap year, and so does its image. */
  lemma LeapYearInTwoThousands(d: Date)
    requires Valid(d)
    ensures Valid(Date(2000 + d.year % 100, d.month, d.day))
  {
    var r := d.year % 100;
    var y := 2000 + r;
    if d.month == 2 && d.day == 29 {
      assert IsLeapYear(d.year);
      ModFourOfModHundred(d.year);
      DivModUnique(y, 4, 500 + r / 4, r % 4);
      DivModUnique(y, 100, 20, r);
      assert IsLeapYear(y);
    }
  }

  /** Four divides a hundred, so a number and its last two digits agree modulo 4. */
  lemma ModFourOfModHundred(n: int)
    ensures (n % 100) % 4 == n % 4
  {
    var r := n % 100;
    assert n == 100 * (n / 100) + r;
    assert r == 4 * (r / 4) + r % 4;
    assert n == 4 * (25 * (n / 100) + r / 4) + r % 4;
    DivModUnique(n, 4, 25 * (n / 100) + r / 4, r % 4);
  }

  /** Round trip: within 2000 to 2099 decoding the id gives back the date. */
  lemma RoundTrip(d: Date)
    requires Valid(d) && 2000 <= d.year <= 2099
    ensures ParseIssueId(FormatDateForFilename(d)) == Some(d)
  {
    ParseFormat(d);
  }

  lemma RoundTripWhenInCentury(d: Date)
    ensures Valid(d) && 2000 <= d.year <= 2099 ==> ParseIssueId(FormatDateForFilename(d)) == Some(d)
  {
    if Valid(d) && 2000 <= d.year <= 2099 {
      RoundTrip(d);
    }
  }

  /** The label shown for an id is the label of the date it was made from,
      for dates in 2000 to 2099. */
  lemma DisplayOfFormat(d: Date, longDate: Date -> string)
    requires Valid(d) && 2000 <= d.year <= 2099
    ensures FormatDateForDisplay(FormatDateForFilename(d), longDate) == longDate(d)
  {
    RoundTrip(d);
  }

  /** The id is injective within a century: two valid dates whose years share
      the same hundreds have the same id only when they are the same date. */
  lemma FormatInjective(a: Date, b: Date)
    requires Valid(a) && Valid(b) && a.year >= 10 && b.year >= 10
    requires a.year / 100 == b.year / 100
    requires FormatDateForFilename(a) == FormatDateForFilename(b)
    ensures a == b
  {
    ParseFormat(a);
    ParseFormat(b);
    assert a.year == 100 * (a.year / 100) + a.year % 100;
    assert b.year == 100 * (b.year / 100) + b.year % 100;
  }

  /** Dates one year apart never share an id: their years differ modulo 100. */
  lemma FormatDiffersAcrossAYear(a: Date, b: Date)
    requires Valid(a) && Valid(b) && b.year >= 10 && a.year == b.year + 1
    ensures FormatDateForFilename(a) != FormatDateForFilename(b)
  {
    ParseFormat(a);
    ParseFormat(b);
    NextYearModHundred(b.year);
  }

  lemma NextYearModHundred(y: int)
    ensures (y + 1) % 100 != y % 100
  {
    var q, r := y / 100, y % 100;
    assert y + 1 == 100 * q + (r + 1);
    if r < 99 {
      assert (y + 1) % 100 == r + 1;
    } else {
      assert y + 1 == 100 * (q + 1) + 0;
      assert (y + 1) % 100 == 0;
    }
  }

  /** `getTodayFilename`: the id of the current date, which is a parameter
      here instead of a clock reading. In 2000 to 2099 it decodes to today. */
  function GetTodayFilename(today: Date): (id: string)
    ensures id == FormatDateForFilename(today)
    ensures Valid(today) && 2000 <= today.year <= 2099 ==> ParseIssueId(id) == Some(today)
  {
    RoundTripWhenInCentury(today);
    FormatDateForFilename(today)
  }

  const PublicPrefix := "/public/"

  /** `getPDFUrl`: the filename under the `/public/` directory. */
  function GetPdfUrl(filename: string): (url: string)
    ensures |url| == |filename| + 8
    ensures url[..8] == "/public/" && url[8..] == filename
  {
    PublicPrefix + filename
  }

  /** `checkPDFExists`: the `ok` flag of a HEAD request for the file's URL; a
      thrown request reads as false and no error escapes. */
  function CheckPdfExists(filename: string, oracle: Oracle): (exists_: bool)
    ensures oracle(GetPdfUrl(filename)).Thrown? ==> !exists_
    ensures oracle(GetPdfUrl(filename)).Response? ==> exists_ == oracle(GetPdfUrl(filename)).ok
  {
    Succeeds(oracle(GetPdfUrl(filename)))
  }
}
