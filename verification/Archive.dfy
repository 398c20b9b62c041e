/** The archive of `src/components/ArchiveViewer.tsx`: a rolling list of the
    last thirty daily issues, and the search/month/year filter over it. */
module Archive {

  import opened Wrappers
  import opened Strings
  import opened Calendar
  import opened DateCodec
  import opened Filtering

  /** One archived issue, as the `ArchiveItem` interface declares it. */
  datatype ArchiveItem = ArchiveItem(date: string, filename: string, displayDate: string, pages: int)

  /** Number of days the archive reaches back, today included. */
  const WindowDays := 30

  /** The placeholder page count every generated entry carries. */
  const PlaceholderPages := 8

  /** The entry for one day, built the way the generation loop builds it: the
      three padded fields written out inline, the filename with a `.pdf`
      suffix, the long localised date as the display label. */
  function Entry(d: Date, longDate: Date -> string): (item: ArchiveItem)
    ensures item.date == FormatDateForFilename(d)
    ensures item.filename == IssueFilename(d)
    ensures item.displayDate == longDate(d) && item.pages == 8
  {
    var day := DayField(d);
    var month := MonthField(d);
    var year := YearField(d);
    ArchiveItem(day + "-" + month + "-" + year, day + "-" + month + "-" + year + ".pdf", longDate(d), PlaceholderPages)
  }

  /** `generateArchives`: entry `i` is the issue of `i` days before today. */
  function GenerateArchives(today: Date, longDate: Date -> string): (archives: seq<ArchiveItem>)
    requires Valid(today)
    ensures |archives| == 30
    ensures archives[0].date == GetTodayFilename(today)
    ensures forall i :: 0 <= i < |archives| ==>
      archives[i].date == FormatDateForFilename(DaysBefore(today, i))
      && archives[i].filename == archives[i].date + ".pdf"
      && archives[i].displayDate == longDate(DaysBefore(today, i))
      && archives[i].pages == 8
  {
    seq(WindowDays, i requires 0 <= i < WindowDays => Entry(DaysBefore(today, i), longDate))
  }

  /** Consecutive entries are exactly one calendar day apart, most recent
      first: the next entry is the id of the previous day, and the dates
      strictly descend. */
  lemma ArchiveDaysApart(today: Date, longDate: Date -> string, i: nat)
    requires Valid(today) && i + 1 < WindowDays
    ensures GenerateArchives(today, longDate)[i + 1].date == FormatDateForFilename(Pred(DaysBefore(today, i)))
    ensures Succ(DaysBefore(today, i + 1)) == DaysBefore(today, i)
    ensures Before(DaysBefore(today, i + 1), DaysBefore(today, i))
  {
    DaysBeforeStep(today, i);
  }

  /** All thirty dates are distinct, as their use as list keys requires, for
      any today from year 11 on (the earliest entry then still has a year of
      at least two digits). The window may straddle a year or century boundary. */
  lemma ArchiveDatesDistinct(today: Date, longDate: Date -> string, i: nat, j: nat)
    requires Valid(today) && today.year >= 11
    requires i < j < WindowDays
    ensures GenerateArchives(today, longDate)[i].date != GenerateArchives(today, longDate)[j].date
  {
    var a, b := DaysBefore(today, i), DaysBefore(today, j);
    var archives := GenerateArchives(today, longDate);
    assert archives[i].date == FormatDateForFilename(a) && archives[j].date == FormatDateForFilename(b);
    WindowSpan(today, i, j);
    DaysBeforeWithinYear(today, j);
    if a.year == b.year {
      if FormatDateForFilename(a) == FormatDateForFilename(b) {
        FormatInjective(a, b);
      }
    } else {
      FormatDiffersAcrossAYear(a, b);
    }
  }

  /** The hyphen-separated field at `index` of a string: `s.split('-')[index]`,
      None where JavaScript yields `undefined`. */
  function FieldAt(s: string, index: nat): (r: Option<string>)
    ensures r.Some? ==> '-' !in r.value
  {
    var parts := Split(s, '-');
    SplitPartsHaveNoHyphen(s);
    if index < |parts| then Some(parts[index]) else None
  }

  lemma {:induction false} SplitPartsHaveNoHyphen(s: string)
    ensures forall k :: 0 <= k < |Split(s, '-')| ==> '-' !in Split(s, '-')[k]
  {
    if |s| > 0 {
      SplitPartsHaveNoHyphen(s[1..]);
    }
  }

  /** The fields of an id name the day, month and two-digit year of its date. */
  lemma FieldsOfId(d: Date)
    requires Valid(d) && d.year >= 10
    ensures FieldAt(FormatDateForFilename(d), 0) == Some(TwoDigits(d.day))
    ensures FieldAt(FormatDateForFilename(d), 1) == Some(TwoDigits(d.month))
    ensures FieldAt(FormatDateForFilename(d), 2) == Some(TwoDigits(d.year % 100))
    ensures FieldAt(FormatDateForFilename(d), 3) == None
  {
    FieldsOfValidDate(d);
    var dd, mm, yy := TwoDigits(d.day), TwoDigits(d.month), TwoDigits(d.year % 100);
    assert '-' !in dd && '-' !in mm && '-' !in yy by {
      assert AllDigits(dd) && AllDigits(mm) && AllDigits(yy);
    }
    SplitThree(dd, mm, yy, '-');
    assert FormatDateForFilename(d) == dd + ['-'] + mm + ['-'] + yy;
  }

  /** The three filter inputs; the empty string means "no constraint". */
  datatype Criteria = Criteria(searchTerm: string, month: string, year: string)

  const NoCriteria := Criteria("", "", "")

  /** The fields of any issue id are its two-digit day, month and year. */
  lemma IssueIdFields(s: string)
    ensures IsIssueId(s) ==>
      FieldAt(s, 0) == Some(s[..2]) && FieldAt(s, 1) == Some(s[3..5]) && FieldAt(s, 2) == Some(s[6..])
  {
    if IsIssueId(s) {
      var dd, mm, yy := s[..2], s[3..5], s[6..];
      assert '-' !in dd && '-' !in mm && '-' !in yy by {
        assert AllDigits(dd) && AllDigits(mm) && AllDigits(yy);
      }
      assert s == dd + ['-'] + mm + ['-'] + yy;
      SplitThree(dd, mm, yy, '-');
    }
  }

  /** The search predicate: the term, lower-cased, occurs in the lower-cased
      display date, or the term occurs as written in the id. An empty term,
      the entry's own id and its label in any letter case all match. */
  function MatchesSearch(item: ArchiveItem, term: string): (matches: bool)
    ensures term == "" ==> matches
    ensures term == item.date ==> matches
    ensures Lower(term) == Lower(item.displayDate) ==> matches
  {
    ContainsEmpty(item.date);
    assert IsPrefix(item.date, item.date);
    assert IsPrefix(Lower(item.displayDate), Lower(item.displayDate));
    Contains(Lower(item.displayDate), Lower(term)) || Contains(item.date, term)
  }

  /** The month predicate: the id's second hyphen field equals the selection.
      On an issue id that field is characters 3 and 4. */
  function MatchesMonth(item: ArchiveItem, month: string): (matches: bool)
    ensures IsIssueId(item.date) ==> (matches <==> month == item.date[3..5])
    ensures matches ==> '-' !in month
  {
    IssueIdFields(item.date);
    FieldAt(item.date, 1) == Some(month)
  }

  /** The year predicate: the id's third hyphen field equals the selection.
      On an issue id that field is its last two characters. */
  function MatchesYear(item: ArchiveItem, year: string): (matches: bool)
    ensures IsIssueId(item.date) ==> (matches <==> year == item.date[6..])
    ensures matches ==> '-' !in year
  {
    IssueIdFields(item.date);
    FieldAt(item.date, 2) == Some(year)
  }

  /** The search stage, applied only when a term is entered. */
  function SearchStage(xs: seq<ArchiveItem>, term: string): (ys: seq<ArchiveItem>)
    ensures term == "" ==> ys == xs
    ensures |ys| <= |xs|
    ensures forall i :: 0 <= i < |ys| ==> MatchesSearch(ys[i], term) && ys[i] in xs
  {
    if term != "" then Keep(xs, item => MatchesSearch(item, term)) else xs
  }

  /** The month stage, applied only when a month is selected. */
  function MonthStage(xs: seq<ArchiveItem>, month: string): (ys: seq<ArchiveItem>)
    ensures month == "" ==> ys == xs
    ensures |ys| <= |xs|
    ensures forall i :: 0 <= i < |ys| ==> ys[i] in xs
    ensures month != "" ==> forall i :: 0 <= i < |ys| ==> MatchesMonth(ys[i], month)
  {
    if month != "" then Keep(xs, item => MatchesMonth(item, month)) else xs
  }

  /** The year stage, applied only when a year is selected. */
  function YearStage(xs: seq<ArchiveItem>, year: string): (ys: seq<ArchiveItem>)
    ensures year == "" ==> ys == xs
    ensures |ys| <= |xs|
    ensures forall i :: 0 <= i < |ys| ==> ys[i] in xs
    ensures year != "" ==> forall i :: 0 <= i < |ys| ==> MatchesYear(ys[i], year)
  {
    if year != "" then Keep(xs, item => MatchesYear(item, year)) else xs
  }

  /** The filter effect: search, then month, then year. Every entry shown
      passes all three criteria, and with no criteria everything is shown. */
  function ApplyFilters(archives: seq<ArchiveItem>, c: Criteria): (shown: seq<ArchiveItem>)
    ensures |shown| <= |archives|
    ensures forall i :: 0 <= i < |shown| ==> Selected(shown[i], c) && shown[i] in archives
    ensures c == NoCriteria ==> shown == archives
  {
    StagedIsKeep(archives, c);
    YearStage(MonthStage(SearchStage(archives, c.searchTerm), c.month), c.year)
  }

  /** An entry passes the filter when each criterion is empty or satisfied. */
  predicate Selected(item: ArchiveItem, c: Criteria) {
    && (c.searchTerm == "" || MatchesSearch(item, c.searchTerm))
    && (c.month == "" || MatchesMonth(item, c.month))
    && (c.year == "" || MatchesYear(item, c.year))
  }

  /** Every stage is a filter by its "empty or satisfied" predicate. */
  lemma StagesAreFilters(xs: seq<ArchiveItem>, c: Criteria)
    ensures SearchStage(xs, c.searchTerm) == Keep(xs, item => c.searchTerm == "" || MatchesSearch(item, c.searchTerm))
    ensures MonthStage(xs, c.month) == Keep(xs, item => c.month == "" || MatchesMonth(item, c.month))
    ensures YearStage(xs, c.year) == Keep(xs, item => c.year == "" || MatchesYear(item, c.year))
  {
    if c.searchTerm == "" {
      KeepEverything(xs, item => c.searchTerm == "" || MatchesSearch(item, c.searchTerm));
    } else {
      KeepExtensional(xs, item => MatchesSearch(item, c.searchTerm), item => c.searchTerm == "" || MatchesSearch(item, c.searchTerm));
    }
    if c.month == "" {
      KeepEverything(xs, item => c.month == "" || MatchesMonth(item, c.month));
    } else {
      KeepExtensional(xs, item => MatchesMonth(item, c.month), item => c.month == "" || MatchesMonth(item, c.month));
    }
    if c.year == "" {
      KeepEverything(xs, item => c.year == "" || MatchesYear(item, c.year));
    } else {
      KeepExtensional(xs, item => MatchesYear(item, c.year), item => c.year == "" || MatchesYear(item, c.year));
    }
  }

  /** The three stages in the effect's order are one filter by `Selected`. */
  lemma StagedIsKeep(archives: seq<ArchiveItem>, c: Criteria)
    ensures YearStage(MonthStage(SearchStage(archives, c.searchTerm), c.month), c.year)
      == Keep(archives, item => Selected(item, c))
  {
    var ps := (item: ArchiveItem) => c.searchTerm == "" || MatchesSearch(item, c.searchTerm);
    var pm := (item: ArchiveItem) => c.month == "" || MatchesMonth(item, c.month);
    var py := (item: ArchiveItem) => c.year == "" || MatchesYear(item, c.year);
    StagesAreFilters(archives, c);
    StagesAreFilters(Keep(archives, ps), c);
    StagesAreFilters(Keep(Keep(archives, ps), pm), c);
    KeepThree(archives, ps, pm, py, item => Selected(item, c));
  }

  /** The staged filter is one conjunctive filter: it keeps exactly the
      entries that satisfy all three criteria, in their original order. */
  lemma FilterIsConjunction(archives: seq<ArchiveItem>, c: Criteria)
    ensures ApplyFilters(archives, c) == Keep(archives, item => Selected(item, c))
  {
    StagedIsKeep(archives, c);
  }

  /** The filtered list is an order-preserving subsequence of the archive, and
      an entry is in it exactly when it is in the archive and passes all
      three criteria. */
  lemma FilterCharacterisation(archives: seq<ArchiveItem>, c: Criteria, item: ArchiveItem)
    ensures IsSubsequence(ApplyFilters(archives, c), archives)
    ensures item in ApplyFilters(archives, c) <==> item in archives && Selected(item, c)
  {
    FilterIsConjunction(archives, c);
    KeepIsSubsequence(archives, item => Selected(item, c));
    KeepMembership(archives, item => Selected(item, c), item);
  }

  /** With all three criteria empty the filter returns the archive unchanged. */
  lemma FilterUnconstrained(archives: seq<ArchiveItem>)
    ensures ApplyFilters(archives, NoCriteria) == archives
  {
  }

  /** Filtering an already filtered list again changes nothing. */
  lemma FilterIdempotent(archives: seq<ArchiveItem>, c: Criteria)
    ensures ApplyFilters(ApplyFilters(archives, c), c) == ApplyFilters(archives, c)
  {
    FilterIsConjunction(archives, c);
    FilterIsConjunction(ApplyFilters(archives, c), c);
    KeepIdempotent(archives, item => Selected(item, c));
  }

  /** The three stages can be applied in any of the six orders with the same result. */
  lemma FilterOrderIndependent(xs: seq<ArchiveItem>, c: Criteria)
    ensures MonthStage(SearchStage(xs, c.searchTerm), c.month) == SearchStage(MonthStage(xs, c.month), c.searchTerm)
    ensures YearStage(SearchStage(xs, c.searchTerm), c.year) == SearchStage(YearStage(xs, c.year), c.searchTerm)
    ensures YearStage(MonthStage(xs, c.month), c.year) == MonthStage(YearStage(xs, c.year), c.month)
    ensures ApplyFilters(xs, c) == YearStage(SearchStage(MonthStage(xs, c.month), c.searchTerm), c.year)
    ensures ApplyFilters(xs, c) == SearchStage(YearStage(MonthStage(xs, c.month), c.year), c.searchTerm)
    ensures ApplyFilters(xs, c) == MonthStage(YearStage(SearchStage(xs, c.searchTerm), c.year), c.month)
    ensures ApplyFilters(xs, c) == SearchStage(MonthStage(YearStage(xs, c.year), c.month), c.searchTerm)
    ensures ApplyFilters(xs, c) == MonthStage(SearchStage(YearStage(xs, c.year), c.searchTerm), c.month)
  {
    forall ys: seq<ArchiveItem> | true
      ensures MonthStage(SearchStage(ys, c.searchTerm), c.month) == SearchStage(MonthStage(ys, c.month), c.searchTerm)
      ensures YearStage(SearchStage(ys, c.searchTerm), c.year) == SearchStage(YearStage(ys, c.year), c.searchTerm)
      ensures YearStage(MonthStage(ys, c.month), c.year) == MonthStage(YearStage(ys, c.year), c.month)
    {
      StagesCommute(ys, c);
    }
  }

  lemma StagesCommute(xs: seq<ArchiveItem>, c: Criteria)
    ensures MonthStage(SearchStage(xs, c.searchTerm), c.month) == SearchStage(MonthStage(xs, c.month), c.searchTerm)
    ensures YearStage(SearchStage(xs, c.searchTerm), c.year) == SearchStage(YearStage(xs, c.year), c.searchTerm)
    ensures YearStage(MonthStage(xs, c.month), c.year) == MonthStage(YearStage(xs, c.year), c.month)
  {
    var ps := (item: ArchiveItem) => c.searchTerm == "" || MatchesSearch(item, c.searchTerm);
    var pm := (item: ArchiveItem) => c.month == "" || MatchesMonth(item, c.month);
    var py := (item: ArchiveItem) => c.year == "" || MatchesYear(item, c.year);
    StagesAreFilters(xs, c);
    StagesAreFilters(Keep(xs, ps), c);
    StagesAreFilters(Keep(xs, pm), c);
    StagesAreFilters(Keep(xs, py), c);
    KeepCommutes(xs, ps, pm);
    KeepCommutes(xs, ps, py);
    KeepCommutes(xs, pm, py);
  }

  /** On generated entries the month filter keeps exactly the days of the
      selected month and the year filter exactly the days of the selected
      two-digit year. */
  lemma GeneratedMonthAndYear(today: Date, longDate: Date -> string, i: nat, m: string, y: string)
    requires Valid(today) && today.year >= 11 && i < WindowDays
    ensures MatchesMonth(GenerateArchives(today, longDate)[i], m) <==> m == TwoDigits(DaysBefore(today, i).month)
    ensures MatchesYear(GenerateArchives(today, longDate)[i], y) <==> y == TwoDigits(DaysBefore(today, i).year % 100)
  {
    DaysBeforeWithinYear(today, i);
    FieldsOfId(DaysBefore(today, i));
  }

  /** The archive view's state: the generated list, the filtered list on
      screen and the current filter inputs. */
  datatype ArchiveView = ArchiveView(archives: seq<ArchiveItem>, filtered: seq<ArchiveItem>, criteria: Criteria)

  /** What the filter effect maintains after every render. */
  predicate Consistent(v: ArchiveView) {
    v.filtered == ApplyFilters(v.archives, v.criteria)
  }

  /** Mounting the view generates the archive and shows all of it. */
  function Mount(today: Date, longDate: Date -> string): (v: ArchiveView)
    requires Valid(today)
    ensures |v.archives| == 30 && v.filtered == v.archives
    ensures v.criteria == NoCriteria && Consistent(v)
  {
    var archives := GenerateArchives(today, longDate);
    FilterUnconstrained(archives);
    ArchiveView(archives, archives, NoCriteria)
  }

  /** The inputs of the filter bar. */
  datatype FilterInput =
    | TypeSearch(term: string)
    | SelectMonth(month: string)
    | SelectYear(year: string)
    | ClearFilters

  /** One input followed by the filter effect. The archive itself never
      changes; Clear Filters empties all three criteria and so shows the
      whole archive again. */
  function Update(v: ArchiveView, input: FilterInput): (w: ArchiveView)
    ensures w.archives == v.archives
    ensures Consistent(w)
    ensures IsSubsequence(w.filtered, w.archives)
    ensures input.ClearFilters? ==> w.criteria == NoCriteria && w.filtered == v.archives
    ensures input.TypeSearch? ==> w.criteria == v.criteria.(searchTerm := input.term)
    ensures input.SelectMonth? ==> w.criteria == v.criteria.(month := input.month)
    ensures input.SelectYear? ==> w.criteria == v.criteria.(year := input.year)
  {
    var c := match input
      case TypeSearch(t) => v.criteria.(searchTerm := t)
      case SelectMonth(m) => v.criteria.(month := m)
      case SelectYear(y) => v.criteria.(year := y)
      case ClearFilters => NoCriteria;
    FilterIsConjunction(v.archives, c);
    KeepIsSubsequence(v.archives, item => Selected(item, c));
    ArchiveView(v.archives, ApplyFilters(v.archives, c), c)
  }
}
