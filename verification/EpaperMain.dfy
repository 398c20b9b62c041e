/** The page shell of `src/components/EpaperMain.tsx`: it resolves today's
    issue with a single existence check, switches between today's issue and
    the archive, and opens an archived issue. */
module EpaperMain {

  import opened Wrappers
  import opened Strings
  import opened Calendar
  import opened DateCodec
  import opened Probing
  import Archive

  datatype ViewMode = Today | ArchiveMode

  /** The component's state hooks. */
  datatype MainState = MainState(
    viewMode: ViewMode,
    currentPdf: string,
    currentDate: string,
    isLoading: bool,
    error: Option<string>)

  const Initial := MainState(Today, "", "", true, None)

  const DemoPdf := "/demo-epaper.pdf"

  /** Today's paper resolved from a given filename: check that the file
      exists, then show it, or show the demo issue with a warning that names
      the missing file. The date shown is the filename without ".pdf". */
  function ResolveToday(s: MainState, filename: string, oracle: Oracle): (r: MainState)
    ensures !r.isLoading && r.viewMode == s.viewMode
    ensures r.currentDate == ReplaceFirst(filename, ".pdf", "")
    ensures CheckPdfExists(filename, oracle) ==> r.currentPdf == "/public/" + filename && r.error.None?
    ensures !CheckPdfExists(filename, oracle) ==>
      r.currentPdf == DemoPdf && r.error.Some? && Contains(r.error.value, filename)
  {
    var started := s.(isLoading := true, error := None);
    var date := ReplaceFirst(filename, ".pdf", "");
    var resolved :=
      if CheckPdfExists(filename, oracle) then started.(currentPdf := GetPdfUrl(filename), currentDate := date)
      else started.(currentPdf := DemoPdf, currentDate := date, error := Some(MissingIssueWarning(filename, "Showing demo.")));
    resolved.(isLoading := false)
  }

  /** `loadTodaysPaper` as written: the filename is today's id, which has no
      `.pdf` suffix, so the replacement leaves it as it is and the date shown
      is today's id. */
  function LoadTodaysPaper(s: MainState, today: Date, oracle: Oracle): (r: MainState)
    ensures !r.isLoading && r.viewMode == s.viewMode
    ensures r.currentDate == FormatDateForFilename(today)
    ensures CheckPdfExists(FormatDateForFilename(today), oracle) ==>
      r.currentPdf == "/public/" + FormatDateForFilename(today) && r.error.None?
    ensures !CheckPdfExists(FormatDateForFilename(today), oracle) ==>
      r.currentPdf == DemoPdf && r.error.Some? && Contains(r.error.value, FormatDateForFilename(today))
  {
    IdIsNumericText(today);
    AbsentCharNotContained(GetTodayFilename(today), ".pdf");
    ReplaceAbsent(GetTodayFilename(today), ".pdf", "");
    ResolveToday(s, GetTodayFilename(today), oracle)
  }

  /** The mount effect: the shell starts loading with no issue and leaves
      the loading screen after the first load, on today's id, in the issue view. */
  lemma MountLoadsToday(today: Date, oracle: Oracle)
    ensures Initial.isLoading && Initial.viewMode == Today
    ensures var r := LoadTodaysPaper(Initial, today, oracle);
      !r.isLoading && r.viewMode == Today && r.currentDate == FormatDateForFilename(today)
      && (r.currentPdf == "/public/" + FormatDateForFilename(today) || r.currentPdf == DemoPdf)
  {
  }

  /** `handleSelectArchivePDF`: open an archived file under `/public/`, show
      its date, and return to the issue view. */
  function HandleSelectArchivePdf(s: MainState, filename: string, date: string): (r: MainState)
    ensures r.currentPdf == "/public/" + filename && r.currentDate == date && r.viewMode == Today
    ensures r.isLoading == s.isLoading && r.error == s.error
  {
    s.(currentPdf := GetPdfUrl(filename), currentDate := date, viewMode := Today)
  }

  /** `handleBackToToday`: reload today's paper and return to the issue view. */
  function HandleBackToToday(s: MainState, today: Date, oracle: Oracle): (r: MainState)
    ensures r.viewMode == Today && !r.isLoading
    ensures r.currentDate == FormatDateForFilename(today)
    ensures CheckPdfExists(FormatDateForFilename(today), oracle) ==>
      r.currentPdf == "/public/" + FormatDateForFilename(today) && r.error.None?
    ensures !CheckPdfExists(FormatDateForFilename(today), oracle) ==>
      r.currentPdf == DemoPdf && r.error.Some? && Contains(r.error.value, FormatDateForFilename(today))
  {
    LoadTodaysPaper(s, today, oracle).(viewMode := Today)
  }

  /** The Archive button: switch to the archive and change nothing else. */
  function ShowArchive(s: MainState): (r: MainState)
    ensures r.viewMode == ArchiveMode
    ensures r.currentPdf == s.currentPdf && r.currentDate == s.currentDate
    ensures r.isLoading == s.isLoading && r.error == s.error
  {
    s.(viewMode := ArchiveMode)
  }

  /** The date label handed to the issue viewer. */
  function DisplayedDate(s: MainState, longDate: Date -> string): string {
    FormatDateForDisplay(s.currentDate, longDate)
  }

  /** After loading today's paper in 2000 to 2099 the viewer is labelled
      with today's long date, whichever file was found. */
  lemma TodayIsLabelled(s: MainState, today: Date, oracle: Oracle, longDate: Date -> string)
    requires Valid(today) && 2000 <= today.year <= 2099
    ensures DisplayedDate(LoadTodaysPaper(s, today, oracle), longDate) == longDate(today)
  {
    DisplayOfFormat(today, longDate);
  }

  /** Opening any generated archive entry shows a URL ending in ".pdf" and
      the entry's date, labelled with the entry's long date in 2000 to 2099. */
  lemma ArchiveSelection(s: MainState, today: Date, longDate: Date -> string, i: nat)
    requires Valid(today) && i < Archive.WindowDays
    ensures var item := Archive.GenerateArchives(today, longDate)[i];
      var r := HandleSelectArchivePdf(s, item.filename, item.date);
      && EndsWith(r.currentPdf, ".pdf")
      && r.currentDate == item.date
      && (2000 <= DaysBefore(today, i).year <= 2099 ==> DisplayedDate(r, longDate) == item.displayDate)
  {
    var archives := Archive.GenerateArchives(today, longDate);
    var d := DaysBefore(today, i);
    assert archives[i].date == FormatDateForFilename(d);
    assert archives[i].filename == archives[i].date + ".pdf";
    assert archives[i].displayDate == longDate(d);
    SelectionOfEntry(s, archives[i], d, longDate);
  }

  /** Opening an entry for day `d`: the URL ends in ".pdf", the date is the
      entry's, and in 2000 to 2099 the label is the entry's long date. */
  lemma SelectionOfEntry(s: MainState, item: Archive.ArchiveItem, d: Date, longDate: Date -> string)
    requires Valid(d)
    requires item.date == FormatDateForFilename(d) && item.filename == item.date + ".pdf"
    requires item.displayDate == longDate(d)
    ensures var r := HandleSelectArchivePdf(s, item.filename, item.date);
      && EndsWith(r.currentPdf, ".pdf")
      && r.currentDate == item.date
      && (2000 <= d.year <= 2099 ==> DisplayedDate(r, longDate) == item.displayDate)
  {
    SelectionUrl(s, item);
    SelectionLabel(HandleSelectArchivePdf(s, item.filename, item.date), item, d, longDate);
  }

  /** Opening a file named after its date plus ".pdf" shows a URL ending in
      ".pdf" and that date. */
  lemma SelectionUrl(s: MainState, item: Archive.ArchiveItem)
    requires item.filename == item.date + ".pdf"
    ensures var r := HandleSelectArchivePdf(s, item.filename, item.date);
      EndsWith(r.currentPdf, ".pdf") && r.currentDate == item.date
  {
    assert "/public/" + item.filename == ("/public/" + item.date) + ".pdf";
    EndsWithAppended("/public/" + item.date, ".pdf");
  }

  /** The label of a state showing the entry for day `d` in 2000 to 2099 is
      the entry's long date. */
  lemma SelectionLabel(r: MainState, item: Archive.ArchiveItem, d: Date, longDate: Date -> string)
    requires Valid(d)
    requires item.date == FormatDateForFilename(d) && item.displayDate == longDate(d)
    requires r.currentDate == item.date
    ensures 2000 <= d.year <= 2099 ==> DisplayedDate(r, longDate) == item.displayDate
  {
    if 2000 <= d.year <= 2099 {
      DisplayOfFormat(d, longDate);
    }
  }

  /** As written, today's issue and today's archive entry are different
      files: the existence check asks for `/public/DD-MM-YY` and a found
      issue is shown from that URL, without the ".pdf" that every archived
      issue, and today's archive entry in particular, carries. */
  lemma TodayUrlLacksExtension(s: MainState, today: Date, oracle: Oracle, longDate: Date -> string)
    requires Valid(today)
    requires CheckPdfExists(FormatDateForFilename(today), oracle)
    ensures var r := LoadTodaysPaper(s, today, oracle);
      var entry := Archive.GenerateArchives(today, longDate)[0];
      && !EndsWith(r.currentPdf, ".pdf")
      && r.currentPdf != HandleSelectArchivePdf(s, entry.filename, entry.date).currentPdf
  {
    var r := LoadTodaysPaper(s, today, oracle);
    IdIsNumericText(today);
    assert '.' !in r.currentPdf by {
      assert r.currentPdf == "/public/" + FormatDateForFilename(today);
    }
    assert r.currentPdf[|r.currentPdf| - 4] == '.' ==> '.' in r.currentPdf;
  }

  /** What a reader sees as written: when today's `.pdf` file is published
      but no extension-less file of the same name exists, the shell shows
      the demo issue with a warning, where the corrected loader shows
      today's issue. */
  lemma PublishedIssueMissedAsWritten(s: MainState, today: Date, oracle: Oracle)
    requires CheckPdfExists(IssueFilename(today), oracle)
    requires !CheckPdfExists(FormatDateForFilename(today), oracle)
    ensures var r := LoadTodaysPaper(s, today, oracle);
      r.currentPdf == DemoPdf && r.error.Some?
    ensures var f := LoadTodaysPaperFixed(s, today, oracle);
      f.currentPdf == "/public/" + IssueFilename(today) && f.error.None?
  {
  }

  /** `loadTodaysPaper` corrected: the existence check and the URL use today's
      `.pdf` file, and the replacement strips the suffix back off, so the
      date shown is still today's id. */
  function LoadTodaysPaperFixed(s: MainState, today: Date, oracle: Oracle): (r: MainState)
    ensures !r.isLoading && r.viewMode == s.viewMode
    ensures r.currentDate == FormatDateForFilename(today)
    ensures CheckPdfExists(IssueFilename(today), oracle) ==>
      r.currentPdf == "/public/" + FormatDateForFilename(today) + ".pdf" && r.error.None?
    ensures !CheckPdfExists(IssueFilename(today), oracle) ==>
      r.currentPdf == DemoPdf && r.error.Some? && Contains(r.error.value, IssueFilename(today))
  {
    ResolveToday(s, IssueFilename(today), oracle)
  }

  /** With the correction, a found issue of today is the very file the
      archive opens for today's entry, and it is labelled with today's date. */
  lemma FixedTodayMatchesArchive(s: MainState, today: Date, oracle: Oracle, longDate: Date -> string)
    requires Valid(today) && 2000 <= today.year <= 2099
    requires CheckPdfExists(IssueFilename(today), oracle)
    ensures var r := LoadTodaysPaperFixed(s, today, oracle);
      var entry := Archive.GenerateArchives(today, longDate)[0];
      && r.currentPdf == HandleSelectArchivePdf(s, entry.filename, entry.date).currentPdf
      && r.currentDate == entry.date
      && DisplayedDate(r, longDate) == longDate(today)
  {
    DisplayOfFormat(today, longDate);
  }

  /** `handleBackToToday` corrected: reload today's `.pdf` file and return to the issue view. */
  function HandleBackToTodayFixed(s: MainState, today: Date, oracle: Oracle): (r: MainState)
    ensures r.viewMode == Today && !r.isLoading
    ensures r.currentDate == FormatDateForFilename(today)
    ensures CheckPdfExists(IssueFilename(today), oracle) ==> EndsWith(r.currentPdf, ".pdf")
  {
    LoadTodaysPaperFixed(s, today, oracle).(viewMode := Today)
  }
}
