/** The stand-alone viewer of `src/components/EpaperViewer.tsx`: it resolves
    today's issue by probing three candidate paths, and pages through the
    document once the renderer reports its page count. */
module EpaperViewer {

  import opened Wrappers
  import opened Strings
  import opened Calendar
  import opened DateCodec
  import opened Probing

  /** The component's state hooks (the page width, a layout concern, is left out). */
  datatype ViewerState = ViewerState(
    currentPage: int,
    totalPages: int,
    pdfUrl: string,
    isLoading: bool,
    error: Option<string>)

  /** The state before any effect has run. */
  const Initial := ViewerState(1, 0, "", true, None)

  /** Today's filename as the loader builds it inline: the padded day, month
      and two-digit year joined by hyphens, with a `.pdf` suffix. It is the
      codec's id followed by ".pdf". */
  function TodayPdfFilename(today: Date): (filename: string)
    ensures filename == IssueFilename(today)
  {
    var day := DayField(today);
    var month := MonthField(today);
    var year := YearField(today);
    day + "-" + month + "-" + year + ".pdf"
  }

  const FallbackPdfs := ["/17-07-2025_11zon.pdf", "/demo-epaper.pdf"]

  /** The paths tried, in order: today's file at the site root, then the two fallbacks. */
  function CandidatePaths(today: Date): (paths: seq<string>)
    ensures |paths| == 3
    ensures paths[0] == "/" + FormatDateForFilename(today) + ".pdf"
    ensures paths[1] == "/17-07-2025_11zon.pdf" && paths[2] == "/demo-epaper.pdf"
  {
    var first := "/" + TodayPdfFilename(today);
    assert first == "/" + FormatDateForFilename(today) + ".pdf";
    [first] + FallbackPdfs
  }

  /** The state after a load together with the paths it requested. */
  datatype LoadResult = LoadResult(state: ViewerState, requested: seq<string>)

  /** `loadTodaysPDF`: clear the error, request the candidates in order and
      show the first one that answers ok; when none does, keep the previous
      URL and report today's filename as not yet available. Either way the
      loading flag ends false and the page counters are untouched. */
  function LoadTodaysPdf(s: ViewerState, today: Date, oracle: Oracle): (r: LoadResult)
    ensures !r.state.isLoading
    ensures r.state.currentPage == s.currentPage && r.state.totalPages == s.totalPages
    ensures var p := CandidatePaths(today);
      && (Succeeds(oracle(p[0])) ==>
            r.state.pdfUrl == p[0] && r.state.error.None? && r.requested == [p[0]])
      && (!Succeeds(oracle(p[0])) && Succeeds(oracle(p[1])) ==>
            r.state.pdfUrl == p[1] && r.state.error.None? && r.requested == [p[0], p[1]])
      && (!Succeeds(oracle(p[0])) && !Succeeds(oracle(p[1])) && Succeeds(oracle(p[2])) ==>
            r.state.pdfUrl == p[2] && r.state.error.None? && r.requested == p)
      && (!Succeeds(oracle(p[0])) && !Succeeds(oracle(p[1])) && !Succeeds(oracle(p[2])) ==>
            r.state.pdfUrl == s.pdfUrl && r.requested == p
            && r.state.error.Some? && Contains(r.state.error.value, TodayPdfFilename(today)))
  {
    var paths := CandidatePaths(today);
    var started := s.(isLoading := true, error := None);
    var chain := FirstAvailable(paths, oracle);
    ChainOfThree(paths, oracle);
    match chain.found
    case Some(path) => LoadResult(started.(pdfUrl := path, isLoading := false), chain.probed)
    case None =>
      LoadResult(started.(error := Some(MissingIssueWarning(TodayPdfFilename(today), "Please check back later.")), isLoading := false), chain.probed)
  }

  /** The chain over three candidates, spelled out case by case. */
  lemma ChainOfThree(p: seq<string>, oracle: Oracle)
    requires |p| == 3
    ensures var r := FirstAvailable(p, oracle);
      && (Succeeds(oracle(p[0])) ==> r == ChainResult(Some(p[0]), [p[0]]))
      && (!Succeeds(oracle(p[0])) && Succeeds(oracle(p[1])) ==> r == ChainResult(Some(p[1]), [p[0], p[1]]))
      && (!Succeeds(oracle(p[0])) && !Succeeds(oracle(p[1])) && Succeeds(oracle(p[2])) ==>
            r == ChainResult(Some(p[2]), p))
      && (!Succeeds(oracle(p[0])) && !Succeeds(oracle(p[1])) && !Succeeds(oracle(p[2])) ==>
            r == ChainResult(None, p))
  {
    if Succeeds(oracle(p[0])) {
      FirstAvailableIsFirst(p, oracle, 0);
    } else if Succeeds(oracle(p[1])) {
      FirstAvailableIsFirst(p, oracle, 1);
      assert p[..2] == [p[0], p[1]];
    } else if Succeeds(oracle(p[2])) {
      FirstAvailableIsFirst(p, oracle, 2);
      assert p[..3] == p;
    } else {
      FirstAvailableNone(p, oracle);
    }
  }

  /** `onDocumentLoadSuccess`: record the page count, clear the error, go to page 1. */
  function OnDocumentLoadSuccess(s: ViewerState, numPages: int): (r: ViewerState)
    ensures r.totalPages == numPages && r.currentPage == 1 && r.error.None?
    ensures r.pdfUrl == s.pdfUrl && r.isLoading == s.isLoading
  {
    s.(totalPages := numPages, error := None, currentPage := 1)
  }

  /** `onDocumentLoadError`: show the renderer's message after a fixed prefix. */
  function OnDocumentLoadError(s: ViewerState, message: string): (r: ViewerState)
    ensures r.error.Some? && Contains(r.error.value, message)
    ensures r.currentPage == s.currentPage && r.totalPages == s.totalPages && r.pdfUrl == s.pdfUrl
  {
    ContainsMiddle("Failed to load PDF: ", message, "");
    assert "Failed to load PDF: " + message + "" == "Failed to load PDF: " + message;
    s.(error := Some("Failed to load PDF: " + message))
  }

  /** `handlePageChange`: move to a page of the document, ignore anything else. */
  function HandlePageChange(s: ViewerState, page: int): (r: ViewerState)
    ensures 1 <= page <= s.totalPages ==> r.currentPage == page
    ensures !(1 <= page <= s.totalPages) ==> r == s
    ensures r.totalPages == s.totalPages && r.pdfUrl == s.pdfUrl && r.error == s.error && r.isLoading == s.isLoading
  {
    if page >= 1 && page <= s.totalPages then s.(currentPage := page) else s
  }

  /** The current page lies within the document whenever the document has pages. */
  predicate PageInRange(s: ViewerState) {
    s.totalPages >= 1 ==> 1 <= s.currentPage <= s.totalPages
  }

  /** A sequence of page requests, each handled by `handlePageChange`. */
  function ChangePages(s: ViewerState, pages: seq<int>): (r: ViewerState)
    ensures r.totalPages == s.totalPages && r.pdfUrl == s.pdfUrl && r.error == s.error
    decreases |pages|
  {
    if |pages| == 0 then s else ChangePages(HandlePageChange(s, pages[0]), pages[1..])
  }

  /** Page requests keep the current page within the document. */
  lemma {:induction false} ChangePagesInRange(s: ViewerState, pages: seq<int>)
    requires PageInRange(s)
    ensures PageInRange(ChangePages(s, pages))
    decreases |pages|
  {
    if |pages| > 0 {
      ChangePagesInRange(HandlePageChange(s, pages[0]), pages[1..]);
    }
  }

  /** After a document with at least one page has loaded, the viewer is on
      page 1 without error, and any sequence of page requests keeps the
      current page between 1 and the page count. */
  lemma LoadThenNavigate(s: ViewerState, numPages: int, pages: seq<int>)
    requires numPages >= 1
    ensures OnDocumentLoadSuccess(s, numPages).currentPage == 1
    ensures OnDocumentLoadSuccess(s, numPages).error.None?
    ensures var r := ChangePages(OnDocumentLoadSuccess(s, numPages), pages);
      1 <= r.currentPage <= r.totalPages == numPages
  {
    ChangePagesInRange(OnDocumentLoadSuccess(s, numPages), pages);
  }

  /** Before any document has loaded there are no pages, so no request moves
      the viewer off page 1. */
  lemma {:induction false} NoPagesNoMoves(s: ViewerState, pages: seq<int>)
    requires s.totalPages == 0
    ensures ChangePages(s, pages) == s
    decreases |pages|
  {
    if |pages| > 0 {
      NoPagesNoMoves(HandlePageChange(s, pages[0]), pages[1..]);
    }
  }

  /** Before the first document has loaded, page requests leave the viewer
      as mounted: on page 1 of no pages. */
  lemma NoMovesBeforeLoad(pages: seq<int>)
    ensures ChangePages(Initial, pages) == Initial
    ensures Initial.currentPage == 1 && Initial.totalPages == 0
  {
    NoPagesNoMoves(Initial, pages);
  }

  /** The Retry button shown with any error calls the loader again from the
      current state: a path that now answers clears the error, whatever
      failure set it, and the page counters stay as they were. */
  lemma RetryClearsError(s: ViewerState, today: Date, oracle: Oracle)
    requires s.error.Some?
    requires exists k :: 0 <= k < 3 && Succeeds(oracle(CandidatePaths(today)[k]))
    ensures var r := LoadTodaysPdf(s, today, oracle).state;
      r.error.None? && r.pdfUrl in CandidatePaths(today) && Succeeds(oracle(r.pdfUrl))
      && r.currentPage == s.currentPage && r.totalPages == s.totalPages
  {
    var p := CandidatePaths(today);
    var k :| 0 <= k < 3 && Succeeds(oracle(p[k]));
    assert k == 0 || k == 1 || k == 2;
  }

  /** The mobile next-page button on the last page does nothing. */
  lemma NextOnLastPage(s: ViewerState)
    requires s.currentPage == s.totalPages
    ensures HandlePageChange(s, s.currentPage + 1) == s
  {
  }

  /** One control of the pagination strip. */
  datatype PageControl = PageButton(target: int) | Ellipsis | LastButton(target: int)

  const MaxVisiblePages := 5

  /** How many numbered buttons a document of `totalPages` pages gets. */
  function ShownButtons(totalPages: int): int {
    if totalPages < MaxVisiblePages then (if totalPages < 0 then 0 else totalPages) else MaxVisiblePages
  }

  /** The pagination strip of a document: numbered buttons 1 to
      min(5, totalPages) in increasing order, followed, exactly when there are
      more than 5 pages, by an ellipsis and a button to the last page. */
  predicate IsPageStrip(controls: seq<PageControl>, totalPages: int) {
    && |controls| == ShownButtons(totalPages) + (if totalPages > MaxVisiblePages then 2 else 0)
    && (forall i :: 0 <= i < ShownButtons(totalPages) ==> controls[i] == PageButton(i + 1))
    && (totalPages > MaxVisiblePages ==> controls[5] == Ellipsis && controls[6] == LastButton(totalPages))
  }

  /** `renderPageNumbers`, built by the same loop and conditional push. */
  method RenderPageNumbers(totalPages: int) returns (controls: seq<PageControl>)
    ensures IsPageStrip(controls, totalPages)
  {
    var shown := ShownButtons(totalPages);
    controls := [];
    var i := 1;
    while i <= shown
      invariant 1 <= i <= shown + 1
      invariant |controls| == i - 1
      invariant forall k :: 0 <= k < i - 1 ==> controls[k] == PageButton(k + 1)
    {
      controls := controls + [PageButton(i)];
      i := i + 1;
    }
    if totalPages > MaxVisiblePages {
      controls := controls + [Ellipsis, LastButton(totalPages)];
    }
  }

  /** The page a control asks `handlePageChange` for, if any. */
  function Target(c: PageControl): Option<int> {
    match c
    case PageButton(t) => Some(t)
    case LastButton(t) => Some(t)
    case Ellipsis => None
  }

  /** Every button of the strip is accepted: clicking it moves to its target. */
  lemma StripButtonsAccepted(s: ViewerState, controls: seq<PageControl>, i: nat)
    requires IsPageStrip(controls, s.totalPages)
    requires i < |controls| && Target(controls[i]).Some?
    ensures 1 <= Target(controls[i]).value <= s.totalPages
    ensures HandlePageChange(s, Target(controls[i]).value).currentPage == Target(controls[i]).value
  {
  }

  /** Every thumbnail and every option of the page selector (pages 1 to
      totalPages) is accepted too. */
  lemma ThumbnailsAccepted(s: ViewerState, i: int)
    requires 0 <= i < s.totalPages
    ensures HandlePageChange(s, i + 1) == s.(currentPage := i + 1)
  {
  }
}
