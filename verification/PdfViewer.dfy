/** The embedded viewer of `src/components/PDFViewer.tsx`: page navigation that
    reports page changes to its parent, a clamped zoom, and a reset whenever
    the document URL changes. */
module PdfViewer {

  import opened Wrappers
  import opened Strings

  /** Zoom in quarter-units: `zoom` in the source is `quarters / 4`. Every value
      the source can reach is a multiple of 0.25, which binary floating point
      represents exactly, so this integer model loses nothing. */
  type Quarters = int

  const DefaultZoom: Quarters := 4
  const MinZoom: Quarters := 2
  const MaxZoom: Quarters := 12

  /** The zoom factor a quarter count stands for. */
  function ZoomFactor(q: Quarters): real {
    q as real / 4.0
  }

  /** The component's state hooks, with the `pdfUrl` prop it last reset for. */
  datatype PdfState = PdfState(
    pdfUrl: string,
    currentPage: int,
    totalPages: int,
    zoom: Quarters,
    isLoading: bool,
    error: Option<string>)

  /** The state of a freshly mounted viewer for a URL. */
  function Mounted(url: string): (s: PdfState)
    ensures s.currentPage == 1 && s.totalPages == 0 && ZoomFactor(s.zoom) == 1.0
    ensures s.isLoading && s.error.None?
  {
    PdfState(url, 1, 0, DefaultZoom, true, None)
  }

  /** The reset effect: a new `pdfUrl` puts the viewer back on page 1 at zoom
      1, loading and without error; the page count is not reset. The same URL
      again runs no effect. */
  function OnPdfUrl(s: PdfState, url: string): (r: PdfState)
    ensures url != s.pdfUrl ==>
      r.pdfUrl == url && r.currentPage == 1 && ZoomFactor(r.zoom) == 1.0 && r.isLoading && r.error.None?
      && r.totalPages == s.totalPages
    ensures url == s.pdfUrl ==> r == s
  {
    if url == s.pdfUrl then s
    else s.(pdfUrl := url, currentPage := 1, zoom := DefaultZoom, isLoading := true, error := None)
  }

  /** `onDocumentLoadSuccess`: record the page count, stop loading, clear the
      error; the current page is left as it is. */
  function OnLoadSuccess(s: PdfState, numPages: int): (r: PdfState)
    ensures r.totalPages == numPages && !r.isLoading && r.error.None?
    ensures r.currentPage == s.currentPage && r.zoom == s.zoom && r.pdfUrl == s.pdfUrl
  {
    s.(totalPages := numPages, isLoading := false, error := None)
  }

  /** `onDocumentLoadError`: show the renderer's message and stop loading. */
  function OnLoadError(s: PdfState, message: string): (r: PdfState)
    ensures r.error.Some? && Contains(r.error.value, message) && !r.isLoading
    ensures r.currentPage == s.currentPage && r.totalPages == s.totalPages && r.zoom == s.zoom
  {
    ContainsMiddle("Failed to load PDF: ", message, "");
    assert "Failed to load PDF: " + message + "" == "Failed to load PDF: " + message;
    s.(error := Some("Failed to load PDF: " + message), isLoading := false)
  }

  /** A page change and the page reported to the parent's `onPageChange`, if any. */
  datatype PageChange = PageChange(state: PdfState, reported: Option<int>)

  /** `handlePageChange`: a page of the document becomes current and is
      reported to the parent; any other request does nothing at all. */
  function HandlePageChange(s: PdfState, page: int): (r: PageChange)
    ensures 1 <= page <= s.totalPages ==> r == PageChange(s.(currentPage := page), Some(page))
    ensures !(1 <= page <= s.totalPages) ==> r == PageChange(s, None)
  {
    if page >= 1 && page <= s.totalPages then PageChange(s.(currentPage := page), Some(page))
    else PageChange(s, None)
  }

  /** The previous-page button on page 1 does nothing. */
  lemma PreviousOnFirstPage(s: PdfState)
    requires s.currentPage == 1
    ensures HandlePageChange(s, s.currentPage - 1) == PageChange(s, None)
  {
  }

  /** The next-page button on the last page does nothing. */
  lemma NextOnLastPage(s: PdfState)
    requires s.currentPage == s.totalPages
    ensures HandlePageChange(s, s.currentPage + 1) == PageChange(s, None)
  {
  }

  /** `handleZoomIn`: a quarter more, at most 3. */
  function ZoomIn(q: Quarters): (r: Quarters)
    ensures r <= MaxZoom
    ensures q < MaxZoom ==> r == q + 1
    ensures q >= MaxZoom ==> r == MaxZoom
  {
    if q + 1 < MaxZoom then q + 1 else MaxZoom
  }

  /** `handleZoomOut`: a quarter less, at least 0.5. */
  function ZoomOut(q: Quarters): (r: Quarters)
    ensures r >= MinZoom
    ensures q > MinZoom ==> r == q - 1
    ensures q <= MinZoom ==> r == MinZoom
  {
    if q - 1 > MinZoom then q - 1 else MinZoom
  }

  function RealMin(a: real, b: real): real {
    if a < b then a else b
  }

  function RealMax(a: real, b: real): real {
    if a > b then a else b
  }

  /** The quarter-unit zoom steps are exactly `Math.min(prev + 0.25, 3)` and
      `Math.max(prev - 0.25, 0.5)` on the zoom factor. */
  lemma ZoomStepsMatchFactor(q: Quarters)
    ensures ZoomFactor(ZoomIn(q)) == RealMin(ZoomFactor(q) + 0.25, 3.0)
    ensures ZoomFactor(ZoomOut(q)) == RealMax(ZoomFactor(q) - 0.25, 0.5)
  {
  }

  /** Zooming in at 3 and zooming out at 0.5 change nothing. */
  lemma ZoomClampsAreFixedPoints()
    ensures ZoomFactor(ZoomIn(MaxZoom)) == 3.0 && ZoomIn(MaxZoom) == MaxZoom
    ensures ZoomFactor(ZoomOut(MinZoom)) == 0.5 && ZoomOut(MinZoom) == MinZoom
  {
  }

  /** Zooming out undoes zooming in below 3, and zooming in undoes zooming out above 0.5. */
  lemma ZoomInverses(q: Quarters)
    requires MinZoom <= q <= MaxZoom
    ensures q < MaxZoom ==> ZoomOut(ZoomIn(q)) == q
    ensures q > MinZoom ==> ZoomIn(ZoomOut(q)) == q
  {
  }

  /** The user and renderer events the viewer reacts to. */
  datatype PdfEvent =
    | NewUrl(url: string)
    | LoadSucceeded(numPages: int)
    | LoadFailed(message: string)
    | RequestPage(page: int)
    | ZoomInClicked
    | ZoomOutClicked

  /** One event handled by its handler. Only a new URL changes the URL, only
      the load callbacks change the page count, and every event keeps the
      zoom within its bounds. */
  function Step(s: PdfState, e: PdfEvent): (r: PdfState)
    ensures !e.NewUrl? ==> r.pdfUrl == s.pdfUrl
    ensures !e.LoadSucceeded? ==> r.totalPages == s.totalPages
    ensures ZoomInRange(s) ==> ZoomInRange(r)
  {
    match e
    case NewUrl(url) => OnPdfUrl(s, url)
    case LoadSucceeded(n) => OnLoadSuccess(s, n)
    case LoadFailed(m) => OnLoadError(s, m)
    case RequestPage(p) => HandlePageChange(s, p).state
    case ZoomInClicked => s.(zoom := ZoomIn(s.zoom))
    case ZoomOutClicked => s.(zoom := ZoomOut(s.zoom))
  }

  predicate ZoomInRange(s: PdfState) {
    MinZoom <= s.zoom <= MaxZoom
  }

  /** Any sequence of events, applied one after the other. */
  function Run(s: PdfState, events: seq<PdfEvent>): PdfState
    decreases |events|
  {
    if |events| == 0 then s else Run(Step(s, events[0]), events[1..])
  }

  /** From the mounted state, any sequence of events keeps the zoom between
      0.5 and 3 (in quarter-units, so always a multiple of 0.25). */
  lemma ZoomStaysInRange(url: string, events: seq<PdfEvent>)
    ensures ZoomInRange(Run(Mounted(url), events))
    ensures 0.5 <= ZoomFactor(Run(Mounted(url), events).zoom) <= 3.0
  {
    RunKeepsZoomInRange(Mounted(url), events);
  }

  lemma {:induction false} RunKeepsZoomInRange(s: PdfState, events: seq<PdfEvent>)
    requires ZoomInRange(s)
    ensures ZoomInRange(Run(s, events))
    decreases |events|
  {
    if |events| > 0 {
      RunKeepsZoomInRange(Step(s, events[0]), events[1..]);
    }
  }

  // ---------------------------------------------------------------------------
  // What is on screen, and which events can happen there.
  // ---------------------------------------------------------------------------

  /** The three renders of the component. Only the last one contains the
      renderer's `<Document>` and the navigation and zoom buttons. */
  datatype Screen = LoadingScreen | ErrorScreen | DocumentScreen

  /** The render as written: while loading, only the spinner. */
  function ScreenAsWritten(s: PdfState): (screen: Screen)
    ensures s.isLoading ==> screen == LoadingScreen
    ensures screen == DocumentScreen <==> !s.isLoading && s.error.None?
  {
    if s.isLoading then LoadingScreen
    else if s.error.Some? then ErrorScreen
    else DocumentScreen
  }

  /** Which events can occur as written: the parent can always pass a new
      URL, while renderer callbacks and button clicks need the document
      render to be mounted. */
  predicate CanOccurAsWritten(s: PdfState, e: PdfEvent) {
    e.NewUrl? || ScreenAsWritten(s) == DocumentScreen
  }

  /** A run in which events that cannot occur in the current render are dropped. */
  function RunAsWritten(s: PdfState, events: seq<PdfEvent>): PdfState
    decreases |events|
  {
    if |events| == 0 then s
    else RunAsWritten(if CanOccurAsWritten(s, events[0]) then Step(s, events[0]) else s, events[1..])
  }

  /** As written the viewer never leaves the loading screen: the document that
      would report its pages is only mounted once loading has finished, and
      nothing else ends loading. */
  lemma StuckLoadingAsWritten(url: string, events: seq<PdfEvent>)
    ensures RunAsWritten(Mounted(url), events).isLoading
    ensures ScreenAsWritten(RunAsWritten(Mounted(url), events)) == LoadingScreen
  {
    LoadingPersists(Mounted(url), events);
  }

  lemma {:induction false} LoadingPersists(s: PdfState, events: seq<PdfEvent>)
    requires s.isLoading
    ensures RunAsWritten(s, events).isLoading
    decreases |events|
  {
    if |events| > 0 {
      LoadingPersists(if CanOccurAsWritten(s, events[0]) then Step(s, events[0]) else s, events[1..]);
    }
  }

  /** The corrected render keeps `<Document>` mounted while loading (with the
      spinner over it), so the renderer can report the outcome of the load.
      Buttons still exist only on the document screen. */
  predicate CanOccurFixed(s: PdfState, e: PdfEvent) {
    match e
    case NewUrl(_) => true
    case LoadSucceeded(_) => s.isLoading
    case LoadFailed(_) => s.isLoading
    case _ => ScreenAsWritten(s) == DocumentScreen
  }

  function RunFixed(s: PdfState, events: seq<PdfEvent>): PdfState
    decreases |events|
  {
    if |events| == 0 then s
    else RunFixed(if CanOccurFixed(s, events[0]) then Step(s, events[0]) else s, events[1..])
  }

  /** With the correction a successful load leaves the loading screen and
      shows page 1 of the document. */
  lemma FixedLoadShowsDocument(url: string, numPages: int)
    requires numPages >= 1
    ensures CanOccurFixed(Mounted(url), LoadSucceeded(numPages))
    ensures var r := RunFixed(Mounted(url), [LoadSucceeded(numPages)]);
      ScreenAsWritten(r) == DocumentScreen && r.currentPage == 1 && r.totalPages == numPages
  {
  }

  /** What the corrected viewer maintains: page 1 while loading, the current
      page within a non-empty document, and the zoom within its bounds. */
  predicate FixedInvariant(s: PdfState) {
    && (s.isLoading ==> s.currentPage == 1)
    && (s.totalPages >= 1 ==> 1 <= s.currentPage <= s.totalPages)
    && ZoomInRange(s)
  }

  /** From the mounted state the corrected viewer keeps its invariant under
      any sequence of events. */
  lemma FixedKeepsInvariant(url: string, events: seq<PdfEvent>)
    ensures FixedInvariant(RunFixed(Mounted(url), events))
  {
    FixedRunKeepsInvariant(Mounted(url), events);
  }

  lemma {:induction false} FixedRunKeepsInvariant(s: PdfState, events: seq<PdfEvent>)
    requires FixedInvariant(s)
    ensures FixedInvariant(RunFixed(s, events))
    decreases |events|
  {
    if |events| > 0 {
      FixedRunKeepsInvariant(if CanOccurFixed(s, events[0]) then Step(s, events[0]) else s, events[1..]);
    }
  }
}
