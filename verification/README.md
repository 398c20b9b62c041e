# Flash India News e-paper: a Dafny model

This project models the logic inside a small React front-end for a daily
newspaper published as PDF files. It covers five pieces:

- **the date/filename codec** (`src/utils/dateUtils.ts`). A date is named by
  its issue id `DD-MM-YY`, and an id is read back into a date in the 2000s.
  The codec also builds an issue's `/public/` URL and probes whether it exists.
- **the archive** (`src/components/ArchiveViewer.tsx`). It generates the last
  thirty daily issues, filters them by search term, month and year, and has a
  Clear Filters reset.
- **the stand-alone viewer** (`src/components/EpaperViewer.tsx`). It resolves
  today's issue by probing three candidate paths in order, pages through the
  document, and lays out the pagination strip.
- **the embedded viewer** (`src/components/PDFViewer.tsx`). It handles page
  changes reported to its parent, a zoom clamped between 0.5 and 3, the reset
  when the URL changes, and the renderer's load callbacks.
- **the page shell** (`src/components/EpaperMain.tsx`). It loads today's
  paper, opens an archived issue, goes back to today, and switches between the
  issue and archive views.

Each component's state hooks become an immutable datatype. Each handler becomes
a pure function from state to state. A sequence of events becomes a recursive
`Run`, over which invariants are proved by induction.

Three things outside the components become parameters:

- **The clock.** `new Date()` becomes a `today: Date` argument.
- **The network.** A `HEAD` request becomes an `Oracle`, a function from a path
  to `Response(ok)` or `Thrown`.
- **The locale.** `toLocaleDateString('en-IN', …)` becomes a `longDate: Date -> string` argument.

Dates use an idealised proleptic Gregorian calendar (`Calendar`). JavaScript's
`toString`, `padStart`, `slice(-2)`, `split`, `parseInt`, `includes`,
`toLowerCase` and `replace` are written out on `seq<char>` (`Strings`).

The stand-alone viewer's Retry button, shown with any error, calls the same
loader again (`src/components/EpaperViewer.tsx:306-311`). Because
`EpaperViewer.LoadTodaysPdf` accepts any state, it models Retry as well.

## Model

| member | source | states |
|---|---|---|
| DateCodec.DayField | src/utils/dateUtils.ts:2 | `getDate().toString().padStart(2, '0')` is the two-digit rendering of any day from 0 to 99 |
| DateCodec.MonthField | src/utils/dateUtils.ts:3 | `(getMonth() + 1).toString().padStart(2, '0')` is the two-digit rendering of any month from 0 to 99 |
| DateCodec.YearField | src/utils/dateUtils.ts:4 | `getFullYear().toString().slice(-2)` is the two-digit rendering of the year modulo 100 for every year from 10 on |
| DateCodec.FormatDateForFilename | src/utils/dateUtils.ts:1-6 | for every valid date from year 10 on, the id is eight characters with hyphens at positions 2 and 5 and no `.pdf` suffix |
| DateCodec.FieldsOfValidDate | src/utils/dateUtils.ts:2-4 | the padded day is the two digits of a day in 1..31, the padded month those of a month in 1..12, and `slice(-2)` of the year is the two digits of the year modulo 100 |
| DateCodec.IdIsNumericText | src/utils/dateUtils.ts:1-6 | for any date, the id is made of digits and hyphens only, so it never contains a dot |
| DateCodec.FilenameIsIssueId | src/utils/dateUtils.ts:1-6 | the id of a valid date is digits-hyphen-digits-hyphen-digits and contains no dot |
| DateCodec.ParseIssueId | src/utils/dateUtils.ts:9-11 | splitting on `-`, prefixing the year with "20" and parsing yields only valid calendar dates that a JavaScript `Date` can hold |
| DateCodec.FormatDateForDisplay | src/utils/dateUtils.ts:8-19 | an id that does not name a valid date inside the range of a JavaScript `Date` displays as "Invalid Date"; otherwise the locale label of the decoded date is shown |
| DateCodec.YearBeyondRangeIsInvalid | src/utils/dateUtils.ts:8-19 | `01-01-99999` names 1 January 2099999, past the last day a JavaScript `Date` holds, and displays as "Invalid Date" |
| DateCodec.ParseFormat | src/utils/dateUtils.ts:1-11 | decoding the id of a valid date from year 10 on gives the same day and month in year 2000 + (year mod 100) |
| DateCodec.LeapYearInTwoThousands | src/utils/dateUtils.ts:10-11 | moving a valid date into 2000 + (year mod 100) keeps it valid, 29 February included |
| DateCodec.RoundTrip | src/utils/dateUtils.ts:1-11 | within 2000 to 2099, decoding the id of a date gives back that date |
| DateCodec.DisplayOfFormat | src/utils/dateUtils.ts:8-19 | within 2000 to 2099, the label shown for a date's id is that date's label |
| DateCodec.FormatInjective | src/utils/dateUtils.ts:1-6 | two valid dates in the same century with the same id are the same date |
| DateCodec.FormatDiffersAcrossAYear | src/utils/dateUtils.ts:4 | dates in consecutive years never share an id |
| DateCodec.GetTodayFilename | src/utils/dateUtils.ts:21-23 | today's id is the id of the current date and, within 2000 to 2099, decodes to today |
| DateCodec.GetPdfUrl | src/utils/dateUtils.ts:34-36 | the URL is `/public/` followed by exactly the filename |
| DateCodec.CheckPdfExists | src/utils/dateUtils.ts:25-32 | a thrown request means "absent"; otherwise the answer is the response's `ok` flag for the `/public/` URL |
| Archive.Entry | src/components/ArchiveViewer.tsx:30-50 | an entry built inline has the codec's id as its date, that id plus `.pdf` as its filename, the date's label, and 8 pages |
| Archive.GenerateArchives | src/components/ArchiveViewer.tsx:24-54 | thirty entries; entry `i` is the issue of `i` days before today, and entry 0 is today's id |
| Archive.ArchiveDaysApart | src/components/ArchiveViewer.tsx:29-31 | consecutive entries are one calendar day apart, most recent first |
| Archive.ArchiveDatesDistinct | src/components/ArchiveViewer.tsx:29-50 | all thirty entry dates are distinct, also across a year or century boundary |
| Archive.FieldAt | src/components/ArchiveViewer.tsx:73 | a hyphen-separated field of an id contains no hyphen |
| Archive.FieldsOfId | src/components/ArchiveViewer.tsx:73-80 | fields 0, 1 and 2 of an id are its day, month and two-digit year; field 3 does not exist |
| Archive.IssueIdFields | src/components/ArchiveViewer.tsx:73-80 | on any issue id, `split('-')` fields 0, 1 and 2 are characters 0-1, 3-4 and 6-7 |
| Archive.MatchesSearch | src/components/ArchiveViewer.tsx:65-68 | an empty term, the entry's own id, and its label in any ASCII letter case all match |
| Archive.MatchesMonth | src/components/ArchiveViewer.tsx:72-75 | on an issue id, the month matches exactly when it equals characters 3-4 of the id; a matching month contains no hyphen |
| Archive.MatchesYear | src/components/ArchiveViewer.tsx:79-82 | on an issue id, the year matches exactly when it equals the last two characters of the id; a matching year contains no hyphen |
| Archive.SearchStage | src/components/ArchiveViewer.tsx:64-69 | an empty term leaves the list as it is; otherwise every entry kept matches the term; every entry kept comes from the input, and there are no more of them |
| Archive.MonthStage | src/components/ArchiveViewer.tsx:71-76 | no month selected leaves the list as it is; otherwise every entry kept is of that month; every entry kept comes from the input, and there are no more of them |
| Archive.YearStage | src/components/ArchiveViewer.tsx:78-83 | no year selected leaves the list as it is; otherwise every entry kept is of that year; every entry kept comes from the input, and there are no more of them |
| Archive.ApplyFilters | src/components/ArchiveViewer.tsx:61-86 | every entry shown passes all three criteria and comes from the archive, no more entries are shown than the archive has, and with no criteria the whole archive is shown |
| Archive.StagedIsKeep | src/components/ArchiveViewer.tsx:61-86 | search, then month, then year is one filter by the conjunction of the three criteria |
| Archive.StagesAreFilters | src/components/ArchiveViewer.tsx:64-83 | each conditional stage is a filter by "criterion empty or satisfied" |
| Archive.FilterIsConjunction | src/components/ArchiveViewer.tsx:61-86 | the three stages together are one filter by the conjunction of the criteria |
| Archive.FilterCharacterisation | src/components/ArchiveViewer.tsx:61-86 | the filtered list is an order-preserving subsequence, and an entry is in it exactly when it is archived and passes every criterion |
| Archive.FilterIdempotent | src/components/ArchiveViewer.tsx:61-86 | filtering the filtered list again changes nothing |
| Archive.FilterOrderIndependent | src/components/ArchiveViewer.tsx:64-83 | the three stages give the same result in all six orders |
| Archive.StagesCommute | src/components/ArchiveViewer.tsx:64-83 | any two stages commute |
| Archive.GeneratedMonthAndYear | src/components/ArchiveViewer.tsx:71-83 | on generated entries, the month filter matches exactly the entry's two-digit month and the year filter its two-digit year |
| Archive.Mount | src/components/ArchiveViewer.tsx:56-58 | mounting shows all thirty generated entries under empty criteria |
| Archive.Update | src/components/ArchiveViewer.tsx:120-162 | each filter input changes only its criterion, the archive never changes, the shown list is always the filter of the archive, and Clear Filters shows the whole archive again |
| Filtering.Keep | src/components/ArchiveViewer.tsx:65-82 | `filter` returns no more elements than it was given, and all of them satisfy the predicate |
| Filtering.KeepIsSubsequence | src/components/ArchiveViewer.tsx:65-82 | `filter` keeps an order-preserving subsequence |
| Filtering.KeepMembership | src/components/ArchiveViewer.tsx:65-82 | an element is kept exactly when it is present and satisfies the predicate |
| Filtering.KeepEverything | src/components/ArchiveViewer.tsx:62 | a filter that every element passes returns its input |
| Filtering.KeepKeep | src/components/ArchiveViewer.tsx:65-82 | filtering twice is filtering once by the conjunction |
| Filtering.KeepThree | src/components/ArchiveViewer.tsx:65-82 | three successive filters are one filter by the conjunction of the three predicates |
| Filtering.KeepCommutes | src/components/ArchiveViewer.tsx:65-82 | two filters commute |
| Filtering.KeepIdempotent | src/components/ArchiveViewer.tsx:65-82 | filtering again by the same predicate changes nothing |
| Probing.FirstAvailable | src/components/EpaperViewer.tsx:46-74 | the chain requests a prefix of the paths in order, stops at the first that answers ok, and finds nothing only after every path failed or threw |
| Probing.FirstAvailableIsFirst | src/components/EpaperViewer.tsx:46-74 | if path `k` answers ok and all earlier paths fail, the chain finds path `k` after exactly `k + 1` requests |
| Probing.MissingIssueWarning | src/components/EpaperViewer.tsx:77 | the not-yet-available warning names the missing filename and contains the loader's advice; `EpaperMain.tsx:34` builds the same text with different advice |
| Probing.FirstAvailableNone | src/components/EpaperViewer.tsx:46-74 | if no path answers ok, the chain finds nothing after requesting all of them |
| EpaperViewer.TodayPdfFilename | src/components/EpaperViewer.tsx:39-43 | the filename built inline equals the codec's id followed by `.pdf` |
| EpaperViewer.CandidatePaths | src/components/EpaperViewer.tsx:43-61 | today's file at the site root, then `/17-07-2025_11zon.pdf`, then `/demo-epaper.pdf` |
| EpaperViewer.LoadTodaysPdf | src/components/EpaperViewer.tsx:34-79 | for each of the four probe outcomes: the URL shown, the requests made, the error, and the page counters left untouched |
| EpaperViewer.ChainOfThree | src/components/EpaperViewer.tsx:46-74 | the outcome of the probe chain over three paths, case by case |
| EpaperViewer.OnDocumentLoadSuccess | src/components/EpaperViewer.tsx:81-85 | records the page count, clears the error, goes to page 1 |
| EpaperViewer.OnDocumentLoadError | src/components/EpaperViewer.tsx:87-90 | the error contains the renderer's message; pages and URL are unchanged |
| EpaperViewer.HandlePageChange | src/components/EpaperViewer.tsx:92-96 | a page within 1..totalPages becomes current; any other request changes nothing |
| EpaperViewer.ChangePagesInRange | src/components/EpaperViewer.tsx:92-96 | page requests keep the current page within a non-empty document |
| EpaperViewer.LoadThenNavigate | src/components/EpaperViewer.tsx:81-96 | after a load of at least one page, any sequence of requests keeps the page between 1 and the page count |
| EpaperViewer.NoPagesNoMoves | src/components/EpaperViewer.tsx:92-96 | before a document has pages, no request moves the viewer |
| EpaperViewer.NoMovesBeforeLoad | src/components/EpaperViewer.tsx:12-13 | the viewer mounts on page 1 of no pages, and before a load no page request moves it |
| EpaperViewer.RetryClearsError | src/components/EpaperViewer.tsx:306-311 | Retry after any error, when some candidate now answers, clears the error, shows an answering candidate, and keeps the page counters |
| EpaperViewer.NextOnLastPage | src/components/EpaperViewer.tsx:399-400 | the mobile next button on the last page does nothing |
| EpaperViewer.RenderPageNumbers | src/components/EpaperViewer.tsx:107-140 | buttons 1 to min(5, totalPages) in order, then, exactly when there are more than 5 pages, an ellipsis and a button to the last page |
| EpaperViewer.StripButtonsAccepted | src/components/EpaperViewer.tsx:111-139 | every button of the strip targets a page that `handlePageChange` accepts |
| EpaperViewer.ThumbnailsAccepted | src/components/EpaperViewer.tsx:214-220 | every thumbnail and page-selector option (pages 1..totalPages) is accepted |
| PdfViewer.Mounted | src/components/PDFViewer.tsx:15-19 | a fresh viewer is on page 1 of 0 pages, at zoom 1, loading, without error |
| PdfViewer.OnPdfUrl | src/components/PDFViewer.tsx:21-27 | a new URL resets the page to 1 and the zoom to 1, sets loading and clears the error, but keeps the page count; the same URL changes nothing |
| PdfViewer.OnLoadSuccess | src/components/PDFViewer.tsx:29-33 | records the page count, stops loading, clears the error, and keeps the page |
| PdfViewer.OnLoadError | src/components/PDFViewer.tsx:35-38 | the error contains the renderer's message and loading stops |
| PdfViewer.HandlePageChange | src/components/PDFViewer.tsx:40-45 | a page within 1..totalPages becomes current and is reported to the parent; any other request changes and reports nothing |
| PdfViewer.PreviousOnFirstPage | src/components/PDFViewer.tsx:89-90 | the previous button on page 1 does nothing |
| PdfViewer.NextOnLastPage | src/components/PDFViewer.tsx:101-102 | the next button on the last page does nothing |
| PdfViewer.ZoomIn | src/components/PDFViewer.tsx:47-49 | zoom in adds a quarter, never above 3 |
| PdfViewer.ZoomOut | src/components/PDFViewer.tsx:51-53 | zoom out removes a quarter, never below 0.5 |
| PdfViewer.ZoomStepsMatchFactor | src/components/PDFViewer.tsx:47-53 | the quarter-unit steps equal `Math.min(prev + 0.25, 3)` and `Math.max(prev - 0.25, 0.5)` on the real zoom factor |
| PdfViewer.ZoomClampsAreFixedPoints | src/components/PDFViewer.tsx:47-53 | zooming in at 3 and zooming out at 0.5 change nothing |
| PdfViewer.ZoomInverses | src/components/PDFViewer.tsx:47-53 | zoom out undoes zoom in below 3, and zoom in undoes zoom out above 0.5 |
| PdfViewer.ZoomStaysInRange | src/components/PDFViewer.tsx:17-53 | from mount, any event sequence keeps the zoom between 0.5 and 3 |
| PdfViewer.RunKeepsZoomInRange | src/components/PDFViewer.tsx:21-53 | every event keeps the zoom within its bounds |
| PdfViewer.ScreenAsWritten | src/components/PDFViewer.tsx:55-77 | while loading only the spinner is rendered, and the document is rendered exactly when neither loading nor failed |
| PdfViewer.Step | src/components/PDFViewer.tsx:21-53 | only a new URL changes the URL, only a successful load changes the page count, and every event keeps the zoom in bounds |
| PdfViewer.StuckLoadingAsWritten | src/components/PDFViewer.tsx:55-64 | as written, the viewer never leaves the loading screen, whatever events follow the mount |
| PdfViewer.LoadingPersists | src/components/PDFViewer.tsx:55-64 | as written, once loading, no event that can occur ends loading |
| PdfViewer.FixedLoadShowsDocument | src/components/PDFViewer.tsx:29-33 | with the document mounted during loading, a successful load shows page 1 of the document |
| PdfViewer.FixedKeepsInvariant | src/components/PDFViewer.tsx:21-53 | with the correction, from mount: page 1 while loading, the current page within a non-empty document, and the zoom within bounds |
| PdfViewer.FixedRunKeepsInvariant | src/components/PDFViewer.tsx:21-53 | every event that can occur keeps that invariant |
| EpaperMain.ResolveToday | src/components/EpaperMain.tsx:20-38 | a found file is shown from `/public/` without error; otherwise the demo issue is shown with a warning naming the file; the date is the filename minus `.pdf`; loading ends |
| EpaperMain.LoadTodaysPaper | src/components/EpaperMain.tsx:20-38 | as written: the probe and the URL use today's bare id, and the date shown is that id |
| EpaperMain.MountLoadsToday | src/components/EpaperMain.tsx:10-18 | the shell mounts loading in the issue view, and the first load ends on today's id with today's URL or the demo |
| EpaperMain.HandleSelectArchivePdf | src/components/EpaperMain.tsx:40-44 | opens the file under `/public/`, shows the given date, returns to the issue view |
| EpaperMain.HandleBackToToday | src/components/EpaperMain.tsx:46-49 | reloads today's paper and returns to the issue view: a found issue is shown from `/public/` + today's id with no error, otherwise the demo with a warning naming the id; loading ends and the date is today's id |
| EpaperMain.ShowArchive | src/components/EpaperMain.tsx:94 | switches to the archive view and changes nothing else |
| EpaperMain.TodayIsLabelled | src/components/EpaperMain.tsx:119-121 | within 2000 to 2099, the viewer is labelled with today's long date, whichever file was found |
| EpaperMain.ArchiveSelection | src/components/EpaperMain.tsx:40-44 | opening a generated archive entry shows a `.pdf` URL and the entry's date, labelled with the entry's own long date |
| EpaperMain.TodayUrlLacksExtension | src/components/EpaperMain.tsx:24-29 | as written, a found issue for today is shown from a URL without `.pdf`, different from the URL of today's archive entry |
| EpaperMain.PublishedIssueMissedAsWritten | src/components/EpaperMain.tsx:24-34 | as written, when today's `.pdf` file is published and no extension-less file exists, the shell shows the demo with a warning, where the corrected loader shows today's issue |
| DateCodec.IssueFilename | src/components/ArchiveViewer.tsx:37 | an issue's file ends in `.pdf`, and `replace('.pdf', '')` on it gives back the issue's id |
| EpaperMain.LoadTodaysPaperFixed | src/components/EpaperMain.tsx:20-38 | corrected: the probe and the URL use today's `.pdf` file, and the date shown is still today's id |
| EpaperMain.FixedTodayMatchesArchive | src/components/EpaperMain.tsx:20-44 | corrected: a found issue for today is exactly the file today's archive entry opens, with the same date and label |
| EpaperMain.HandleBackToTodayFixed | src/components/EpaperMain.tsx:46-49 | corrected: going back to today shows a `.pdf` URL when the issue exists |
| Strings.ParseTwoDigits | src/utils/dateUtils.ts:10-11 | `parseInt` reads back a two-digit field, and the same field prefixed with "20" |
| Strings.LastTwoDigits | src/utils/dateUtils.ts:4 | `toString().slice(-2)` of a number from 10 on is the two digits of the number modulo 100 |
| Strings.PaddedTwoDigits | src/utils/dateUtils.ts:2-3 | `toString().padStart(2, '0')` of a number below 100 is its two digits |
| Strings.SplitThree | src/utils/dateUtils.ts:9 | splitting three hyphen-free fields joined by hyphens gives back those fields |
| Strings.ReplaceAbsent | src/components/EpaperMain.tsx:29-33 | `replace('.pdf', '')` on a string in which `.pdf` does not occur changes nothing |
| Strings.ReplaceSuffix | src/components/EpaperMain.tsx:29-33 | `replace('.pdf', '')` on an id followed by `.pdf` strips the suffix |
| Calendar.DaysBefore | src/components/ArchiveViewer.tsx:30-31 | going back `k` days gives a valid date, strictly earlier when `k > 0` |
| Calendar.Pred | src/components/ArchiveViewer.tsx:30-31 | `setDate(getDate() - 1)` gives a valid date strictly before the given one |
| Calendar.DaysBeforeDescending | src/components/ArchiveViewer.tsx:29-31 | stepping back more days gives a strictly earlier date |
| Calendar.WindowSpan | src/components/ArchiveViewer.tsx:29-31 | two different offsets inside thirty days give different dates whose years differ by at most one |

## Left out

- Rendering (JSX, CSS classes, icons, the header and footer markup) is not modelled. Apart from the calls below, it holds no logic beyond which handler a control calls, and those calls are modelled.
- The stand-alone viewer's PDF button opens the current URL in a new browser tab (`window.open` at src/components/EpaperViewer.tsx:276). That is a browser call with no state of the viewer's own, so it is not modelled.
- The document renderer (`react-pdf`'s `<Document>`/`<Page>`, the worker set-up, page width and scale). It is foreign code; its callbacks appear as events carrying a page count or an error message.
- `fetch` is not modelled. Each `HEAD` request is an answer from the `Oracle` parameter.
- The clock: `new Date()` is the `today` parameter.
- `toLocaleDateString('en-IN', …)` is the `longDate` parameter. Locale data is outside the program.
- The EpaperViewer header's `formatDate` (EpaperViewer.tsx:98-105) is not modelled. It only formats the clock through the locale.
- `updatePageWidth` and the resize listener (EpaperViewer.tsx:19-32) are not modelled. They are layout that reads the DOM.
- `console.log` and `console.error` are not modelled. They produce output only.
- Asynchronous interleaving is not modelled. Each `await` is resolved within one handler call, so a superseded probe completing late is not represented.
- DateCodec.ParseIssueId: JavaScript's `Date` constructor normalises out-of-range days and months (31 February becomes 3 March). The model returns no date there, so the display is "Invalid Date" where the browser would show the normalised date. Ids of valid dates never reach this case.
- DateCodec.ParseIssueId: a string with fewer than three hyphen fields has no date in the model. With exactly two fields JavaScript reads the year `20undefined` as 20 and shows a day in 1920; with one field the month is NaN and the date invalid. Ids built by the codec always have three fields.
- DateCodec.ParseIssueId: the first and last days a JavaScript `Date` can hold (20 April 271821 BC and 13 September 275760) are counted as inside the range. In a browser, whether local midnight of those two days is still inside depends on the time zone. `parseInt` loses precision past 2^53; years that large are outside the range anyway, and days or months that large have no date in the model, as with the normalisation above.
- Archive.MatchesSearch: `Lower` lower-cases ASCII letters only, where JavaScript's `toLowerCase` covers all of Unicode. The labels are `en-IN` English dates and the ids are digits and hyphens, so both sides of the comparison are ASCII in practice. A search term with non-ASCII capitals is compared without folding them.
- Strings.ParseInt reads only the leading run of decimal digits. Leading whitespace, a sign and a `0x` prefix are not modelled, and ids never contain them.
- DateCodec.FormatDateForFilename: the properties hold for years from 10 on. Years 0 to 9 give a one-digit year field, which is modelled but about which nothing is claimed.
- DateCodec.RoundTrip is stated for 2000 to 2099 only. Outside that range the id loses the century, as ParseFormat states exactly.
- EpaperViewer.HandlePageChange: the page selectors pass `parseInt` of an option value. Those values are always whole pages, so NaN never reaches the handler and is not modelled.
- Archive.GenerateArchives and Archive.Mount require `today` to be a valid calendar date, which a clock reading always is.
- The `pages: 8` of each archive entry is a placeholder in the source and is modelled as that constant.
- The archive's download button (ArchiveViewer.tsx:202-204) has no handler, so there is nothing to model.

## Findings

| source | as written | input that shows it | evidently intended | confidence | as-written member | corrected member |
|---|---|---|---|---|---|---|
| src/components/PDFViewer.tsx:55-64 | while `isLoading` the component renders only the spinner, so `<Document>` is never mounted and its `onLoadSuccess`/`onLoadError` never fire; nothing else clears `isLoading` | mount with any URL, then any sequence of clicks and renderer events | keep the document mounted while loading so a load can finish and show page 1 | high (follows from the render structure; not executed) | PdfViewer.StuckLoadingAsWritten | PdfViewer.FixedLoadShowsDocument |
| src/components/EpaperMain.tsx:24-29 | today's filename is the bare id `DD-MM-YY`, so the probe asks for `/public/DD-MM-YY` and a found issue is shown from that URL; the `.replace('.pdf', '')` is a no-op | any day, e.g. 20 July 2025: the probe is `/public/20-07-25` while today's archive entry opens `/public/20-07-25.pdf` | probe and show `DD-MM-YY.pdf`, as the archive and the stand-alone viewer do | high (not executed) | EpaperMain.TodayUrlLacksExtension | EpaperMain.FixedTodayMatchesArchive |
