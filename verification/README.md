# Reader core: a Dafny model

This project models the logic at the heart of an ebook reader for classroom
use. The reader shows a book next to a panel of generated questions. The
model covers these parts:

- **Split layout.** The reading column and the question column are each at
  least 320 px wide, and the divider can be moved from the keyboard.
- **Table-of-contents menu.** The arrow, Home, End, Enter/Space and Escape
  keys.
- **Question panel.** Its tabs, their keyboard handling, and the Bloom-tier
  and difficulty filters.
- **Reading sections.** The one record that EPUB headings and PDF outline
  entries both become, and the PDF outline adapter.
- **EPUB view adapter.** The page index, the current page and heading, the
  notices each change sends, Page Up/Page Down paging, mount and destroy,
  and full-text search with its whitespace normalisation, markup stripping
  and snippets.
- **Attempt tracker.** The log of answers and a review queue whose interval
  doubles with each wrong answer. Export takes the due questions off the
  queue.

Every operation is a pure function from values to values, except two
methods: the search loop and the export loop. The reader's mutable stores
and its adapter become an immutable state record that each operation
returns. The callbacks and posted messages become a list of notices in that
state.

JavaScript semantics are written out where they matter:

- `%` truncates toward zero.
- The `\s` class and `trim` use the ECMAScript whitespace set.
- `/<[^>]+>/g` is a left-to-right scan.
- `indexOf` and `findIndex` return the first hit.
- A `Map` built with `set` keeps the last page for each id.
- `??` treats only null and undefined as missing.
- An empty `initialPageId` is falsy.

Python semantics are written out the same way:

- `if metadata` keeps only a non-empty dict.
- `str` values sort by code point.
- A queued time that does not parse counts as "now".

Files:

| file | module | models |
|---|---|---|
| wrappers.dfy | Wrappers | `T \| null` and `x?: T \| null` values |
| seqs.dfy | Seqs | `filter`, `findIndex`, `indexOf`, filter-and-map |
| decimal.dfy | Decimal | `String(n)` for integers below 10^21 in magnitude, with its parse |
| split_layout.dfy | SplitLayout | splitLayout.ts |
| toc_navigation.dfy | TocNavigation | src/lib/epub/tocNavigation.ts |
| question_panel.dfy | QuestionPanelState | src/lib/teacher/questionPanelState.ts |
| question_fixture.dfy | QuestionFixture | the panel's sample questions and its test scenarios |
| reading_types.dfy, epub_types.dfy, pdf_types.dfy | ReadingTypes, EpubTypes, PdfTypes | the record types |
| reading_section.dfy | ReadingSection | src/lib/reader/readingSection.ts |
| outline_adapter.dfy | OutlineAdapter | src/lib/pdf/outlineAdapter.ts |
| epub_text.dfy | EpubText | `normalise`, `stripHtml`, `toLowerCase`, `indexOf` on text |
| epub_search.dfy | EpubSearch | `search` in src/lib/epub/viewAdapter.ts |
| view_adapter.dfy | ViewAdapter | the rest of src/lib/epub/viewAdapter.ts |
| string_order.dfy | StringOrder | Python's `str` ordering and sorting |
| attempt_tracking.dfy | AttemptTracking | attempt_tracking.py |

## Model

| member | source | states |
|---|---|---|
| SplitLayout.ClampColumnPx | splitLayout.ts:1-9 | The result is never below 320. In a container of 640 or less it is exactly 320, which is at least half the container. In a wider container it leaves at least 320 for the other column, and it is the requested width unless that falls outside [320, width-320], in which case it is the nearer end. |
| SplitLayout.ClampKeepsInRange | splitLayout.ts:3-9 | A width already in the allowed range is returned unchanged. |
| SplitLayout.ClampIsNearest | splitLayout.ts:3-9 | In a wide container, the clamped width is at least as close to the request as any allowed width. |
| SplitLayout.ClampIdempotent | splitLayout.ts:3-9 | Clamping twice is clamping once. |
| SplitLayout.ClampMonotone | splitLayout.ts:3-9 | A wider request never gives a narrower column. |
| SplitLayout.FractionToPx | splitLayout.ts:11-13 | For a non-zero width, the pixels a fraction gives turn back into that fraction. |
| SplitLayout.PxToFraction | splitLayout.ts:15-18 | A zero-width container gives 0.5. Otherwise the fraction times the width gives the pixels back. |
| SplitLayout.FractionRoundTrip | splitLayout.ts:11-18 | For a non-zero width, a fraction turned into pixels and back is unchanged. |
| SplitLayout.PxRoundTrip | splitLayout.ts:11-18 | For a non-zero width, pixels turned into a fraction and back are unchanged. |
| SplitLayout.ApplyKeyboardResize | splitLayout.ts:20-28 | In a wide container, the new fraction lies between 320/width and (width-320)/width, and it is exactly current + delta/width when that step stays in range. A narrow container gives 320/width, and a zero-width one gives 0.5. |
| SplitLayout.ResizeMonotone | splitLayout.ts:20-28 | A larger keyboard step never gives a smaller fraction. |
| SplitLayout.EnforceMinimumFraction | splitLayout.ts:30-33 | The same bounds as a resize hold. A fraction that is already allowed is returned unchanged. |
| SplitLayout.ZeroStepEnforcesMinimum | splitLayout.ts:20-33 | A resize by zero pixels is exactly enforcing the minimum. |
| SplitLayout.EnforceIdempotent | splitLayout.ts:30-33 | Enforcing twice is enforcing once. |
| SplitLayout.KeyboardResizeExample | splitLayout.test.ts:5-12 | At 960 px, a 48 px step from 0.6 grows the fraction and stays within the maximum. |
| SplitLayout.EnforceMinimumExample | splitLayout.test.ts:14-20 | A fraction of half the minimum is raised to at least the minimum fraction. |
| SplitLayout.ClampNarrowExample | splitLayout.test.ts:22-26 | Asking for 10 px in a 700 px container gives at least 320. |
| TocNavigation.JsRem | src/lib/epub/tocNavigation.ts:11 | JavaScript's `%`: the result differs from the dividend by a multiple of the divisor, is smaller than the divisor in magnitude, and takes the dividend's sign. |
| TocNavigation.InterpretMenuKey | src/lib/epub/tocNavigation.ts:1-27 | With no items every key is a no-op. ArrowDown from a valid index, or from -1 (nothing focused), moves to the next item, wrapping to 0. ArrowUp moves to the previous item, and from 0 or below to the last. Home moves to 0 and End to the last item. Enter and Space select, Escape closes, and any other key is a no-op. From a valid index every move stays in range. |
| TocNavigation.DownFromNegativeIndex | src/lib/epub/tocNavigation.ts:11 | From an index below -1, ArrowDown gives a non-positive index, congruent to index + 1: the truncating remainder does not wrap into range. |
| TocNavigation.DownThenUp | src/lib/epub/tocNavigation.ts:11-13 | From any valid item, ArrowDown then ArrowUp comes back to it. |
| TocNavigation.UpThenDown | src/lib/epub/tocNavigation.ts:11-13 | From any valid item, ArrowUp then ArrowDown comes back to it. |
| TocNavigation.MenuExamples | src/lib/epub/__tests__/EpubReader.a11y.test.ts:49-57 | The seven key cases of the accessibility test. |
| QuestionPanelState.InitialPanelState | src/lib/teacher/questionPanelState.ts:214-218 | The panel opens with the first tab selected and focused and both filters set to "all". |
| QuestionPanelState.ActiveTab | src/lib/teacher/questionPanelState.ts:223 | The active tab is one of the tabs. When some tab has the selected id, it is the first such tab; otherwise it is the first tab. |
| QuestionPanelState.FilteredQuestions | src/lib/teacher/questionPanelState.ts:220-230 | The result keeps the active tab's order and contains exactly that tab's questions which pass both filters, each as many times as in the tab. With both filters at "all" it is the whole tab. |
| QuestionPanelState.HandleTabKey | src/lib/teacher/questionPanelState.ts:241-272 | The key is handled exactly when it has an effect. An unknown tab or key does nothing. ArrowRight and ArrowLeft focus the neighbouring tab, wrapping around. Home and End focus the first and last tab. Enter and Space select the current tab. Every focused id is a tab. |
| QuestionPanelState.CircularStep | src/lib/teacher/questionPanelState.ts:250-251 | (i + direction + n) % n is the next or previous position, wrapping at both ends. |
| QuestionPanelState.RightThenLeft | src/lib/teacher/questionPanelState.ts:249-253 | With distinct tab ids, ArrowRight then ArrowLeft focuses the starting tab again. |
| QuestionPanelState.LeftThenRight | src/lib/teacher/questionPanelState.ts:249-253 | With distinct tab ids, ArrowLeft then ArrowRight focuses the starting tab again. |
| QuestionFixture.InitialPanelShowsMcq | src/lib/teacher/questionPanelState.ts:214-230 | The sample panel opens on the multiple-choice tab and shows all of its questions. |
| QuestionFixture.AnalyzeChipLeavesOneQuestion | src/lib/teacher/__tests__/QuestionPanel.spec.ts:13-23 | The Analyze chip leaves exactly one question, the "Which evidence best shows" one. |
| QuestionFixture.RememberHardMatchesNothing | src/lib/teacher/__tests__/QuestionPanel.spec.ts:42-56 | Remember together with Hard matches no question on the first tab. |
| QuestionFixture.RightOnLastTabWraps | src/lib/teacher/questionPanelState.ts:249-253 | ArrowRight on the last sample tab focuses the first. |
| ReadingSection.CreateReadingSection | src/lib/reader/readingSection.ts:32-39 | Id, title and location are kept. The span is None exactly when it was omitted or null, and otherwise it is the given span. |
| ReadingSection.CreateSectionFromEpubHeading | src/lib/reader/readingSection.ts:41-57 | The section has the heading's id and text and its level as depth. It is placed on the given page with the given label, as an EPUB source, with no span. |
| ReadingSection.EpubSectionKeepsHeading | src/lib/reader/readingSection.ts:41-57 | The heading can be read back unchanged from its section. |
| ReadingSection.CreateSectionFromPdfOutline | src/lib/reader/readingSection.ts:59-75 | The section has the entry's id, title and depth, and the page number in decimal as its page id. The span is kept exactly when the entry has one. |
| ReadingSection.PdfSectionKeepsItem | src/lib/reader/readingSection.ts:59-75 | The page id is a well-formed decimal numeral. An entry whose span is given or null can be read back unchanged from its section, page number included. |
| ReadingSection.MissionStatementExample | src/lib/pdf/__tests__/outlineAdapter.test.ts:9-35 | The Mission Statement entry becomes the section the test expects. |
| Decimal.IntToDecimal | src/lib/reader/readingSection.ts:69 | `String(n)` gives a non-empty numeral that starts with a minus sign exactly when n is negative. What it denotes is pinned by `Decimal.IntRoundTrip`. |
| Decimal.IntRoundTrip | src/lib/reader/readingSection.ts:69 | For an integer page number, parsing its decimal numeral (what `String(n)` writes below 10^21) gives n back, negative numbers included. |
| Decimal.IntToDecimalInjective | src/lib/reader/readingSection.ts:69 | Different page numbers get different page ids. |
| OutlineAdapter.MapPdfOutlineToSections | src/lib/pdf/outlineAdapter.ts:10-18 | There is one section per entry, in order. Each is the entry's PDF section, labelled by the labeller for its page number. With no labeller there are no labels. |
| OutlineAdapter.OutlineExample | src/lib/pdf/__tests__/outlineAdapter.test.ts:6-36 | The two-entry outline of the test maps to the two sections it expects, "Page n" labels included. |
| Seqs.Filter | src/lib/teacher/questionPanelState.ts:224 | `filter` keeps exactly the elements that pass, and keeps everything when all pass. |
| Seqs.FilterKeepsCounts | src/lib/teacher/questionPanelState.ts:224 | `filter` keeps each passing value as often as it occurs, and drops every other value entirely. |
| Seqs.FilterMapAligned | src/lib/epub/viewAdapter.ts:114-123 | Two filter-and-map passes that keep the same elements give lists of equal length whose i-th entries come from the same element. |
| Seqs.FindIndex | src/lib/epub/viewAdapter.ts:178 | `findIndex` gives the first position that passes, or -1 exactly when none does. |
| EpubText.TrimKeepsVisible | src/lib/epub/viewAdapter.ts:42 | Trimming at either end removes only whitespace. |
| EpubText.Collapse | src/lib/epub/viewAdapter.ts:42 | Collapsing never lengthens the text, empties only empty text, and starts with whitespace exactly when the input does. |
| EpubText.CollapseConcat | src/lib/epub/viewAdapter.ts:42 | Collapsing works run by run: cut just after a visible character, the collapse of the whole is the two collapses joined. |
| EpubText.CollapseIsTidy | src/lib/epub/viewAdapter.ts:42 | After `replace(/\s+/g, ' ')` no two whitespace characters are adjacent. |
| EpubText.CollapseKeepsVisible | src/lib/epub/viewAdapter.ts:42 | Collapsing whitespace keeps every other character, in order. |
| EpubText.NormaliseSpec | src/lib/epub/viewAdapter.ts:41-43 | Normalised text has single blanks between words and none at the ends. It keeps every non-whitespace character of the input, in order. |
| EpubText.NormaliseIdempotent | src/lib/epub/viewAdapter.ts:41-43 | Normalising twice is normalising once. |
| EpubText.NormalisedIsFixed | src/lib/epub/viewAdapter.ts:41-43 | Text that is already normalised is unchanged. |
| EpubText.NormaliseDropsLeadingSpaces | src/lib/epub/viewAdapter.ts:41-43 | Whitespace before the text does not change its normal form. |
| EpubText.NormaliseDropsTrailingSpaces | src/lib/epub/viewAdapter.ts:41-43 | Whitespace after the text does not change its normal form. |
| EpubText.NormaliseJoinsWords | src/lib/epub/viewAdapter.ts:41-43 | Between a visible last and a visible first character, any non-empty whitespace run becomes exactly one blank, and each side is normalised on its own. With the two laws above and NormalisedIsFixed this determines the normal form of every string. |
| EpubText.ReplaceTagsChars | src/lib/epub/viewAdapter.ts:46 | Replacing tags only introduces blanks. Text without `<` is unchanged. |
| EpubText.ReplaceTags | src/lib/epub/viewAdapter.ts:46 | Replacing each tag by one blank never lengthens the text. |
| EpubText.ReplaceTagsLeavesNoTag | src/lib/epub/viewAdapter.ts:46 | After the replacement no tag starts anywhere. |
| EpubText.StripHtmlSpec | src/lib/epub/viewAdapter.ts:45-47 | Stripped text is normalised. Text without markup is only normalised. |
| EpubText.LowerSlice | src/lib/epub/viewAdapter.ts:116 | Lower-casing commutes with slicing, so match positions in the lower-cased text are positions in the text. |
| EpubText.Lower | src/lib/epub/viewAdapter.ts:111-116 | Lower-casing keeps the length. What each character becomes is stated by `EpubText.LowerSpec`. |
| EpubText.LowerSpec | src/lib/epub/viewAdapter.ts:111 | Lower-casing leaves no upper-case ASCII letter and changes no other character. |
| EpubText.FindSubstring | src/lib/epub/viewAdapter.ts:116 | `indexOf` gives -1 or a position where the whole query fits inside the text. |
| EpubText.FindSubstringSpec | src/lib/epub/viewAdapter.ts:116 | `indexOf` gives the first position where the query occurs, or -1 exactly when it occurs nowhere. |
| EpubSearch.Query | src/lib/epub/viewAdapter.ts:111 | The query is as long as the normalised term. |
| EpubSearch.QuerySpec | src/lib/epub/viewAdapter.ts:111-112 | The query is empty exactly when the term has no visible character, so only a blank term gives no results. The query has no upper-case ASCII letter. |
| EpubSearch.MatchIndex | src/lib/epub/viewAdapter.ts:115-116 | A page's match index is -1 or a position where the query fits inside the page's stripped text. |
| EpubSearch.Window | src/lib/epub/viewAdapter.ts:118-119 | The window covers the match. On each side it keeps 40 characters of context, or all there is when fewer remain. |
| EpubSearch.SnippetAsWritten | src/lib/epub/viewAdapter.ts:118-120 | The snippet the code builds is the leading ellipsis when the match is not at 0, then exactly the window's text, then a trailing ellipsis when the window ends before the text does. The matched text sits right after the leading ellipsis and the context before the match, and the snippet is at most the match plus 80 characters and two ellipses. |
| EpubSearch.Snippet | src/lib/epub/viewAdapter.ts:118-120 | The corrected snippet is the window's text with one ellipsis for each edge where the window cut text off: at the front when the window starts after 0, at the back when it ends before the text does. The matched text sits at the same kind of offset, within the same bound. |
| EpubSearch.SnippetsDifferOnlyNearStart | src/lib/epub/viewAdapter.ts:120 | The snippet as written and the corrected one differ exactly when the match starts within the first 40 characters but not at 0. |
| EpubSearch.SnippetAsWrittenMarksUntruncatedStart | src/lib/epub/viewAdapter.ts:120 | For text "ab" with a match at 1, the window is the whole text, yet the snippet as written is "…ab". |
| EpubSearch.HeadingFor | src/lib/epub/viewAdapter.ts:121 | A result is filed under the first heading of level 1 or 2, else the first heading. There is none exactly when the page has no headings. |
| EpubSearch.ResultFor | src/lib/epub/viewAdapter.ts:117-122 | A result for a match inside the page's stripped text carries the page id and its filing heading. Its snippet is the window's snippet, in the chosen version, and shows the matched text. |
| EpubSearch.Search | src/lib/epub/viewAdapter.ts:110-126 | A query that normalises to nothing gives no results. Otherwise the results are those of the pages that contain the query, in page order, and there are never more results than pages. With `AsWritten` the snippets are cut as the code cuts them, with `Corrected` as intended. |
| EpubSearch.SearchVersionsAgree | src/lib/epub/viewAdapter.ts:117-122 | The search as written and the corrected one give equally many results, for the same pages and headings in the same order. The i-th snippets differ exactly when that page's match starts within the first 40 characters but not at 0. |
| EpubSearch.SearchCoversMatchingPages | src/lib/epub/viewAdapter.ts:114-124 | Every page whose lower-cased text contains the query has its result in the list. Every result belongs to such a page. There are exactly as many results as matching pages. |
| EpubSearch.SnippetShowsQuery | src/lib/epub/viewAdapter.ts:116-120 | When the query occurs in a page, the lower-cased snippet of its result shows the query, just after the leading ellipsis and the context before it, in either version. |
| ViewAdapter.BuildIndex | src/lib/epub/viewAdapter.ts:56-59 | The index has at most one entry per page, and is empty exactly when there are no pages. Which ids it holds and which page each maps to is stated by `ViewAdapter.BuildIndexIsLastWins`. |
| ViewAdapter.LastWithId | src/lib/epub/viewAdapter.ts:56-59 | The last page with the id, or -1 exactly when no page has it. |
| ViewAdapter.BuildIndexIsLastWins | src/lib/epub/viewAdapter.ts:56-59 | The index holds exactly the pages' ids. Each id maps to the last page that carries it. |
| ViewAdapter.LookupIsAPage | src/lib/epub/viewAdapter.ts:94 | With the index built from the pages, `pageIndex.get` finds a page carrying the id, and finds none exactly when no page carries it. |
| ViewAdapter.IndexFindsEachPage | src/lib/epub/viewAdapter.ts:56-59 | With distinct ids every page is found under its own id. |
| ViewAdapter.Create | src/lib/epub/viewAdapter.ts:49-59 | A new adapter is consistent and not mounted. It keeps the pages and the initial id, has no current page, heading or container tag, and has sent no notices. |
| ViewAdapter.ToReadingSection | src/lib/epub/viewAdapter.ts:61-70 | The section is placed on the given page, or on the heading's id when no page is given. It is labelled with the indexed page's label, and has a label exactly when that page is indexed. It is an EPUB section at the heading's level, with no span. |
| ViewAdapter.SetHeading | src/lib/epub/viewAdapter.ts:72-77 | A heading becomes the current section with its id, text and level, placed on the given page or on its own id, labelled with that page's indexed label and with no span; no heading clears it. One heading notice carrying the new section and the page id is sent, and nothing else changes. |
| ViewAdapter.SetPage | src/lib/epub/viewAdapter.ts:79-91 | The given page, or none, becomes the current page. Pages, index and mount state are kept. A page tags the container with its id, makes its first heading (or none) current, and sends exactly a page notice and then a heading notice. No page clears the tag and the heading and sends one empty heading notice. |
| ViewAdapter.SetPageConsistent | src/lib/epub/viewAdapter.ts:79-91 | Showing one of the adapter's pages keeps the state consistent: the container tag is that page's id, and the current heading lies on that page. |
| ViewAdapter.GoToPageSpec | src/lib/epub/viewAdapter.ts:93-97 | The state stays consistent. An id no page has changes nothing. A known id shows the last page with it, makes its first heading current, and sends exactly a page notice and then a heading notice for it. |
| ViewAdapter.GoToPage | src/lib/epub/viewAdapter.ts:93-97 | An id missing from the index changes nothing. Otherwise the indexed page becomes current and exactly two notices are appended: the page, then its heading. Either way the pages, the index, the mounted flag and the initial id are kept. |
| ViewAdapter.HeadingIndex | src/lib/epub/viewAdapter.ts:101 | `find` by id gives the first heading with the id, or none exactly when the page has no such heading. |
| ViewAdapter.GoToHeadingSpec | src/lib/epub/viewAdapter.ts:99-108 | The state stays consistent. An unknown heading changes nothing. Otherwise the first page holding the heading is shown, and the section of that page's first heading with the id is current: its id, text and level, placed on that page with that page's indexed label. The notices are the page, its first heading, then the chosen heading. |
| ViewAdapter.GoToHeading | src/lib/epub/viewAdapter.ts:99-108 | Pages, index and mount state are kept. When anything changes, exactly three notices are appended and the earlier ones are kept. |
| ViewAdapter.HandleKeyDown | src/lib/epub/viewAdapter.ts:172-192 | When unmounted, keys are ignored and nothing is prevented. When mounted, the default action is prevented exactly for the paging keys. A key that is not a paging key leaves the state unchanged and prevents nothing. With no current page the state is unchanged. The pages, the index, the mounted flag and the initial id are always kept. |
| ViewAdapter.PageDownSpec | src/lib/epub/viewAdapter.ts:174-182 | With distinct ids, Page Down shows the next page. On the last page it changes nothing. |
| ViewAdapter.PageUpSpec | src/lib/epub/viewAdapter.ts:183-191 | With distinct ids, Page Up shows the previous page. On the first page it changes nothing. |
| ViewAdapter.PageDownThenUp | src/lib/epub/viewAdapter.ts:172-192 | Page Down then Page Up returns to the page it started from. |
| ViewAdapter.HandleKeyDownConsistent | src/lib/epub/viewAdapter.ts:172-192 | Every key keeps the state consistent. |
| ViewAdapter.Mount | src/lib/epub/viewAdapter.ts:194-206 | Mounting sets the mounted flag, does nothing a second time, and shows the initial page. The pages, the index and the initial id are kept. |
| ViewAdapter.MountSpec | src/lib/epub/viewAdapter.ts:194-206 | A non-empty initial id shows the last page with it, or none. No initial id, or an empty one, shows the first page. A shown page's first heading becomes current, with a page notice and a heading notice; no page sends one empty heading notice. The state stays consistent, and mounting is idempotent. |
| ViewAdapter.InitialPage | src/lib/epub/viewAdapter.ts:200 | The initial page is one of the pages or one of the indexed pages. There is none exactly when a non-empty initial id is not indexed, or, without one, when there are no pages. |
| ViewAdapter.InitialPageIsAPage | src/lib/epub/viewAdapter.ts:200 | With the index built from the pages, as the adapter always builds it, the initial page is one of the pages. |
| ViewAdapter.Destroy | src/lib/epub/viewAdapter.ts:208-213 | Destroying clears the mounted flag. It keeps the page, the heading, the container's page tag, the notices, the pages, the index and the initial id. On an adapter that is not mounted it changes nothing. |
| ViewAdapter.DestroySpec | src/lib/epub/viewAdapter.ts:208-213 | After destroying, the state stays consistent and keys are ignored. A second destroy changes nothing. Destroying an unmounted adapter is a no-op, so a later mount shows the same page as without it. The initial page is never changed by destroying. |
| ViewAdapter.SampleHeadingAnnouncements | src/lib/epub/__tests__/EpubReader.a11y.test.ts:25-47 | Mounting the sample book announces page 1 and a section titled "Colonial Rationing Case Study". Going to page 2 then announces "Implementation", labelled "2". The test reads the heading's `text`; a section carries that text as `title`, which is what this checks. |
| StringOrder.LessTotal | attempt_tracking.py:120 | Two different strings are always ordered, so sorting is defined. |
| StringOrder.LessTransitive | attempt_tracking.py:120 | The order on strings is transitive. |
| StringOrder.Insert | attempt_tracking.py:120 | Inserting into a sorted list keeps it sorted, with exactly one more element. |
| StringOrder.SortedUnique | attempt_tracking.py:120 | Two sorted lists with the same elements are equal, so the sorted export list is determined. |
| AttemptTracking.NewTracker | attempt_tracking.py:37-47 | A fresh tracker keeps its base interval, has an empty log and an empty queue, is coherent, and reports no attempts and no review for any question. |
| AttemptTracking.Attempts | attempt_tracking.py:132-133 | A question with no log has no attempts. |
| AttemptTracking.NextReview | attempt_tracking.py:135-136 | A question with no log has no review time. |
| AttemptTracking.CountIncorrect | attempt_tracking.py:61-63 | A question with no log has no wrong answers, and the count never exceeds the attempts. |
| AttemptTracking.Interval | attempt_tracking.py:65-68 | No wrong answer or one waits the base interval, and a zero base never waits. |
| AttemptTracking.IntervalDoubles | attempt_tracking.py:65-68 | A count of zero or one recorded wrong answers waits the base interval. Each further wrong answer doubles the wait. |
| AttemptTracking.ScheduleNextReview | attempt_tracking.py:70-77 | The review is due the interval for the question's wrong answers after the moment. Log and queue both hold that time. Other questions' log and queue entries are untouched. |
| AttemptTracking.RecordAttempt | attempt_tracking.py:79-106 | Exactly one attempt is appended, at the given time or now. A right answer clears the review and takes the question off the queue. A wrong one is due after the interval for all its wrong answers, and that time is returned and stored in both places. Other questions are untouched. |
| AttemptTracking.RecordAttemptCoherent | attempt_tracking.py:94-103 | Recording keeps every queued question in the log with the same review time. |
| AttemptTracking.WrongAnswerCounts | attempt_tracking.py:61-63 | A wrong answer adds one to the count its interval is taken from. |
| AttemptTracking.RightAnswerKeepsBackoff | attempt_tracking.py:61-103 | A right answer does not reset the count: the next wrong one still waits for all earlier wrong answers. |
| AttemptTracking.DueIds | attempt_tracking.py:111-119 | The due set holds only queued questions, and always holds a question whose review time does not parse. |
| AttemptTracking.DueIdsGrow | attempt_tracking.py:111-119 | A question due at one time is still due at any later time while the queue is unchanged. |
| AttemptTracking.ItemsForExport | attempt_tracking.py:108-121 | The list is sorted and holds exactly the due set: the queued questions that are due. An unparsable time counts as due. |
| AttemptTracking.ExportListOfDueSet | attempt_tracking.py:108-121 | A due set of none or of one question fixes the export list. |
| AttemptTracking.MarkExported | attempt_tracking.py:123-130 | Exactly the listed questions leave the queue. The rest keep their times, and the log is untouched. |
| AttemptTracking.MarkExportedCoherent | attempt_tracking.py:123-130 | Exporting keeps queue and log in agreement. |
| AttemptTracking.IncorrectAttemptSchedulesRevisit | tests/test_attempt_tracking.py:6-22 | A wrong answer with a 10-minute base is due 10 minutes later, is due at that time, and is no longer due once marked exported. |
| AttemptTracking.RepeatedIncorrectAttemptsExpandInterval | tests/test_attempt_tracking.py:25-46 | With a 5-minute base, the second wrong answer waits 10 minutes. It is not due a minute early, and it is due on time. |

## Findings

| source | as written | input that shows it | evidently intended | confidence | as-written member | corrected member |
|---|---|---|---|---|---|---|
| src/lib/epub/viewAdapter.ts:120 | The leading `…` is added when the match index is above 0, even when the 40-character window already starts at 0. | Page text "ab", query "b": the index is 1, the window is the whole text, and the snippet is "…ab". | A leading `…` only when the window starts after 0, as the trailing one is added only when the window ends before the text does. | medium (not executed) | EpubSearch.SnippetAsWritten, EpubSearch.SnippetAsWrittenMarksUntruncatedStart | EpubSearch.Snippet |

`EpubSearch.Search` takes the snippet rule as a parameter: `AsWritten`
builds results as the code does, and `Corrected` as intended.
`EpubSearch.SnippetsDifferOnlyNearStart` and `EpubSearch.SearchVersionsAgree`
show that the two differ only in the snippets of matches that start between
index 1 and index 40.

## Left out

- I/O and persistence are not modelled: reading and writing the JSON files,
  including the fallback to an empty log on a decode error. The tracker's
  `log` and `queue` fields are the files' contents.
- Time zones and ISO strings are not modelled. Instants are UTC
  microseconds. `isoformat` and `fromisoformat` are the identity on
  instants, and a naive stamp is already UTC.
  - AttemptTracking.RecordAttempt: the conversion of an aware timestamp to
    UTC is not modelled.
  - AttemptTracking.RecordAttempt: the system clock is the `now` parameter.
  - AttemptTracking.ItemsForExport: a queued value that does not parse is
    the `Malformed` case. Which strings fail to parse is not modelled.
- AttemptTracking.Interval: intervals are unbounded integers. In the source,
  adding a huge interval to the timestamp passes `datetime.max` and raises
  `OverflowError`; with a 15-minute base that happens around the 30th wrong
  answer. A stored attempt without a `correct` flag counts as wrong in the
  source, and is stored as `false` here.
- The Python `Iterable` taken by `mark_exported` is a sequence. The
  `removed` flag only decides whether to persist, so it is left out with
  persistence.
- Decimal.IntToDecimal: page numbers are integers. `String(n)` writes an
  exponent form from 10^21 upward, and writes fractions and NaN in other
  forms; none of these is modelled.
- EpubSearch.Window: positions count characters (code points). JavaScript
  counts UTF-16 code units, so with characters outside the Basic
  Multilingual Plane the indices, the 40-unit context and `slice` differ,
  and a cut can split a surrogate pair.
- EpubText.Lower: only ASCII letters are lower-cased. Unicode case mapping,
  which can change a string's length, is not modelled.
- The layout arithmetic is on exact reals, not IEEE doubles. Rounding in
  `px / containerWidth` is not modelled.
- The view adapter's DOM work is not modelled:
  - `handleSelection` (evidence capture from a text selection): it depends
    on the browser's selection and tree walker.
  - The event-listener registration itself. Only its effect is kept: keys
    act only while mounted.
  - `window.postMessage`. The messages and the `onPageChange` and
    `onHeadingChange` callbacks are the `notices` list.
- `getPageList` and `getLandmarks` only copy the configuration, and the
  table of contents and landmarks are not used by any modelled operation.
- The Svelte stores and chip callbacks of the question panel are not
  modelled (`updateBloomFilter`, `updateDifficultyFilter`, focus handling).
  The panel's state is a record.
- `Question.responseGuide`, `prompt` and `focus` are carried but never
  inspected. `EpubPage.label` and `QuestionTab.label` are named `pageLabel`
  and `tabLabel`, because `label` is a reserved word in Dafny.
- ViewAdapter.SampleHeadingAnnouncements: the test reads the posted
  section's `text`, a field a reading section does not have; the lemma checks
  `title`, where the heading's text is stored.
- Seqs.Filter: its own contract speaks of membership; multiplicities are
  stated by Seqs.FilterKeepsCounts.
- EpubText.Normalise, EpubText.StripHtml: no contract of their own; their
  properties are the lemmas NormaliseSpec, NormaliseJoinsWords and the two
  trimming laws, and StripHtmlSpec.
- The MathML conversion, the question-generation pipeline and their tests
  are not part of this model.
