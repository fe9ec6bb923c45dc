/** The EPUB view adapter: the page index, the current page and heading, the
    notifications each change sends out, keyboard paging and the mount
    life cycle. The adapter's state is a value and every operation returns
    the next state. */
module ViewAdapter {
  import opened Wrappers
  import opened Seqs
  import opened EpubTypes
  import RS = ReadingSection

  /** What a change announces: the `onPageChange` callback with the
      `pagechange` message, and the `onHeadingChange` callback with the
      `heading` message. */
  datatype Notice =
    | PageChanged(pageId: string, pageLabel: string)
    | HeadingChanged(section: Option<RS.ReadingSection>, onPageId: Option<string>)

  /** `shownPageId` is the container's `data-page-id` attribute. */
  datatype Adapter = Adapter(
    pages: seq<EpubPage>,
    initialPageId: Option<string>,
    index: map<string, EpubPage>,
    mounted: bool,
    currentPage: Option<EpubPage>,
    currentHeading: Option<RS.ReadingSection>,
    shownPageId: Option<string>,
    notices: seq<Notice>)

  /** The page index as the adapter builds it: each page is stored under its
      id in page order, so a later page replaces an earlier one with the same
      id. */
  function BuildIndex(pages: seq<EpubPage>): (r: map<string, EpubPage>)
    ensures |r| <= |pages|
    ensures r == map[] <==> pages == []
    decreases |pages|
  {
    if pages == [] then map[]
    else
      var last := pages[|pages| - 1];
      BuildIndex(pages[..|pages| - 1])[last.id := last]
  }

  /** Position of the last page with the id, or -1 when there is none. */
  function LastWithId(pages: seq<EpubPage>, id: string): (k: int)
    ensures -1 <= k < |pages|
    ensures k == -1 <==> forall j :: 0 <= j < |pages| ==> pages[j].id != id
    ensures k >= 0 ==> pages[k].id == id && forall j :: k < j < |pages| ==> pages[j].id != id
    decreases |pages|
  {
    if pages == [] then -1
    else if pages[|pages| - 1].id == id then |pages| - 1
    else LastWithId(pages[..|pages| - 1], id)
  }

  /** The index holds exactly the ids of the pages, each mapped to the last
      page that carries it. */
  lemma {:induction false} BuildIndexIsLastWins(pages: seq<EpubPage>, id: string)
    ensures id in BuildIndex(pages) <==> LastWithId(pages, id) >= 0
    ensures id in BuildIndex(pages) ==> BuildIndex(pages)[id] == pages[LastWithId(pages, id)]
    decreases |pages|
  {
    if pages != [] {
      var init := pages[..|pages| - 1];
      BuildIndexIsLastWins(init, id);
      if pages[|pages| - 1].id != id {
        assert LastWithId(pages, id) == LastWithId(init, id);
        if LastWithId(init, id) >= 0 {
          assert pages[LastWithId(pages, id)] == init[LastWithId(init, id)];
        }
      }
    }
  }

  predicate DistinctIds(pages: seq<EpubPage>) {
    forall i, j :: 0 <= i < j < |pages| ==> pages[i].id != pages[j].id
  }

  /** With distinct ids every page is found under its own id. */
  lemma IndexFindsEachPage(pages: seq<EpubPage>, k: int)
    requires DistinctIds(pages) && 0 <= k < |pages|
    ensures pages[k].id in BuildIndex(pages) && BuildIndex(pages)[pages[k].id] == pages[k]
  {
    var last := LastWithId(pages, pages[k].id);
    BuildIndexIsLastWins(pages, pages[k].id);
    assert last >= k;
    assert last == k;
  }

  /** `pageIndex.get(id)`. */
  function Lookup(a: Adapter, id: string): Option<EpubPage> {
    if id in a.index then Some(a.index[id]) else None
  }

  /** A new adapter: not mounted, no page, nothing announced. */
  function Create(pages: seq<EpubPage>, initialPageId: Option<string>): (a: Adapter)
    ensures Consistent(a) && !a.mounted
    ensures a.pages == pages && a.initialPageId == initialPageId
    ensures a.currentPage == None && a.currentHeading == None && a.shownPageId == None
    ensures a.notices == []
  {
    Adapter(pages, initialPageId, BuildIndex(pages), false, None, None, None, [])
  }

  /** The heading the adapter shows belongs to the page it shows. */
  predicate OnPage(section: RS.ReadingSection, page: EpubPage) {
    section.location.pageId == page.id
    && exists h :: h in page.headings && h.id == section.id
  }

  /** The state every operation keeps: the index is the one built from the
      pages, the shown page is one of them and is the one the container is
      tagged with, and a heading is shown exactly when the page has one. */
  predicate Consistent(a: Adapter) {
    && a.index == BuildIndex(a.pages)
    && (a.currentPage.None? ==> a.shownPageId.None? && a.currentHeading.None?)
    && (a.currentPage.Some? ==>
          && a.currentPage.value in a.pages
          && a.shownPageId == Some(a.currentPage.value.id)
          && (a.currentHeading.Some? <==> a.currentPage.value.headings != [])
          && (a.currentHeading.Some? ==> OnPage(a.currentHeading.value, a.currentPage.value)))
  }

  /** `toReadingSection`: the section for a heading, placed on the given page
      or, without one, on the page named like the heading; the label is that
      of the indexed page, if any. */
  function ToReadingSection(a: Adapter, heading: EpubHeading, pageId: Option<string>): (s: RS.ReadingSection)
    ensures s.id == heading.id && s.title == heading.text
    ensures s.location.source == RS.Epub && s.location.depth == Some(heading.level) && s.textSpan == None
    ensures s.location.pageId == pageId.GetOr(heading.id)
    ensures s.location.pageLabel.Some? <==> pageId.GetOr(heading.id) in a.index
    ensures s.location.pageLabel.Some? ==> s.location.pageLabel.value == a.index[pageId.GetOr(heading.id)].pageLabel
  {
    var safePageId := pageId.GetOr(heading.id);
    var page := Lookup(a, safePageId);
    var pageLabel := if page.Some? then Some(page.value.pageLabel) else None;
    RS.CreateSectionFromEpubHeading(heading, safePageId, pageLabel)
  }

  /** The section that stands for a heading placed on a page: the heading's
      id, text and level, the page given (else the heading's own id), that
      page's label when the index has it, and no span. */
  predicate SectionOfHeading(a: Adapter, s: RS.ReadingSection, heading: EpubHeading, pageId: Option<string>) {
    var onPage := pageId.GetOr(heading.id);
    && s.id == heading.id && s.title == heading.text && s.textSpan == None
    && s.location.source == RS.Epub && s.location.pageId == onPage
    && s.location.depth == Some(heading.level)
    && s.location.pageLabel == (if onPage in a.index then Some(a.index[onPage].pageLabel) else None)
  }

  /** `setHeading`: show the heading's section, or none, and announce it. */
  function SetHeading(a: Adapter, heading: Option<EpubHeading>, pageId: Option<string>): (b: Adapter)
    ensures b.currentHeading.Some? <==> heading.Some?
    ensures heading.Some? ==> SectionOfHeading(a, b.currentHeading.value, heading.value, pageId)
    ensures b.notices == a.notices + [HeadingChanged(b.currentHeading, pageId)]
    ensures b.(currentHeading := a.currentHeading, notices := a.notices) == a
  {
    var section := if heading.Some? then Some(ToReadingSection(a, heading.value, pageId)) else None;
    a.(currentHeading := section, notices := a.notices + [HeadingChanged(section, pageId)])
  }

  /** The heading a page opens on: its first, if it has any. */
  function DefaultHeading(page: EpubPage): Option<EpubHeading> {
    if page.headings != [] then Some(page.headings[0]) else None
  }

  /** The section a page opens on: that of its first heading, if any. */
  function OpeningSection(a: Adapter, page: EpubPage): Option<RS.ReadingSection> {
    if page.headings == [] then None else Some(ToReadingSection(a, page.headings[0], Some(page.id)))
  }

  /** `setPage`: show the page (or none), tag the container, announce the
      page, then show its first heading. */
  function SetPage(a: Adapter, page: Option<EpubPage>): (b: Adapter)
    ensures b.currentPage == page
    ensures b.pages == a.pages && b.index == a.index && b.mounted == a.mounted
    ensures b.initialPageId == a.initialPageId
    ensures page.Some? ==>
      && b.shownPageId == Some(page.value.id)
      && b.currentHeading == OpeningSection(a, page.value)
      && b.notices == a.notices + [PageChanged(page.value.id, page.value.pageLabel),
                                   HeadingChanged(b.currentHeading, Some(page.value.id))]
    ensures page.None? ==>
      b.shownPageId == None && b.currentHeading == None && b.notices == a.notices + [HeadingChanged(None, None)]
  {
    match page
    case Some(p) =>
      var shown := a.(currentPage := page, shownPageId := Some(p.id),
                      notices := a.notices + [PageChanged(p.id, p.pageLabel)]);
      SetHeading(shown, DefaultHeading(p), Some(p.id))
    case None =>
      SetHeading(a.(currentPage := None, shownPageId := None), None, None)
  }

  /** `goToPage`: an unknown id is ignored. */
  function GoToPage(a: Adapter, id: string): (b: Adapter)
    ensures b.pages == a.pages && b.index == a.index && b.mounted == a.mounted
    ensures b.initialPageId == a.initialPageId
    ensures Lookup(a, id).None? ==> b == a
    ensures Lookup(a, id).Some? ==>
      b.currentPage == Lookup(a, id) && |b.notices| == |a.notices| + 2 && b.notices[..|a.notices|] == a.notices
      && b.notices[|a.notices|..] == [PageChanged(Lookup(a, id).value.id, Lookup(a, id).value.pageLabel),
                                     HeadingChanged(b.currentHeading, Some(Lookup(a, id).value.id))]
  {
    match Lookup(a, id)
    case Some(p) => SetPage(a, Some(p))
    case None => a
  }

  predicate HasHeading(page: EpubPage, headingId: string) {
    exists h :: h in page.headings && h.id == headingId
  }

  function Holds(headingId: string): EpubPage -> bool {
    page => HasHeading(page, headingId)
  }

  /** `goToHeading`: the first page holding a heading with the id is shown,
      with the first such heading; an unknown id is ignored. */
  function GoToHeading(a: Adapter, headingId: string): (b: Adapter)
    ensures b.pages == a.pages && b.index == a.index && b.mounted == a.mounted
    ensures b != a ==> |b.notices| == |a.notices| + 3 && b.notices[..|a.notices|] == a.notices
  {
    var k := FindIndex(Holds(headingId), a.pages);
    if k < 0 then a
    else
      var page := a.pages[k];
      var h := page.headings[HeadingIndex(page, headingId)];
      SetHeading(SetPage(a, Some(page)), Some(h), Some(page.id))
  }

  /** `page.headings.find(h => h.id === headingId)`, as a position. */
  function HeadingIndex(page: EpubPage, headingId: string): (i: int)
    ensures -1 <= i < |page.headings|
    ensures i == -1 <==> !HasHeading(page, headingId)
    ensures i >= 0 ==>
      page.headings[i].id == headingId && forall j :: 0 <= j < i ==> page.headings[j].id != headingId
  {
    var i := FindIndex((h: EpubHeading) => h.id == headingId, page.headings);
    i
  }

  /** Position of the shown page in the page list (the first with its id). */
  function CurrentIndex(a: Adapter): int
    requires a.currentPage.Some?
  {
    FindIndex((p: EpubPage) => p.id == a.currentPage.value.id, a.pages)
  }

  predicate IsPageDown(key: string, altKey: bool) {
    key == "PageDown" || (key == "ArrowRight" && altKey)
  }

  predicate IsPageUp(key: string, altKey: bool) {
    key == "PageUp" || (key == "ArrowLeft" && altKey)
  }

  /** `handleKeyDown` for paging. The result is the next state and whether
      the browser's default action was prevented. */
  function HandleKeyDown(a: Adapter, key: string, altKey: bool): (r: (Adapter, bool))
    ensures !a.mounted ==> r == (a, false)
    ensures a.mounted ==> (r.1 <==> IsPageDown(key, altKey) || IsPageUp(key, altKey))
    ensures !IsPageDown(key, altKey) && !IsPageUp(key, altKey) ==> r == (a, false)
    ensures a.currentPage.None? ==> r.0 == a
    ensures r.0.pages == a.pages && r.0.index == a.index && r.0.mounted == a.mounted
    ensures r.0.initialPageId == a.initialPageId
  {
    if !a.mounted then (a, false)
    else if IsPageDown(key, altKey) then
      if a.currentPage.None? then (a, true)
      else
        var index := CurrentIndex(a);
        if index >= 0 && index < |a.pages| - 1 then (GoToPage(a, a.pages[index + 1].id), true)
        else (a, true)
    else if IsPageUp(key, altKey) then
      if a.currentPage.None? then (a, true)
      else
        var index := CurrentIndex(a);
        if index > 0 then (GoToPage(a, a.pages[index - 1].id), true)
        else (a, true)
    else (a, false)
  }

  /** The page shown on mounting: the page with the initial id when one is
      given and non-empty (possibly none), otherwise the first page. */
  function InitialPage(a: Adapter): (r: Option<EpubPage>)
    ensures r.Some? ==> r.value in a.pages || r.value in a.index.Values
    ensures r.None? <==>
      if a.initialPageId.Some? && a.initialPageId.value != "" then a.initialPageId.value !in a.index
      else a.pages == []
  {
    if a.initialPageId.Some? && a.initialPageId.value != "" then Lookup(a, a.initialPageId.value)
    else if a.pages != [] then Some(a.pages[0])
    else None
  }

  /** `mount`: start listening and show the initial page; a second mount does
      nothing. */
  function Mount(a: Adapter): (b: Adapter)
    ensures b.mounted
    ensures a.mounted ==> b == a
    ensures !a.mounted ==> b.currentPage == InitialPage(a)
    ensures b.pages == a.pages && b.index == a.index && b.initialPageId == a.initialPageId
  {
    if a.mounted then a
    else SetPage(a.(mounted := true), InitialPage(a))
  }

  /** `destroy`: stop listening; the shown page stays, and an adapter that
      is not mounted is left exactly as it is. */
  function Destroy(a: Adapter): (b: Adapter)
    ensures !b.mounted
    ensures !a.mounted ==> b == a
    ensures b.pages == a.pages && b.index == a.index && b.initialPageId == a.initialPageId
    ensures b.shownPageId == a.shownPageId
    ensures b.currentPage == a.currentPage && b.currentHeading == a.currentHeading
    ensures b.notices == a.notices
  {
    if !a.mounted then a else a.(mounted := false)
  }

  // ---------------------------------------------------------------------
  // Properties

  /** Showing a page keeps the state consistent, whatever it was before. */
  lemma SetPageConsistent(a: Adapter, p: EpubPage)
    requires a.index == BuildIndex(a.pages) && p in a.pages
    ensures Consistent(SetPage(a, Some(p)))
  {
    var b := SetPage(a, Some(p));
    if p.headings != [] {
      assert p.headings[0] in p.headings;
      assert OnPage(b.currentHeading.value, p);
    }
  }

  /** With the index built from the pages, the page mounting starts on is
      one of the adapter's pages. */
  lemma InitialPageIsAPage(a: Adapter)
    requires a.index == BuildIndex(a.pages)
    ensures InitialPage(a).Some? ==> InitialPage(a).value in a.pages
  {
    if a.initialPageId.Some? && a.initialPageId.value != "" {
      LookupIsAPage(a, a.initialPageId.value);
    }
  }

  /** With the index built from the pages, a lookup finds a page carrying
      the id, and finds none exactly when no page carries it. */
  lemma LookupIsAPage(a: Adapter, id: string)
    requires a.index == BuildIndex(a.pages)
    ensures Lookup(a, id).Some? ==> Lookup(a, id).value in a.pages && Lookup(a, id).value.id == id
    ensures Lookup(a, id).None? <==> forall j :: 0 <= j < |a.pages| ==> a.pages[j].id != id
  {
    BuildIndexIsLastWins(a.pages, id);
  }

  /** `goToPage` shows the last page with the id and announces the page and
      its first heading; an id no page has changes nothing at all. */
  lemma GoToPageSpec(a: Adapter, id: string)
    requires Consistent(a)
    ensures var b := GoToPage(a, id);
      && Consistent(b)
      && (b == a <== forall j :: 0 <= j < |a.pages| ==> a.pages[j].id != id)
      && ((exists j :: 0 <= j < |a.pages| && a.pages[j].id == id) ==>
            && b.currentPage == Some(a.pages[LastWithId(a.pages, id)])
            && b.currentHeading == OpeningSection(a, b.currentPage.value)
            && b.notices == a.notices + [PageChanged(id, b.currentPage.value.pageLabel),
                                         HeadingChanged(b.currentHeading, Some(id))])
  {
    LookupIsAPage(a, id);
    BuildIndexIsLastWins(a.pages, id);
    if Lookup(a, id).Some? {
      SetPageConsistent(a, Lookup(a, id).value);
    }
  }

  /** `goToHeading` shows the first page holding the heading, with that
      heading as the current one; an unknown heading changes nothing. */
  lemma GoToHeadingSpec(a: Adapter, headingId: string)
    requires Consistent(a)
    ensures var b := GoToHeading(a, headingId);
      && Consistent(b)
      && ((forall j :: 0 <= j < |a.pages| ==> !HasHeading(a.pages[j], headingId)) ==> b == a)
      && (forall j ::
            (0 <= j < |a.pages| && HasHeading(a.pages[j], headingId)
             && (forall i :: 0 <= i < j ==> !HasHeading(a.pages[i], headingId))) ==>
            && b.currentPage == Some(a.pages[j])
            && b.currentHeading.Some?
            && b.currentHeading.value.id == headingId
            && SectionOfHeading(a, b.currentHeading.value,
                                a.pages[j].headings[HeadingIndex(a.pages[j], headingId)], Some(a.pages[j].id))
            && b.notices == a.notices + [PageChanged(a.pages[j].id, a.pages[j].pageLabel),
                                         HeadingChanged(OpeningSection(a, a.pages[j]), Some(a.pages[j].id)),
                                         HeadingChanged(b.currentHeading, Some(a.pages[j].id))])
  {
    var b := GoToHeading(a, headingId);
    var k := FindIndex(Holds(headingId), a.pages);
    if k >= 0 {
      GoToHeadingAt(a, headingId, k);
      forall j | 0 <= j < |a.pages| && HasHeading(a.pages[j], headingId)
          && (forall i :: 0 <= i < j ==> !HasHeading(a.pages[i], headingId))
        ensures a.pages[j] == a.pages[k]
      {
        assert Holds(headingId)(a.pages[j]);
        assert j == k;
      }
    } else {
      assert b == a;
      forall j | 0 <= j < |a.pages| ensures !HasHeading(a.pages[j], headingId) {
        assert !Holds(headingId)(a.pages[j]);
      }
    }
  }

  /** The state `goToHeading` reaches when the `k`-th page is the first to
      hold the heading. */
  lemma GoToHeadingAt(a: Adapter, headingId: string, k: int)
    requires Consistent(a) && 0 <= k < |a.pages| && k == FindIndex(Holds(headingId), a.pages)
    ensures var b := GoToHeading(a, headingId);
      var page := a.pages[k];
      && Consistent(b)
      && b.currentPage == Some(page)
      && b.currentHeading.Some?
      && b.currentHeading.value.id == headingId
      && SectionOfHeading(a, b.currentHeading.value, page.headings[HeadingIndex(page, headingId)], Some(page.id))
      && b.notices == a.notices + [PageChanged(page.id, page.pageLabel),
                                   HeadingChanged(OpeningSection(a, page), Some(page.id)),
                                   HeadingChanged(b.currentHeading, Some(page.id))]
  {
    var b := GoToHeading(a, headingId);
    var page := a.pages[k];
    var shown := SetPage(a, Some(page));
    var h := page.headings[HeadingIndex(page, headingId)];
    assert b == SetHeading(shown, Some(h), Some(page.id));
    SetPageConsistent(a, page);
    SetHeadingConsistent(shown, h);
  }

  /** Showing one of the current page's headings keeps the state consistent. */
  lemma SetHeadingConsistent(a: Adapter, h: EpubHeading)
    requires Consistent(a) && a.currentPage.Some? && h in a.currentPage.value.headings
    ensures Consistent(SetHeading(a, Some(h), Some(a.currentPage.value.id)))
  {
    var b := SetHeading(a, Some(h), Some(a.currentPage.value.id));
    assert b.(currentHeading := a.currentHeading, notices := a.notices) == a;
    assert OnPage(b.currentHeading.value, a.currentPage.value);
  }

  /** With distinct ids, Page Down shows the next page, and the last page
      stays where it is. */
  lemma PageDownSpec(a: Adapter, i: int)
    requires Consistent(a) && DistinctIds(a.pages) && a.mounted
    requires 0 <= i < |a.pages| && a.currentPage == Some(a.pages[i])
    ensures var (b, prevented) := HandleKeyDown(a, "PageDown", false);
      && prevented
      && Consistent(b)
      && (i + 1 < |a.pages| ==> b.currentPage == Some(a.pages[i + 1]))
      && (i + 1 == |a.pages| ==> b == a)
  {
    assert CurrentIndex(a) == i;
    if i + 1 < |a.pages| {
      IndexFindsEachPage(a.pages, i + 1);
      GoToPageSpec(a, a.pages[i + 1].id);
    }
  }

  /** With distinct ids, Page Up shows the previous page, and the first page
      stays where it is. */
  lemma PageUpSpec(a: Adapter, i: int)
    requires Consistent(a) && DistinctIds(a.pages) && a.mounted
    requires 0 <= i < |a.pages| && a.currentPage == Some(a.pages[i])
    ensures var (b, prevented) := HandleKeyDown(a, "PageUp", false);
      && prevented
      && Consistent(b)
      && (i > 0 ==> b.currentPage == Some(a.pages[i - 1]))
      && (i == 0 ==> b == a)
  {
    assert CurrentIndex(a) == i;
    if i > 0 {
      IndexFindsEachPage(a.pages, i - 1);
      GoToPageSpec(a, a.pages[i - 1].id);
    }
  }

  /** Page Down then Page Up comes back to the page it started from. */
  lemma PageDownThenUp(a: Adapter, i: int)
    requires Consistent(a) && DistinctIds(a.pages) && a.mounted
    requires 0 <= i < |a.pages| - 1 && a.currentPage == Some(a.pages[i])
    ensures HandleKeyDown(HandleKeyDown(a, "PageDown", false).0, "PageUp", false).0.currentPage == a.currentPage
  {
    PageDownSpec(a, i);
    PageUpSpec(HandleKeyDown(a, "PageDown", false).0, i + 1);
  }

  /** Every key keeps the state consistent. */
  lemma HandleKeyDownConsistent(a: Adapter, key: string, altKey: bool)
    requires Consistent(a)
    ensures Consistent(HandleKeyDown(a, key, altKey).0)
  {
    var b := HandleKeyDown(a, key, altKey).0;
    if !a.mounted || a.currentPage.None? || (!IsPageDown(key, altKey) && !IsPageUp(key, altKey)) {
      assert b == a;
    } else {
      var index := CurrentIndex(a);
      if IsPageDown(key, altKey) && index >= 0 && index < |a.pages| - 1 {
        assert b == GoToPage(a, a.pages[index + 1].id);
        GoToPageSpec(a, a.pages[index + 1].id);
      } else if !IsPageDown(key, altKey) && index > 0 {
        assert b == GoToPage(a, a.pages[index - 1].id);
        GoToPageSpec(a, a.pages[index - 1].id);
      } else {
        assert b == a;
      }
    }
  }

  /** Mounting shows the initial page: the page with a non-empty initial id
      (none if no page has it), else the first page; the state stays
      consistent, and mounting twice is mounting once. */
  lemma MountSpec(a: Adapter)
    requires Consistent(a)
    ensures Consistent(Mount(a))
    ensures Mount(Mount(a)) == Mount(a)
    ensures !a.mounted && a.initialPageId.Some? && a.initialPageId.value != "" ==>
      Mount(a).currentPage == (var k := LastWithId(a.pages, a.initialPageId.value);
                               if k >= 0 then Some(a.pages[k]) else None)
    ensures !a.mounted && (a.initialPageId.None? || a.initialPageId == Some("")) && a.pages != [] ==>
      Mount(a).currentPage == Some(a.pages[0])
    ensures !a.mounted && Mount(a).currentPage.Some? ==>
      var p := Mount(a).currentPage.value;
      && Mount(a).currentHeading == OpeningSection(a, p)
      && Mount(a).notices == a.notices + [PageChanged(p.id, p.pageLabel), HeadingChanged(Mount(a).currentHeading, Some(p.id))]
    ensures !a.mounted && Mount(a).currentPage.None? ==>
      Mount(a).currentHeading == None && Mount(a).notices == a.notices + [HeadingChanged(None, None)]
  {
    if !a.mounted {
      var b := a.(mounted := true);
      var initial := InitialPage(a);
      if a.initialPageId.Some? && a.initialPageId.value != "" {
        LookupIsAPage(a, a.initialPageId.value);
        BuildIndexIsLastWins(a.pages, a.initialPageId.value);
      }
      if initial.Some? {
        SetPageConsistent(b, initial.value);
      }
    }
  }

  /** Destroying keeps the state consistent, is a no-op on an adapter that
      is not mounted (so a later mount starts from the same initial page), is
      idempotent, and afterwards keys are ignored. */
  lemma DestroySpec(a: Adapter, key: string, altKey: bool)
    requires Consistent(a)
    ensures Consistent(Destroy(a))
    ensures !a.mounted ==> Destroy(a) == a && Mount(Destroy(a)) == Mount(a)
    ensures InitialPage(Destroy(a)) == InitialPage(a)
    ensures Destroy(Destroy(a)) == Destroy(a)
    ensures HandleKeyDown(Destroy(a), key, altKey) == (Destroy(a), false)
  {
  }

  /** The three sample pages; their markup plays no part in navigation and
      is left as a parameter. */
  function SamplePages(html1: string, html2: string, html3: string): seq<EpubPage> {
    [ EpubPage("page-1", "1", html1, [
        EpubHeading("chapter-rationing", "Colonial Rationing Case Study", 1),
        EpubHeading("chapter-rationing-background", "Background", 2)]),
      EpubPage("page-2", "2", html2, [
        EpubHeading("chapter-implementation", "Implementation", 1),
        EpubHeading("chapter-implementation-audits", "Audits and Oversight", 2)]),
      EpubPage("page-3", "3", html3, [
        EpubHeading("chapter-reflection", "Reflections", 1),
        EpubHeading("chapter-reflection-lessons", "Lessons for Modern Policy", 2)]) ]
  }

  /** Mounting the sample book announces page 1 and its chapter heading;
      going to page 2 then announces the Implementation chapter, labelled
      with the page's label. */
  lemma SampleHeadingAnnouncements(html1: string, html2: string, html3: string)
    ensures var m := Mount(Create(SamplePages(html1, html2, html3), None));
      var g := GoToPage(m, "page-2");
      && m.notices[0] == PageChanged("page-1", "1")
      && m.notices[1].HeadingChanged?
      && m.notices[1].section.Some?
      && m.notices[1].section.value.title == "Colonial Rationing Case Study"
      && |g.notices| == 4
      && g.notices[2] == PageChanged("page-2", "2")
      && g.notices[3].section.Some?
      && g.notices[3].section.value.title == "Implementation"
      && g.notices[3].section.value.location.pageLabel == Some("2")
  {
    var pages := SamplePages(html1, html2, html3);
    assert pages[..2][..1] == [pages[0]];
    assert pages[..2] == [pages[0], pages[1]];
    assert pages[..1] == [pages[0]];
    assert "page-2" in BuildIndex(pages);
  }
}
