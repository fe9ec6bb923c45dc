/** Full-text search over the EPUB pages: case-insensitive, first match per
    page, a snippet of up to 40 characters either side of it, and the page's
    top heading. */
module EpubSearch {
  import opened Wrappers
  import opened Seqs
  import opened EpubTypes
  import opened EpubText

  const Ellipsis: char := '…'

  /** Characters of context kept on each side of the match. */
  const Context: nat := 40

  /** The search term as compared: normalised, then lower-cased. */
  function Query(term: string): (r: string)
    ensures |r| == |Normalise(term)|
  {
    Lower(Normalise(term))
  }

  /** The query is blank exactly when the term has no visible character,
      and it has no upper-case ASCII letter. */
  lemma QuerySpec(term: string)
    ensures Query(term) == [] <==> Visible(term) == []
    ensures forall i :: 0 <= i < |Query(term)| ==> !('A' <= Query(term)[i] <= 'Z')
  {
    LowerSpec(Normalise(term));
    var n := Normalise(term);
    NormaliseSpec(term);
    if n != [] {
      assert Visible(n) == [n[0]] + Visible(n[1..]);
    }
  }

  /** A page's searchable text: its markup stripped. */
  function PageText(page: EpubPage): string {
    StripHtml(page.html)
  }

  /** Where the query first occurs in the lower-cased page text, or -1. */
  function MatchIndex(page: EpubPage, query: string): (i: int)
    ensures -1 <= i && (i >= 0 ==> i + |query| <= |PageText(page)|)
  {
    FindSubstring(Lower(PageText(page)), query)
  }

  predicate PageMatches(page: EpubPage, query: string) {
    MatchIndex(page, query) >= 0
  }

  function MatchesQuery(query: string): EpubPage -> bool {
    page => PageMatches(page, query)
  }

  /** The slice of the text shown around a match at `idx` of length `len`:
      it covers the match and as much context as exists, up to `Context`
      characters on each side. */
  function Window(textLength: nat, idx: nat, len: nat): (w: (nat, nat))
    requires idx + len <= textLength
    ensures w.0 <= idx && idx + len <= w.1 <= textLength
    ensures w.0 == 0 || idx - w.0 == Context
    ensures w.1 == textLength || w.1 - (idx + len) == Context
    ensures idx - w.0 <= Context && w.1 - (idx + len) <= Context
  {
    var start := if idx - Context > 0 then idx - Context else 0;
    var end := if textLength < idx + len + Context then textLength else idx + len + Context;
    (start, end)
  }

  function Marker(present: bool): string {
    if present then [Ellipsis] else []
  }

  /** A snippet that marks an edge with an ellipsis exactly when text was cut
      off there. */
  predicate MarksTruncation(snippet: string, text: string, start: nat, end: nat)
    requires start <= end <= |text|
  {
    snippet == Marker(start > 0) + text[start..end] + Marker(end < |text|)
  }

  /** How a snippet's leading ellipsis is decided: as the search code writes
      it (the match does not start the text), or as intended (the window does
      not start the text). */
  datatype Marking = AsWritten | Corrected

  /** Whether the snippet for a match at `idx` of length `len` starts with
      an ellipsis. */
  predicate Leading(m: Marking, textLength: nat, idx: nat, len: nat)
    requires idx + len <= textLength
  {
    if m.AsWritten? then idx > 0 else Window(textLength, idx, len).0 > 0
  }

  /** Where the match sits inside the snippet: after the leading ellipsis,
      if any, and the context kept before it. */
  function MatchOffset(m: Marking, textLength: nat, idx: nat, len: nat): nat
    requires idx + len <= textLength
  {
    (if Leading(m, textLength, idx, len) then 1 else 0) + idx - Window(textLength, idx, len).0
  }

  /** The window's text between two markers shows the match at the offset
      the leading marker and the context before the match add up to. */
  lemma WindowShowsMatch(before: string, text: string, start: nat, end: nat, after: string, idx: nat, len: nat)
    requires start <= idx && idx + len <= end <= |text|
    ensures var r := before + text[start..end] + after;
      var off := |before| + idx - start;
      off + len <= |r| && r[off..off + len] == text[idx..idx + len]
  {
    var r := before + text[start..end] + after;
    var off := |before| + idx - start;
    forall j | off <= j < off + len
      ensures r[j] == text[j - off + idx]
    {
      assert r[j] == text[start..end][j - |before|];
    }
    assert r[off..off + len] == text[idx..idx + len];
  }

  /** The snippet as the search code builds it: the leading ellipsis is
      tied to the match not being at the very start of the text. It shows the
      match after that ellipsis and at most `Context` characters. */
  function SnippetAsWritten(text: string, idx: nat, len: nat): (r: string)
    requires idx + len <= |text|
    ensures var off := MatchOffset(AsWritten, |text|, idx, len);
      off + len <= |r| && r[off..off + len] == text[idx..idx + len]
    ensures |r| <= len + 2 * Context + 2
    ensures idx > 0 ==> r[0] == Ellipsis
    ensures var w := Window(|text|, idx, len); var lead := if idx > 0 then 1 else 0;
      && |r| == lead + (w.1 - w.0) + (if w.1 < |text| then 1 else 0)
      && r[lead..lead + (w.1 - w.0)] == text[w.0..w.1]
      && (w.1 < |text| ==> r[|r| - 1] == Ellipsis)
  {
    var (start, end) := Window(|text|, idx, len);
    WindowShowsMatch(Marker(idx > 0), text, start, end, Marker(end < |text|), idx, len);
    Marker(idx > 0) + text[start..end] + Marker(end < |text|)
  }

  /** The snippet with the leading ellipsis tied to the window start, as the
      trailing one is tied to the window end: it shows the match, keeps at
      most `Context` characters on each side, and has one ellipsis for each
      edge where text was cut. */
  function Snippet(text: string, idx: nat, len: nat): (r: string)
    requires idx + len <= |text|
    ensures var off := MatchOffset(Corrected, |text|, idx, len);
      off + len <= |r| && r[off..off + len] == text[idx..idx + len]
    ensures |r| <= len + 2 * Context + 2
    ensures var w := Window(|text|, idx, len);
      && |r| == (w.1 - w.0) + (if w.0 > 0 then 1 else 0) + (if w.1 < |text| then 1 else 0)
      && r[(if w.0 > 0 then 1 else 0)..(if w.0 > 0 then 1 else 0) + (w.1 - w.0)] == text[w.0..w.1]
      && (w.0 > 0 ==> r[0] == Ellipsis)
      && (w.1 < |text| ==> r[|r| - 1] == Ellipsis)
  {
    var (start, end) := Window(|text|, idx, len);
    WindowShowsMatch(Marker(start > 0), text, start, end, Marker(end < |text|), idx, len);
    Marker(start > 0) + text[start..end] + Marker(end < |text|)
  }

  function SnippetFor(m: Marking, text: string, idx: nat, len: nat): (r: string)
    requires idx + len <= |text|
    ensures var off := MatchOffset(m, |text|, idx, len);
      off + len <= |r| && r[off..off + len] == text[idx..idx + len]
    ensures |r| <= len + 2 * Context + 2
    ensures var w := Window(|text|, idx, len); var lead := if Leading(m, |text|, idx, len) then 1 else 0;
      lead + (w.1 - w.0) <= |r| && r[lead..lead + (w.1 - w.0)] == text[w.0..w.1]
  {
    match m
    case AsWritten => assert Leading(m, |text|, idx, len) == (idx > 0); SnippetAsWritten(text, idx, len)
    case Corrected =>
      assert Leading(m, |text|, idx, len) == (Window(|text|, idx, len).0 > 0); Snippet(text, idx, len)
  }

  /** The two snippets differ exactly when the match lies within the first
      `Context` characters but not at the start. */
  lemma SnippetsDifferOnlyNearStart(text: string, idx: nat, len: nat)
    requires idx + len <= |text|
    ensures SnippetAsWritten(text, idx, len) == Snippet(text, idx, len) <==> !(0 < idx <= Context)
  {
    var (start, end) := Window(|text|, idx, len);
    var middle := text[start..end] + Marker(end < |text|);
    assert SnippetAsWritten(text, idx, len) == Marker(idx > 0) + middle;
    assert Snippet(text, idx, len) == Marker(start > 0) + middle;
    if 0 < idx <= Context {
      assert |Marker(idx > 0) + middle| != |Marker(start > 0) + middle|;
    }
  }

  /** A match one character into the text "ab": the window is the whole text,
      yet the as-written snippet starts with an ellipsis. */
  lemma SnippetAsWrittenMarksUntruncatedStart()
    ensures Window(2, 1, 1) == (0, 2)
    ensures SnippetAsWritten("ab", 1, 1) == "…ab"
    ensures !MarksTruncation(SnippetAsWritten("ab", 1, 1), "ab", 0, 2)
    ensures Snippet("ab", 1, 1) == "ab"
  {
    assert "ab"[0..2] == "ab";
    assert [Ellipsis] + "ab" + [] == "…ab";
    assert [] + "ab" + [] == "ab";
  }

  /** The id of the heading a hit is filed under: the first heading of level
      1 or 2, else the first heading, else none. */
  function HeadingFor(headings: seq<EpubHeading>): (r: Option<string>)
    ensures r.None? <==> headings == []
    ensures r.Some? ==>
      exists k :: (0 <= k < |headings| && headings[k].id == r.value
        && ((headings[k].level <= 2 && forall j :: 0 <= j < k ==> headings[j].level > 2)
            || (k == 0 && forall j :: 0 <= j < |headings| ==> headings[j].level > 2)))
  {
    var k := FindIndex((h: EpubHeading) => h.level <= 2, headings);
    if k >= 0 then Some(headings[k].id)
    else if headings != [] then Some(headings[0].id)
    else None
  }

  /** The result for a page the query occurs on at `idx`: the page, its
      filing heading, and a snippet showing the matched text. */
  function ResultFor(page: EpubPage, query: string, idx: nat, m: Marking): (r: SearchResult)
    requires idx + |query| <= |PageText(page)|
    ensures r.pageId == page.id && r.headingId == HeadingFor(page.headings)
    ensures var off := MatchOffset(m, |PageText(page)|, idx, |query|);
      off + |query| <= |r.snippet| && r.snippet[off..off + |query|] == PageText(page)[idx..idx + |query|]
    ensures r.snippet == SnippetFor(m, PageText(page), idx, |query|)
  {
    SearchResult(page.id, HeadingFor(page.headings), SnippetFor(m, PageText(page), idx, |query|))
  }

  /** The result a page contributes to a search: present exactly when the
      query occurs in its text. */
  function Hit(query: string, m: Marking): EpubPage -> Option<SearchResult> {
    page => var idx := MatchIndex(page, query);
      if idx >= 0 then Some(ResultFor(page, query, idx, m)) else None
  }

  /** `search(term)`: nothing for a blank term; otherwise one result per
      page whose stripped, lower-cased text contains the query, in page
      order. `AsWritten` cuts the snippets as the code does, `Corrected` as
      intended. */
  method Search(pages: seq<EpubPage>, term: string, m: Marking) returns (results: seq<SearchResult>)
    ensures Query(term) == [] ==> results == []
    ensures Query(term) != [] ==> results == FilterMap(Hit(Query(term), m), pages)
    ensures |results| <= |pages|
  {
    var query := Query(term);
    if query == [] {
      return [];
    }
    var hit := Hit(query, m);
    results := [];
    var i := 0;
    while i < |pages|
      invariant 0 <= i <= |pages|
      invariant results == FilterMap(hit, pages[..i])
    {
      FilterMapStep(hit, pages, i);
      var page := pages[i];
      var text := PageText(page);
      var idx := FindSubstring(Lower(text), query);
      if idx >= 0 {
        var result := ResultFor(page, query, idx, m);
        assert hit(page) == Some(result);
        results := results + [result];
      } else {
        assert hit(page) == None;
      }
      i := i + 1;
    }
    assert pages[..i] == pages;
  }

  /** A page has a result exactly when its text contains the query, every
      result is the result of such a page, and there is one result per
      matching page. */
  lemma SearchCoversMatchingPages(pages: seq<EpubPage>, query: string, m: Marking)
    ensures var found := FilterMap(Hit(query, m), pages);
      (forall k :: 0 <= k < |pages| && PageMatches(pages[k], query) ==>
         ResultFor(pages[k], query, MatchIndex(pages[k], query), m) in found)
      && (forall r :: r in found ==>
            exists k :: 0 <= k < |pages| && PageMatches(pages[k], query)
              && r == ResultFor(pages[k], query, MatchIndex(pages[k], query), m))
      && |found| == |Filter(MatchesQuery(query), pages)|
  {
    var hit := Hit(query, m);
    var found := FilterMap(hit, pages);
    FilterMapMembership(hit, pages);
    FilterMapLength(hit, MatchesQuery(query), pages);
    forall k | 0 <= k < |pages| && PageMatches(pages[k], query)
      ensures ResultFor(pages[k], query, MatchIndex(pages[k], query), m) in found
    {
      HitOfPage(pages[k], query, m);
    }
    forall r | r in found
      ensures exists k :: 0 <= k < |pages| && PageMatches(pages[k], query)
                && r == ResultFor(pages[k], query, MatchIndex(pages[k], query), m)
    {
      var k :| 0 <= k < |pages| && hit(pages[k]) == Some(r);
      HitOfPage(pages[k], query, m);
    }
  }

  lemma HitOfPage(page: EpubPage, query: string, m: Marking)
    ensures Hit(query, m)(page) ==
      if PageMatches(page, query) then Some(ResultFor(page, query, MatchIndex(page, query), m)) else None
  {
  }

  /** On a matching page both versions give a result, for the same page and
      heading; the snippets differ exactly when the match lies within the
      first `Context` characters but not at the start. */
  lemma HitVersionsAgree(page: EpubPage, query: string)
    requires PageMatches(page, query)
    ensures var w := Hit(query, AsWritten)(page);
      var c := Hit(query, Corrected)(page);
      && w.Some? && c.Some?
      && w.value.pageId == c.value.pageId == page.id
      && w.value.headingId == c.value.headingId
      && (w.value.snippet == c.value.snippet <==> !(0 < MatchIndex(page, query) <= Context))
  {
    HitOfPage(page, query, AsWritten);
    HitOfPage(page, query, Corrected);
    SnippetsDifferOnlyNearStart(PageText(page), MatchIndex(page, query), |query|);
  }

  /** The search as written and the corrected one give results for the same
      pages, in the same order, under the same headings; the i-th snippets
      differ exactly when that page's match lies within the first `Context`
      characters but not at the start. */
  lemma SearchVersionsAgree(pages: seq<EpubPage>, query: string)
    ensures var written := FilterMap(Hit(query, AsWritten), pages);
      var fixed := FilterMap(Hit(query, Corrected), pages);
      && |written| == |fixed|
      && forall i :: 0 <= i < |written| ==>
           && written[i].pageId == fixed[i].pageId
           && written[i].headingId == fixed[i].headingId
           && exists k :: 0 <= k < |pages| && PageMatches(pages[k], query) && pages[k].id == written[i].pageId
                && (written[i].snippet == fixed[i].snippet <==> !(0 < MatchIndex(pages[k], query) <= Context))
  {
    var f := Hit(query, AsWritten);
    var g := Hit(query, Corrected);
    var written := FilterMap(f, pages);
    var fixed := FilterMap(g, pages);
    forall x
      ensures f(x).Some? == g(x).Some?
    {
      HitOfPage(x, query, AsWritten);
      HitOfPage(x, query, Corrected);
    }
    FilterMapAligned(f, g, pages);
    forall i | 0 <= i < |written|
      ensures && written[i].pageId == fixed[i].pageId
              && written[i].headingId == fixed[i].headingId
              && exists k :: 0 <= k < |pages| && PageMatches(pages[k], query) && pages[k].id == written[i].pageId
                   && (written[i].snippet == fixed[i].snippet <==> !(0 < MatchIndex(pages[k], query) <= Context))
    {
      var k :| 0 <= k < |pages| && f(pages[k]) == Some(written[i]) && g(pages[k]) == Some(fixed[i]);
      HitOfPage(pages[k], query, AsWritten);
      HitVersionsAgree(pages[k], query);
    }
  }

  /** The snippet of a result shows the query, compared case-insensitively,
      just after the leading ellipsis and the context before it. */
  lemma SnippetShowsQuery(page: EpubPage, query: string, m: Marking)
    ensures var text := PageText(page);
      var idx := MatchIndex(page, query);
      idx >= 0 ==>
        OccursAt(Lower(ResultFor(page, query, idx, m).snippet), query, MatchOffset(m, |text|, idx, |query|))
  {
    var text := PageText(page);
    var idx := MatchIndex(page, query);
    if idx >= 0 {
      FindSubstringSpec(Lower(text), query);
      ResultShowsMatch(page, query, idx, m);
    }
  }

  lemma ResultShowsMatch(page: EpubPage, query: string, idx: nat, m: Marking)
    requires OccursAt(Lower(PageText(page)), query, idx)
    ensures OccursAt(Lower(ResultFor(page, query, idx, m).snippet), query, MatchOffset(m, |PageText(page)|, idx, |query|))
  {
    SnippetShowsMatch(m, PageText(page), idx, query);
  }

  lemma SnippetShowsMatch(m: Marking, text: string, idx: nat, query: string)
    requires OccursAt(Lower(text), query, idx)
    ensures OccursAt(Lower(SnippetFor(m, text, idx, |query|)), query, MatchOffset(m, |text|, idx, |query|))
  {
    var off := MatchOffset(m, |text|, idx, |query|);
    LowerShowsQuery(SnippetFor(m, text, idx, |query|), off, text, idx, query);
  }

  lemma LowerShowsQuery(snippet: string, off: nat, text: string, idx: nat, query: string)
    requires off + |query| <= |snippet| && idx + |query| <= |text|
    requires snippet[off..off + |query|] == text[idx..idx + |query|]
    requires OccursAt(Lower(text), query, idx)
    ensures OccursAt(Lower(snippet), query, off)
  {
    LowerSlice(snippet, off, off + |query|);
    LowerSlice(text, idx, idx + |query|);
  }
}
