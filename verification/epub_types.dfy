/** Records an EPUB source supplies to the view adapter. */
module EpubTypes {
  import opened Wrappers

  /** A heading on a page; `level` 1 is a chapter, 2 a sub-heading, ... */
  datatype EpubHeading = EpubHeading(id: string, text: string, level: int)

  /** `pageLabel` is the page's `label` (a reserved word here). */
  datatype EpubPage = EpubPage(id: string, pageLabel: string, html: string, headings: seq<EpubHeading>)

  /** One search hit: the page, the heading it is filed under, and the text
      around the first match. */
  datatype SearchResult = SearchResult(pageId: string, headingId: Option<string>, snippet: string)
}
