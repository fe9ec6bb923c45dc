/** Records a PDF source supplies for its outline (bookmarks). */
module PdfTypes {
  import opened Wrappers

  /** Character offsets `[start, end)` of an outline entry's text. */
  datatype OutlineSpan = OutlineSpan(start: int, end: int)

  datatype PdfOutlineItem = PdfOutlineItem(
    id: string,
    title: string,
    pageNumber: int,
    depth: int,
    textSpan: Nullish<OutlineSpan>)
}
