/** The uniform "reading section" record that EPUB headings and PDF outline
    entries are both turned into. A missing text span is always an explicit
    `None`, never an undefined field. */
module ReadingSection {
  import opened Wrappers
  import EpubTypes
  import PdfTypes
  import Decimal

  datatype Source = Epub | Pdf

  datatype ReadingLocation = ReadingLocation(
    source: Source,
    pageId: string,
    pageLabel: Option<string>,
    depth: Option<int>)

  datatype TextSpan = TextSpan(start: int, end: int)

  datatype ReadingSection = ReadingSection(
    id: string,
    title: string,
    location: ReadingLocation,
    textSpan: Option<TextSpan>)

  /** Constructor arguments; the span may be left out or given as null. */
  datatype ReadingSectionInit = ReadingSectionInit(
    id: string,
    title: string,
    location: ReadingLocation,
    textSpan: Nullish<TextSpan>)

  /** The one constructor every section goes through: identity, title and
      location are kept as given, and an omitted span becomes `None`. */
  function CreateReadingSection(init: ReadingSectionInit): (s: ReadingSection)
    ensures s.id == init.id && s.title == init.title && s.location == init.location
    ensures s.textSpan.None? <==> (init.textSpan.Undefined? || init.textSpan.Null?)
    ensures init.textSpan.Present? ==> s.textSpan == Some(init.textSpan.value)
  {
    ReadingSection(init.id, init.title, init.location, init.textSpan.OrNull())
  }

  /** A section for an EPUB heading on the page the caller names. EPUB
      headings carry no character offsets, so the span is always `None`. */
  function CreateSectionFromEpubHeading(heading: EpubTypes.EpubHeading, pageId: string, pageLabel: Option<string>): (s: ReadingSection)
    ensures s.id == heading.id && s.title == heading.text
    ensures s.location.source == Epub
    ensures s.location.pageId == pageId
    ensures s.location.pageLabel == pageLabel
    ensures s.location.depth == Some(heading.level)
    ensures s.textSpan == None
  {
    CreateReadingSection(ReadingSectionInit(
      heading.id,
      heading.text,
      ReadingLocation(Epub, pageId, pageLabel, Some(heading.level)),
      Undefined))
  }

  function FromOutlineSpan(span: PdfTypes.OutlineSpan): TextSpan {
    TextSpan(span.start, span.end)
  }

  /** A section for a PDF outline entry: the page id is the decimal page
      number, and the entry's span is kept when it has one. */
  function CreateSectionFromPdfOutline(item: PdfTypes.PdfOutlineItem, pageLabel: Option<string>): (s: ReadingSection)
    ensures s.id == item.id && s.title == item.title
    ensures s.location.source == Pdf
    ensures s.location.pageId == Decimal.IntToDecimal(item.pageNumber)
    ensures s.location.pageLabel == pageLabel
    ensures s.location.depth == Some(item.depth)
    ensures s.textSpan.Some? <==> item.textSpan.Present?
    ensures item.textSpan.Present? ==>
      s.textSpan.value.start == item.textSpan.value.start && s.textSpan.value.end == item.textSpan.value.end
  {
    CreateReadingSection(ReadingSectionInit(
      item.id,
      item.title,
      ReadingLocation(Pdf, Decimal.IntToDecimal(item.pageNumber), pageLabel, Some(item.depth)),
      match item.textSpan
      case Present(span) => Present(FromOutlineSpan(span))
      case Null => Null
      case Undefined => Undefined))
  }

  /** The heading an EPUB section was built from, read back from the section. */
  function HeadingOf(s: ReadingSection): EpubTypes.EpubHeading
    requires s.location.depth.Some?
  {
    EpubTypes.EpubHeading(s.id, s.title, s.location.depth.value)
  }

  /** Nothing of the heading is lost: it can be read back from its section. */
  lemma EpubSectionKeepsHeading(heading: EpubTypes.EpubHeading, pageId: string, pageLabel: Option<string>)
    ensures HeadingOf(CreateSectionFromEpubHeading(heading, pageId, pageLabel)) == heading
  {
  }

  /** The outline entry a PDF section was built from, with a missing span
      read back as null. */
  function OutlineItemOf(s: ReadingSection): PdfTypes.PdfOutlineItem
    requires s.location.depth.Some?
    requires |s.location.pageId| >= 1
    requires forall i :: (if s.location.pageId[0] == '-' then 1 else 0) <= i < |s.location.pageId|
               ==> Decimal.IsDigit(s.location.pageId[i])
  {
    PdfTypes.PdfOutlineItem(
      s.id,
      s.title,
      Decimal.ParseInt(s.location.pageId),
      s.location.depth.value,
      match s.textSpan
      case Some(span) => Present(PdfTypes.OutlineSpan(span.start, span.end))
      case None => Null)
  }

  /** A PDF section keeps everything of its entry, page number included;
      only the difference between an omitted and a null span is dropped. */
  lemma {:induction false} PdfSectionKeepsItem(item: PdfTypes.PdfOutlineItem, pageLabel: Option<string>)
    requires item.textSpan != Undefined
    ensures var s := CreateSectionFromPdfOutline(item, pageLabel);
      && |s.location.pageId| >= 1
      && (forall i :: (if s.location.pageId[0] == '-' then 1 else 0) <= i < |s.location.pageId|
            ==> Decimal.IsDigit(s.location.pageId[i]))
      && OutlineItemOf(s) == item
  {
    var s := CreateSectionFromPdfOutline(item, pageLabel);
    Decimal.IntRoundTrip(item.pageNumber);
    var n := item.pageNumber;
    if n < 0 {
      assert s.location.pageId == "-" + Decimal.NatToDecimal(-n);
    } else {
      assert s.location.pageId == Decimal.NatToDecimal(n);
    }
  }

  /** The entry from the outline test: page 2 with a span. */
  lemma MissionStatementExample()
    ensures CreateSectionFromPdfOutline(
              PdfTypes.PdfOutlineItem("outline-1-1", "Mission Statement", 2, 2, Present(PdfTypes.OutlineSpan(120, 220))),
              Some("Page 2"))
         == ReadingSection("outline-1-1", "Mission Statement",
              ReadingLocation(Pdf, "2", Some("Page 2"), Some(2)), Some(TextSpan(120, 220)))
  {
  }
}
