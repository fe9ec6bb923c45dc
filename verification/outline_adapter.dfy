/** Turns a PDF outline into reading sections, one per entry, in order. */
module OutlineAdapter {
  import opened Wrappers
  import PdfTypes
  import Decimal
  import opened ReadingSection

  /** The optional page labeller: absent, or a function from page number to
      a label (which may itself be undefined). */
  type PageLabeller = Option<int -> Option<string>>

  function LabelFor(getPageLabel: PageLabeller, pageNumber: int): Option<string> {
    match getPageLabel
    case Some(f) => f(pageNumber)
    case None => None
  }

  function MapPdfOutlineToSections(outline: seq<PdfTypes.PdfOutlineItem>, getPageLabel: PageLabeller): (r: seq<ReadingSection>)
    ensures |r| == |outline|
    ensures forall i :: 0 <= i < |outline| ==>
      r[i] == CreateSectionFromPdfOutline(outline[i], LabelFor(getPageLabel, outline[i].pageNumber))
    ensures forall i :: 0 <= i < |r| ==> r[i].location.source == Pdf && r[i].id == outline[i].id
    ensures getPageLabel.None? ==> forall i :: 0 <= i < |r| ==> r[i].location.pageLabel == None
    decreases |outline|
  {
    if outline == [] then []
    else
      [CreateSectionFromPdfOutline(outline[0], LabelFor(getPageLabel, outline[0].pageNumber))]
        + MapPdfOutlineToSections(outline[1..], getPageLabel)
  }

  function PageLabelFromNumber(pageNumber: int): Option<string> {
    Some("Page " + Decimal.IntToDecimal(pageNumber))
  }

  /** The outline from the adapter test: an entry without a span and one
      with a span, labelled "Page n". */
  lemma OutlineExample()
    ensures MapPdfOutlineToSections(
              [ PdfTypes.PdfOutlineItem("outline-1", "Preface", 1, 1, Undefined),
                PdfTypes.PdfOutlineItem("outline-1-1", "Mission Statement", 2, 2, Present(PdfTypes.OutlineSpan(120, 220))) ],
              Some(PageLabelFromNumber))
         == [ ReadingSection("outline-1", "Preface", ReadingLocation(Pdf, "1", Some("Page 1"), Some(1)), None),
              ReadingSection("outline-1-1", "Mission Statement",
                ReadingLocation(Pdf, "2", Some("Page 2"), Some(2)), Some(TextSpan(120, 220))) ]
  {
    assert Decimal.IntToDecimal(1) == "1";
    assert Decimal.IntToDecimal(2) == "2";
    assert "Page " + "1" == "Page 1";
    assert "Page " + "2" == "Page 2";
    assert PageLabelFromNumber(1) == Some("Page 1");
    assert PageLabelFromNumber(2) == Some("Page 2");
  }
}
