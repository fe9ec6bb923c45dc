/** The section and passage records the teacher question panel attaches to
    each question. */
module ReadingTypes {

  datatype ReadingSection = ReadingSection(id: string, title: string, chapterTitle: string, pageLabel: string)

  datatype ReadingTextSpan = ReadingTextSpan(startOffset: int, endOffset: int, text: string)
}
