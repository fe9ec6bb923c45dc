/** The panel's built-in sample questions, and the scenarios its component
    tests exercise, stated over the filter and tab-key model. */
module QuestionFixture {
  import opened Wrappers
  import opened Seqs
  import opened QuestionPanelState
  import RT = ReadingTypes

  const Background := RT.ReadingSection("section-background", "Background", "Colonial Rationing Case Study", "1")
  const Implementation := RT.ReadingSection("section-implementation", "Implementation", "Implementation", "2")
  const Audits := RT.ReadingSection("section-audits", "Audits and Oversight", "Implementation", "2")
  const Reflections := RT.ReadingSection("section-reflections", "Reflections", "Reflections", "3")

  const RationingSpan := RT.ReadingTextSpan(42, 214,
    "The colony faced dwindling grain reserves after a failed harvest, prompting councils to debate rationing policy for equitable distribution.")
  const CouponSpan := RT.ReadingTextSpan(12, 168,
    "Bakers received flour allocations tied to reported demand, and coupons were issued in strict weekly increments to protect rural households.")
  const AuditSpan := RT.ReadingTextSpan(64, 212,
    "Audits contradicted favoritism claims, documenting rotating inspection teams and recommending clearer public communication regarding ration slips.")
  const DiarySpan := RT.ReadingTextSpan(18, 176,
    "Diaries reveal mixed reactionsâ€”relief that grain would last the winter alongside resentment of travel delays and inconsistent merchant records.")
  const TrustSpan := RT.ReadingTextSpan(90, 198,
    "The language of official notices emphasized civic duty and mutual sacrifice, hinting that greater transparency could have eased public anxiety.")

  const Mcq2 := Question("mcq-2",
    "Which evidence best shows how rationing rules tried to protect rural families?",
    Analyze, Hard, "Evidence evaluation", None, Implementation, CouponSpan)

  const McqTab := QuestionTab("mcq", "Multiple choice",
    "Auto-graded comprehension checks sourced from the AI question set.",
    [ Question("mcq-1", "Why did the colonial council adopt rationing measures for flour and salt?",
        Understand, Easy, "Cause and effect reasoning", None, Background, RationingSpan),
      Mcq2,
      Question("mcq-3", "What immediate outcome followed the council decree on ration coupons?",
        Remember, Medium, "Key detail recall", None, Implementation, CouponSpan) ])

  const ShortTab := QuestionTab("short", "Short answer",
    "Free-response prompts for discussion or exit tickets.",
    [ Question("short-1", "Explain how ration inspectors balanced fairness with the limited supply of grain.",
        Analyze, Medium, "Fairness analysis", Some("Reference the audit logs and rotating inspection teams."),
        Audits, AuditSpan),
      Question("short-2", "Summarize the two biggest challenges colonists reported under the rationing policy.",
        Understand, Easy, "Summarizing evidence", Some("Highlight travel delays and inconsistent merchant records."),
        Background, DiarySpan),
      Question("short-3", "How might the council have improved trust in the rationing process?",
        Apply, Hard, "Policy application", Some("Suggest transparency steps or community audits."),
        Reflections, TrustSpan) ])

  const EvidenceTab := QuestionTab("evidence", "Evidence tasks",
    "Prompt students to cite text snippets that justify their claims.",
    [ Question("evidence-1", "Identify one passage that shows how ration coupons were distributed.",
        Remember, Easy, "Textual evidence selection", None, Implementation, CouponSpan),
      Question("evidence-2", "Select two quotes that reveal tensions between merchants and inspectors.",
        Analyze, Medium, "Perspective comparison", None, Audits, AuditSpan),
      Question("evidence-3", "Find evidence that supports the claim that audits reduced favoritism.",
        Apply, Hard, "Claim support with evidence", None, Audits, AuditSpan) ])

  const QuestionTabs: seq<QuestionTab> := [McqTab, ShortTab, EvidenceTab]

  const TabOrder: seq<string> := ["mcq", "short", "evidence"]

  /** The panel opens on the multiple-choice tab showing all three questions. */
  lemma InitialPanelShowsMcq()
    ensures InitialPanelState(QuestionTabs).selectedTabId == "mcq"
    ensures FilteredQuestions(QuestionTabs, InitialPanelState(QuestionTabs)) == McqTab.questions
  {
  }

  /** Choosing the Analyze chip leaves exactly one question, the one asking
      which evidence best shows the protection of rural families. */
  lemma AnalyzeChipLeavesOneQuestion()
    ensures FilteredQuestions(QuestionTabs, PanelState("mcq", "mcq", Only(Analyze), All)) == [Mcq2]
  {
    var qs := McqTab.questions;
    var p := Matcher(Only(Analyze), All);
    assert ActiveTab(QuestionTabs, "mcq") == McqTab;
    assert Filter(p, qs[2..]) == [];
    assert Filter(p, qs[1..]) == [Mcq2] + Filter(p, qs[2..]);
    assert Filter(p, qs) == Filter(p, qs[1..]);
  }

  /** Remember together with Hard matches nothing on the first tab. */
  lemma RememberHardMatchesNothing()
    ensures FilteredQuestions(QuestionTabs, PanelState("mcq", "mcq", Only(Remember), Only(Hard))) == []
  {
    var qs := McqTab.questions;
    var p := Matcher(Only(Remember), Only(Hard));
    assert ActiveTab(QuestionTabs, "mcq") == McqTab;
    assert Filter(p, qs[2..]) == [];
    assert Filter(p, qs[1..]) == Filter(p, qs[2..]);
    assert Filter(p, qs) == Filter(p, qs[1..]);
  }

  /** Right on the last tab wraps to the first. */
  lemma RightOnLastTabWraps()
    ensures HandleTabKey("ArrowRight", "evidence", TabOrder) == TabKeyOutcome(true, Focus("mcq"))
  {
    assert TabOrder[2] == "evidence";
  }
}
