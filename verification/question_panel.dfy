/** State of the teacher question panel: the tab strip's keyboard handling
    and the Bloom-tier / difficulty filter over the active tab's questions. */
module QuestionPanelState {
  import opened Wrappers
  import opened Seqs
  import ReadingTypes

  datatype BloomTier = Remember | Understand | Apply | Analyze
  datatype Difficulty = Easy | Medium | Hard

  datatype Question = Question(
    id: string,
    prompt: string,
    bloom: BloomTier,
    difficulty: Difficulty,
    focus: string,
    responseGuide: Option<string>,
    readingSection: ReadingTypes.ReadingSection,
    textSpan: ReadingTypes.ReadingTextSpan)

  /** `tabLabel` is the tab's `label` (a reserved word here). */
  datatype QuestionTab = QuestionTab(id: string, tabLabel: string, description: string, questions: seq<Question>)

  /** A filter chip's value: the wildcard `'all'`, or one tier/level. */
  datatype FilterValue<T> = All | Only(value: T)

  predicate Admits<T(==)>(f: FilterValue<T>, x: T) {
    f.All? || f.value == x
  }

  /** The panel's stores as plain fields. */
  datatype PanelState = PanelState(
    selectedTabId: string,
    focusedTabId: string,
    bloomFilter: FilterValue<BloomTier>,
    difficultyFilter: FilterValue<Difficulty>)

  /** Start state: the first tab selected and focused, no filtering. */
  function InitialPanelState(tabs: seq<QuestionTab>): (s: PanelState)
    requires |tabs| > 0
    ensures s.selectedTabId == tabs[0].id && s.focusedTabId == tabs[0].id
    ensures s.bloomFilter == All && s.difficultyFilter == All
  {
    PanelState(tabs[0].id, tabs[0].id, All, All)
  }

  /** The tab whose questions are shown: the first with the selected id, or
      the first tab when no tab has that id. */
  function ActiveTab(tabs: seq<QuestionTab>, selectedTabId: string): (t: QuestionTab)
    requires |tabs| > 0
    ensures t in tabs
    ensures (exists i :: 0 <= i < |tabs| && tabs[i].id == selectedTabId) ==> t.id == selectedTabId
    ensures forall i ::
      (0 <= i < |tabs| && tabs[i].id == selectedTabId && forall j :: 0 <= j < i ==> tabs[j].id != selectedTabId)
      ==> t == tabs[i]
    ensures (forall i :: 0 <= i < |tabs| ==> tabs[i].id != selectedTabId) ==> t == tabs[0]
  {
    var i := FindIndex((tab: QuestionTab) => tab.id == selectedTabId, tabs);
    if i >= 0 then tabs[i] else tabs[0]
  }

  predicate Matches(q: Question, bloom: FilterValue<BloomTier>, difficulty: FilterValue<Difficulty>) {
    Admits(bloom, q.bloom) && Admits(difficulty, q.difficulty)
  }

  function Matcher(bloom: FilterValue<BloomTier>, difficulty: FilterValue<Difficulty>): Question -> bool {
    q => Matches(q, bloom, difficulty)
  }

  /** The questions listed under the current tab and filters: those of the
      active tab that both filters admit, in their original order. */
  function FilteredQuestions(tabs: seq<QuestionTab>, s: PanelState): (r: seq<Question>)
    requires |tabs| > 0
    ensures var active := ActiveTab(tabs, s.selectedTabId).questions;
      && IsSubsequence(r, active)
      && (forall i :: 0 <= i < |r| ==> Matches(r[i], s.bloomFilter, s.difficultyFilter))
      && (forall i :: 0 <= i < |active| && Matches(active[i], s.bloomFilter, s.difficultyFilter) ==> active[i] in r)
      && (forall q :: multiset(r)[q] ==
            if Matches(q, s.bloomFilter, s.difficultyFilter) then multiset(active)[q] else 0)
      && (s.bloomFilter == All && s.difficultyFilter == All ==> r == active)
  {
    var active := ActiveTab(tabs, s.selectedTabId).questions;
    var p := Matcher(s.bloomFilter, s.difficultyFilter);
    FilterIsSubsequence(p, active);
    FilterKeepsCounts(p, active);
    Filter(p, active)
  }

  /** What a tab-strip key asks the caller to do. */
  datatype TabEffect = NoEffect | Focus(id: string) | Select(id: string)

  /** `handled` tells the caller to suppress the browser's default. */
  datatype TabKeyOutcome = TabKeyOutcome(handled: bool, effect: TabEffect)

  const TabKeys: set<string> := {"ArrowRight", "ArrowLeft", "Home", "End", "Enter", " "}

  /** Keyboard handling of the tab strip: arrows move focus round the strip,
      Home/End focus the ends, Enter/Space select the current tab. */
  function HandleTabKey(key: string, currentId: string, tabOrder: seq<string>): (o: TabKeyOutcome)
    ensures o.handled <==> o.effect != NoEffect
    ensures currentId !in tabOrder || key !in TabKeys ==> o == TabKeyOutcome(false, NoEffect)
    ensures currentId in tabOrder ==>
      var i := IndexOf(tabOrder, currentId);
      var n := |tabOrder|;
      && (key == "ArrowRight" ==> o == TabKeyOutcome(true, Focus(tabOrder[if i == n - 1 then 0 else i + 1])))
      && (key == "ArrowLeft" ==> o == TabKeyOutcome(true, Focus(tabOrder[if i == 0 then n - 1 else i - 1])))
      && (key == "Home" ==> o == TabKeyOutcome(true, Focus(tabOrder[0])))
      && (key == "End" ==> o == TabKeyOutcome(true, Focus(tabOrder[n - 1])))
      && (key == "Enter" || key == " " ==> o == TabKeyOutcome(true, Select(currentId)))
    ensures o.effect.Focus? ==> o.effect.id in tabOrder
  {
    var currentIndex := IndexOf(tabOrder, currentId);
    if currentIndex == -1 then TabKeyOutcome(false, NoEffect)
    else if key == "ArrowRight" || key == "ArrowLeft" then
      var direction := if key == "ArrowRight" then 1 else -1;
      var nextIndex := (currentIndex + direction + |tabOrder|) % |tabOrder|;
      CircularStep(currentIndex, direction, |tabOrder|);
      TabKeyOutcome(true, Focus(tabOrder[nextIndex]))
    else if key == "Home" then TabKeyOutcome(true, Focus(tabOrder[0]))
    else if key == "End" then TabKeyOutcome(true, Focus(tabOrder[|tabOrder| - 1]))
    else if key == "Enter" || key == " " then TabKeyOutcome(true, Select(currentId))
    else TabKeyOutcome(false, NoEffect)
  }

  /** One step round a circle of `n` positions, as the handler computes it. */
  lemma CircularStep(i: int, direction: int, n: int)
    requires 0 <= i < n && (direction == 1 || direction == -1)
    ensures (i + direction + n) % n ==
      if direction == 1 then (if i == n - 1 then 0 else i + 1)
      else (if i == 0 then n - 1 else i - 1)
  {
    var a := i + direction + n;
    if a == n + n {
      ModOfShift(0, n);
      assert a == (0 + n) + n;
      ModOfDoubleShift(n);
    } else if n <= a {
      ModOfShift(a - n, n);
    } else {
      ModOfShift(a, n);
      assert a % n == a;
    }
  }

  lemma ModOfDoubleShift(n: int)
    requires 0 < n
    ensures (n + n) % n == 0
  {
    var q, r := (n + n) / n, (n + n) % n;
    assert n + n == q * n + r;
    // Any quotient other than 2 puts the remainder outside [0, n).
    if q <= 1 {
      assert false;
    } else if q >= 3 {
      assert false;
    }
  }

  /** Euclidean remainder of a value in `[0, n)` shifted up by `n`. */
  lemma ModOfShift(b: int, n: int)
    requires 0 <= b < n
    ensures b % n == b && (b + n) % n == b
  {
  }

  /** With distinct tab ids, Right then Left (and Left then Right) gives the
      focus back to the tab it started on. */
  lemma RightThenLeft(currentId: string, tabOrder: seq<string>)
    requires Distinct(tabOrder) && currentId in tabOrder
    ensures var next := HandleTabKey("ArrowRight", currentId, tabOrder).effect.id;
      HandleTabKey("ArrowLeft", next, tabOrder).effect == Focus(currentId)
  {
    var i := IndexOf(tabOrder, currentId);
    var n := |tabOrder|;
    var j := if i == n - 1 then 0 else i + 1;
    IndexOfDistinct(tabOrder, j);
  }

  lemma LeftThenRight(currentId: string, tabOrder: seq<string>)
    requires Distinct(tabOrder) && currentId in tabOrder
    ensures var prev := HandleTabKey("ArrowLeft", currentId, tabOrder).effect.id;
      HandleTabKey("ArrowRight", prev, tabOrder).effect == Focus(currentId)
  {
    var i := IndexOf(tabOrder, currentId);
    var n := |tabOrder|;
    var j := if i == 0 then n - 1 else i - 1;
    IndexOfDistinct(tabOrder, j);
  }
}
