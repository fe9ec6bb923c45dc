/** The attempt tracker: a log of every answer to a question and a review
    queue of the questions answered wrongly, each due after an interval that
    doubles with every wrong answer. Instants are UTC microseconds; the
    JSON files the tracker keeps are the `log` and `queue` fields. */
module AttemptTracking {
  import opened Wrappers
  import opened StringOrder

  const MicrosPerMinute: int := 60_000_000

  /** One recorded answer. Metadata is kept only when it is given and not
      empty. */
  datatype Attempt = Attempt(timestamp: int, correct: bool, metadata: Option<map<string, string>>)

  /** A question's entry in the log. */
  datatype QuestionLog = QuestionLog(attempts: seq<Attempt>, nextReview: Option<int>)

  /** A queued review time as read back from the queue file: an instant, or
      text that does not parse as one. */
  datatype Revisit = At(instant: int) | Malformed

  datatype Tracker = Tracker(baseMinutes: int, log: map<string, QuestionLog>, queue: map<string, Revisit>)

  /** A tracker with nothing recorded: the state read when neither file
      exists yet. */
  function NewTracker(baseMinutes: int): (t: Tracker)
    ensures Coherent(t) && t.baseMinutes == baseMinutes
    ensures t.log == map[] && t.queue == map[]
    ensures forall id :: Attempts(t, id) == [] && NextReview(t, id) == None
  {
    Tracker(baseMinutes, map[], map[])
  }

  /** Every queued question is in the log, with the same review time. */
  predicate Coherent(t: Tracker) {
    forall id :: id in t.queue ==>
      id in t.log && t.log[id].nextReview.Some? && t.queue[id] == At(t.log[id].nextReview.value)
  }

  function Pow2(n: nat): (r: nat)
    ensures r >= 1
  {
    if n == 0 then 1 else 2 * Pow2(n - 1)
  }

  /** The number of wrong answers in a list of attempts. */
  function Wrong(attempts: seq<Attempt>): (n: nat)
    ensures n <= |attempts|
    decreases |attempts|
  {
    if attempts == [] then 0
    else Wrong(attempts[..|attempts| - 1]) + (if attempts[|attempts| - 1].correct then 0 else 1)
  }

  /** `_count_incorrect_attempts`: wrong answers on record for the question,
      none when it has no entry. */
  function CountIncorrect(t: Tracker, id: string): (n: nat)
    ensures id !in t.log ==> n == 0
    ensures id in t.log ==> n <= |t.log[id].attempts|
  {
    if id in t.log then Wrong(t.log[id].attempts) else 0
  }

  /** `_interval_for_attempt`: the base interval for the first wrong answer,
      doubled for each further one, in microseconds. */
  function Interval(baseMinutes: int, incorrect: int): (r: int)
    ensures incorrect <= 1 ==> r == baseMinutes * MicrosPerMinute
    ensures baseMinutes == 0 ==> r == 0
  {
    var exponent := if incorrect - 1 > 0 then incorrect - 1 else 0;
    baseMinutes * Pow2(exponent) * MicrosPerMinute
  }

  /** `get_attempts`. */
  function Attempts(t: Tracker, id: string): (r: seq<Attempt>)
    ensures id !in t.log ==> r == []
  {
    if id in t.log then t.log[id].attempts else []
  }

  /** `get_next_review`. */
  function NextReview(t: Tracker, id: string): (r: Option<int>)
    ensures id !in t.log ==> r == None
  {
    if id in t.log then t.log[id].nextReview else None
  }

  /** The attempt stored for an answer. */
  function Entry(moment: int, correct: bool, metadata: Option<map<string, string>>): Attempt {
    var kept := if metadata.Some? && |metadata.value| > 0 then metadata else None;
    Attempt(moment, correct, kept)
  }

  /** The log's other questions are as they were. */
  ghost predicate LogElsewhere(t: Tracker, u: Tracker, id: string) {
    forall other :: other != id ==>
      (other in u.log <==> other in t.log) && (other in t.log ==> u.log[other] == t.log[other])
  }

  /** The queue's other questions are as they were. */
  ghost predicate QueueElsewhere(t: Tracker, u: Tracker, id: string) {
    forall other :: other != id ==>
      (other in u.queue <==> other in t.queue) && (other in t.queue ==> u.queue[other] == t.queue[other])
  }

  /** The first step of `record_attempt`: the question's entry, created
      empty if missing, gets the attempt appended. */
  function AppendAttempt(t: Tracker, id: string, entry: Attempt): (u: Tracker)
    ensures u.baseMinutes == t.baseMinutes && u.queue == t.queue
    ensures Attempts(u, id) == Attempts(t, id) + [entry]
    ensures NextReview(u, id) == NextReview(t, id)
    ensures CountIncorrect(u, id) == CountIncorrect(t, id) + (if entry.correct then 0 else 1)
    ensures LogElsewhere(t, u, id) && QueueElsewhere(t, u, id)
  {
    var before := if id in t.log then t.log[id] else QuestionLog([], None);
    var attempts := before.attempts + [entry];
    assert attempts[..|attempts| - 1] == before.attempts;
    t.(log := t.log[id := QuestionLog(attempts, before.nextReview)])
  }

  /** `record_attempt`: log the answer at the given time (the clock's `now`
      when none is given). A right answer takes the question off the review
      queue; a wrong one queues it after the interval for all its wrong
      answers so far, and that review time is returned. */
  function RecordAttempt(t: Tracker, id: string, correct: bool, timestamp: Option<int>,
                         metadata: Option<map<string, string>>, now: int): (r: (Tracker, Option<int>))
    ensures r.0.baseMinutes == t.baseMinutes
    ensures Attempts(r.0, id) == Attempts(t, id) + [Entry(timestamp.GetOr(now), correct, metadata)]
    ensures correct ==> r.1 == None && id !in r.0.queue && NextReview(r.0, id) == None
    ensures !correct ==>
      && r.1 == Some(timestamp.GetOr(now) + Interval(t.baseMinutes, CountIncorrect(t, id) + 1))
      && NextReview(r.0, id) == r.1 && id in r.0.queue && r.0.queue[id] == At(r.1.value)
    ensures LogElsewhere(t, r.0, id) && QueueElsewhere(t, r.0, id)
  {
    var moment := timestamp.GetOr(now);
    var logged := AppendAttempt(t, id, Entry(moment, correct, metadata));
    var r := if correct then (ClearReview(logged, id), None) else ScheduleNextReview(logged, id, moment);
    ElsewhereTransitive(t, logged, r.0, id);
    r
  }

  /** The right-answer branch of `record_attempt`: no review is pending and
      the question leaves the queue. */
  function ClearReview(t: Tracker, id: string): (u: Tracker)
    ensures u.baseMinutes == t.baseMinutes && u.queue == t.queue - {id}
    ensures Attempts(u, id) == Attempts(t, id) && NextReview(u, id) == None
    ensures LogElsewhere(t, u, id) && QueueElsewhere(t, u, id)
  {
    var entry := if id in t.log then t.log[id] else QuestionLog([], None);
    t.(log := t.log[id := entry.(nextReview := None)], queue := t.queue - {id})
  }

  lemma ElsewhereTransitive(t: Tracker, u: Tracker, v: Tracker, id: string)
    requires LogElsewhere(t, u, id) && LogElsewhere(u, v, id)
    requires QueueElsewhere(t, u, id) && QueueElsewhere(u, v, id)
    ensures LogElsewhere(t, v, id) && QueueElsewhere(t, v, id)
  {
  }

  /** `_schedule_next_review`: the question is due the interval for its wrong
      answers after `moment`; the log and the queue both say so. */
  function ScheduleNextReview(t: Tracker, id: string, moment: int): (r: (Tracker, Option<int>))
    ensures r.1 == Some(moment + Interval(t.baseMinutes, CountIncorrect(t, id)))
    ensures r.0.queue == t.queue[id := At(r.1.value)]
    ensures id in r.0.log && r.0.log[id].nextReview == r.1
    ensures Attempts(r.0, id) == Attempts(t, id)
    ensures LogElsewhere(t, r.0, id) && QueueElsewhere(t, r.0, id)
  {
    var revisit := moment + Interval(t.baseMinutes, CountIncorrect(t, id));
    var entry := if id in t.log then t.log[id] else QuestionLog([], None);
    (t.(log := t.log[id := entry.(nextReview := Some(revisit))], queue := t.queue[id := At(revisit)]),
     Some(revisit))
  }

  /** A queued question is due when its review time has come; a time that
      does not parse counts as now. */
  predicate Due(revisit: Revisit, now: int) {
    match revisit
    case At(instant) => instant <= now
    case Malformed => true
  }

  /** The questions due at `now`. */
  function DueIds(t: Tracker, now: int): (r: set<string>)
    ensures r <= t.queue.Keys
    ensures forall id :: id in t.queue && t.queue[id].Malformed? ==> id in r
  {
    set id | id in t.queue && Due(t.queue[id], now)
  }

  /** `get_items_for_export`: the questions due at `now`, sorted. */
  method ItemsForExport(t: Tracker, now: int) returns (ready: seq<string>)
    ensures Sorted(ready)
    ensures forall id :: id in ready <==> id in t.queue && Due(t.queue[id], now)
    ensures forall id :: id in ready <==> id in DueIds(t, now)
  {
    ready := [];
    var remaining := t.queue.Keys;
    while remaining != {}
      invariant remaining <= t.queue.Keys
      invariant Sorted(ready)
      invariant forall id :: id in ready <==> id in t.queue && id !in remaining && Due(t.queue[id], now)
      decreases |remaining|
    {
      var id :| id in remaining;
      if Due(t.queue[id], now) {
        ready := Insert(ready, id);
      }
      remaining := remaining - {id};
    }
  }

  /** `mark_exported`: take each listed question off the queue; the log,
      review times included, is left as it is. */
  function MarkExported(t: Tracker, ids: seq<string>): (u: Tracker)
    ensures u.log == t.log && u.baseMinutes == t.baseMinutes
    ensures forall id :: id in u.queue <==> id in t.queue && id !in ids
    ensures forall id :: id in u.queue ==> u.queue[id] == t.queue[id]
    decreases |ids|
  {
    if ids == [] then t
    else MarkExported(t.(queue := t.queue - {ids[0]}), ids[1..])
  }

  // ---------------------------------------------------------------------
  // Properties

  /** A count of zero or one wrong answers waits the base interval; each
      further wrong answer doubles the wait. */
  lemma IntervalDoubles(baseMinutes: int, incorrect: int)
    ensures Interval(baseMinutes, 0) == Interval(baseMinutes, 1) == baseMinutes * MicrosPerMinute
    ensures incorrect >= 1 ==> Interval(baseMinutes, incorrect + 1) == 2 * Interval(baseMinutes, incorrect)
  {
  }

  /** Recording and exporting keep the queue and the log in agreement. */
  lemma RecordAttemptCoherent(t: Tracker, id: string, correct: bool, timestamp: Option<int>,
                              metadata: Option<map<string, string>>, now: int)
    requires Coherent(t)
    ensures Coherent(RecordAttempt(t, id, correct, timestamp, metadata, now).0)
  {
    var u := RecordAttempt(t, id, correct, timestamp, metadata, now).0;
    forall other | other in u.queue
      ensures other in u.log && u.log[other].nextReview.Some? && u.queue[other] == At(u.log[other].nextReview.value)
    {
      assert NextReview(u, other) == NextReview(t, other) || other == id;
    }
  }

  lemma MarkExportedCoherent(t: Tracker, ids: seq<string>)
    requires Coherent(t)
    ensures Coherent(MarkExported(t, ids))
  {
  }

  /** A right answer does not reset the wait: the next wrong answer still
      counts every earlier wrong one. */
  lemma {:induction false} RightAnswerKeepsBackoff(t: Tracker, id: string, moment: int, later: int)
    ensures var u := RecordAttempt(t, id, true, Some(moment), None, moment).0;
      CountIncorrect(u, id) == CountIncorrect(t, id)
      && RecordAttempt(u, id, false, Some(later), None, later).1
         == Some(later + Interval(t.baseMinutes, CountIncorrect(t, id) + 1))
  {
    var u := RecordAttempt(t, id, true, Some(moment), None, moment).0;
    var a := Attempts(t, id) + [Entry(moment, true, None)];
    assert Attempts(u, id) == a;
    assert a[..|a| - 1] == Attempts(t, id);
  }

  /** Each wrong answer adds one to the count the interval is taken from. */
  lemma {:induction false} WrongAnswerCounts(t: Tracker, id: string, moment: int)
    ensures CountIncorrect(RecordAttempt(t, id, false, Some(moment), None, moment).0, id) == CountIncorrect(t, id) + 1
  {
    var u := RecordAttempt(t, id, false, Some(moment), None, moment).0;
    var a := Attempts(t, id) + [Entry(moment, false, None)];
    assert Attempts(u, id) == a;
    assert a[..|a| - 1] == Attempts(t, id);
  }

  /** A question due now is still due later: the due set only grows while
      the queue is left alone. */
  lemma DueIdsGrow(t: Tracker, now: int, later: int)
    requires now <= later
    ensures DueIds(t, now) <= DueIds(t, later)
  {
    forall id | id in DueIds(t, now)
      ensures id in DueIds(t, later)
    {
      assert Due(t.queue[id], later);
    }
  }

  /** The export list is the due set in sorted order, so a due set of one
      question or none fixes the list. */
  lemma ExportListOfDueSet(ready: seq<string>, due: set<string>)
    requires Sorted(ready) && forall id :: id in ready <==> id in due
    ensures due == {} ==> ready == []
    ensures forall x :: due == {x} ==> ready == [x]
  {
    if due == {} {
      SortedUnique(ready, []);
    }
    forall x | due == {x}
      ensures ready == [x]
    {
      SortedUnique(ready, [x]);
    }
  }

  /** The first wrong answer on a fresh question is due one base interval
      later, is exported at that time, and is gone once marked exported
      (base interval 10 minutes). */
  lemma IncorrectAttemptSchedulesRevisit(now: int)
    ensures var t := NewTracker(10);
      var (u, next) := RecordAttempt(t, "q1", false, Some(now), None, now);
      var due := now + 10 * MicrosPerMinute;
      && next == Some(due)
      && NextReview(u, "q1") == Some(due)
      && DueIds(u, due) == {"q1"}
      && DueIds(MarkExported(u, ["q1"]), due) == {}
  {
    var t := NewTracker(10);
    var u := RecordAttempt(t, "q1", false, Some(now), None, now).0;
    assert Attempts(u, "q1") == [Entry(now, false, None)];
    assert Wrong([Entry(now, false, None)]) == 1;
    assert u.queue.Keys == {"q1"};
    assert "q1" in DueIds(u, now + 10 * MicrosPerMinute);
  }

  /** Two wrong answers in a row: the second waits twice as long, and the
      question is not due a minute early but is due on time (base interval
      5 minutes). */
  lemma RepeatedIncorrectAttemptsExpandInterval(start: int)
    ensures var t := NewTracker(5);
      var (u, first) := RecordAttempt(t, "q42", false, Some(start), None, start);
      var second := start + 5 * MicrosPerMinute;
      var (v, revisit) := RecordAttempt(u, "q42", false, Some(second), None, second);
      var due := second + 10 * MicrosPerMinute;
      && first == Some(second)
      && revisit == Some(due)
      && NextReview(v, "q42") == Some(due)
      && DueIds(v, due - MicrosPerMinute) == {}
      && DueIds(v, due) == {"q42"}
  {
    var t := NewTracker(5);
    var u := RecordAttempt(t, "q42", false, Some(start), None, start).0;
    var second := start + 5 * MicrosPerMinute;
    var v := RecordAttempt(u, "q42", false, Some(second), None, second).0;
    WrongAnswerCounts(t, "q42", start);
    assert CountIncorrect(t, "q42") == 0;
    assert CountIncorrect(u, "q42") == 1;
    assert v.queue.Keys == {"q42"};
    var due := second + 10 * MicrosPerMinute;
    assert "q42" in DueIds(v, due);
  }
}
