/**
 The quiz session: the page's global variables gathered into one immutable
 record, and one pure transition per event the page reacts to: starting a
 quiz with the provider's reply, clicking an option, clicking the Next
 button, the two-second reveal delay running out, and the one-second timer
 firing. Scheduled callbacks are explicit events applied by the caller; a
 callback that was never scheduled does nothing when applied.
 */
module Session {
  import Questions
  import Countdown
  import Scoring
  import Leaderboard

  datatype Option<T> = None | Some(value: T)

  /**
   Everything the page keeps between events. `timerRunning` says whether the
   one-second interval is installed, `pendingAdvances` counts the reveal
   callbacks scheduled by the Next button that have not fired yet, and
   `finished` says whether the results screen has been shown.
   */
  datatype Quiz = Quiz(
    questions: seq<Questions.Question>,
    index: nat,
    score: nat,
    selected: Option<string>,
    answered: bool,
    timeLeft: int,
    timerRunning: bool,
    pendingAdvances: nat,
    finished: bool,
    board: seq<Leaderboard.Entry>)

  /** The page as loaded, with the leaderboard read from storage. */
  function Initial(board: seq<Leaderboard.Entry>): (q: Quiz)
    ensures q.questions == [] && q.index == 0 && q.score == 0 && q.selected == None
    ensures !q.answered && q.timeLeft == 0 && !q.timerRunning && q.pendingAdvances == 0 && !q.finished
    ensures q.board == board
  {
    Quiz([], 0, 0, None, false, 0, false, 0, false, board)
  }

  /** The range the setup form accepts for the number of questions. */
  const MinAmount: int := 1
  const MaxAmount: int := 50

  /** The amount field is filled in and lies in 1 .. 50. */
  function ValidAmount(amount: Option<int>): (ok: bool)
    ensures !ok <==> amount.None? || amount.value < 1 || amount.value > 50
  {
    amount.Some? && MinAmount <= amount.value <= MaxAmount
  }

  /** What the question request produced: nothing usable, or the provider's reply. */
  datatype Reply = NoReply | Reply(responseCode: int, results: seq<Questions.RawQuestion>)

  /**
   The outcome the user sees: an alert about the amount, the error panel,
   the quiz screen with no question on it, or the first question.
   */
  datatype Status = Rejected | ConnectionError | NoQuestion | Running

  datatype Started = Started(quiz: Quiz, status: Status)

  /**
   The Start button. The amount is checked first; then a reply that is
   missing or carries a non-zero `response_code` shows the error panel and
   leaves the session alone. Otherwise the questions are built and the
   session is reset with 30 seconds per question. With an empty result list
   the reset happens and the quiz screen replaces the loading panel, but
   showing the first question fails half-way: the screen reads "Question 1
   of 0", the options of any earlier quiz stay in place, the error text goes
   into the hidden loading panel, and the timer is never started.
   */
  function Start(q: Quiz, amount: Option<int>, reply: Reply, decode: string -> string, shuffles: seq<seq<nat>>): (r: Started)
    requires ValidAmount(amount) && reply.Reply? && reply.responseCode == 0 ==> Questions.ShufflesFit(reply.results, shuffles)
    ensures !ValidAmount(amount) ==> r == Started(q, Rejected)
    ensures ValidAmount(amount) && (reply.NoReply? || reply.responseCode != 0) ==> r == Started(q, ConnectionError)
    ensures ValidAmount(amount) && reply.Reply? && reply.responseCode == 0 ==>
      && |r.quiz.questions| == |reply.results|
      && r.quiz.questions == Questions.BuildQuestions(reply.results, decode, shuffles)
      && r.quiz.index == 0 && r.quiz.score == 0 && r.quiz.selected == None && !r.quiz.answered
      && r.quiz.timeLeft == Countdown.SecondsPerQuestion * |reply.results|
      && !r.quiz.finished
      && r.quiz.board == q.board
      && r.quiz.pendingAdvances == q.pendingAdvances
      && (|reply.results| > 0 ==> r.status == Running && r.quiz.timerRunning)
      && (|reply.results| == 0 ==> r.status == NoQuestion && r.quiz.timerRunning == q.timerRunning)
  {
    if !ValidAmount(amount) then Started(q, Rejected)
    else match reply
      case NoReply => Started(q, ConnectionError)
      case Reply(code, results) =>
        if code != 0 then Started(q, ConnectionError)
        else
          var questions := Questions.BuildQuestions(results, decode, shuffles);
          var reset := q.(questions := questions, index := 0, score := 0, selected := None, answered := false,
                          timeLeft := Countdown.SecondsPerQuestion * |questions|, finished := false);
          if |questions| == 0 then Started(reset, NoQuestion)
          else Started(reset.(timerRunning := true), Running)
  }

  /** JavaScript truthiness of the selection: nothing chosen, or the empty string, is false. */
  function HasSelection(selected: Option<string>): (ok: bool)
    ensures !ok <==> selected.None? || |selected.value| == 0
  {
    selected.Some? && selected.value != ""
  }

  /** Clicking an option: ignored once the current question is answered, otherwise it becomes the selection. */
  function Select(q: Quiz, answer: string): (r: Quiz)
    ensures q.answered ==> r == q
    ensures !q.answered ==> r.selected == Some(answer) && r == q.(selected := r.selected)
  {
    if q.answered then q else q.(selected := Some(answer))
  }

  /** The current question's correct answer was the one selected. */
  predicate SelectedCorrectly(q: Quiz)
    requires q.index < |q.questions|
  {
    q.selected.Some? && q.selected.value == q.questions[q.index].correctAnswer
  }

  /**
   The Next button: without a selection nothing happens. Otherwise the
   answer is committed, scored, and a reveal callback is scheduled. The
   guard does not look at `answered`, so a second click scores again and
   schedules a second callback. Past the last question there is no current
   question and the handler fails before changing anything.
   */
  function Confirm(q: Quiz): (r: Quiz)
    ensures !HasSelection(q.selected) || q.index >= |q.questions| ==> r == q
    ensures HasSelection(q.selected) && q.index < |q.questions| ==>
      && r.answered
      && (r.score == q.score + 1 <==> SelectedCorrectly(q))
      && (r.score == q.score <==> !SelectedCorrectly(q))
      && r.pendingAdvances == q.pendingAdvances + 1
      && r == q.(score := r.score, answered := true, pendingAdvances := r.pendingAdvances)
  {
    if !HasSelection(q.selected) || q.index >= |q.questions| then q
    else
      var gained := if q.selected.value == q.questions[q.index].correctAnswer then 1 else 0;
      q.(score := q.score + gained, answered := true, pendingAdvances := q.pendingAdvances + 1)
  }

  /** The leaderboard entry of a finished quiz with at least one question. */
  function EntryFor(score: nat, total: nat, date: string): (e: Leaderboard.Entry)
    requires total > 0
    ensures e.score == score && e.total == total && e.date == date
    ensures score <= total ==> 0 <= e.percentage <= 100
    ensures total * (2 * e.percentage - 1) <= 200 * score < total * (2 * e.percentage + 1)
  {
    var p := Scoring.RoundedPercent(score, total);
    assert score <= total ==> p <= 100 by {
      if score <= total {
        Scoring.RoundedPercentInRange(score, total);
      }
    }
    Leaderboard.Entry(score, total, p, date)
  }

  /**
   The results screen: the timer is stopped, the quiz counts as finished and
   an entry is recorded on the leaderboard. Nothing else changes.
   */
  function Finish(q: Quiz, date: string): (r: Quiz)
    ensures !r.timerRunning && r.finished
    ensures r == q.(timerRunning := false, finished := true, board := r.board)
    ensures |q.questions| > 0 ==>
      && |r.board| == (if |q.board| < Leaderboard.Capacity then |q.board| + 1 else Leaderboard.Capacity)
      && Leaderboard.Descending(r.board)
      && multiset(r.board) <= multiset(q.board) + multiset{EntryFor(q.score, |q.questions|, date)}
    ensures |q.questions| == 0 ==> r.board == q.board
  {
    var board := if |q.questions| == 0 then q.board
                 else Leaderboard.Record(q.board, EntryFor(q.score, |q.questions|, date));
    q.(timerRunning := false, finished := true, board := board)
  }

  /** The feedback tier the results screen shows for this session. */
  function Feedback(q: Quiz): (t: Scoring.Tier)
    ensures |q.questions| > 0 ==> (t == Scoring.Excellent <==> 100 * q.score >= 90 * |q.questions|)
    ensures |q.questions| == 0 ==> t == Scoring.Poor
  {
    Scoring.TierOf(q.score, |q.questions|)
  }

  /**
   A scheduled reveal callback fires: move to the next question, clearing
   the selection, or show the results after the last one. It runs even if
   the timer has already finished the quiz.
   */
  function Advance(q: Quiz, date: string): (r: Quiz)
    ensures q.pendingAdvances == 0 ==> r == q
    ensures q.pendingAdvances > 0 ==>
      && r.index == q.index + 1
      && r.score == q.score
      && r.pendingAdvances == q.pendingAdvances - 1
      && r.timeLeft == q.timeLeft
      && (r.index < |q.questions| ==> r == q.(index := r.index, pendingAdvances := r.pendingAdvances, selected := None, answered := false))
      && (r.index >= |q.questions| ==> r == Finish(q.(index := r.index, pendingAdvances := r.pendingAdvances), date))
  {
    if q.pendingAdvances == 0 then q
    else
      var moved := q.(index := q.index + 1, pendingAdvances := q.pendingAdvances - 1);
      if moved.index < |moved.questions| then moved.(selected := None, answered := false)
      else Finish(moved, date)
  }

  /**
   The one-second interval fires: one second less, and when no time is left
   the timer is stopped and the results are shown, whatever the question.
   */
  function Tick(q: Quiz, date: string): (r: Quiz)
    ensures !q.timerRunning ==> r == q
    ensures q.timerRunning ==> r.timeLeft == q.timeLeft - 1
    ensures q.timerRunning && q.timeLeft - 1 > 0 ==> r == q.(timeLeft := r.timeLeft)
    ensures q.timerRunning && q.timeLeft - 1 <= 0 ==> r.finished && !r.timerRunning
    ensures q.timerRunning && q.timeLeft - 1 <= 0 ==> r == Finish(q.(timeLeft := r.timeLeft), date)
  {
    if !q.timerRunning then q
    else
      var later := q.(timeLeft := q.timeLeft - 1);
      if later.timeLeft <= 0 then Finish(later, date) else later
  }

  /** The events that drive a session once it has started. */
  datatype Event =
    | OptionClicked(answer: string)
    | NextClicked
    | RevealElapsed(date: string)
    | SecondElapsed(date: string)

  function Step(q: Quiz, ev: Event): Quiz {
    match ev
    case OptionClicked(a) => Select(q, a)
    case NextClicked => Confirm(q)
    case RevealElapsed(d) => Advance(q, d)
    case SecondElapsed(d) => Tick(q, d)
  }

  function Run(q: Quiz, evs: seq<Event>): Quiz
    decreases |evs|
  {
    if evs == [] then q else Run(Step(q, evs[0]), evs[1..])
  }

  /** Every Next click in the run lands on a question that is not yet answered. */
  predicate AnswersOnce(q: Quiz, evs: seq<Event>)
    decreases |evs|
  {
    evs == [] || ((evs[0].NextClicked? ==> !q.answered) && AnswersOnce(Step(q, evs[0]), evs[1..]))
  }

  /**
   What holds throughout a session whose answers are committed once each:
   the score never runs ahead of the questions reached, at most one reveal
   is pending and only for an answered question, a running timer has time
   left and belongs to an unfinished quiz, and the leaderboard holds
   percentages between 0 and 100.
   */
  predicate Inv(q: Quiz) {
    && q.index <= |q.questions|
    && q.score <= q.index + q.pendingAdvances
    && q.pendingAdvances <= 1
    && (q.pendingAdvances == 1 ==> q.answered && q.index < |q.questions|)
    && (q.timerRunning ==> 0 < q.timeLeft && !q.finished)
    && Leaderboard.PercentagesInRange(q.board)
  }

  /** Under the invariant the score never exceeds the number of questions. */
  lemma ScoreWithinTotal(q: Quiz)
    requires Inv(q)
    ensures q.score <= |q.questions|
  {
  }

  lemma InitialSatisfiesInv(board: seq<Leaderboard.Entry>)
    requires Leaderboard.PercentagesInRange(board)
    ensures Inv(Initial(board))
  {
  }

  /** The results screen keeps the invariant; the timer may even be past zero, since it is stopped. */
  lemma FinishKeepsInv(q: Quiz, date: string)
    requires Inv(q.(timerRunning := false))
    ensures Inv(Finish(q, date))
  {
    if |q.questions| > 0 {
      var e := EntryFor(q.score, |q.questions|, date);
      Leaderboard.RecordKeepsPercentagesInRange(q.board, e);
    }
  }

  /** Starting from an idle page (no timer, no pending reveal) yields a session satisfying the invariant. */
  lemma StartEstablishesInv(q: Quiz, amount: Option<int>, reply: Reply, decode: string -> string, shuffles: seq<seq<nat>>)
    requires ValidAmount(amount) && reply.Reply? && reply.responseCode == 0 ==> Questions.ShufflesFit(reply.results, shuffles)
    requires Inv(q) && !q.timerRunning && q.pendingAdvances == 0
    ensures Inv(Start(q, amount, reply, decode, shuffles).quiz)
  {
  }

  lemma SelectKeepsInv(q: Quiz, answer: string)
    requires Inv(q)
    ensures Inv(Select(q, answer))
  {
  }

  /** Committing an answer keeps the invariant as long as the question was not already answered. */
  lemma ConfirmKeepsInv(q: Quiz)
    requires Inv(q) && !q.answered
    ensures Inv(Confirm(q))
  {
  }

  lemma AdvanceKeepsInv(q: Quiz, date: string)
    requires Inv(q)
    ensures Inv(Advance(q, date))
  {
    if q.pendingAdvances > 0 && q.index + 1 >= |q.questions| {
      FinishKeepsInv(q.(index := q.index + 1, pendingAdvances := q.pendingAdvances - 1), date);
    }
  }

  lemma TickKeepsInv(q: Quiz, date: string)
    requires Inv(q)
    ensures Inv(Tick(q, date))
  {
    if q.timerRunning && q.timeLeft - 1 <= 0 {
      FinishKeepsInv(q.(timeLeft := q.timeLeft - 1), date);
    }
  }

  lemma StepKeepsInv(q: Quiz, ev: Event)
    requires Inv(q)
    requires ev.NextClicked? ==> !q.answered
    ensures Inv(Step(q, ev))
  {
    match ev
    case OptionClicked(a) => SelectKeepsInv(q, a);
    case NextClicked => ConfirmKeepsInv(q);
    case RevealElapsed(d) => AdvanceKeepsInv(q, d);
    case SecondElapsed(d) => TickKeepsInv(q, d);
  }

  /**
   Any run in which each answer is committed once keeps the invariant, so
   its score stays within the number of questions and every recorded
   percentage stays between 0 and 100.
   */
  lemma {:induction false} RunKeepsInv(q: Quiz, evs: seq<Event>)
    requires Inv(q) && AnswersOnce(q, evs)
    ensures Inv(Run(q, evs))
    ensures Run(q, evs).score <= |Run(q, evs).questions|
    decreases |evs|
  {
    if evs != [] {
      StepKeepsInv(q, evs[0]);
      RunKeepsInv(Step(q, evs[0]), evs[1..]);
    }
  }

  /** Only the Next button changes the score, and only by one per click. */
  lemma OnlyConfirmScores(q: Quiz, ev: Event)
    ensures Step(q, ev).score != q.score ==> ev.NextClicked? && Step(q, ev).score == q.score + 1
  {
  }

  /** Whatever event brings up the results screen also stops the timer. */
  lemma FinishingStopsTheTimer(q: Quiz, ev: Event)
    requires !q.finished && Step(q, ev).finished
    ensures !Step(q, ev).timerRunning
  {
  }

  /** While the timer runs under the invariant, the clock shows a proper minutes:seconds split. */
  lemma RunningClockIsWellFormed(q: Quiz)
    requires Inv(q) && q.timerRunning
    ensures var c := Countdown.Display(q.timeLeft);
      c.mins * 60 + c.secs == q.timeLeft && 0 <= c.secs < 60
  {
  }

  /** A second Next click before the reveal runs out scores the same answer twice. */
  lemma ConfirmTwiceScoresTwice(q: Quiz)
    requires HasSelection(q.selected) && q.index < |q.questions| && SelectedCorrectly(q)
    ensures Confirm(Confirm(q)).score == q.score + 2
    ensures Confirm(Confirm(q)).pendingAdvances == q.pendingAdvances + 2
  {
  }

  /**
   Time running out during the reveal of the last question does not cancel
   the pending callback, which then records the quiz a second time.
   */
  lemma ExpiryDuringRevealRecordsTwice(q: Quiz, d1: string, d2: string)
    requires q.timerRunning && q.timeLeft == 1 && q.pendingAdvances == 1
    requires q.index + 1 == |q.questions|
    requires |q.board| + 2 <= Leaderboard.Capacity
    ensures Tick(q, d1).finished && |Tick(q, d1).board| == |q.board| + 1
    ensures Advance(Tick(q, d1), d2).finished && |Advance(Tick(q, d1), d2).board| == |q.board| + 2
  {
  }

  /**
   Starting a new quiz does not cancel a reveal callback left over from the
   previous one: if it fires, the new quiz skips its first question.
   */
  lemma StaleRevealSkipsFirstQuestion(q: Quiz, amount: Option<int>, raws: seq<Questions.RawQuestion>,
                                      decode: string -> string, shuffles: seq<seq<nat>>, d: string)
    requires q.pendingAdvances == 1 && ValidAmount(amount)
    requires Questions.ShufflesFit(raws, shuffles) && |raws| >= 2
    ensures var s := Start(q, amount, Reply(0, raws), decode, shuffles).quiz;
      Advance(s, d).index == 1 && !Advance(s, d).finished
  {
  }

  /** Three provider records whose correct answer is always "a". */
  function SampleRecords(): seq<Questions.RawQuestion> {
    [Questions.RawQuestion("Q1", "a", ["b", "c", "d"]),
     Questions.RawQuestion("Q2", "a", ["b", "c", "d"]),
     Questions.RawQuestion("Q3", "a", ["b", "c", "d"])]
  }

  function SampleOrders(): seq<seq<nat>> {
    [[0, 1, 2, 3], [0, 1, 2, 3], [0, 1, 2, 3]]
  }

  lemma SampleOrdersFit()
    ensures Questions.ShufflesFit(SampleRecords(), SampleOrders())
  {
    var id: seq<nat> := [0, 1, 2, 3];
    assert Questions.Positions(4) == id;
    assert Questions.IsShuffle(id, 4);
    var raws, perms := SampleRecords(), SampleOrders();
    forall i | 0 <= i < |raws|
      ensures Questions.IsShuffle(perms[i], 1 + |raws[i].incorrectAnswers|)
    {
      assert perms[i] == id && |raws[i].incorrectAnswers| == 3;
    }
  }

  lemma SampleQuestions()
    ensures Questions.ShufflesFit(SampleRecords(), SampleOrders())
    ensures var built := Questions.BuildQuestions(SampleRecords(), x => x, SampleOrders());
      |built| == 3 && forall i :: 0 <= i < 3 ==> built[i].correctAnswer == "a"
  {
    SampleOrdersFit();
    var raws := SampleRecords();
    var built := Questions.BuildQuestions(raws, x => x, SampleOrders());
    forall i | 0 <= i < 3
      ensures built[i].correctAnswer == "a"
    {
      assert raws[i].correctAnswer == "a";
    }
  }

  lemma SampleStart()
    ensures Questions.ShufflesFit(SampleRecords(), SampleOrders())
    ensures var s := Start(Initial([]), Some(3), Reply(0, SampleRecords()), x => x, SampleOrders());
      && s.status == Running && s.quiz.timeLeft == 90 && s.quiz.timerRunning
      && s.quiz.index == 0 && s.quiz.score == 0 && !s.quiz.answered && s.quiz.pendingAdvances == 0
      && !s.quiz.finished && s.quiz.board == []
      && |s.quiz.questions| == 3
      && forall i :: 0 <= i < 3 ==> s.quiz.questions[i].correctAnswer == "a"
  {
    SampleQuestions();
    assert |SampleRecords()| == 3;
    assert ValidAmount(Some(3));
  }

  /** One question: pick `answer`, click Next, let the reveal run out. */
  function AnswerAndWait(answer: string, d: string): seq<Event> {
    [OptionClicked(answer), NextClicked, RevealElapsed(d)]
  }

  lemma {:induction false} RunAppend(q: Quiz, a: seq<Event>, b: seq<Event>)
    ensures Run(q, a + b) == Run(Run(q, a), b)
    decreases |a|
  {
    if a != [] {
      assert (a + b)[1..] == a[1..] + b;
      RunAppend(Step(q, a[0]), a[1..], b);
    } else {
      assert a + b == b;
    }
  }

  lemma AnswerAndWaitStep(q: Quiz, answer: string, d: string)
    requires !q.answered && q.pendingAdvances == 0 && q.index < |q.questions| && answer != ""
    ensures var r := Run(q, AnswerAndWait(answer, d));
      && r.index == q.index + 1
      && r.score == q.score + (if answer == q.questions[q.index].correctAnswer then 1 else 0)
      && r.pendingAdvances == 0
      && (r.index < |q.questions| ==> r == q.(index := r.index, score := r.score, selected := None))
      && (r.index == |q.questions| ==> r == Finish(q.(index := r.index, score := r.score, selected := Some(answer), answered := true), d))
  {
    var evs := AnswerAndWait(answer, d);
    var q1 := Select(q, answer);
    var q2 := Confirm(q1);
    assert evs[1..] == [NextClicked, RevealElapsed(d)];
    assert evs[1..][1..] == [RevealElapsed(d)];
    assert Run(q, evs) == Run(q1, evs[1..]);
    assert Run(q1, evs[1..]) == Run(q2, [RevealElapsed(d)]);
    assert Run(q2, [RevealElapsed(d)]) == Run(Advance(q2, d), []);
  }

  /**
   Three questions answered correct, incorrect, correct before time runs
   out: two points, stored as 67 percent, tier average.
   */
  lemma ThreeQuestionScenario(d: string)
    ensures Questions.ShufflesFit(SampleRecords(), SampleOrders())
    ensures var r := Run(Start(Initial([]), Some(3), Reply(0, SampleRecords()), x => x, SampleOrders()).quiz,
                         AnswerAndWait("a", d) + AnswerAndWait("b", d) + AnswerAndWait("a", d));
      && r.finished && !r.timerRunning && r.score == 2
      && r.board == [Leaderboard.Entry(2, 3, 67, d)]
      && Feedback(r) == Scoring.Average
  {
    SampleStart();
    var q0 := Start(Initial([]), Some(3), Reply(0, SampleRecords()), x => x, SampleOrders()).quiz;
    AnswerCorrectWrongCorrect(q0, d);
  }

  lemma AnswerCorrectWrongCorrect(q0: Quiz, d: string)
    requires |q0.questions| == 3 && forall i :: 0 <= i < 3 ==> q0.questions[i].correctAnswer == "a"
    requires q0.index == 0 && q0.score == 0 && !q0.answered && q0.pendingAdvances == 0 && q0.board == []
    ensures var r := Run(q0, AnswerAndWait("a", d) + AnswerAndWait("b", d) + AnswerAndWait("a", d));
      && r.finished && !r.timerRunning && r.score == 2
      && r.board == [Leaderboard.Entry(2, 3, 67, d)]
      && Feedback(r) == Scoring.Average
  {
    var q1 := Run(q0, AnswerAndWait("a", d));
    assert q1 == q0.(index := 1, score := 1, selected := None) by {
      AnswerAndWaitStep(q0, "a", d);
    }
    var q2 := Run(q1, AnswerAndWait("b", d));
    assert q2 == q0.(index := 2, score := 1, selected := None) by {
      AnswerAndWaitStep(q1, "b", d);
    }
    var q3 := Run(q2, AnswerAndWait("a", d));
    assert q3 == Finish(q0.(index := 3, score := 2, selected := Some("a"), answered := true), d) by {
      AnswerAndWaitStep(q2, "a", d);
    }
    RunAppend(q0, AnswerAndWait("a", d), AnswerAndWait("b", d));
    RunAppend(q0, AnswerAndWait("a", d) + AnswerAndWait("b", d), AnswerAndWait("a", d));
    Scoring.TwoOfThree();
    FirstRecord(Leaderboard.Entry(2, 3, 67, d));
  }

  lemma FirstRecord(e: Leaderboard.Entry)
    ensures Leaderboard.Record([], e) == [e]
  {
    assert [] + [e] == [e];
    assert Leaderboard.SortDesc([e]) == [e];
  }
}
