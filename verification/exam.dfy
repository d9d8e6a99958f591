/** The pieces put together: the shipped bank under the scorer, and one
    exam session of the quiz component feeding the app's result emission. */
module Exam {
  import opened Types
  import opened Storage
  import opened Shuffle
  import opened Questions
  import Q = Quiz
  import App
  import AdminPanel

  /** The answers of a candidate who follows the answer key. */
  const KeyAnswers: map<int, string> := map i | 1 <= i <= |AnswerKey| :: AnswerKey[i - 1]

  /** On a bank of ten questions the nearest integer to 100·K/10 is 10·K
      itself, so no rounding ever happens. */
  lemma TenQuestionsScoreExactly(qs: seq<Question>, answers: map<int, string>)
    requires |qs| == 10
    ensures Q.Score(qs, answers) == 10 * Q.CountCorrect(qs, answers)
  {
  }

  /** Any reordering of a ten-question bank scores ten points per correct
      answer of the bank: a multiple of 10 between 0 and 100. */
  lemma ReorderedTenScore(qs: seq<Question>, bank: seq<Question>, answers: map<int, string>)
    requires multiset(qs) == multiset(bank) && |bank| == 10
    ensures Q.Score(qs, answers) == 10 * Q.CountCorrect(bank, answers)
    ensures Q.Score(qs, answers) % 10 == 0 && 0 <= Q.Score(qs, answers) <= 100
  {
    assert |qs| == |multiset(qs)| == |bank|;
    Q.CountCorrectPermutation(qs, bank, answers);
    TenQuestionsScoreExactly(qs, answers);
  }

  /** Whatever order the shuffle produced, the shipped bank scores ten points
      per correct answer: a multiple of 10 between 0 and 100. */
  lemma ShuffledBankScore(exchanges: seq<Exchange>, answers: map<int, string>)
    requires InRange(exchanges, 10)
    ensures var qs := Shuffled(Bank, exchanges);
            Q.Score(qs, answers) == 10 * Q.CountCorrect(Bank, answers)
            && Q.Score(qs, answers) % 10 == 0 && 0 <= Q.Score(qs, answers) <= 100
  {
    BankShape();
    ReorderedTenScore(Shuffled(Bank, exchanges), Bank, answers);
  }

  /** A shuffled shipped bank gives 90 seconds to each of its ten questions. */
  lemma ShuffledBankClock(exchanges: seq<Exchange>, quizType: QuizType)
    requires InRange(exchanges, 10)
    ensures Q.Start(Q.Config(Shuffled(Bank, exchanges), quizType)).timeLeft == 900
  {
    BankShape();
  }

  /** Following the answer key scores 100 and answering nothing scores 0,
      in every order the shuffle can produce. */
  lemma AnswerKeyScoresFull(exchanges: seq<Exchange>)
    requires InRange(exchanges, 10)
    ensures Q.Score(Shuffled(Bank, exchanges), KeyAnswers) == 100
    ensures Q.Score(Shuffled(Bank, exchanges), map[]) == 0
  {
    BankShape();
    assert forall i :: 0 <= i < |Bank| ==> Q.Hit(Bank[i], KeyAnswers) by {
      forall i | 0 <= i < |Bank|
        ensures Q.Hit(Bank[i], KeyAnswers)
      {
        assert Bank[i].id == i + 1 && i + 1 in KeyAnswers;
      }
    }
    AllOrNothing(Bank, KeyAnswers);
    ShuffledBankScore(exchanges, KeyAnswers);
    ShuffledBankScore(exchanges, map[]);
  }

  /** Answers that hit every question count all of them; no answers count
      none. */
  lemma AllOrNothing(qs: seq<Question>, answers: map<int, string>)
    requires forall i :: 0 <= i < |qs| ==> Q.Hit(qs[i], answers)
    ensures Q.CountCorrect(qs, answers) == |qs|
    ensures Q.CountCorrect(qs, map[]) == 0
  {
    assert forall i :: 0 <= i < |qs| ==> !Q.Hit(qs[i], map[]);
  }

  /** The `onFinish` calls of a session as the app receives them, each
      meeting storage that behaves as `fault` says. */
  function Deliveries(fs: seq<Q.Finish>, date: string, fault: App.Fault): (es: seq<App.Event>)
    ensures |es| == |fs|
    ensures forall k :: 0 <= k < |fs| ==> es[k] == App.QuizFinished(fs[k].score, date, fault)
  {
    seq(|fs|, k requires 0 <= k < |fs| => App.QuizFinished(fs[k].score, date, fault))
  }

  /** Delivering a single `onFinish` call to the quiz screen is one
      `handleFinishQuiz`. */
  lemma DeliverOne(app: App.State, b: App.Build, f: Q.Finish, date: string, fault: App.Fault)
    requires app.mode == AppMode.Quiz
    ensures App.Run(app, b, Deliveries([f], date, fault)) == App.FinishQuiz(app, f.score, date, fault)
  {
    var es := Deliveries([f], date, fault);
    assert es == [App.QuizFinished(f.score, date, fault)];
    assert es[1..] == [];
  }

  /** One exam, end to end: the quiz component runs on the app's shuffled
      questions under any events, and its `onFinish` calls reach the app.
      A submitted session leaves the app on the result screen with the score
      of the answers it reported, whatever storage does. The stored list
      grows by exactly one record, this exam's, when the session was
      submitted and the results write goes through; otherwise it does not
      change. A session never submitted leaves the app as it was. */
  lemma SessionRecordsOnce(app: App.State, b: App.Build, events: seq<Q.Event>, date: string, fault: App.Fault)
    requires app.mode == AppMode.Quiz && 0 < |app.questions|
    requires Q.AllAllowed(Q.Config(app.questions, app.quizType), events)
    ensures var cfg := Q.Config(app.questions, app.quizType);
            var run := Q.Run(cfg, Q.Start(cfg), events);
            var after := App.Run(app, b, Deliveries(run.1, date, fault));
            && |StoredResults(after.store)| == |StoredResults(app.store)|
                 + (if run.0.submitted && fault != App.ResultsWriteFails then 1 else 0)
            && (fault == App.ResultsWriteFails ==> after.store == app.store)
            && (run.0.submitted ==>
                  after.mode == AppMode.Result
                  && after.score == Q.Score(app.questions, run.1[0].answers))
            && (run.0.submitted && fault != App.ResultsWriteFails ==>
                  StoredResults(after.store)[|StoredResults(app.store)|]
                    == App.Record(app, after.score, date))
            && (!run.0.submitted ==> after == app)
  {
    var cfg := Q.Config(app.questions, app.quizType);
    var run := Q.Run(cfg, Q.Start(cfg), events);
    var fs := run.1;
    assert |fs| <= 1 && (|fs| == 1 <==> run.0.submitted);
    if run.0.submitted {
      assert fs == [fs[0]];
      assert fs[0] in fs;
      DeliverOne(app, b, fs[0], date, fault);
    } else {
      assert Deliveries(fs, date, fault) == [];
    }
  }

  /** Every `onFinish` call handed straight to `handleFinishQuiz`, with no
      screen in between to drop any of them: each call appends one record,
      unless the results write throws, in which case the store never
      changes. */
  function FinishEach(app: App.State, fs: seq<Q.Finish>, date: string, fault: App.Fault): (r: App.State)
    ensures fault == App.ResultsWriteFails ==> r.store == app.store
    ensures fault != App.ResultsWriteFails ==>
              |StoredResults(r.store)| == |StoredResults(app.store)| + |fs|
    decreases |fs|
  {
    if |fs| == 0 then app
    else FinishEach(App.FinishQuiz(app, fs[0].score, date, fault), fs[1..], date, fault)
  }

  /** The single record comes from the quiz itself: even if `handleFinishQuiz`
      ran on every call the component makes, whatever the events and in
      whichever state the app is, the stored list grows by one exactly when
      the session was submitted and the results write goes through. */
  lemma QuizReportsOnceUnguarded(app: App.State, events: seq<Q.Event>, date: string, fault: App.Fault)
    requires 0 < |app.questions|
    requires Q.AllAllowed(Q.Config(app.questions, app.quizType), events)
    ensures var cfg := Q.Config(app.questions, app.quizType);
            var run := Q.Run(cfg, Q.Start(cfg), events);
            |StoredResults(FinishEach(app, run.1, date, fault).store)|
              == |StoredResults(app.store)| + (if run.0.submitted && fault != App.ResultsWriteFails then 1 else 0)
  {
    var cfg := Q.Config(app.questions, app.quizType);
    var run := Q.Run(cfg, Q.Start(cfg), events);
    assert |run.1| <= 1 && (|run.1| == 1 <==> run.0.submitted);
  }

  /** A finished exam shows up last on the administrator's panel the next
      time it is mounted. */
  lemma PanelShowsNewRecord(app: App.State, finalScore: int, date: string, fault: App.Fault)
    requires fault != App.ResultsWriteFails
    ensures var shown := AdminPanel.Load(App.FinishQuiz(app, finalScore, date, fault).store).results;
            shown == StoredResults(app.store) + [App.Record(app, finalScore, date)]
  {
  }

  /** In the shipped build, whichever order the login shuffled the bank into,
      the running quiz has ten questions, a 900-second clock, and scores ten
      points per correct answer of the bank. */
  lemma ShippedQuizScores(s: App.State, answers: map<int, string>)
    requires App.Inv(s, App.Shipped) && s.mode == AppMode.Quiz
    ensures |s.questions| == 10
    ensures Q.Start(Q.Config(s.questions, s.quizType)).timeLeft == 900
    ensures Q.Score(s.questions, answers) == 10 * Q.CountCorrect(Bank, answers)
  {
    BankShape();
    assert multiset(s.questions) == multiset(Bank);
    assert |s.questions| == |multiset(s.questions)| == |Bank|;
    ReorderedTenScore(s.questions, Bank, answers);
  }
}
