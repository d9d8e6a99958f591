/** The exam session: one mounted quiz, its state, the events that drive it
    and the single finish transition that scores the attempt and hands the
    result to the app.

    Every handler of the component is a pure function from the current
    session to the next one. The handlers that may finish the exam return a
    `Reaction`, which also carries the `onFinish` call they made, if any. */
module Quiz {
  import opened Types
  import opened TimeFormat

  /** The time allowed per question, in seconds. */
  const SecondsPerQuestion := 90

  /** What the app mounts the quiz with: the (shuffled) questions and the
      kind of exam. */
  datatype Config = Config(questions: seq<Question>, quizType: QuizType)

  /** The component state. `confirming` is the finish-confirmation dialog;
      `submitted` is the single-shot guard. */
  datatype Session = Session(
    index: nat,
    answers: map<int, string>,
    marked: seq<int>,
    timeLeft: nat,
    submitted: bool,
    confirming: bool)

  /** One call of `onFinish(score, answers)`. */
  datatype Finish = Finish(score: int, answers: map<int, string>)

  /** The next session, and the `onFinish` call the step made, if any. */
  datatype Reaction = Reaction(session: Session, finish: Option<Finish>)

  /** What can happen to a mounted quiz: the user's clicks, a tick of the
      one-second interval, and a `visibilitychange` notification carrying
      `document.hidden`. */
  datatype Event =
    | SelectOption(optionId: string)
    | ToggleMarkCurrent
    | Previous
    | Next
    | Jump(target: nat)
    | FinishClick
    | CancelFinish
    | ConfirmFinish
    | Tick
    | VisibilityChange(hidden: bool)

  // ---- Session invariant ----

  function Ids(qs: seq<Question>): set<int> {
    set q | q in qs :: q.id
  }

  predicate NoDuplicates(xs: seq<int>) {
    forall k, l :: 0 <= k < l < |xs| ==> xs[k] != xs[l]
  }

  /** What holds of every session of a mounted quiz: the current index is a
      question, answers and marks refer to questions, marks are not
      repeated, and the clock never exceeds its starting value. */
  predicate Valid(cfg: Config, s: Session) {
    && 0 < |cfg.questions|
    && s.index < |cfg.questions|
    && s.answers.Keys <= Ids(cfg.questions)
    && (forall x :: x in s.marked ==> x in Ids(cfg.questions))
    && NoDuplicates(s.marked)
    && s.timeLeft <= |cfg.questions| * SecondsPerQuestion
  }

  /** The sidebar only offers jumps to questions that exist. */
  predicate Allowed(cfg: Config, e: Event) {
    e.Jump? ==> e.target < |cfg.questions|
  }

  /** The state a quiz mounts with: first question, nothing answered or
      marked, a full clock, not submitted. */
  function Start(cfg: Config): (s: Session)
    requires 0 < |cfg.questions|
    ensures Valid(cfg, s)
    ensures s.index == 0 && s.answers == map[] && s.marked == []
    ensures s.timeLeft == SecondsPerQuestion * |cfg.questions|
    ensures !s.submitted && !s.confirming
  {
    Session(0, map[], [], |cfg.questions| * SecondsPerQuestion, false, false)
  }

  // ---- Scoring ----

  /** The question was answered with its correct choice (an unanswered
      question reads as `undefined`, which equals no choice id). */
  predicate Hit(q: Question, answers: map<int, string>)
    ensures q.id !in answers ==> !Hit(q, answers)
  {
    q.id in answers && answers[q.id] == q.correctOptionId
  }

  /** The number of questions answered correctly: never more than the
      questions, all of them exactly when every question is hit, and none
      exactly when no question is. */
  function CountCorrect(qs: seq<Question>, answers: map<int, string>): (k: nat)
    ensures k <= |qs|
    ensures k == |qs| <==> forall i :: 0 <= i < |qs| ==> Hit(qs[i], answers)
    ensures k == 0 <==> forall i :: 0 <= i < |qs| ==> !Hit(qs[i], answers)
  {
    if |qs| == 0 then 0
    else CountCorrect(qs[..|qs| - 1], answers) + (if Hit(qs[|qs| - 1], answers) then 1 else 0)
  }

  /** The score handed to `onFinish`: the exact percentage of correct answers
      rounded once, halves upwards, to the nearest integer. `r` is the
      integer nearest to 100·K/N, that is 2N·r - N <= 200·K < 2N·r + N. */
  function Score(qs: seq<Question>, answers: map<int, string>): (r: int)
    ensures 0 <= r <= 100
    ensures |qs| == 0 ==> r == 0
    ensures |qs| > 0 ==>
      var n, k := |qs|, CountCorrect(qs, answers);
      2 * n * r - n <= 200 * k < 2 * n * r + n
  {
    if |qs| == 0 then 0
    else
      var n, k := |qs|, CountCorrect(qs, answers);
      NearestPercentage(n, k);
      (200 * k + n) / (2 * n)
  }

  /** The integer division behind `Score` picks the nearest integer to
      100·k/n and never exceeds 100. */
  lemma NearestPercentage(n: int, k: int)
    requires 0 < n && 0 <= k <= n
    ensures var q := (200 * k + n) / (2 * n);
      && 0 <= q <= 100
      && 2 * n * q - n <= 200 * k < 2 * n * q + n
  {
    var d, a := 2 * n, 200 * k + n;
    var q, rem := a / d, a % d;
    assert a == d * q + rem && 0 <= rem < d;
    assert 0 <= q by {
      if q < 0 {
        MulMonotone(d, q, -1);
      }
    }
    assert q <= 100 by {
      if q > 100 {
        MulMonotone(d, 101, q);
      }
    }
  }

  lemma MulMonotone(d: int, x: int, y: int)
    requires 0 < d && x <= y
    ensures d * x <= d * y
  {
  }

  /** `Math.round` on a non-negative real: the nearest integer, halves upwards. */
  function MathRound(x: real): (r: int)
    ensures r as real - 0.5 <= x < r as real + 0.5
  {
    (x + 0.5).Floor
  }

  /** Two integers within less than one of each other are equal. */
  lemma NearIntegersEqual(m: int, q: int, x: real)
    requires m as real - 0.5 <= x < m as real + 0.5
    requires q as real - 0.5 <= x < q as real + 0.5
    ensures m == q
  {
  }

  /** Dividing both sides of a strict or non-strict bound by a positive real. */
  lemma DivideBounds(lo: real, hi: real, b: real, n: real)
    requires 0.0 < n && lo * n <= b < hi * n
    ensures lo <= b / n < hi
  {
  }

  /** Rounding the exact percentage 100·k/n gives the integer `Score`. */
  lemma RoundOfPercentage(n: nat, k: nat)
    requires 0 < n && k <= n
    ensures MathRound(100.0 * (k as real) / (n as real)) == (200 * k + n) / (2 * n)
  {
    var q := (200 * k + n) / (2 * n);
    NearestPercentage(n, k);
    var lhs := 2 * n * q - n;
    var rhs := 2 * n * q + n;
    assert lhs <= 200 * k < rhs;
    assert (lhs as real) <= 200.0 * (k as real) < (rhs as real);
    assert lhs as real == (q as real - 0.5) * (2.0 * n as real);
    assert rhs as real == (q as real + 0.5) * (2.0 * n as real);
    DivideBounds(q as real - 0.5, q as real + 0.5, 200.0 * (k as real), 2.0 * n as real);
    assert 200.0 * (k as real) / (2.0 * n as real) == 100.0 * (k as real) / (n as real);
    var x := 100.0 * (k as real) / (n as real);
    NearIntegersEqual(MathRound(x), q, x);
  }

  /** `finishExam`'s scoring loop as written: the percentage is accumulated
      question by question in real arithmetic (`100 / N` per correct
      answer) and rounded once at the end. It agrees with `Score`. */
  method ComputeScore(qs: seq<Question>, answers: map<int, string>) returns (score: int)
    ensures score == Score(qs, answers)
  {
    var n := |qs|;
    var unit := if n > 0 then 100.0 / (n as real) else 0.0;
    var calculated: real := 0.0;
    ghost var k: nat := 0;
    for i := 0 to n
      invariant k == CountCorrect(qs[..i], answers)
      invariant calculated == Accumulated(k, unit)
    {
      CountCorrectExtend(qs, answers, i);
      if Hit(qs[i], answers) {
        calculated := calculated + unit;
        k := k + 1;
      }
    }
    assert qs[..n] == qs;
    RoundedUnits(qs, answers, unit);
    score := MathRound(calculated);
  }

  /** `k` additions of `unit`, starting from zero. */
  function Accumulated(k: nat, unit: real): real {
    if k == 0 then 0.0 else Accumulated(k - 1, unit) + unit
  }

  lemma {:induction false} AccumulatedIsProduct(k: nat, unit: real)
    ensures Accumulated(k, unit) == (k as real) * unit
  {
    if k > 0 {
      AccumulatedIsProduct(k - 1, unit);
      OneMoreUnit(k - 1, unit);
    }
  }

  lemma OneMoreUnit(k: nat, unit: real)
    ensures ((k + 1) as real) * unit == (k as real) * unit + unit
  {
  }

  lemma UnitsArePercentage(k: nat, n: nat)
    requires 0 < n
    ensures (k as real) * (100.0 / (n as real)) == 100.0 * (k as real) / (n as real)
  {
  }

  /** The accumulated units, rounded, are the integer `Score`. */
  lemma RoundedUnits(qs: seq<Question>, answers: map<int, string>, unit: real)
    requires unit == if |qs| > 0 then 100.0 / (|qs| as real) else 0.0
    ensures MathRound(Accumulated(CountCorrect(qs, answers), unit)) == Score(qs, answers)
  {
    var n, k := |qs|, CountCorrect(qs, answers);
    AccumulatedIsProduct(k, unit);
    if n > 0 {
      RoundOfUnits(n, k, unit);
    }
  }

  lemma RoundOfUnits(n: nat, k: nat, unit: real)
    requires 0 < n && k <= n && unit == 100.0 / (n as real)
    ensures MathRound((k as real) * unit) == (200 * k + n) / (2 * n)
  {
    UnitsArePercentage(k, n);
    RoundOfPercentage(n, k);
  }

  lemma CountCorrectExtend(qs: seq<Question>, answers: map<int, string>, i: nat)
    requires i < |qs|
    ensures CountCorrect(qs[..i + 1], answers)
         == CountCorrect(qs[..i], answers) + (if Hit(qs[i], answers) then 1 else 0)
  {
    assert qs[..i + 1][..i] == qs[..i];
  }

  /** Euclidean division is determined by the bracketing multiples. */
  lemma DivisionBracket(a: int, d: int, q: int)
    requires 0 < d && d * q <= a < d * q + d
    ensures a / d == q
  {
    var q', r' := a / d, a % d;
    assert a == d * q' + r' && 0 <= r' < d;
    if q' < q {
      MulMonotone(d, q' + 1, q);
    } else if q' > q {
      MulMonotone(d, q + 1, q');
    }
  }

  /** Answering every question correctly scores 100; answering nothing
      scores 0. */
  lemma ScoreExtremes(qs: seq<Question>, answers: map<int, string>)
    requires 0 < |qs|
    ensures CountCorrect(qs, answers) == |qs| ==> Score(qs, answers) == 100
    ensures CountCorrect(qs, answers) == 0 ==> Score(qs, answers) == 0
  {
    var n := |qs|;
    assert (2 * n) * 100 == 200 * n;
    DivisionBracket(201 * n, 2 * n, 100);
    DivisionBracket(n, 2 * n, 0);
  }

  lemma {:induction false} CountCorrectConcat(a: seq<Question>, b: seq<Question>, answers: map<int, string>)
    ensures CountCorrect(a + b, answers) == CountCorrect(a, answers) + CountCorrect(b, answers)
    decreases |b|
  {
    if |b| == 0 {
      assert a + b == a;
    } else {
      assert (a + b)[..|a + b| - 1] == a + b[..|b| - 1];
      CountCorrectConcat(a, b[..|b| - 1], answers);
    }
  }

  /** Taking one question out of a sequence takes its hit out of the count. */
  lemma CountCorrectWithout(b: seq<Question>, k: nat, answers: map<int, string>)
    requires k < |b|
    ensures CountCorrect(b, answers)
         == CountCorrect(b[..k] + b[k + 1..], answers) + (if Hit(b[k], answers) then 1 else 0)
  {
    assert b == (b[..k] + [b[k]]) + b[k + 1..];
    CountCorrectConcat(b[..k] + [b[k]], b[k + 1..], answers);
    CountCorrectConcat(b[..k], [b[k]], answers);
    CountCorrectConcat(b[..k], b[k + 1..], answers);
    assert [b[k]][..0] == [];
  }

  lemma MultisetWithout<T>(b: seq<T>, k: nat)
    requires k < |b|
    ensures multiset(b[..k] + b[k + 1..]) == multiset(b) - multiset{b[k]}
  {
    assert b == b[..k] + [b[k]] + b[k + 1..];
  }

  /** The number of correct answers does not depend on the order of the
      questions, so any shuffle of a bank scores like the bank itself. */
  lemma {:induction false} CountCorrectPermutation(a: seq<Question>, b: seq<Question>, answers: map<int, string>)
    requires multiset(a) == multiset(b)
    ensures CountCorrect(a, answers) == CountCorrect(b, answers)
    decreases |a|
  {
    if |a| == 0 {
      assert |b| == |multiset(b)| == 0;
    } else {
      var x := a[|a| - 1];
      assert x in multiset(b);
      var k :| 0 <= k < |b| && b[k] == x;
      MultisetWithout(a, |a| - 1);
      MultisetWithout(b, k);
      assert a[..|a| - 1] + a[|a|..] == a[..|a| - 1];
      CountCorrectPermutation(a[..|a| - 1], b[..k] + b[k + 1..], answers);
      CountCorrectWithout(a, |a| - 1, answers);
      CountCorrectWithout(b, k, answers);
    }
  }

  // ---- The finish transition ----

  /** `finishExam`: the first call seals the session, closes the dialog,
      stops the clock and reports the score of the answers current at that
      moment; every later call changes nothing and reports nothing. */
  function FinishExam(cfg: Config, s: Session): (r: Reaction)
    ensures s.submitted ==> r.session == s && r.finish == None
    ensures !s.submitted ==>
      && r.session == s.(submitted := true, confirming := false)
      && r.finish == Some(Finish(Score(cfg.questions, s.answers), s.answers))
  {
    if s.submitted then Reaction(s, None)
    else Reaction(s.(submitted := true, confirming := false),
                  Some(Finish(Score(cfg.questions, s.answers), s.answers)))
  }

  /** One tick of the one-second interval. Above one second the clock goes
      down by exactly one; at one second or less it is set to zero and the
      exam is finished. Finishing clears the interval, so a submitted
      session receives no further ticks. */
  function TickTimer(cfg: Config, s: Session): (r: Reaction)
    ensures !s.submitted && s.timeLeft > 1 ==>
      r == Reaction(s.(timeLeft := s.timeLeft - 1), None)
    ensures !s.submitted && s.timeLeft <= 1 ==>
      r.session.timeLeft == 0 && r.session.submitted && r.finish.Some?
    ensures s.submitted ==> r == Reaction(s, None)
  {
    if s.submitted then Reaction(s, None)
    else if s.timeLeft <= 1 then
      var f := FinishExam(cfg, s);
      Reaction(f.session.(timeLeft := 0), f.finish)
    else Reaction(s.(timeLeft := s.timeLeft - 1), None)
  }

  /** The anti-cheat listener. It is installed only for OFFICIAL exams;
      when the page becomes hidden before submission it finishes the exam.
      In every other case nothing happens. */
  function HandleVisibility(cfg: Config, s: Session, hidden: bool): (r: Reaction)
    ensures r.finish.Some? <==> cfg.quizType == Official && hidden && !s.submitted
    ensures r.finish.None? ==> r.session == s
    ensures r.finish.Some? ==> r == FinishExam(cfg, s)
  {
    if cfg.quizType != Official then Reaction(s, None)
    else if hidden && !s.submitted then FinishExam(cfg, s)
    else Reaction(s, None)
  }

  // ---- Answers, marks and navigation ----

  /** `handleSelectOption`: records `optionId` as the answer to the current
      question, replacing any earlier answer to it; all other answers stay. */
  function SelectOption(cfg: Config, s: Session, optionId: string): (r: Session)
    requires Valid(cfg, s)
    ensures Valid(cfg, r)
    ensures var id := cfg.questions[s.index].id;
      && r.answers.Keys == s.answers.Keys + {id}
      && r.answers[id] == optionId
      && (forall k :: k in s.answers && k != id ==> r.answers[k] == s.answers[k])
    ensures r.(answers := s.answers) == s
  {
    s.(answers := s.answers[cfg.questions[s.index].id := optionId])
  }

  /** The list without any occurrence of `id`, in the original order. */
  function Remove(xs: seq<int>, id: int): (r: seq<int>)
    ensures forall x :: x in r <==> x in xs && x != id
    ensures NoDuplicates(xs) ==> NoDuplicates(r)
    ensures |r| <= |xs|
  {
    if |xs| == 0 then []
    else
      var rest := Remove(xs[1..], id);
      if xs[0] == id then rest
      else
        assert NoDuplicates(xs) ==> NoDuplicates(xs[1..]) && xs[0] !in xs[1..];
        [xs[0]] + rest
  }

  /** Removing distributes over concatenation: with the two one-element
      cases this pins the result down as the other ids in their original
      order. */
  lemma {:induction false} RemoveConcat(a: seq<int>, b: seq<int>, id: int)
    ensures Remove(a + b, id) == Remove(a, id) + Remove(b, id)
    ensures Remove([id], id) == [] && forall x :: x != id ==> Remove([x], id) == [x]
    decreases |a|
  {
    assert [id][1..] == [];
    assert forall x: int :: [x][1..] == [];
    if |a| == 0 {
      assert a + b == b;
    } else {
      assert (a + b)[1..] == a[1..] + b;
      RemoveConcat(a[1..], b, id);
    }
  }

  /** `toggleMark`: removes `id` from the marked list when it is there and
      appends it otherwise; no other mark changes and no mark is repeated. */
  function ToggleMark(marked: seq<int>, id: int): (r: seq<int>)
    ensures id in r <==> id !in marked
    ensures forall x :: x != id ==> (x in r <==> x in marked)
    ensures NoDuplicates(marked) ==> NoDuplicates(r)
    ensures id !in marked ==> r == marked + [id]
  {
    if id in marked then Remove(marked, id) else marked + [id]
  }

  /** Removing an id that was never there, from a list that ends with it,
      gives back the list. */
  lemma {:induction false} RemoveAppended(xs: seq<int>, id: int)
    requires id !in xs
    ensures Remove(xs + [id], id) == xs
    decreases |xs|
  {
    if |xs| > 0 {
      assert (xs + [id])[1..] == xs[1..] + [id];
      RemoveAppended(xs[1..], id);
      assert [xs[0]] + xs[1..] == xs;
    }
  }

  /** Toggling the same mark twice restores the marks: the very same list
      when the id was not marked, the same set of marks (without
      repetitions) when it was. */
  lemma ToggleTwice(marked: seq<int>, id: int)
    requires NoDuplicates(marked)
    ensures id !in marked ==> ToggleMark(ToggleMark(marked, id), id) == marked
    ensures forall x :: x in ToggleMark(ToggleMark(marked, id), id) <==> x in marked
    ensures NoDuplicates(ToggleMark(ToggleMark(marked, id), id))
  {
    if id !in marked {
      RemoveAppended(marked, id);
    }
  }

  /** A re-added mark goes to the end, so the list order can change even
      though the set of marks is restored. */
  lemma ToggleTwiceMovesToEnd()
    ensures ToggleMark(ToggleMark([1, 2], 1), 1) == [2, 1]
  {
    assert Remove([1, 2], 1) == [2] by {
      assert [1, 2][1..] == [2];
      assert [2][1..] == [];
    }
  }

  /** Selecting an option twice for the same question keeps only the second
      choice. */
  lemma SelectOverwrites(cfg: Config, s: Session, first: string, second: string)
    requires Valid(cfg, s)
    ensures SelectOption(cfg, SelectOption(cfg, s, first), second) == SelectOption(cfg, s, second)
  {
  }

  /** The "previous" button: one question back, staying at the first. The
      index never grows, moves by at most one, and stands still only at 0. */
  function PreviousIndex(i: nat): (r: nat)
    ensures r <= i && i - r <= 1
    ensures r == i <==> i == 0
  {
    if i == 0 then 0 else i - 1
  }

  /** The "next" button: one question on, staying at the last. The result
      is always a question of the quiz; from a question it moves forward by
      at most one and stands still only on the last question. */
  function NextIndex(i: nat, n: nat): (r: nat)
    requires 0 < n
    ensures r < n
    ensures i < n ==> i <= r && r - i <= 1 && (r == i <==> i == n - 1)
  {
    if i + 1 < n - 1 then i + 1 else n - 1
  }

  /** The navigation buttons keep the index on a question, stop at both
      ends without wrapping, and undo each other away from the ends. */
  lemma NavigationClamps(i: nat, n: nat)
    requires i < n
    ensures PreviousIndex(i) < n && NextIndex(i, n) < n
    ensures i == 0 ==> PreviousIndex(i) == 0
    ensures i == n - 1 ==> NextIndex(i, n) == i
    ensures 0 < i ==> NextIndex(PreviousIndex(i), n) == i
    ensures i < n - 1 ==> PreviousIndex(NextIndex(i, n)) == i
  {
  }

  /** `progress`: the percentage of questions answered. It is zero exactly
      when nothing is answered and a full 100 once there are as many answers
      as questions. */
  function Progress(cfg: Config, s: Session): (r: real)
    requires 0 < |cfg.questions|
    ensures 0.0 <= r
    ensures r == 0.0 <==> |s.answers| == 0
    ensures |s.answers| == |cfg.questions| ==> r == 100.0
  {
    var answered, total := |s.answers| as real, |cfg.questions| as real;
    assert answered == total ==> answered / total == 1.0;
    (answered / total) * 100.0
  }

  lemma {:induction false} IdsBound(qs: seq<Question>)
    ensures |Ids(qs)| <= |qs|
  {
    if |qs| > 0 {
      var front := qs[..|qs| - 1];
      IdsBound(front);
      assert Ids(qs) == Ids(front) + {qs[|qs| - 1].id} by {
        forall x | x in Ids(qs)
          ensures x in Ids(front) + {qs[|qs| - 1].id}
        {
          var q :| q in qs && q.id == x;
          var k :| 0 <= k < |qs| && qs[k] == q;
          if k < |qs| - 1 {
            assert front[k] == q;
          }
        }
      }
    }
  }

  /** Progress stays between 0 and 100 percent, because answers are only
      ever recorded under the ids of the quiz's questions. */
  lemma ProgressBounded(cfg: Config, s: Session)
    requires Valid(cfg, s)
    ensures 0.0 <= Progress(cfg, s) <= 100.0
  {
    IdsBound(cfg.questions);
    SubsetCardinality(s.answers.Keys, Ids(cfg.questions));
    assert |s.answers| == |s.answers.Keys|;
    RatioAtMostOne(|s.answers| as real, |cfg.questions| as real);
  }

  lemma RatioAtMostOne(a: real, t: real)
    requires 0.0 <= a <= t && 0.0 < t
    ensures 0.0 <= (a / t) * 100.0 <= 100.0
  {
    assert a / t <= 1.0 by {
      assert (a / t) * t == a;
    }
  }

  lemma SubsetCardinality(a: set<int>, b: set<int>)
    requires a <= b
    ensures |a| <= |b|
  {
    assert b == a + (b - a);
  }

  // ---- Clock display ----

  /** `formatTime`: the remaining seconds as minutes and seconds, each
      zero-padded to two digits and separated by a colon. */
  function FormatTime(seconds: nat): (r: string)
    ensures |r| >= 5 && r[|r| - 3] == ':'
  {
    Clock(seconds / 60, seconds % 60)
  }

  /** The display is five characters long exactly when the minutes fit in
      two digits, that is below 6000 seconds. */
  lemma FormatTimeLength(seconds: nat)
    ensures seconds < 6000 <==> |FormatTime(seconds)| == 5
  {
    var m := seconds / 60;
    assert m < 100 <==> seconds < 6000;
  }

  lemma MinutesAndSeconds(seconds: nat)
    ensures seconds == 60 * (seconds / 60) + seconds % 60 && seconds % 60 < 60
  {
  }

  /** Reading the clock back recovers the seconds: 60 times the minutes plus
      the seconds field, which is below 60. */
  lemma FormatTimeRoundTrip(seconds: nat)
    ensures var (m, sec) := ParseTime(FormatTime(seconds));
      sec < 60 && 60 * m + sec == seconds
  {
    ClockRoundTrip(seconds / 60, seconds % 60);
    MinutesAndSeconds(seconds);
  }

  // ---- The event dispatcher ----

  /** One event delivered to the mounted quiz. Every session it produces is
      valid; `submitted` never goes back; an `onFinish` call happens exactly
      when this event flips `submitted`, reports the score of the answers
      held at that moment, and only a confirmation, a tick or the
      visibility listener can cause it. */
  function Step(cfg: Config, s: Session, e: Event): (r: Reaction)
    requires Valid(cfg, s) && Allowed(cfg, e)
    ensures Valid(cfg, r.session)
    ensures s.submitted ==> r.session.submitted
    ensures r.finish.Some? <==> !s.submitted && r.session.submitted
    ensures r.finish.Some? ==> r.finish.value == Finish(Score(cfg.questions, s.answers), s.answers)
    ensures r.finish.Some? ==> (e.ConfirmFinish? && s.confirming) || e.Tick? || e.VisibilityChange?
  {
    var n := |cfg.questions|;
    match e
    case SelectOption(o) => Reaction(SelectOption(cfg, s, o), None)
    case ToggleMarkCurrent =>
      Reaction(s.(marked := ToggleMark(s.marked, cfg.questions[s.index].id)), None)
    case Previous => Reaction(s.(index := PreviousIndex(s.index)), None)
    case Next => Reaction(s.(index := NextIndex(s.index, n)), None)
    case Jump(t) => Reaction(s.(index := t), None)
    case FinishClick => Reaction(s.(confirming := true), None)
    case CancelFinish =>
      // both dialog buttons exist only while the dialog is open
      if s.confirming then Reaction(s.(confirming := false), None) else Reaction(s, None)
    case ConfirmFinish =>
      if s.confirming then FinishExam(cfg, s) else Reaction(s, None)
    case Tick => TickTimer(cfg, s)
    case VisibilityChange(hidden) => HandleVisibility(cfg, s, hidden)
  }

  predicate AllAllowed(cfg: Config, events: seq<Event>) {
    forall k :: 0 <= k < |events| ==> Allowed(cfg, events[k])
  }

  /** Delivers the events in order; returns the final session and every
      `onFinish` call made on the way. Whatever the events and whichever
      trigger comes first, at most one call is made, it is made exactly when
      the session ends up submitted having started unsubmitted, and the
      score it reports is the score of the answers it reports. */
  function Run(cfg: Config, s: Session, events: seq<Event>): (r: (Session, seq<Finish>))
    requires Valid(cfg, s) && AllAllowed(cfg, events)
    ensures Valid(cfg, r.0)
    ensures s.submitted ==> r.0.submitted && r.1 == []
    ensures |r.1| <= 1
    ensures |r.1| == 1 <==> !s.submitted && r.0.submitted
    ensures forall f :: f in r.1 ==> f.score == Score(cfg.questions, f.answers)
    decreases |events|
  {
    if |events| == 0 then (s, [])
    else
      var step := Step(cfg, s, events[0]);
      var rest := Run(cfg, step.session, events[1..]);
      var here := if step.finish.Some? then [step.finish.value] else [];
      (rest.0, here + rest.1)
  }

  /** `n` consecutive ticks of the interval. */
  function Ticks(n: nat): (es: seq<Event>)
    ensures |es| == n && forall k :: 0 <= k < n ==> es[k] == Tick
  {
    seq(n, _ => Tick)
  }

  /** Before the clock reaches its last second, each tick takes exactly one
      second off and nothing else happens. */
  lemma {:induction false} TicksCountDown(cfg: Config, s: Session, k: nat)
    requires Valid(cfg, s) && !s.submitted
    requires k < s.timeLeft
    ensures AllAllowed(cfg, Ticks(k))
    ensures Run(cfg, s, Ticks(k)) == (s.(timeLeft := s.timeLeft - k), [])
    decreases k
  {
    if k > 0 {
      var s' := s.(timeLeft := s.timeLeft - 1);
      assert Ticks(k)[1..] == Ticks(k - 1);
      TicksCountDown(cfg, s', k - 1);
    }
  }

  /** With `t` seconds on the clock, the `t`-th tick finishes the exam: the
      clock shows zero and exactly one result, for the answers held, is
      reported. */
  lemma {:induction false} TimerExpires(cfg: Config, s: Session)
    requires Valid(cfg, s) && !s.submitted && 0 < s.timeLeft
    ensures AllAllowed(cfg, Ticks(s.timeLeft))
    ensures var r := Run(cfg, s, Ticks(s.timeLeft));
      && r.0.submitted && r.0.timeLeft == 0
      && r.1 == [Finish(Score(cfg.questions, s.answers), s.answers)]
    decreases s.timeLeft
  {
    var t := s.timeLeft;
    assert Ticks(t)[1..] == Ticks(t - 1);
    if t > 1 {
      TimerExpires(cfg, s.(timeLeft := t - 1));
    }
  }

  /** The user's finish button only opens the confirmation dialog and the
      cancel button only closes it; neither submits nor reports. */
  lemma FinishClickDoesNotSubmit(cfg: Config, s: Session)
    requires Valid(cfg, s)
    ensures Step(cfg, s, FinishClick) == Reaction(s.(confirming := true), None)
    ensures Step(cfg, s, CancelFinish) == Reaction(s.(confirming := false), None)
  {
  }

  /** The confirm button is only on screen inside the dialog: with the
      dialog closed it does nothing, and opening the dialog first then
      confirming finishes the exam exactly as `finishExam` does. */
  lemma ConfirmNeedsDialog(cfg: Config, s: Session)
    requires Valid(cfg, s)
    ensures !s.confirming ==> Step(cfg, s, ConfirmFinish) == Reaction(s, None)
    ensures Step(cfg, Step(cfg, s, FinishClick).session, ConfirmFinish) == FinishExam(cfg, s.(confirming := true))
  {
  }

  /** The three triggers race: after any one of them has finished the exam,
      confirming, the clock running out and the page being hidden report
      nothing more. */
  lemma {:induction false} RacingTriggersReportOnce(cfg: Config, s: Session, first: Event, later: seq<Event>)
    requires Valid(cfg, s) && !s.submitted
    requires (first == ConfirmFinish && s.confirming) || (first == Tick && s.timeLeft <= 1)
          || (first == VisibilityChange(true) && cfg.quizType == Official)
    requires AllAllowed(cfg, later)
    ensures Step(cfg, s, first).finish == Some(Finish(Score(cfg.questions, s.answers), s.answers))
    ensures Run(cfg, Step(cfg, s, first).session, later).1 == []
  {
  }
}
