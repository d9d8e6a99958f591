/** The top-level mode machine: the login screen, the practice-password
    screen, the running quiz, the result screen and the administrator's
    screen, with the result emission into storage. Each handler is a pure
    function from the app state to the next one; the shuffle's exchanges,
    the finishing date and any storage failure come in as parameters. */
module App {
  import opened Types
  import opened Strings
  import opened Storage
  import opened Shuffle
  import opened Questions
  import AdminPanel

  /** The two secrets the app compares typed passwords against. */
  datatype Secrets = Secrets(admin: string, practice: string)

  /** What a build of the app fixes: the question bank it shuffles and the
      two secrets. */
  datatype Build = Build(bank: seq<Question>, secrets: Secrets)

  /** The shipped build. */
  const Shipped := Build(Bank, Secrets("Miquel2021", "Helena2016"))

  /** The message shown on the current screen, if any. */
  datatype Notice = NoNotice | MissingCredentials | AlreadyTaken | WrongAdminPassword | WrongPracticePassword

  datatype State = State(
    mode: AppMode,
    quizType: QuizType,
    user: User,
    password: string,
    score: int,
    questions: seq<Question>,
    notice: Notice,
    store: Store)

  /** The first render: the login screen over whatever the browser stored. */
  function Initial(b: Build, st: Store): (s: State)
    ensures s.mode == Login && s.user == EmptyUser && s.password == [] && s.notice == NoNotice
    ensures s.questions == b.bank && s.store == st
  {
    State(Login, Official, EmptyUser, "", 0, b.bank, NoNotice, st)
  }

  /** How a storage write inside `handleFinishQuiz` can throw. */
  datatype Fault = NoFault | ResultsWriteFails | TakenWriteFails

  /** Both fields hold something other than whitespace. */
  predicate Complete(u: User) {
    !IsBlank(u.fullName) && !IsBlank(u.collegiateNumber)
  }

  /** `startQuiz`: a fresh shuffle of the bank, then the quiz screen. */
  function StartQuiz(s: State, b: Build, exchanges: seq<Exchange>): (r: State)
    requires InRange(exchanges, |b.bank|)
    ensures r.mode == Quiz
    ensures multiset(r.questions) == multiset(b.bank) && |r.questions| == |b.bank|
    ensures r == s.(mode := Quiz, questions := r.questions)
  {
    s.(questions := Shuffled(b.bank, exchanges), mode := Quiz)
  }

  /** `handleStartLogin(kind)`: the buttons pass "OFFICIAL", "PRACTICE" and
      "ADMIN"; any kind but the first and the last takes the practice path. */
  function StartLogin(s: State, b: Build, kind: string, exchanges: seq<Exchange>): (r: State)
    requires InRange(exchanges, |b.bank|)
    ensures r.password == [] && r.user == s.user && r.store == s.store && r.score == s.score
    ensures kind == "ADMIN" ==> r == s.(notice := NoNotice, password := "", mode := Admin)
    ensures kind != "ADMIN" && !Complete(s.user) ==>
              r == s.(notice := MissingCredentials, password := "")
    ensures kind == "OFFICIAL" && Complete(s.user) && HasTaken(s.store, s.user.collegiateNumber) ==>
              r == s.(notice := AlreadyTaken, password := "")
    ensures kind == "OFFICIAL" && Complete(s.user) && !HasTaken(s.store, s.user.collegiateNumber) ==>
              r.mode == Quiz && r.quizType == Official && r.notice == NoNotice
              && multiset(r.questions) == multiset(b.bank)
    ensures kind != "ADMIN" && kind != "OFFICIAL" && Complete(s.user) ==>
              r == s.(notice := NoNotice, password := "", quizType := Practice, mode := Instruction)
  {
    var cleared := s.(notice := NoNotice, password := "");
    if kind == "ADMIN" then cleared.(mode := Admin)
    else if !Complete(s.user) then cleared.(notice := MissingCredentials)
    else if kind == "OFFICIAL" then
      if HasTaken(s.store, s.user.collegiateNumber) then cleared.(notice := AlreadyTaken)
      else StartQuiz(cleared.(quizType := Official), b, exchanges)
    else cleared.(quizType := Practice, mode := Instruction)
  }

  /** From the login screen, a quiz starts exactly when the official exam was
      chosen with both fields filled and a number not yet on the registry. */
  lemma LoginStartsOnlyAllowedOfficial(s: State, b: Build, kind: string, exchanges: seq<Exchange>)
    requires s.mode == Login && InRange(exchanges, |b.bank|)
    ensures StartLogin(s, b, kind, exchanges).mode == Quiz
        <==> kind == "OFFICIAL" && Complete(s.user) && !HasTaken(s.store, s.user.collegiateNumber)
  {
  }

  /** `verifyPassword`: on the administrator's screen the typed password is
      compared with the admin secret and nothing else happens; anywhere else
      it is compared with the practice secret and a match starts the quiz.
      The boolean is whether the password matched. */
  function VerifyPassword(s: State, b: Build, exchanges: seq<Exchange>): (r: (State, bool))
    requires InRange(exchanges, |b.bank|)
    ensures r.1 <==> s.password == (if s.mode == Admin then b.secrets.admin else b.secrets.practice)
    ensures s.mode == Admin && r.1 ==> r.0 == s
    ensures !r.1 ==> r.0 == s.(notice := if s.mode == Admin then WrongAdminPassword else WrongPracticePassword)
    ensures s.mode != Admin && r.1 ==>
              r.0 == s.(mode := Quiz, questions := r.0.questions) && multiset(r.0.questions) == multiset(b.bank)
  {
    if s.mode == Admin then
      if s.password == b.secrets.admin then (s, true) else (s.(notice := WrongAdminPassword), false)
    else
      if s.password == b.secrets.practice then (StartQuiz(s, b, exchanges), true)
      else (s.(notice := WrongPracticePassword), false)
  }

  /** The record `handleFinishQuiz` appends: who sat the exam, with the name
      and number as typed, the score reported, the date, and which exam. */
  function Record(s: State, finalScore: int, date: string): (r: ExamResult)
    ensures r.fullName == s.user.fullName && r.collegiateNumber == s.user.collegiateNumber
    ensures r.score == finalScore && r.date == date && r.quizType == s.quizType
  {
    ExamResult(s.user.fullName, s.user.collegiateNumber, finalScore, date, s.quizType)
  }

  /** `handleFinishQuiz`: the result screen and the score are set before
      storage is touched; then the record is appended to the stored list and,
      for an official exam, the number is marked as having sat it. A write
      that throws is swallowed: the screen stays on the result either way. */
  function FinishQuiz(s: State, finalScore: int, date: string, fault: Fault): (r: State)
    ensures r.(store := s.store) == s.(score := finalScore, mode := Result)
    ensures fault == ResultsWriteFails ==> r.store == s.store
    ensures fault != ResultsWriteFails ==>
              StoredResults(r.store) == StoredResults(s.store) + [Record(s, finalScore, date)]
    ensures forall k :: k != TakenKey(s.user.collegiateNumber) ==>
              (k in r.store.items <==> k in s.store.items)
              && (k in r.store.items ==> r.store.items[k] == s.store.items[k])
    ensures s.quizType == Practice ==> r.store.items == s.store.items
    ensures WellFormed(s.store) ==> WellFormed(r.store)
  {
    var shown := s.(score := finalScore, mode := Result);
    if fault == ResultsWriteFails then shown
    else
      var appended := s.store.(results := Some(StoredResults(s.store) + [Record(s, finalScore, date)]));
      if s.quizType == Official && fault != TakenWriteFails then
        shown.(store := appended.(items := appended.items[TakenKey(s.user.collegiateNumber) := TakenMark]))
      else shown.(store := appended)
  }

  /** After a finish, a number counts as having sat the official exam exactly
      when it did before, or it is this exam's number, the exam was official
      and both writes went through. */
  lemma FinishMarksRegistry(s: State, finalScore: int, date: string, fault: Fault, number: string)
    ensures HasTaken(FinishQuiz(s, finalScore, date, fault).store, number)
        <==> HasTaken(s.store, number)
             || (number == s.user.collegiateNumber && s.quizType == Official && fault == NoFault)
  {
    TakenKeyInjective(number, s.user.collegiateNumber);
  }

  /** The administrator's panel is on screen instead of the password form. */
  predicate PanelShown(s: State, b: Build) {
    s.mode == Admin && s.password == b.secrets.admin
  }

  /** The screen with a password box: practice instructions, or the
      administrator's screen while the panel is not yet shown. */
  predicate PasswordScreen(s: State, b: Build) {
    s.mode == Instruction || (s.mode == Admin && !PanelShown(s, b))
  }

  /** Everything the user (or the running quiz) can do. */
  datatype Event =
    | EditName(name: string)
    | EditNumber(number: string)
    | ChooseLogin(kind: string, exchanges: seq<Exchange>)
    | EditPassword(password: string)
    | SubmitPassword(exchanges: seq<Exchange>)
    | CancelPassword
    | QuizFinished(finalScore: int, date: string, fault: Fault)
    | Restart(exchanges: seq<Exchange>)
    | ResultLogout
    | AdminLogout
    | AdminClear(confirmed: bool)

  /** The event's control is on the current screen. The restart button of the
      result screen is offered after a practice exam only. */
  predicate Enabled(s: State, b: Build, e: Event) {
    match e
    case EditName(_) => s.mode == Login
    case EditNumber(_) => s.mode == Login
    case ChooseLogin(_, ex) => s.mode == Login && InRange(ex, |b.bank|)
    case EditPassword(_) => PasswordScreen(s, b)
    case SubmitPassword(ex) => PasswordScreen(s, b) && InRange(ex, |b.bank|)
    case CancelPassword => PasswordScreen(s, b)
    case QuizFinished(_, _, _) => s.mode == Quiz
    case Restart(ex) => s.mode == Result && s.quizType == Practice && InRange(ex, |b.bank|)
    case ResultLogout => s.mode == Result
    case AdminLogout => PanelShown(s, b)
    case AdminClear(_) => PanelShown(s, b)
  }

  /** One enabled event. */
  function Dispatch(s: State, b: Build, e: Event): (r: State)
    requires Enabled(s, b, e)
    ensures r.user != s.user ==> s.mode == Login || e == ResultLogout
    ensures r.store != s.store ==> e.QuizFinished? || e == AdminClear(true)
  {
    match e
    case EditName(v) => s.(user := s.user.(fullName := v))
    case EditNumber(v) => s.(user := s.user.(collegiateNumber := v))
    case ChooseLogin(kind, ex) => StartLogin(s, b, kind, ex)
    case EditPassword(v) => s.(password := v)
    case SubmitPassword(ex) => VerifyPassword(s, b, ex).0
    case CancelPassword => s.(mode := Login)
    case QuizFinished(sc, date, fault) => FinishQuiz(s, sc, date, fault)
    case Restart(ex) => StartQuiz(s, b, ex)
    case ResultLogout => s.(mode := Login, user := EmptyUser)
    case AdminLogout => s.(mode := Login, password := "")
    case AdminClear(confirmed) => if confirmed then s.(store := AdminPanel.ClearStore(s.store)) else s
  }

  /** A sequence of interactions; a control that is not on screen does nothing. */
  function Run(s: State, b: Build, events: seq<Event>): (r: State)
    decreases |events|
  {
    if |events| == 0 then s
    else
      var t := if Enabled(s, b, events[0]) then Dispatch(s, b, events[0]) else s;
      Run(t, b, events[1..])
  }

  /** What holds on every screen:
      - the questions are always some order of the bank;
      - nobody reaches the instructions, the quiz or the result without a
        name and a number;
      - the instructions screen is only ever reached for practice;
      - an official quiz never runs for a number that has already sat it. */
  predicate Inv(s: State, b: Build) {
    && WellFormed(s.store)
    && multiset(s.questions) == multiset(b.bank)
    && (s.mode == Instruction || s.mode == Quiz || s.mode == Result ==> Complete(s.user))
    && (s.mode == Instruction ==> s.quizType == Practice)
    && (s.mode == Quiz && s.quizType == Official ==> !HasTaken(s.store, s.user.collegiateNumber))
  }

  lemma InitialInv(b: Build, st: Store)
    requires WellFormed(st)
    ensures Inv(Initial(b, st), b)
  {
    var s := Initial(b, st);
    assert s.mode == Login && s.questions == b.bank && s.store == st;
    assert WellFormed(s.store);
    assert multiset(s.questions) == multiset(b.bank);
    assert !(s.mode == Instruction || s.mode == Quiz || s.mode == Result);
  }

  lemma DispatchKeepsInv(s: State, b: Build, e: Event)
    requires Inv(s, b) && Enabled(s, b, e)
    ensures Inv(Dispatch(s, b, e), b)
  {
    match e
    case EditName(v) => LoginOrAdminKeepsInv(s.(user := s.user.(fullName := v)), b);
    case EditNumber(v) => LoginOrAdminKeepsInv(s.(user := s.user.(collegiateNumber := v)), b);
    case ChooseLogin(kind, ex) => StartLoginKeepsInv(s, b, kind, ex);
    case EditPassword(v) =>
      assert Dispatch(s, b, e) == s.(password := v);
    case SubmitPassword(ex) => VerifyPasswordKeepsInv(s, b, ex);
    case CancelPassword => LoginOrAdminKeepsInv(s.(mode := Login), b);
    case QuizFinished(sc, date, fault) => FinishKeepsInv(s, b, sc, date, fault);
    case Restart(ex) =>
      var r := StartQuiz(s, b, ex);
      assert r.quizType == Practice && r.user == s.user && r.store == s.store;
    case ResultLogout => LoginOrAdminKeepsInv(s.(mode := Login, user := EmptyUser), b);
    case AdminLogout => LoginOrAdminKeepsInv(s.(mode := Login, password := ""), b);
    case AdminClear(confirmed) =>
      if confirmed {
        AdminPanel.ClearAllowsRetake(s.store, s.user.collegiateNumber);
        LoginOrAdminKeepsInv(s.(store := AdminPanel.ClearStore(s.store)), b);
      }
  }

  /** On the login and administrator's screens only the store and the
      questions are constrained. */
  lemma LoginOrAdminKeepsInv(r: State, b: Build)
    requires r.mode == Login || r.mode == Admin
    requires WellFormed(r.store) && multiset(r.questions) == multiset(b.bank)
    ensures Inv(r, b)
  {
  }

  lemma StartLoginKeepsInv(s: State, b: Build, kind: string, exchanges: seq<Exchange>)
    requires Inv(s, b) && s.mode == Login && InRange(exchanges, |b.bank|)
    ensures Inv(StartLogin(s, b, kind, exchanges), b)
  {
    var r := StartLogin(s, b, kind, exchanges);
    assert r.store == s.store && r.user == s.user;
    if kind != "ADMIN" && Complete(s.user) && kind == "OFFICIAL" {
      assert r.mode == Quiz ==> !HasTaken(s.store, s.user.collegiateNumber);
    }
  }

  lemma VerifyPasswordKeepsInv(s: State, b: Build, exchanges: seq<Exchange>)
    requires Inv(s, b) && PasswordScreen(s, b) && InRange(exchanges, |b.bank|)
    ensures Inv(VerifyPassword(s, b, exchanges).0, b)
  {
    var r := VerifyPassword(s, b, exchanges);
    assert r.0.store == s.store && r.0.user == s.user && r.0.quizType == s.quizType;
  }

  lemma FinishKeepsInv(s: State, b: Build, finalScore: int, date: string, fault: Fault)
    requires Inv(s, b) && s.mode == Quiz
    ensures Inv(FinishQuiz(s, finalScore, date, fault), b)
  {
    var r := FinishQuiz(s, finalScore, date, fault);
    assert r.mode == Result && r.user == s.user && r.questions == s.questions;
    assert ResultsKey != TakenKey(s.user.collegiateNumber);
    assert ResultsKey !in r.store.items;
  }

  lemma {:induction false} RunKeepsInv(s: State, b: Build, events: seq<Event>)
    requires Inv(s, b)
    ensures Inv(Run(s, b, events), b)
    decreases |events|
  {
    if |events| > 0 {
      var t := if Enabled(s, b, events[0]) then Dispatch(s, b, events[0]) else s;
      if Enabled(s, b, events[0]) {
        DispatchKeepsInv(s, b, events[0]);
      }
      RunKeepsInv(t, b, events[1..]);
    }
  }

  /** Only a confirmed wipe can take a number off the registry. */
  lemma DispatchKeepsRegistry(s: State, b: Build, e: Event, number: string)
    requires Enabled(s, b, e) && e != AdminClear(true)
    requires HasTaken(s.store, number)
    ensures HasTaken(Dispatch(s, b, e).store, number)
  {
    if e.QuizFinished? {
      FinishMarksRegistry(s, e.finalScore, e.date, e.fault, number);
    }
  }

  /** One official attempt per collegiate number: once a number is on the
      registry, no sequence of interactions without a confirmed wipe ever
      runs an official quiz for it again. */
  lemma {:induction false} NoSecondOfficialAttempt(s: State, b: Build, events: seq<Event>, number: string)
    requires Inv(s, b) && HasTaken(s.store, number)
    requires forall k :: 0 <= k < |events| ==> events[k] != AdminClear(true)
    ensures HasTaken(Run(s, b, events).store, number)
    ensures var r := Run(s, b, events);
            !(r.mode == Quiz && r.quizType == Official && r.user.collegiateNumber == number)
    decreases |events|
  {
    if |events| == 0 {
    } else {
      var t := if Enabled(s, b, events[0]) then Dispatch(s, b, events[0]) else s;
      if Enabled(s, b, events[0]) {
        DispatchKeepsInv(s, b, events[0]);
        DispatchKeepsRegistry(s, b, events[0], number);
      }
      NoSecondOfficialAttempt(t, b, events[1..], number);
    }
  }

  /** A finished official exam, with both writes through, puts its number on
      the registry, so the next official login with that number is refused
      and leaves the login screen as it was. */
  lemma OfficialRetakeRefused(s: State, b: Build, finalScore: int, date: string, exchanges: seq<Exchange>)
    requires s.quizType == Official && InRange(exchanges, |b.bank|)
    requires Complete(s.user)
    ensures var f := FinishQuiz(s, finalScore, date, NoFault);
            var back := f.(mode := Login);
            StartLogin(back, b, "OFFICIAL", exchanges) == back.(notice := AlreadyTaken, password := "")
  {
    FinishMarksRegistry(s, finalScore, date, NoFault, s.user.collegiateNumber);
  }

  /** The registry is keyed by the number exactly as typed, while the blank
      check looks at it trimmed: with "123" on the registry, the same number
      typed with a trailing space starts a new official exam. */
  lemma PaddedNumberIsAnotherKey(s: State, b: Build, exchanges: seq<Exchange>)
    requires s.mode == Login && s.user == User("Ana", "123 ") && InRange(exchanges, |b.bank|)
    requires s.store.items == map[TakenKey("123") := TakenMark]
    ensures var r := StartLogin(s, b, "OFFICIAL", exchanges);
            r.mode == Quiz && r.quizType == Official
  {
    var name, number := s.user.fullName, s.user.collegiateNumber;
    assert !IsWhitespace(name[0]) && !IsWhitespace(number[0]);
    assert Complete(s.user);
    TakenKeyInjective(number, "123");
    assert number[3] != ' ' ==> number != "123";
    assert !HasTaken(s.store, number);
  }

  /** The administrator's panel is only reached by typing the admin secret
      into the administrator's password box (when the secret is not empty). */
  lemma PanelNeedsSecret(s: State, b: Build, e: Event)
    requires Enabled(s, b, e) && b.secrets.admin != []
    requires PanelShown(Dispatch(s, b, e), b)
    ensures PanelShown(s, b) || (s.mode == Admin && e == EditPassword(b.secrets.admin))
  {
  }

  /** On the administrator's password form the "enter" button never opens
      the panel: the form is only there while the password is wrong. */
  lemma AdminSubmitOnlyWarns(s: State, b: Build, exchanges: seq<Exchange>)
    requires s.mode == Admin && Enabled(s, b, SubmitPassword(exchanges))
    ensures Dispatch(s, b, SubmitPassword(exchanges)) == s.(notice := WrongAdminPassword)
  {
  }

  /** From the practice instructions, the quiz starts exactly when the
      practice secret was typed, and then as a practice exam. */
  lemma PracticeNeedsSecret(s: State, b: Build, exchanges: seq<Exchange>)
    requires Inv(s, b) && s.mode == Instruction && InRange(exchanges, |b.bank|)
    ensures var r := Dispatch(s, b, SubmitPassword(exchanges));
            (r.mode == Quiz <==> s.password == b.secrets.practice)
            && (r.mode == Quiz ==> r.quizType == Practice)
  {
    var v := VerifyPassword(s, b, exchanges);
    assert Dispatch(s, b, SubmitPassword(exchanges)) == v.0;
    assert v.1 <==> s.password == b.secrets.practice;
  }

  /** The ways back to the login screen. The result screen's logout forgets
      the candidate, so the next login needs both fields typed again; the
      panel's logout clears the password; cancel on a password screen only
      changes the screen. None of them touches storage. */
  lemma LogoutsReturnToLogin(s: State, b: Build, exchanges: seq<Exchange>)
    requires InRange(exchanges, |b.bank|)
    ensures s.mode == Result ==>
              var r := Dispatch(s, b, ResultLogout);
              && r == s.(mode := Login, user := EmptyUser)
              && StartLogin(r, b, "OFFICIAL", exchanges).notice == MissingCredentials
              && StartLogin(r, b, "PRACTICE", exchanges).notice == MissingCredentials
    ensures PanelShown(s, b) ==>
              Dispatch(s, b, AdminLogout) == s.(mode := Login, password := "")
    ensures PasswordScreen(s, b) ==>
              Dispatch(s, b, CancelPassword) == s.(mode := Login)
  {
    if s.mode == Result {
      var r := Dispatch(s, b, ResultLogout);
      assert r == s.(mode := Login, user := EmptyUser);
      EmptyUserMustRetype(r, b, "OFFICIAL", exchanges);
      EmptyUserMustRetype(r, b, "PRACTICE", exchanges);
    }
    if PanelShown(s, b) {
      assert Dispatch(s, b, AdminLogout) == s.(mode := Login, password := "");
    }
    if PasswordScreen(s, b) {
      assert Dispatch(s, b, CancelPassword) == s.(mode := Login);
    }
  }

  /** With the user forgotten, any login but the administrator's only asks
      for the missing fields. */
  lemma EmptyUserMustRetype(s: State, b: Build, kind: string, exchanges: seq<Exchange>)
    requires s.user == EmptyUser && kind != "ADMIN" && InRange(exchanges, |b.bank|)
    ensures StartLogin(s, b, kind, exchanges) == s.(notice := MissingCredentials, password := "")
  {
    assert IsBlank(EmptyUser.fullName);
  }

  /** The practice result screen's restart is `startQuiz` again: a fresh
      order of the bank for the same candidate, still a practice exam, with
      no password asked and storage untouched. */
  lemma RestartRetakesPractice(s: State, b: Build, exchanges: seq<Exchange>)
    requires s.mode == Result && s.quizType == Practice && InRange(exchanges, |b.bank|)
    ensures var r := Dispatch(s, b, Restart(exchanges));
            && r == StartQuiz(s, b, exchanges)
            && r.mode == Quiz && r.quizType == Practice
            && r.user == s.user && r.store == s.store
            && multiset(r.questions) == multiset(b.bank)
  {
  }

  /** After an official exam the result screen offers nothing but the
      logout: there is no restart, so that screen cannot lead to a second
      attempt. */
  lemma OfficialResultOnlyLogsOut(s: State, b: Build, e: Event)
    requires s.mode == Result && s.quizType == Official
    ensures Enabled(s, b, e) <==> e == ResultLogout
  {
  }
}
