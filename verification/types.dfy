/** The records and enumerations shared by every screen of the quiz app. */
module Types {

  /** The conventional Some/None datatype, used where the app reads a value that may be absent. */
  datatype Option<+T> = None | Some(value: T) {

    /** Returns the value held in Some, or the given default when None. */
    function GetOr(default: T): T {
      match this
      case Some(v) => v
      case None => default
    }
  }

  /** One answer choice of a question; `id` is unique within its question. */
  datatype Choice = Choice(id: string, text: string)

  /** A question of the bank: a stable numeric id, its text, its ordered
      choices and the id of the correct choice. */
  datatype Question = Question(id: int, text: string, choices: seq<Choice>, correctOptionId: string)

  /** The screens of the app. */
  datatype AppMode = Login | Instruction | Quiz | Result | Admin

  /** OFFICIAL exams are proctored and allowed once per collegiate number;
      PRACTICE exams are neither. */
  datatype QuizType = Official | Practice

  datatype User = User(fullName: string, collegiateNumber: string)

  /** The record appended to the stored results list when an exam finishes. */
  datatype ExamResult = ExamResult(fullName: string, collegiateNumber: string, score: int, date: string, quizType: QuizType)

  const EmptyUser := User("", "")
}
