/** The records of the online-course application: the user a request
    carries, the course catalog (courses, their questions and the choices of
    each question) and the rows the views create (enrollments and exam
    submissions). Identifiers are the tables' primary keys. */
module Records {

  type UserId = int
  type CourseId = int
  type QuestionId = int
  type ChoiceId = int
  type SubmissionId = int

  datatype Option<+T> = None | Some(value: T)

  /** The user of a request. The anonymous user has no id and is not
      authenticated; every other user is a saved account with an id. */
  datatype User = Anonymous | Member(id: UserId) {
    function Id(): Option<UserId> {
      if Member? then Some(id) else None
    }

    predicate IsAuthenticated() {
      Member?
    }
  }

  /** A course row; `totalEnrollment` is the denormalized enrollment counter. */
  datatype Course = Course(id: CourseId, name: string, totalEnrollment: int)

  /** A question belongs to one course and is worth `grade` points. */
  datatype Question = Question(id: QuestionId, courseId: CourseId, text: string, grade: int)

  /** A choice belongs to one question and is either correct or not. */
  datatype Choice = Choice(id: ChoiceId, questionId: QuestionId, text: string, isCorrect: bool)

  /** Links one user to one course in a participation mode. */
  datatype Enrollment = Enrollment(userId: UserId, courseId: CourseId, mode: string)

  /** One exam attempt of an enrollment, with the ids of the selected choices. */
  datatype Submission = Submission(id: SubmissionId, enrollment: Enrollment, choices: set<ChoiceId>)

  /** The primary key of a course row. */
  function CourseKey(c: Course): CourseId {
    c.id
  }

  /** The primary key of a submission row. */
  function SubmissionKey(s: Submission): SubmissionId {
    s.id
  }

  /** Looking a row up by primary key: the position of a row whose key is
      `id`, or None when no row has it (the 404 case). */
  function FindByKey<T>(rows: seq<T>, key: T -> int, id: int): (r: Option<nat>)
    ensures r.Some? ==> r.value < |rows| && key(rows[r.value]) == id
    ensures r.None? <==> forall i :: 0 <= i < |rows| ==> key(rows[i]) != id
  {
    if rows == [] then None
    else if key(rows[0]) == id then Some(0)
    else match FindByKey(rows[1..], key, id)
      case None => None
      case Some(i) => Some(i + 1)
  }

  /** The lookup reads the keys alone: two tables with the same keys in the
      same places give the same answer. */
  lemma {:induction false} FindByKeyReadsKeysOnly<T>(a: seq<T>, b: seq<T>, key: T -> int, id: int)
    requires |a| == |b| && forall i :: 0 <= i < |a| ==> key(a[i]) == key(b[i])
    ensures FindByKey(a, key, id) == FindByKey(b, key, id)
  {
    if a != [] {
      assert key(a[0]) == key(b[0]);
      FindByKeyReadsKeysOnly(a[1..], b[1..], key, id);
    }
  }

  /** The mode every enrollment made by the enroll view gets. */
  const HonorMode: string := "honor"

  /** Why a request fails: a lookup by key found no row or more than one,
      a lookup was made for the anonymous user, or a submitted answer is
      not an integer literal. */
  datatype Error =
    | NotFound
    | MultipleObjectsReturned
    | AnonymousLookup
    | InvalidLiteral(value: string)

  datatype Result<+T> = Ok(value: T) | Err(error: Error)

  /** Where a view sends the browser next. */
  datatype Redirect =
    | CourseDetails(courseId: CourseId)
    | ShowExamResult(courseId: CourseId, submissionId: SubmissionId)
}
