/** The views of the course application over an in-memory copy of its
    tables: listing courses, enrolling, submitting an exam and showing its
    result. Each view returns the page it leads to as data. */
module Views {
  import opened Records
  import Enrollments
  import Listing
  import Answers
  import Grading

  /** A course on the list page; `isEnrolled` is set for authenticated users only. */
  datatype CourseEntry = CourseEntry(course: Course, isEnrolled: Option<bool>)

  /** A course as the list page shows it to user u: the enrolled flag is
      set for an authenticated user only. */
  function ListEntry(es: seq<Enrollment>, u: User, c: Course): (r: CourseEntry)
    ensures r.course == c
    ensures r.isEnrolled.Some? <==> u.IsAuthenticated()
    ensures r.isEnrolled.Some? ==>
      (r.isEnrolled.value <==> exists e :: e in es && e.userId == u.id && e.courseId == c.id)
  {
    CourseEntry(c, if u.IsAuthenticated() then Some(Enrollments.IsEnrolled(es, u, c.id)) else None)
  }

  /** What the exam result page shows. */
  datatype ExamResult = ExamResult(course: Course, grade: int, submission: Submission, selectedChoices: seq<Choice>)

  /** Looking a submission up by primary key: its position, or None (a 404). */
  function FindSubmission(ss: seq<Submission>, sid: SubmissionId): (r: Option<nat>)
    ensures r.Some? ==> r.value < |ss| && ss[r.value].id == sid
    ensures r.None? <==> forall i :: 0 <= i < |ss| ==> ss[i].id != sid
  {
    FindByKey(ss, SubmissionKey, sid)
  }

  /** Submission keys follow table positions from 1, and every submission
      belongs to an existing enrollment. */
  predicate SubmissionsWellFormed(ss: seq<Submission>, es: seq<Enrollment>) {
    && (forall k :: 0 <= k < |ss| ==> ss[k].id == k + 1)
    && (forall s :: s in ss ==> s.enrollment in es)
  }

  /** Storing a submission with the next key for an existing enrollment keeps
      the submission table well formed. */
  lemma AppendKeepsSubmissionsWellFormed(ss: seq<Submission>, es: seq<Enrollment>, s: Submission)
    requires SubmissionsWellFormed(ss, es)
    requires s.id == |ss| + 1 && s.enrollment in es
    ensures SubmissionsWellFormed(ss + [s], es)
  {
    forall t | t in ss + [s] ensures t.enrollment in es {
      if t != s {
        assert t in ss;
      }
    }
  }

  /** Adding enrollment records keeps every submission's enrollment in place. */
  lemma MoreEnrollmentsKeepSubmissionsWellFormed(ss: seq<Submission>, es: seq<Enrollment>, es': seq<Enrollment>)
    requires SubmissionsWellFormed(ss, es)
    requires es <= es'
    ensures SubmissionsWellFormed(ss, es')
  {
    forall s | s in ss ensures s.enrollment in es' {
      var k :| 0 <= k < |es| && es[k] == s.enrollment;
      assert es'[k] == s.enrollment;
    }
  }

  /** The application's tables. Courses, enrollments and submissions change;
      the questions and choices are reference data the views only read. */
  class Site {
    var courses: seq<Course>
    var enrollments: seq<Enrollment>
    var submissions: seq<Submission>
    const questions: seq<Question>
    const choices: seq<Choice>

    /** Primary keys are unique, an enrollment names an existing course and
        is the only one of its pair, and a submission belongs to an existing
        enrollment and has the key its position gives it. */
    ghost predicate Valid()
      reads this
    {
      && Enrollments.WellFormed(Tables())
      && Grading.UniqueChoiceIds(choices)
      && SubmissionsWellFormed(submissions, enrollments)
    }

    /** The ledger the enroll view works on. */
    function Tables(): Enrollments.Ledger
      reads this
    {
      Enrollments.Ledger(courses, enrollments)
    }

    constructor (courses: seq<Course>, questions: seq<Question>, choices: seq<Choice>)
      requires Enrollments.UniqueCourseIds(courses)
      requires Grading.UniqueChoiceIds(choices)
      ensures Valid()
      ensures this.courses == courses && this.questions == questions && this.choices == choices
      ensures enrollments == [] && submissions == []
    {
      this.courses := courses;
      this.questions := questions;
      this.choices := choices;
      enrollments := [];
      submissions := [];
    }

    /** check_if_enrolled: false for the anonymous user, whatever the table
        holds; otherwise whether some record links the user to the course. */
    method CheckIfEnrolled(u: User, cid: CourseId) returns (isEnrolled: bool)
      ensures u.Anonymous? ==> !isEnrolled
      ensures u.Member? ==> (isEnrolled <==> exists e :: e in enrollments && e.userId == u.id && e.courseId == cid)
    {
      isEnrolled := false;
      if u.Id().Some? {
        var numResults := |Enrollments.Matching(enrollments, u.id, cid)|;
        if numResults > 0 {
          var m := Enrollments.Matching(enrollments, u.id, cid);
          assert m[0] in m;
          isEnrolled := true;
        }
      }
    }

    /** The course list: the first page of courses by enrollment counter,
        largest first; for an authenticated user each entry says whether the
        user is enrolled, for the anonymous user no entry says anything. */
    method CourseList(u: User) returns (list: seq<CourseEntry>)
      ensures |list| <= Listing.PageSize
      ensures |list| == if |courses| < Listing.PageSize then |courses| else Listing.PageSize
      ensures forall k :: 0 <= k < |list| ==> list[k] == ListEntry(enrollments, u, Listing.TopCourses(courses)[k])
      ensures forall i, j :: 0 <= i < j < |list| ==>
        list[i].course.totalEnrollment >= list[j].course.totalEnrollment
      ensures forall k :: 0 <= k < |list| ==> (list[k].isEnrolled.Some? <==> u.IsAuthenticated())
      ensures forall k :: 0 <= k < |list| && list[k].isEnrolled.Some? ==>
        list[k].isEnrolled.value == Enrollments.IsEnrolled(enrollments, u, list[k].course.id)
    {
      var top := Listing.TopCourses(courses);
      list := seq(|top|, k requires 0 <= k < |top| => CourseEntry(top[k], None));
      for i := 0 to |list|
        invariant |list| == |top|
        invariant forall k :: 0 <= k < |list| ==>
          list[k] == if k < i then ListEntry(enrollments, u, top[k]) else CourseEntry(top[k], None)
      {
        if u.IsAuthenticated() {
          var flag := CheckIfEnrolled(u, list[i].course.id);
          assert flag == Enrollments.IsEnrolled(enrollments, u, top[i].id);
          list := list[i := list[i].(isEnrolled := Some(flag))];
        }
        assert list[i] == ListEntry(enrollments, u, top[i]);
      }
      forall k | 0 <= k < |list|
        ensures list[k].course == top[k]
        ensures list[k].isEnrolled.Some? <==> u.IsAuthenticated()
      {
        assert list[k] == ListEntry(enrollments, u, top[k]);
      }
    }

    /** enroll: a 404 for an unknown course; otherwise the ledger moves as
        Enrollments.Enroll says and the browser goes to the course page. */
    method Enroll(u: User, cid: CourseId) returns (r: Result<Redirect>)
      requires Valid()
      modifies this
      ensures Valid()
      ensures var step := Enrollments.Enroll(old(Tables()), u, cid);
        && (step.Err? ==> r == Err(step.error) && Tables() == old(Tables()))
        && (step.Ok? ==> r == Ok(CourseDetails(cid)) && Tables() == step.value)
      ensures Enrollments.CountersMatch(old(Tables())) ==> Enrollments.CountersMatch(Tables())
      ensures submissions == old(submissions)
    {
      var found := Enrollments.FindCourse(courses, cid);
      if found.None? {
        return Err(NotFound);
      }
      var i := found.value;
      ghost var before := Tables();
      var isEnrolled := CheckIfEnrolled(u, courses[i].id);
      if !isEnrolled && u.IsAuthenticated() {
        enrollments := enrollments + [Enrollment(u.id, courses[i].id, HonorMode)];
        courses := courses[i := courses[i].(totalEnrollment := courses[i].totalEnrollment + 1)];
      }
      assert Tables() == Enrollments.Enroll(before, u, cid).value;
      Enrollments.EnrollKeepsWellFormed(before, u, cid);
      MoreEnrollmentsKeepSubmissionsWellFormed(submissions, before.enrollments, enrollments);
      if Enrollments.CountersMatch(before) {
        Enrollments.EnrollKeepsCountersMatched(before, u, cid);
      }
      r := Ok(CourseDetails(cid));
    }

    /** submit: a 404 for an unknown course, and the errors of the enrollment
        lookup; otherwise a new submission of that enrollment is stored first,
        and then gets the extracted choice ids as its choice set, or keeps an
        empty one when a "choice" value is not an integer literal. */
    method Submit(u: User, cid: CourseId, form: seq<Answers.Field>) returns (r: Result<Redirect>)
      requires Valid()
      modifies this
      ensures Valid()
      ensures courses == old(courses) && enrollments == old(enrollments)
      ensures Enrollments.FindCourse(courses, cid).None? ==>
        r == Err(NotFound) && submissions == old(submissions)
      ensures Enrollments.FindCourse(courses, cid).Some? ==>
        var lookup := Enrollments.GetEnrollment(enrollments, u, cid);
        && (lookup.Err? ==> r == Err(lookup.error) && submissions == old(submissions))
        && (lookup.Ok? ==>
              var answers := Answers.AnswersOf(form);
              var id := |old(submissions)| + 1;
              && submissions == old(submissions) + [Submission(id, lookup.value, if answers.Ok? then set x | x in answers.value else {})]
              && r == if answers.Ok? then Ok(Redirect.ShowExamResult(cid, id)) else Err(answers.error))
    {
      var found := Enrollments.FindCourse(courses, cid);
      if found.None? {
        return Err(NotFound);
      }
      var course := courses[found.value];
      var enrollment := Enrollments.GetEnrollment(enrollments, u, course.id);
      if enrollment.Err? {
        return Err(enrollment.error);
      }
      ghost var before := submissions;
      var submission := Submission(|submissions| + 1, enrollment.value, {});
      AppendKeepsSubmissionsWellFormed(before, enrollments, submission);
      submissions := submissions + [submission];
      var choiceIds := Answers.ExtractAnswers(form);
      if choiceIds.Err? {
        return Err(choiceIds.error);
      }
      var chosen := submission.(choices := set x | x in choiceIds.value);
      AppendKeepsSubmissionsWellFormed(before, enrollments, chosen);
      submissions := submissions[|submissions| - 1 := chosen];
      assert submissions == before + [chosen];
      r := Ok(Redirect.ShowExamResult(cid, submission.id));
    }

    /** show_exam_result: a 404 for an unknown course or submission; otherwise
        the grade is the score of the submission's choices on the course's
        questions. */
    method ShowExamResult(cid: CourseId, sid: SubmissionId) returns (r: Result<ExamResult>)
      ensures Enrollments.FindCourse(courses, cid).None? ==> r == Err(NotFound)
      ensures FindSubmission(submissions, sid).None? ==> r == Err(NotFound)
      ensures Enrollments.FindCourse(courses, cid).Some? && FindSubmission(submissions, sid).Some? ==>
        var course := courses[Enrollments.FindCourse(courses, cid).value];
        var submission := submissions[FindSubmission(submissions, sid).value];
        && r.Ok?
        && r.value.course == course
        && r.value.submission == submission
        && r.value.grade == Grading.Score(Grading.CourseQuestions(questions, cid), choices, submission.choices)
        && (forall c :: c in r.value.selectedChoices <==> c in choices && c.id in submission.choices)
    {
      var foundCourse := Enrollments.FindCourse(courses, cid);
      if foundCourse.None? {
        return Err(NotFound);
      }
      var foundSubmission := FindSubmission(submissions, sid);
      if foundSubmission.None? {
        return Err(NotFound);
      }
      var course := courses[foundCourse.value];
      var submission := submissions[foundSubmission.value];
      var selectedChoices := Grading.SelectedChoices(choices, submission.choices);

      var totalScore := 0;
      var courseQuestions := Grading.CourseQuestions(questions, course.id);
      for i := 0 to |courseQuestions|
        invariant totalScore == Grading.Score(courseQuestions[..i], choices, submission.choices)
      {
        var question := courseQuestions[i];
        var correctChoices := set c | c in choices && c.questionId == question.id && c.isCorrect :: c.id;
        var userChoicesForQuestion := set c | c in selectedChoices && c.questionId == question.id :: c.id;
        assert userChoicesForQuestion == Grading.SelectedIds(question, choices, submission.choices);
        assert courseQuestions[..i + 1][..i] == courseQuestions[..i];
        if correctChoices == userChoicesForQuestion {
          totalScore := totalScore + question.grade;
        }
      }
      assert courseQuestions[..|courseQuestions|] == courseQuestions;
      r := Ok(ExamResult(course, totalScore, submission, selectedChoices));
    }
  }
}
