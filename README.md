# Online course: enrollment ledger and exam grader

A Dafny model of the domain logic of an online-course web application
(a Django app). The app lists courses, enrolls users in them, records exam
submissions and grades them. The model covers the view functions of
`onlinecourse/views.py` that carry that logic. The database is replaced by
in-memory tables held in one object. Each view returns the page it leads
to as data instead of rendering it.

- `records.dfy` (module `Records`): the records. These are the user of a
  request (anonymous, or a saved account with an id), courses with their
  enrollment counter, questions with a grade, choices with a correct flag,
  enrollments and submissions. It also holds the error kinds a request can
  fail with and the redirect targets, and the lookup of a row by primary key
  that every view uses.
- `enrollments.dfy` (module `Enrollments`): the enrollment ledger as pure
  functions. `Enroll` is the transition the enroll view makes on the course
  and enrollment tables. Lemmas prove that it adds exactly one record and one
  counter step on a first enrollment, changes nothing otherwise, is idempotent,
  keeps the one-record-per-pair rule, and keeps every counter in step with its
  records. `GetEnrollment` is the enrollment lookup of the submit view.
- `listing.dfy` (module `Listing`): the course list order. It sorts by
  counter, largest first, and keeps the first page of 10. Lemmas prove the
  page is ordered, is drawn from the table, and that no course left off the
  page has a larger counter than one on it.
- `answers.dfy` (module `Answers`): `extract_answers`. It keeps the form
  fields whose key starts with `"choice"` and converts each value to an
  integer, failing on the first value that is not an integer literal.
  `ExtractAnswers` is the loop, proved equal to the specification
  `AnswersOf`. `ParseInt` gets a round trip with the decimal rendering
  `ShowInt`.
- `grading.dfy` (module `Grading`): the all-or-nothing scoring rule. `Score`
  is the sum of the grades of the questions whose selected choices are
  exactly their correct choices. Lemmas cover the all-or-nothing cases,
  bounds, ignoring foreign choice ids, the perfect submission, and order
  independence. Two worked examples are included.
- `views.dfy` (module `Views`): class `Site` holds the tables. Courses,
  enrollments and submissions are mutable fields. Questions and choices are
  read-only constants. The methods are `CheckIfEnrolled`, `CourseList`,
  `Enroll`, `Submit` and `ShowExamResult`, each written step by step like the
  view it models. Each is proved against the specification functions above.

Behaviour of the code that a reader might not expect:

- `submit` stores the new submission before it reads the answers
  (views.py:116-120). A form with a malformed `choice` value therefore fails
  the request but leaves an empty submission behind. `Site.Submit` states
  exactly that.
- `show_exam_result` does not check that the submission belongs to the
  course or to the user (views.py:126-127). Any submission is graded against
  the questions of the course in the URL.
- `enroll` tests "not enrolled" through `check_if_enrolled`, which looks at
  the user's id. It tests "authenticated" through a separate flag
  (views.py:64, 91). For the users a request can carry, both mean the same
  thing: the anonymous user has no id and is not authenticated. The model's
  `User` datatype has exactly these two kinds of user.
- The course counter is denormalized. Nothing forces it to equal the number
  of records, because an administrator can create or edit a course with any
  counter. So that equality (`Enrollments.CountersMatch`) is not part of the
  class invariant. The model proves instead that enrolling keeps the gap
  between counter and records for every course, so a ledger that matches
  keeps matching.

## Model

| member | source | states |
|---|---|---|
| `Views.Site.CheckIfEnrolled` | onlinecourse/views.py:62-68 | false for the anonymous user whatever the table holds; otherwise true iff some enrollment links that user to that course |
| `Enrollments.Matching` | onlinecourse/views.py:65 | the filtered records are exactly those of the (user, course) pair |
| `Enrollments.MatchingAtMostOne` | onlinecourse/views.py:65 | with no duplicate pairs, the filter holds at most one record |
| `Records.FindByKey` | onlinecourse/views.py:87 | the lookup by primary key finds a row whose key is the requested one, and finds none exactly when no row has it (the 404 case) |
| `Records.FindByKeyReadsKeysOnly` | onlinecourse/views.py:87 | two tables with the same keys in the same places give the same lookup result |
| `Enrollments.FindCourse` | onlinecourse/views.py:87 | the course lookup finds a row with the requested key, and finds none exactly when no row has that key (the 404 case) |
| `Enrollments.FindCourseIgnoresCounters` | onlinecourse/views.py:87-94 | the lookup depends on the keys only, so raising a counter does not move it |
| `Views.ListEntry` | onlinecourse/views.py:77-79 | one list entry: the course itself, with the enrolled flag set iff the user is authenticated, and then true iff some record links the user to the course |
| `Views.Site.CourseList` | onlinecourse/views.py:74-80 | at most 10 entries, exactly min(10, number of courses); non-increasing counters; the entries are the top page in order; the enrolled flag is set iff the user is authenticated, and when set equals whether the user is enrolled |
| `Listing.SortByEnrollment` | onlinecourse/views.py:76 | the ordering by counter, descending, is sorted and a permutation of the course table |
| `Listing.TopCourses` | onlinecourse/views.py:76 | the slice to 10 has min(10, n) courses, stays sorted and is a sub-multiset of the table |
| `Listing.TopCoursesAreTop` | onlinecourse/views.py:76 | no course left off the page has a larger counter than any course on it |
| `Listing.TopCoursesComeFromTable` | onlinecourse/views.py:76 | every listed course is a row of the course table |
| `Views.Site.Enroll` | onlinecourse/views.py:86-96 | the tables move exactly as `Enrollments.Enroll` says; a 404 leaves them unchanged; a redirect to the course page otherwise; the uniqueness rule and matching counters are preserved; submissions untouched |
| `Enrollments.Enroll` | onlinecourse/views.py:86-94 | the ledger transition of enrolling: it fails only with "not found"; it never adds, removes or re-keys a course row; it never removes a record and adds at most one |
| `Enrollments.EnrollFailsOnlyForUnknownCourse` | onlinecourse/views.py:87 | enrolling fails, with "not found", exactly when no course has the key |
| `Enrollments.EnrollAddsOneRecord` | onlinecourse/views.py:90-94 | a first enrollment of an authenticated user appends exactly (user, course, "honor"), raises that course's counter by 1 and leaves every other course row as it was |
| `Enrollments.EnrollNoOp` | onlinecourse/views.py:90-91 | an anonymous caller, or a user already enrolled, changes neither records nor counters |
| `Enrollments.EnrolledAfterEnroll` | onlinecourse/views.py:90-94 | after enrolling, a non-anonymous user counts as enrolled |
| `Enrollments.EnrollIdempotent` | onlinecourse/views.py:90-94 | enrolling twice in a row gives the same tables as enrolling once |
| `Enrollments.EnrollKeepsNoDuplicates` | onlinecourse/views.py:90-92 | enrolling never creates a second record for a (user, course) pair |
| `Enrollments.EnrollKeepsWellFormed` | onlinecourse/views.py:87-94 | enrolling keeps course keys unique, one record per (user, course) pair, and every record naming an existing course |
| `Enrollments.EnrollKeepsCounterGap` | onlinecourse/views.py:92-94 | for every course, counter minus number of records is the same before and after enrolling |
| `Enrollments.EnrollKeepsCountersMatched` | onlinecourse/views.py:92-94 | if every counter equals its number of records before enrolling, it does after |
| `Enrollments.GetEnrollment` | onlinecourse/views.py:113 | the lookup returns a record of that user and course; "not found" iff the user has none; an error for the anonymous user; "multiple objects returned" when the pair has several records; no other error; success whenever the user is enrolled and pairs are unique |
| `Answers.ParseInt` | onlinecourse/views.py:105 | the conversion succeeds exactly on integer literals (optional sign, at least one digit); a negative result has a minus sign |
| `Answers.ParseShowRoundTrip` | onlinecourse/views.py:105 | every integer, rendered in decimal, converts back to itself |
| `Answers.ChoiceFields` | onlinecourse/views.py:102-103 | the kept fields are exactly the form's fields whose key starts with "choice"; that they keep form order is `Answers.ChoiceFieldsAppend` |
| `Answers.ChoiceFieldsAppend` | onlinecourse/views.py:102-103 | the filter splits over concatenated forms, so the kept fields come in form order |
| `Answers.ParseAll` | onlinecourse/views.py:104-106 | a successful conversion yields one id per field; a failure names a value that is not an integer literal |
| `Answers.AnswersOf` | onlinecourse/views.py:100-107 | every extracted id is the integer value of some "choice" field of the form; every failure names the value of some "choice" field |
| `Answers.ParseAllMeaning` | onlinecourse/views.py:104-106 | converting the kept values succeeds iff every value is a literal, and then yields one id per field, each the integer value of its field |
| `Answers.ParseAllFailure` | onlinecourse/views.py:105 | a failure carries the value of the first field that is not a literal, all before it being literals |
| `Answers.AnswersOkIff` | onlinecourse/views.py:102-105 | extraction succeeds iff every "choice" field holds an integer literal; malformed values fail instead of being skipped |
| `Answers.AnswersIgnoreOtherKeys` | onlinecourse/views.py:102-103 | inserting a field whose key does not start with "choice" anywhere in the form does not change the result |
| `Answers.FailureStays` | onlinecourse/views.py:105 | once a prefix of the form fails, the whole form fails with the same error |
| `Answers.ExtractAnswers` | onlinecourse/views.py:100-107 | the loop returns exactly `AnswersOf(form)`, the integer values of the "choice" fields in form order, or the first conversion failure |
| `Views.Site.Submit` | onlinecourse/views.py:109-122 | 404 for an unknown course; the enrollment lookup's error otherwise; else exactly one new submission with the next id, linked to that enrollment, whose choice set is the set of extracted ids (duplicates collapsed), empty when extraction fails; redirects to the result page; courses and enrollments untouched |
| `Views.AppendKeepsSubmissionsWellFormed` | onlinecourse/views.py:116 | storing a submission with the next key for an existing enrollment keeps keys equal to positions from 1 and every submission tied to an existing enrollment |
| `Views.MoreEnrollmentsKeepSubmissionsWellFormed` | onlinecourse/views.py:92 | adding enrollment records never leaves a submission without its enrollment |
| `Views.FindSubmission` | onlinecourse/views.py:127 | the submission lookup, an instance of `Records.FindByKey`: finds a row with the requested key, and none exactly when no row has it |
| `Grading.CourseQuestions` | onlinecourse/views.py:132 | exactly the questions of the course, with no question twice when the table has none twice |
| `Grading.CorrectIds` | onlinecourse/views.py:136 | the correct choices of a question are among the catalog's correct choices |
| `Grading.SelectedIds` | onlinecourse/views.py:138 | the selected choices of a question are among the submission's selected ids |
| `Grading.AnsweredExactly` | onlinecourse/views.py:141 | the set comparison of the two: when it holds, every correct choice of the question was selected |
| `Grading.QuestionScore` | onlinecourse/views.py:140-142 | all or nothing: a question earns its whole grade or 0, and earning a nonzero grade means every correct choice was selected |
| `Grading.Score` | onlinecourse/views.py:130-142 | the sum over the questions: every question answered exactly gives the total grade, and none answered exactly gives 0 |
| `Grading.SelectedChoices` | onlinecourse/views.py:128 | exactly the catalog choices whose id the submission selected |
| `Views.Site.ShowExamResult` | onlinecourse/views.py:124-149 | 404 for an unknown course or submission; otherwise the grade equals `Grading.Score` over the course's questions and the submission's choices, and the page shows that course, that submission and its selected choices |
| `Grading.ExtraIncorrectChoiceLoses` | onlinecourse/views.py:140-142 | selecting an incorrect choice of a question gives 0 for that question |
| `Grading.MissingCorrectChoiceLoses` | onlinecourse/views.py:140-142 | omitting a correct choice of a question gives 0 for that question |
| `Grading.NoCorrectChoiceNeedsNoSelection` | onlinecourse/views.py:136-142 | a question with no correct choice is earned iff none of its choices is selected |
| `Grading.ScoreBounds` | onlinecourse/views.py:130-142 | with non-negative grades, 0 <= score <= sum of grades |
| `Grading.ForeignChoicesIgnored` | onlinecourse/views.py:138 | selected ids that belong to no question of the course never change the score |
| `Grading.PerfectSubmissionEarnsAll` | onlinecourse/views.py:134-142 | selecting exactly the correct choices earns the sum of all grades |
| `Grading.ScoreAppend` | onlinecourse/views.py:134-142 | the score of two lists of questions is the sum of their scores |
| `Grading.ScoreIgnoresOrder` | onlinecourse/views.py:132-134 | the score does not depend on the order in which the questions are fetched |
| `Grading.OneQuestionExample` | onlinecourse/views.py:134-142 | one 10-point question with correct {1, 2}: {1, 2} scores 10; {1}, {1, 2, 3} and {} score 0 |
| `Grading.TwoQuestionExample` | onlinecourse/views.py:134-142 | questions worth 5 and 10, answered right on the first only: 5 |

## Left out

- Registration, login and logout (views.py:17-58): framework authentication,
  sessions and password storage. The model takes the request's user as a
  parameter.
- Template rendering, `reverse` and `HttpResponseRedirect`: each view returns
  a `Redirect` or `ExamResult` value instead.
- `CourseDetailView` (views.py:82-84): a generic framework view with no logic
  of its own.
- `onlinecourse/urls.py`: route wiring only.
- Logging (views.py:13, 31).
- The race between two concurrent enrolls of the same pair (views.py:90-94).
  The model is sequential, so each view runs to completion before the next.
- Course, question and choice fields that no view reads: descriptions,
  images, dates, instructors, and the enrollment date and rating.
- The database's foreign-key check when a submission's choice set is stored
  (views.py:120). The model stores the extracted ids as given.
- Answers.ParseInt: accepts only an optional sign followed by ASCII digits.
  It does not model the surrounding whitespace, digit-group underscores or
  non-ASCII digits that Python's `int()` also accepts.
- Answers.ExtractAnswers: a form is a sequence of (key, value) pairs. For a
  key sent more than once, the value is the last one sent, as the framework's
  form dictionary returns it. The model does not represent the other values.
  The framework's dictionary yields each key once, so a sequence that repeats
  a key stands for no request; on one, the model would read every copy.
- Enrollments.GetEnrollment: a lookup for the anonymous user returns the
  error `AnonymousLookup`. In the framework that query raises an error that
  fails the request. The model does not say which exception it is.
- Listing.SortByEnrollment: the database returns courses with equal
  counters in no specified order. The model fixes one order, a stable
  insertion order. The order, size and top-page properties proved about the
  page hold whichever order ties come in.
