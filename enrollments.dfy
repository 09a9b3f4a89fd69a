/** The enrollment ledger: the course table with its enrollment counters and
    the enrollment table, and the transition the enroll view makes on them. */
module Enrollments {
  import opened Records

  /** The two tables that enrolling reads and writes. */
  datatype Ledger = Ledger(courses: seq<Course>, enrollments: seq<Enrollment>)

  /** The course table's primary key: no two rows share an id. */
  predicate UniqueCourseIds(cs: seq<Course>) {
    forall i, j :: 0 <= i < j < |cs| ==> cs[i].id != cs[j].id
  }

  /** Looking a course up by primary key: its position, or None (a 404). */
  function FindCourse(cs: seq<Course>, cid: CourseId): (r: Option<nat>)
    ensures r.Some? ==> r.value < |cs| && cs[r.value].id == cid
    ensures r.None? <==> forall i :: 0 <= i < |cs| ==> cs[i].id != cid
  {
    FindByKey(cs, CourseKey, cid)
  }

  /** Two course tables that differ at most in their counters. */
  predicate SameCourseIds(a: seq<Course>, b: seq<Course>) {
    |a| == |b| && forall i :: 0 <= i < |a| ==> a[i].id == b[i].id
  }

  /** The lookup depends on the ids alone, not on the counters. */
  lemma FindCourseIgnoresCounters(a: seq<Course>, b: seq<Course>, cid: CourseId)
    requires SameCourseIds(a, b)
    ensures FindCourse(a, cid) == FindCourse(b, cid)
  {
    FindByKeyReadsKeysOnly(a, b, CourseKey, cid);
  }

  /** The records of one (user, course) pair, in table order. */
  function Matching(es: seq<Enrollment>, uid: UserId, cid: CourseId): (r: seq<Enrollment>)
    ensures |r| <= |es|
    ensures forall e :: e in r <==> e in es && e.userId == uid && e.courseId == cid
  {
    if es == [] then []
    else
      var init := Matching(es[..|es| - 1], uid, cid);
      var e := es[|es| - 1];
      assert es == es[..|es| - 1] + [e];
      if e.userId == uid && e.courseId == cid then init + [e] else init
  }

  /** The records of one course: what its counter is meant to count. */
  function ForCourse(es: seq<Enrollment>, cid: CourseId): (r: seq<Enrollment>)
    ensures |r| <= |es|
    ensures forall e :: e in r <==> e in es && e.courseId == cid
  {
    if es == [] then []
    else
      var init := ForCourse(es[..|es| - 1], cid);
      var e := es[|es| - 1];
      assert es == es[..|es| - 1] + [e];
      if e.courseId == cid then init + [e] else init
  }

  predicate HasEnrollment(es: seq<Enrollment>, uid: UserId, cid: CourseId) {
    exists e :: e in es && e.userId == uid && e.courseId == cid
  }

  /** Whether a user counts as enrolled: never the anonymous user, otherwise
      exactly when a record exists for the pair. */
  predicate IsEnrolled(es: seq<Enrollment>, u: User, cid: CourseId) {
    u.Member? && HasEnrollment(es, u.id, cid)
  }

  /** The ledger's uniqueness rule: at most one record per (user, course). */
  predicate NoDuplicates(es: seq<Enrollment>) {
    forall i, j :: 0 <= i < j < |es| ==>
      es[i].userId != es[j].userId || es[i].courseId != es[j].courseId
  }

  /** Every course's counter equals the number of its enrollment records. */
  predicate CountersMatch(l: Ledger) {
    forall i :: 0 <= i < |l.courses| ==>
      l.courses[i].totalEnrollment == |ForCourse(l.enrollments, l.courses[i].id)|
  }

  /** Without duplicates a pair has at most one record. */
  lemma {:induction false} MatchingAtMostOne(es: seq<Enrollment>, uid: UserId, cid: CourseId)
    requires NoDuplicates(es)
    ensures |Matching(es, uid, cid)| <= 1
  {
    if es != [] {
      var init := es[..|es| - 1];
      var e := es[|es| - 1];
      assert NoDuplicates(init);
      MatchingAtMostOne(init, uid, cid);
      if e.userId == uid && e.courseId == cid {
        forall d | d in init ensures d.userId != uid || d.courseId != cid {
          var k :| 0 <= k < |init| && init[k] == d;
          assert es[k] == d;
        }
        var m := Matching(init, uid, cid);
        assert |m| > 0 ==> m[0] in m;
      }
    }
  }

  /** The enrollment lookup of the submit view: the one record of the pair,
      a 404 when there is none, and an error when there are several or the
      user is anonymous. */
  function GetEnrollment(es: seq<Enrollment>, u: User, cid: CourseId): (r: Result<Enrollment>)
    ensures r.Ok? ==> u.Member? && r.value in es && r.value.userId == u.id && r.value.courseId == cid
    ensures r == Err(NotFound) <==> u.Member? && !HasEnrollment(es, u.id, cid)
    ensures r == Err(AnonymousLookup) <==> u.Anonymous?
    ensures NoDuplicates(es) && IsEnrolled(es, u, cid) ==> r.Ok?
    ensures u.Member? && |Matching(es, u.id, cid)| > 1 ==> r == Err(MultipleObjectsReturned)
    ensures r.Err? ==> r.error.NotFound? || r.error.MultipleObjectsReturned? || r.error.AnonymousLookup?
  {
    if u.Anonymous? then Err(AnonymousLookup)
    else
      var m := Matching(es, u.id, cid);
      assert NoDuplicates(es) ==> |m| <= 1 by {
        if NoDuplicates(es) { MatchingAtMostOne(es, u.id, cid); }
      }
      if |m| == 0 then
        Err(NotFound)
      else
        assert m[0] in m;
        if |m| == 1 then Ok(m[0]) else Err(MultipleObjectsReturned)
  }

  /** The enroll view on the ledger: a 404 for an unknown course; otherwise a
      new honor-mode record and a counter raised by one for an authenticated
      user not yet enrolled, and no change at all for anyone else. */
  function Enroll(l: Ledger, u: User, cid: CourseId): (r: Result<Ledger>)
    ensures r.Err? ==> r == Err(NotFound)
    ensures r.Ok? ==> SameCourseIds(l.courses, r.value.courses)
    ensures r.Ok? ==> l.enrollments <= r.value.enrollments && |r.value.enrollments| <= |l.enrollments| + 1
  {
    match FindCourse(l.courses, cid)
    case None => Err(NotFound)
    case Some(i) =>
      if !IsEnrolled(l.enrollments, u, cid) && u.IsAuthenticated() then
        var c := l.courses[i];
        Ok(Ledger(l.courses[i := c.(totalEnrollment := c.totalEnrollment + 1)],
                  l.enrollments + [Enrollment(u.id, cid, HonorMode)]))
      else
        Ok(l)
  }

  /** Enrolling fails exactly for a course that does not exist. */
  lemma EnrollFailsOnlyForUnknownCourse(l: Ledger, u: User, cid: CourseId)
    ensures Enroll(l, u, cid).Err? <==> forall i :: 0 <= i < |l.courses| ==> l.courses[i].id != cid
    ensures Enroll(l, u, cid).Err? ==> Enroll(l, u, cid).error == NotFound
  {
  }

  /** A first enrollment adds exactly the record (user, course, honor) and
      raises exactly that course's counter by one; every other course row
      and every other record is left as it was. */
  lemma EnrollAddsOneRecord(l: Ledger, u: User, cid: CourseId)
    requires UniqueCourseIds(l.courses)
    requires exists i :: 0 <= i < |l.courses| && l.courses[i].id == cid
    requires u.Member? && !HasEnrollment(l.enrollments, u.id, cid)
    ensures Enroll(l, u, cid).Ok?
    ensures Enroll(l, u, cid).value.enrollments == l.enrollments + [Enrollment(u.id, cid, HonorMode)]
    ensures SameCourseIds(Enroll(l, u, cid).value.courses, l.courses)
    ensures forall j :: 0 <= j < |l.courses| ==>
      var c, c' := l.courses[j], Enroll(l, u, cid).value.courses[j];
      c'.name == c.name &&
      c'.totalEnrollment == if c.id == cid then c.totalEnrollment + 1 else c.totalEnrollment
  {
  }

  /** An anonymous caller, or a user already enrolled, changes nothing. */
  lemma EnrollNoOp(l: Ledger, u: User, cid: CourseId)
    requires exists i :: 0 <= i < |l.courses| && l.courses[i].id == cid
    requires u.Anonymous? || HasEnrollment(l.enrollments, u.id, cid)
    ensures Enroll(l, u, cid) == Ok(l)
  {
  }

  /** After enrolling, the user counts as enrolled (unless anonymous). */
  lemma EnrolledAfterEnroll(l: Ledger, u: User, cid: CourseId)
    requires Enroll(l, u, cid).Ok? && u.Member?
    ensures IsEnrolled(Enroll(l, u, cid).value.enrollments, u, cid)
  {
    var e := Enrollment(u.id, cid, HonorMode);
    if !IsEnrolled(l.enrollments, u, cid) {
      assert e in Enroll(l, u, cid).value.enrollments;
    }
  }

  /** Enrolling twice is enrolling once. */
  lemma EnrollIdempotent(l: Ledger, u: User, cid: CourseId)
    requires Enroll(l, u, cid).Ok?
    ensures Enroll(Enroll(l, u, cid).value, u, cid) == Enroll(l, u, cid)
  {
    var l' := Enroll(l, u, cid).value;
    if l' != l {
      var i := FindCourse(l.courses, cid).value;
      FindCourseIgnoresCounters(l.courses, l'.courses, cid);
      EnrolledAfterEnroll(l, u, cid);
    }
  }

  /** Enrolling keeps the uniqueness rule of the enrollment table. */
  lemma EnrollKeepsNoDuplicates(l: Ledger, u: User, cid: CourseId)
    requires NoDuplicates(l.enrollments)
    requires Enroll(l, u, cid).Ok?
    ensures NoDuplicates(Enroll(l, u, cid).value.enrollments)
  {
    var es := l.enrollments;
    var es' := Enroll(l, u, cid).value.enrollments;
    if es' != es {
      forall i, j | 0 <= i < j < |es'|
        ensures es'[i].userId != es'[j].userId || es'[i].courseId != es'[j].courseId
      {
        if j == |es| {
          assert es'[i] in es;
        }
      }
    }
  }

  /** The ledger's integrity rules: unique course keys, one record per pair,
      and every record naming an existing course. */
  predicate WellFormed(l: Ledger) {
    && UniqueCourseIds(l.courses)
    && NoDuplicates(l.enrollments)
    && forall e :: e in l.enrollments ==> FindCourse(l.courses, e.courseId).Some?
  }

  /** Enrolling keeps the integrity rules. */
  lemma EnrollKeepsWellFormed(l: Ledger, u: User, cid: CourseId)
    requires WellFormed(l)
    requires Enroll(l, u, cid).Ok?
    ensures WellFormed(Enroll(l, u, cid).value)
  {
    var l' := Enroll(l, u, cid).value;
    EnrollKeepsNoDuplicates(l, u, cid);
    assert SameCourseIds(l.courses, l'.courses);
    forall e | e in l'.enrollments ensures FindCourse(l'.courses, e.courseId).Some? {
      FindCourseIgnoresCounters(l.courses, l'.courses, e.courseId);
    }
  }

  /** One more record at the end of the table counts for its own course only. */
  lemma ForCourseAppend(es: seq<Enrollment>, e: Enrollment, cid: CourseId)
    ensures |ForCourse(es + [e], cid)| == |ForCourse(es, cid)| + (if e.courseId == cid then 1 else 0)
  {
    assert (es + [e])[..|es|] == es;
  }

  /** Enrolling moves each counter exactly as far as the number of its
      course's records: the gap between counter and records is kept for
      every course. */
  lemma EnrollKeepsCounterGap(l: Ledger, u: User, cid: CourseId, j: int)
    requires UniqueCourseIds(l.courses)
    requires Enroll(l, u, cid).Ok?
    requires 0 <= j < |l.courses|
    ensures var l' := Enroll(l, u, cid).value;
      |l'.courses| == |l.courses| &&
      l'.courses[j].totalEnrollment - |ForCourse(l'.enrollments, l'.courses[j].id)|
        == l.courses[j].totalEnrollment - |ForCourse(l.enrollments, l.courses[j].id)|
  {
    var l' := Enroll(l, u, cid).value;
    if l' != l {
      var i := FindCourse(l.courses, cid).value;
      ForCourseAppend(l.enrollments, Enrollment(u.id, cid, HonorMode), l.courses[j].id);
      assert j != i ==> l.courses[j].id != cid;
    }
  }

  /** So a ledger whose counters match its records still does after enrolling. */
  lemma EnrollKeepsCountersMatched(l: Ledger, u: User, cid: CourseId)
    requires UniqueCourseIds(l.courses) && CountersMatch(l)
    requires Enroll(l, u, cid).Ok?
    ensures CountersMatch(Enroll(l, u, cid).value)
  {
    var l' := Enroll(l, u, cid).value;
    forall j | 0 <= j < |l'.courses|
      ensures l'.courses[j].totalEnrollment == |ForCourse(l'.enrollments, l'.courses[j].id)|
    {
      EnrollKeepsCounterGap(l, u, cid, j);
    }
  }
}
