/** The course list page: the courses with the most enrollments first,
    at most one page of them. */
module Listing {
  import opened Records

  /** How many courses the list page shows. */
  const PageSize: nat := 10

  /** Ordered by the enrollment counter, largest first. */
  predicate ByEnrollmentDesc(cs: seq<Course>) {
    forall i, j :: 0 <= i < j < |cs| ==> cs[i].totalEnrollment >= cs[j].totalEnrollment
  }

  /** Puts `c` into an ordered list, ahead of every course with the same counter. */
  function InsertByEnrollment(c: Course, s: seq<Course>): (r: seq<Course>)
    requires ByEnrollmentDesc(s)
    ensures ByEnrollmentDesc(r)
    ensures multiset(r) == multiset(s) + multiset{c}
    ensures |r| == |s| + 1
    ensures r[0] == c || (s != [] && r[0] == s[0])
  {
    if s == [] || c.totalEnrollment >= s[0].totalEnrollment then
      [c] + s
    else
      var rest := InsertByEnrollment(c, s[1..]);
      assert s == [s[0]] + s[1..];
      [s[0]] + rest
  }

  /** The order the database returns for "order by total_enrollment,
      descending": a rearrangement of the table, largest counter first. */
  function SortByEnrollment(cs: seq<Course>): (r: seq<Course>)
    ensures ByEnrollmentDesc(r)
    ensures multiset(r) == multiset(cs)
  {
    if cs == [] then []
    else
      assert cs == [cs[0]] + cs[1..];
      InsertByEnrollment(cs[0], SortByEnrollment(cs[1..]))
  }

  /** The first page of that order. */
  function TopCourses(cs: seq<Course>): (r: seq<Course>)
    ensures |r| == if |cs| < PageSize then |cs| else PageSize
    ensures ByEnrollmentDesc(r)
    ensures multiset(r) <= multiset(cs)
  {
    var sorted := SortByEnrollment(cs);
    assert |sorted| == |multiset(sorted)| == |cs|;
    if |sorted| <= PageSize then sorted
    else
      assert sorted == sorted[..PageSize] + sorted[PageSize..];
      sorted[..PageSize]
  }

  /** No course left off the page has more enrollments than any course on it. */
  lemma TopCoursesAreTop(cs: seq<Course>, c: Course, k: int)
    requires c in cs && c !in TopCourses(cs)
    requires 0 <= k < |TopCourses(cs)|
    ensures c.totalEnrollment <= TopCourses(cs)[k].totalEnrollment
  {
    var sorted := SortByEnrollment(cs);
    var top := TopCourses(cs);
    assert |sorted| == |cs| by {
      assert |multiset(sorted)| == |multiset(cs)|;
    }
    assert top == if |sorted| <= PageSize then sorted else sorted[..PageSize];
    assert forall i :: 0 <= i < |top| ==> top[i] == sorted[i];
    assert c in multiset(sorted) by {
      assert c in multiset(cs);
    }
    var j :| 0 <= j < |sorted| && sorted[j] == c;
    assert forall i :: 0 <= i < |top| ==> sorted[i] != c;
    assert k < j;
  }

  /** Every course on the page is a course of the table. */
  lemma TopCoursesComeFromTable(cs: seq<Course>, k: int)
    requires 0 <= k < |TopCourses(cs)|
    ensures TopCourses(cs)[k] in cs
  {
    var top := TopCourses(cs);
    assert top[k] in multiset(top);
  }
}
