/** Grading an exam submission: a question earns its full grade when the
    selected choices belonging to it are exactly its correct choices, and
    nothing otherwise; the score is the sum over the course's questions. */
module Grading {
  import opened Records

  /** No question appears twice. */
  predicate Distinct(qs: seq<Question>) {
    forall i, j :: 0 <= i < j < |qs| ==> qs[i] != qs[j]
  }

  /** The questions of a course, in table order. */
  function CourseQuestions(qs: seq<Question>, cid: CourseId): (r: seq<Question>)
    ensures |r| <= |qs|
    ensures forall q :: q in r <==> q in qs && q.courseId == cid
    ensures Distinct(qs) ==> Distinct(r)
  {
    if qs == [] then []
    else
      var init := CourseQuestions(qs[..|qs| - 1], cid);
      var q := qs[|qs| - 1];
      assert qs == qs[..|qs| - 1] + [q];
      assert Distinct(qs) ==> q !in init by {
        if Distinct(qs) {
          var before := qs[..|qs| - 1];
          forall k | 0 <= k < |before| ensures before[k] != q {
            assert before[k] == qs[k];
          }
        }
      }
      if q.courseId == cid then init + [q] else init
  }

  /** The catalog rows of the selected choice ids, in table order. */
  function SelectedChoices(cs: seq<Choice>, selected: set<ChoiceId>): (r: seq<Choice>)
    ensures |r| <= |cs|
    ensures forall c :: c in r <==> c in cs && c.id in selected
  {
    if cs == [] then []
    else
      var init := SelectedChoices(cs[..|cs| - 1], selected);
      var c := cs[|cs| - 1];
      assert cs == cs[..|cs| - 1] + [c];
      if c.id in selected then init + [c] else init
  }

  /** The ids of the correct choices of question q. */
  function CorrectIds(q: Question, cs: seq<Choice>): (r: set<ChoiceId>)
    ensures r <= AllCorrectIds(cs)
  {
    set c | c in cs && c.questionId == q.id && c.isCorrect :: c.id
  }

  /** The ids of the selected choices that belong to question q. */
  function SelectedIds(q: Question, cs: seq<Choice>, selected: set<ChoiceId>): (r: set<ChoiceId>)
    ensures r <= selected
  {
    set c | c in cs && c.questionId == q.id && c.id in selected :: c.id
  }

  /** All of q's correct choices are selected, and none of its others. */
  predicate AnsweredExactly(q: Question, cs: seq<Choice>, selected: set<ChoiceId>)
    ensures AnsweredExactly(q, cs, selected) ==> CorrectIds(q, cs) <= selected
  {
    CorrectIds(q, cs) == SelectedIds(q, cs, selected)
  }

  /** All or nothing: a question earns its whole grade or none of it. */
  function QuestionScore(q: Question, cs: seq<Choice>, selected: set<ChoiceId>): (r: int)
    ensures r == 0 || r == q.grade
    ensures r != 0 ==> CorrectIds(q, cs) <= selected
  {
    if AnsweredExactly(q, cs, selected) then q.grade else 0
  }

  /** The sum of the earned grades. */
  function Score(qs: seq<Question>, cs: seq<Choice>, selected: set<ChoiceId>): (r: int)
    ensures (forall q :: q in qs ==> AnsweredExactly(q, cs, selected)) ==> r == TotalGrade(qs)
    ensures (forall q :: q in qs ==> !AnsweredExactly(q, cs, selected)) ==> r == 0
  {
    if qs == [] then 0
    else
      var init := qs[..|qs| - 1];
      assert forall q :: q in init ==> q in qs;
      Score(init, cs, selected) + QuestionScore(qs[|qs| - 1], cs, selected)
  }

  /** The sum of all grades: the best possible score. */
  function TotalGrade(qs: seq<Question>): int {
    if qs == [] then 0 else TotalGrade(qs[..|qs| - 1]) + qs[|qs| - 1].grade
  }

  predicate NonNegativeGrades(qs: seq<Question>) {
    forall q :: q in qs ==> q.grade >= 0
  }

  /** The choice table's primary key: no two rows share an id. */
  predicate UniqueChoiceIds(cs: seq<Choice>) {
    forall i, j :: 0 <= i < j < |cs| ==> cs[i].id != cs[j].id
  }

  /** Selecting an incorrect choice of a question loses that question. */
  lemma ExtraIncorrectChoiceLoses(q: Question, cs: seq<Choice>, selected: set<ChoiceId>, c: Choice)
    requires UniqueChoiceIds(cs)
    requires c in cs && c.questionId == q.id && !c.isCorrect && c.id in selected
    ensures !AnsweredExactly(q, cs, selected) && QuestionScore(q, cs, selected) == 0
  {
    assert c.id in SelectedIds(q, cs, selected);
    forall c' | c' in cs && c'.isCorrect ensures c'.id != c.id {
      var i :| 0 <= i < |cs| && cs[i] == c;
      var j :| 0 <= j < |cs| && cs[j] == c';
      assert i != j;
    }
    assert c.id !in CorrectIds(q, cs);
  }

  /** Leaving out a correct choice of a question loses that question. */
  lemma MissingCorrectChoiceLoses(q: Question, cs: seq<Choice>, selected: set<ChoiceId>, c: Choice)
    requires c in cs && c.questionId == q.id && c.isCorrect && c.id !in selected
    ensures !AnsweredExactly(q, cs, selected) && QuestionScore(q, cs, selected) == 0
  {
    assert c.id in CorrectIds(q, cs);
  }

  /** A question without correct choices is earned exactly when none of its
      choices is selected. */
  lemma NoCorrectChoiceNeedsNoSelection(q: Question, cs: seq<Choice>, selected: set<ChoiceId>)
    requires forall c :: c in cs && c.questionId == q.id ==> !c.isCorrect
    ensures AnsweredExactly(q, cs, selected) <==>
      forall c :: c in cs && c.questionId == q.id ==> c.id !in selected
  {
    assert CorrectIds(q, cs) == {};
    if exists c :: c in cs && c.questionId == q.id && c.id in selected {
      var c :| c in cs && c.questionId == q.id && c.id in selected;
      assert c.id in SelectedIds(q, cs, selected);
    }
  }

  /** With no negative grades, a score lies between 0 and the total grade. */
  lemma {:induction false} ScoreBounds(qs: seq<Question>, cs: seq<Choice>, selected: set<ChoiceId>)
    requires NonNegativeGrades(qs)
    ensures 0 <= Score(qs, cs, selected) <= TotalGrade(qs)
  {
    if qs != [] {
      var init := qs[..|qs| - 1];
      assert NonNegativeGrades(init) by {
        forall q | q in init ensures q.grade >= 0 {
          assert q in qs;
        }
      }
      ScoreBounds(init, cs, selected);
      assert qs[|qs| - 1] in qs;
    }
  }

  /** Choice ids that belong to no question of the course never change the score. */
  lemma {:induction false} ForeignChoicesIgnored(qs: seq<Question>, cs: seq<Choice>, selected: set<ChoiceId>, extra: set<ChoiceId>)
    requires forall c, q :: c in cs && q in qs && c.questionId == q.id ==> c.id !in extra
    ensures Score(qs, cs, selected + extra) == Score(qs, cs, selected)
  {
    if qs != [] {
      var init := qs[..|qs| - 1];
      var q := qs[|qs| - 1];
      ForeignChoicesIgnored(init, cs, selected, extra);
      assert SelectedIds(q, cs, selected + extra) == SelectedIds(q, cs, selected) by {
        assert q in qs;
      }
    }
  }

  /** The ids of all correct choices in the catalog. */
  function AllCorrectIds(cs: seq<Choice>): set<ChoiceId> {
    set c | c in cs && c.isCorrect :: c.id
  }

  /** Selecting every correct choice and nothing else earns every grade. */
  lemma PerfectSubmissionEarnsAll(qs: seq<Question>, cs: seq<Choice>)
    requires UniqueChoiceIds(cs)
    ensures Score(qs, cs, AllCorrectIds(cs)) == TotalGrade(qs)
  {
    forall q | q in qs ensures AnsweredExactly(q, cs, AllCorrectIds(cs)) {
      forall x | x in SelectedIds(q, cs, AllCorrectIds(cs)) ensures x in CorrectIds(q, cs) {
        var c :| c in cs && c.questionId == q.id && c.id == x && x in AllCorrectIds(cs);
        var c' :| c' in cs && c'.isCorrect && c'.id == x;
        var i :| 0 <= i < |cs| && cs[i] == c;
        var j :| 0 <= j < |cs| && cs[j] == c';
        assert i == j;
      }
    }
  }

  /** The score of two lists of questions together is the sum of their scores. */
  lemma {:induction false} ScoreAppend(a: seq<Question>, b: seq<Question>, cs: seq<Choice>, selected: set<ChoiceId>)
    ensures Score(a + b, cs, selected) == Score(a, cs, selected) + Score(b, cs, selected)
  {
    if b == [] {
      assert a + b == a;
    } else {
      var b' := b[..|b| - 1];
      ScoreAppend(a, b', cs, selected);
      assert (a + b)[..|a + b| - 1] == a + b';
    }
  }

  /** Taking one question out of a list takes out exactly its score. */
  lemma ScoreRemoveAt(b: seq<Question>, j: int, cs: seq<Choice>, selected: set<ChoiceId>)
    requires 0 <= j < |b|
    ensures Score(b, cs, selected) == Score(b[..j] + b[j + 1..], cs, selected) + QuestionScore(b[j], cs, selected)
  {
    var pre, post := b[..j], b[j + 1..];
    assert b == pre + ([b[j]] + post);
    ScoreAppend(pre, [b[j]] + post, cs, selected);
    ScoreAppend([b[j]], post, cs, selected);
    ScoreAppend(pre, post, cs, selected);
    assert Score([b[j]], cs, selected) == QuestionScore(b[j], cs, selected) by {
      assert [b[j]][..0] == [];
    }
  }

  lemma MultisetRemoveAt(b: seq<Question>, j: int)
    requires 0 <= j < |b|
    ensures multiset(b[..j] + b[j + 1..]) == multiset(b) - multiset{b[j]}
  {
    assert b == b[..j] + [b[j]] + b[j + 1..];
  }

  /** The order the questions come in does not matter. */
  lemma {:induction false} ScoreIgnoresOrder(a: seq<Question>, b: seq<Question>, cs: seq<Choice>, selected: set<ChoiceId>)
    requires multiset(a) == multiset(b)
    ensures Score(a, cs, selected) == Score(b, cs, selected)
  {
    if a != [] {
      var a' := a[..|a| - 1];
      var x := a[|a| - 1];
      assert a == a' + [x];
      assert multiset(a') == multiset(a) - multiset{x};
      assert x in multiset(b);
      var j :| 0 <= j < |b| && b[j] == x;
      MultisetRemoveAt(b, j);
      ScoreIgnoresOrder(a', b[..j] + b[j + 1..], cs, selected);
      ScoreRemoveAt(b, j, cs, selected);
    }
  }

  /** One question worth 10 points with correct choices 1 and 2 and an
      incorrect choice 3: only the selection {1, 2} earns the points. */
  lemma OneQuestionExample()
    ensures var q := Question(1, 1, "q", 10);
            var cs := [Choice(1, 1, "a", true), Choice(2, 1, "b", true), Choice(3, 1, "c", false)];
            && Score([q], cs, {1, 2}) == 10
            && Score([q], cs, {1}) == 0
            && Score([q], cs, {1, 2, 3}) == 0
            && Score([q], cs, {}) == 0
  {
    var q := Question(1, 1, "q", 10);
    var cs := [Choice(1, 1, "a", true), Choice(2, 1, "b", true), Choice(3, 1, "c", false)];
    assert [q][..0] == [];
    assert CorrectIds(q, cs) == {1, 2};
    assert SelectedIds(q, cs, {1, 2}) == {1, 2};
    assert 2 !in SelectedIds(q, cs, {1});
    assert 3 in SelectedIds(q, cs, {1, 2, 3});
    assert SelectedIds(q, cs, {}) == {};
  }

  /** Two questions worth 5 and 10 points, answered right on the first only: 5. */
  lemma TwoQuestionExample()
    ensures var q1, q2 := Question(1, 1, "q1", 5), Question(2, 1, "q2", 10);
            var cs := [Choice(1, 1, "a", true), Choice(2, 1, "b", false),
                       Choice(3, 2, "c", true), Choice(4, 2, "d", false)];
            Score([q1, q2], cs, {1, 4}) == 5
  {
    var q1, q2 := Question(1, 1, "q1", 5), Question(2, 1, "q2", 10);
    var cs := [Choice(1, 1, "a", true), Choice(2, 1, "b", false),
               Choice(3, 2, "c", true), Choice(4, 2, "d", false)];
    assert [q1, q2][..1] == [q1];
    assert [q1][..0] == [];
    assert CorrectIds(q1, cs) == {1};
    assert SelectedIds(q1, cs, {1, 4}) == {1};
    assert Score([q1], cs, {1, 4}) == 5;
    assert 3 in CorrectIds(q2, cs) && 3 !in SelectedIds(q2, cs, {1, 4});
    assert QuestionScore(q2, cs, {1, 4}) == 0;
  }
}
