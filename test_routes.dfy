/** Quiz scoring and the quiz listing (app/routes/tests.py): a submission
    is scored against the test's questions in their `order`, and the
    result row records score, percentage and pass/fail. */
module TestRoutes {
  import opened Http
  import opened Seqs
  import opened Users
  import opened Dependencies

  datatype Test = Test(
    id: nat,
    title: string,
    videoId: Option<int>,
    category: Option<string>,
    subject: Option<string>,
    timeLimit: int,
    passingScore: int,
    isPublished: bool)

  datatype TestQuestion = TestQuestion(
    id: nat,
    testId: nat,
    questionText: string,
    options: seq<string>,
    correctAnswer: int,
    order: int)

  datatype TestResult = TestResult(
    id: nat,
    userId: nat,
    testId: nat,
    score: nat,
    totalQuestions: nat,
    percentage: nat,
    timeSpent: Option<int>,
    passed: bool,
    answers: seq<int>)

  /** The submission payload (`TestResultCreate`). */
  datatype TestResultCreate = TestResultCreate(testId: nat, answers: seq<int>, timeSpent: Option<int>)

  // ---------- scoring ----------

  /** Answer `i` was given and names the question's correct option. */
  predicate Correct(qs: seq<TestQuestion>, answers: seq<int>, i: nat)
    requires i < |qs|
  {
    i < |answers| && answers[i] == qs[i].correctAnswer
  }

  /** The number of correct answers among the first `n` questions. */
  function CorrectBefore(qs: seq<TestQuestion>, answers: seq<int>, n: nat): (c: nat)
    requires n <= |qs|
    ensures c <= n
  {
    if n == 0 then 0
    else CorrectBefore(qs, answers, n - 1) + if Correct(qs, answers, n - 1) then 1 else 0
  }

  function Score(qs: seq<TestQuestion>, answers: seq<int>): nat {
    CorrectBefore(qs, answers, |qs|)
  }

  /** The positions among the first `n` that were answered correctly. */
  function CorrectPositions(qs: seq<TestQuestion>, answers: seq<int>, n: nat): set<nat>
    requires n <= |qs|
  {
    set i: nat | i < n && Correct(qs, answers, i)
  }

  /** The score is the number of correctly answered positions. */
  lemma {:induction false} ScoreCountsCorrectPositions(qs: seq<TestQuestion>, answers: seq<int>, n: nat)
    requires n <= |qs|
    ensures CorrectBefore(qs, answers, n) == |CorrectPositions(qs, answers, n)|
  {
    if n > 0 {
      ScoreCountsCorrectPositions(qs, answers, n - 1);
      var before := CorrectPositions(qs, answers, n - 1);
      if Correct(qs, answers, n - 1) {
        assert CorrectPositions(qs, answers, n) == before + {n - 1};
      } else {
        assert CorrectPositions(qs, answers, n) == before;
      }
    }
  }

  /** Every answer correct gives the full score. */
  lemma {:induction false} AllCorrectScoresFull(qs: seq<TestQuestion>, answers: seq<int>, n: nat)
    requires n <= |qs|
    requires forall i | 0 <= i < n :: Correct(qs, answers, i)
    ensures CorrectBefore(qs, answers, n) == n
  {
    if n > 0 {
      AllCorrectScoresFull(qs, answers, n - 1);
    }
  }

  /** No answer correct gives zero. */
  lemma {:induction false} NoneCorrectScoresZero(qs: seq<TestQuestion>, answers: seq<int>, n: nat)
    requires n <= |qs|
    requires forall i | 0 <= i < n :: !Correct(qs, answers, i)
    ensures CorrectBefore(qs, answers, n) == 0
  {
    if n > 0 {
      NoneCorrectScoresZero(qs, answers, n - 1);
    }
  }

  /** The scoring loop of `submit_test`. */
  method ScoreAnswers(qs: seq<TestQuestion>, answers: seq<int>) returns (score: nat)
    ensures score == Score(qs, answers)
    ensures score <= |qs|
  {
    score := 0;
    for i := 0 to |qs|
      invariant score == CorrectBefore(qs, answers, i)
    {
      if i < |answers| && answers[i] == qs[i].correctAnswer {
        score := score + 1;
      }
    }
  }

  /** The integer percentage of correct answers, rounded down; 0 for a
      test without questions. */
  function Percentage(score: nat, total: nat): (p: nat)
    ensures total == 0 ==> p == 0
    ensures total > 0 ==> p * total <= score * 100 < (p + 1) * total
    ensures score <= total ==> p <= 100
    ensures 0 < total == score ==> p == 100
    ensures score == 0 ==> p == 0
  {
    if total > 0 then
      var p := (score * 100) / total;
      assert score <= total ==> p <= 100 by {
        if score <= total {
          assert score * 100 <= total * 100;
          DivBound(score * 100, total, 100);
        }
      }
      p
    else 0
  }

  /** `a / d <= m` when `a <= d * m`. */
  lemma DivBound(a: nat, d: nat, m: nat)
    requires d > 0 && a <= d * m
    ensures a / d <= m
  {
    assert (a / d) * d <= a;
    MulCancel(a / d, m, d);
  }

  /** Cancelling a positive factor, by induction on the left operand. */
  lemma {:induction false} MulCancel(x: nat, y: nat, d: nat)
    requires d > 0 && x * d <= y * d
    ensures x <= y
  {
    if x > 0 && y > 0 {
      assert (x - 1) * d == x * d - d && (y - 1) * d == y * d - d;
      MulCancel(x - 1, y - 1, d);
    }
  }

  /** A non-empty test answered entirely correctly scores 100 percent;
      one answered entirely wrongly scores 0. */
  lemma ExtremeSubmissions(qs: seq<TestQuestion>, answers: seq<int>)
    ensures |qs| > 0 && (forall i | 0 <= i < |qs| :: Correct(qs, answers, i))
            ==> Percentage(Score(qs, answers), |qs|) == 100
    ensures (forall i | 0 <= i < |qs| :: !Correct(qs, answers, i))
            ==> Percentage(Score(qs, answers), |qs|) == 0
  {
    if forall i | 0 <= i < |qs| :: Correct(qs, answers, i) {
      AllCorrectScoresFull(qs, answers, |qs|);
    }
    if forall i | 0 <= i < |qs| :: !Correct(qs, answers, i) {
      NoneCorrectScoresZero(qs, answers, |qs|);
    }
  }

  // ---------- the results table ----------

  /** A stored result agrees with itself: as many answers as questions,
      score within the question count, percentage derived from both. */
  predicate ResultConsistent(r: TestResult) {
    && |r.answers| == r.totalQuestions
    && r.score <= r.totalQuestions
    && r.percentage == Percentage(r.score, r.totalQuestions)
  }

  function ResultIds(rows: seq<TestResult>): (ids: seq<nat>)
    ensures |ids| == |rows| && forall i | 0 <= i < |rows| :: ids[i] == rows[i].id
  {
    seq(|rows|, i requires 0 <= i < |rows| => rows[i].id)
  }

  class ResultTable {
    var rows: seq<TestResult>
    var nextId: nat

    ghost predicate Valid()
      reads this
    {
      && (forall i | 0 <= i < |rows| :: rows[i].id < nextId && ResultConsistent(rows[i]))
      && Distinct(ResultIds(rows))
    }

    constructor ()
      ensures Valid() && rows == [] && nextId == 1
    {
      rows, nextId := [], 1;
    }

    method Add(userId: nat, testId: nat, score: nat, totalQuestions: nat, percentage: nat,
               timeSpent: Option<int>, passed: bool, answers: seq<int>) returns (r: TestResult)
      requires Valid()
      requires ResultConsistent(TestResult(nextId, userId, testId, score, totalQuestions, percentage,
                                           timeSpent, passed, answers))
      modifies this
      ensures Valid()
      ensures r == TestResult(old(nextId), userId, testId, score, totalQuestions, percentage, timeSpent, passed, answers)
      ensures rows == old(rows) + [r] && nextId == old(nextId) + 1
    {
      r := TestResult(nextId, userId, testId, score, totalQuestions, percentage, timeSpent, passed, answers);
      assert ResultIds(rows + [r]) == ResultIds(rows) + [r.id];
      DistinctAppend(ResultIds(rows), r.id);
      rows := rows + [r];
      nextId := nextId + 1;
    }
  }

  // ---------- submission ----------

  function TestIds(tests: seq<Test>): (ids: seq<nat>)
    ensures |ids| == |tests| && forall i | 0 <= i < |tests| :: ids[i] == tests[i].id
  {
    seq(|tests|, i requires 0 <= i < |tests| => tests[i].id)
  }

  function TestAt(tests: seq<Test>, id: nat): (r: Option<nat>)
    ensures r.Some? ==> r.value < |tests| && tests[r.value].id == id
    ensures r.None? <==> id !in TestIds(tests)
  {
    FirstIndex(tests, (t: Test) => t.id == id)
  }

  /** `ORDER BY order`. */
  predicate QuestionOrder(a: TestQuestion, b: TestQuestion) {
    a.order <= b.order
  }

  /** The questions of a test, in `order` sequence. */
  function QuestionsOf(questions: seq<TestQuestion>, testId: nat): seq<TestQuestion> {
    SortBy(Filter(questions, (q: TestQuestion) => q.testId == testId), QuestionOrder)
  }

  /** The questions scored are exactly the test's questions, each as
      often as stored, ordered. */
  lemma QuestionsOfCorrect(questions: seq<TestQuestion>, testId: nat)
    ensures forall q :: q in QuestionsOf(questions, testId) <==> q in questions && q.testId == testId
    ensures forall q :: multiset(QuestionsOf(questions, testId))[q] ==
                          if q.testId == testId then multiset(questions)[q] else 0
    ensures SortedBy(QuestionsOf(questions, testId), QuestionOrder)
  {
    var mine := Filter(questions, (q: TestQuestion) => q.testId == testId);
    assert TotalPreorder(QuestionOrder);
    SortByCorrect(mine, QuestionOrder);
    forall q ensures q in QuestionsOf(questions, testId) <==> q in mine {
      assert q in QuestionsOf(questions, testId) <==> q in multiset(QuestionsOf(questions, testId));
      assert q in mine <==> q in multiset(mine);
    }
  }

  /** `submit_test`: score the caller's answers and store the result. */
  method SubmitTest(decoded: Option<Claims>, users: seq<User>, tests: seq<Test>, questions: seq<TestQuestion>,
                    results: ResultTable, data: TestResultCreate) returns (r: Result<TestResult>)
    requires results.Valid()
    modifies results
    ensures results.Valid()
    ensures GetCurrentUser(decoded, users).Err? ==> r == Err(GetCurrentUser(decoded, users).reason)
    ensures r == Err(TestNotFound) <==> GetCurrentUser(decoded, users).Ok? && data.testId !in TestIds(tests)
    ensures r == Err(AnswerCountMismatch) <==>
              GetCurrentUser(decoded, users).Ok? && data.testId in TestIds(tests)
              && |data.answers| != |QuestionsOf(questions, data.testId)|
    ensures (GetCurrentUser(decoded, users).Ok? && data.testId in TestIds(tests)
             && |data.answers| == |QuestionsOf(questions, data.testId)|) ==> r.Ok?
    ensures r.Err? ==> results.rows == old(results.rows) && results.nextId == old(results.nextId)
    ensures r.Ok? ==>
              GetCurrentUser(decoded, users).Ok? && TestAt(tests, data.testId).Some?
              && (var test := tests[TestAt(tests, data.testId).value];
                  var qs := QuestionsOf(questions, data.testId);
                  && r.value.id == old(results.nextId)
                  && r.value.userId == GetCurrentUser(decoded, users).value.id
                  && r.value.testId == data.testId
                  && r.value.score == Score(qs, data.answers)
                  && r.value.totalQuestions == |qs|
                  && r.value.percentage == Percentage(r.value.score, |qs|)
                  && r.value.passed == (r.value.percentage >= test.passingScore)
                  && r.value.timeSpent == data.timeSpent
                  && r.value.answers == data.answers)
              && results.rows == old(results.rows) + [r.value]
              && results.nextId == old(results.nextId) + 1
  {
    var caller := GetCurrentUser(decoded, users);
    if caller.Err? {
      return Err(caller.reason);
    }
    var t := TestAt(tests, data.testId);
    if t.None? {
      return Err(TestNotFound);
    }
    var test := tests[t.value];
    var qs := QuestionsOf(questions, test.id);
    if |data.answers| != |qs| {
      return Err(AnswerCountMismatch);
    }
    var score := ScoreAnswers(qs, data.answers);
    var total := |qs|;
    var percentage := Percentage(score, total);
    var passed := percentage >= test.passingScore;
    var row := results.Add(caller.value.id, test.id, score, total, percentage, data.timeSpent, passed, data.answers);
    return Ok(row);
  }

  // ---------- listing ----------

  /** The filters of `get_tests`: published, and each filter that is
      given (non-empty, non-zero) matches. */
  predicate TestMatches(t: Test, category: Option<string>, subject: Option<string>, videoId: Option<int>) {
    && t.isPublished
    && (Given(category) ==> t.category == category)
    && (Given(subject) ==> t.subject == subject)
    && (videoId.Some? && videoId.value != 0 ==> t.videoId == videoId)
  }

  function GetTests(tests: seq<Test>, category: Option<string>, subject: Option<string>, videoId: Option<int>)
    : (r: seq<Test>)
    ensures |r| <= |tests|
    ensures forall t :: t in r <==> t in tests && TestMatches(t, category, subject, videoId)
    ensures forall t :: multiset(r)[t] == if TestMatches(t, category, subject, videoId) then multiset(tests)[t] else 0
  {
    Filter(tests, (t: Test) => TestMatches(t, category, subject, videoId))
  }
}
