/** Scoring, the submitted result record, and what the result view derives from it. */
module Scoring {
  import opened Wrappers
  import opened Questions

  /** The record `handleSubmit` stores, analytics included. */
  datatype TestResult = TestResult(
    score: int,
    total: int,
    percentage: int,
    questions: seq<Question>,
    answers: map<string, string>,
    completedAt: int,
    timeTakenMs: int,
    attemptedCount: int)

  /** `answers[q.id] === q.correctAnswer`; a missing answer is `undefined` and never
      equal to a string. */
  predicate IsCorrect(q: Question, answers: map<string, string>) {
    q.id in answers && answers[q.id] == q.correctAnswer
  }

  /** The number of correctly answered questions of the list. */
  function CorrectCount(qs: seq<Question>, answers: map<string, string>): (r: nat)
    ensures r <= |qs|
  {
    if qs == [] then 0
    else CorrectCount(qs[..|qs| - 1], answers) + (if IsCorrect(qs[|qs| - 1], answers) then 1 else 0)
  }

  /** The `forEach` that accumulates `rawScore` in `handleSubmit`. */
  method RawScore(questions: seq<Question>, answers: map<string, string>) returns (rawScore: nat)
    ensures rawScore == CorrectCount(questions, answers)
  {
    rawScore := 0;
    var i := 0;
    while i < |questions|
      invariant 0 <= i <= |questions|
      invariant rawScore == CorrectCount(questions[..i], answers)
    {
      assert questions[..i + 1][..i] == questions[..i];
      if IsCorrect(questions[i], answers) {
        rawScore := rawScore + 1;
      }
      i := i + 1;
    }
    assert questions[..i] == questions;
  }

  /** `Math.round(num / den)` on exact rationals: the nearest integer, halves
      rounded up. */
  function RoundHalfUp(num: int, den: int): (r: int)
    requires den > 0
    ensures 2 * den * r <= 2 * num + den < 2 * den * (r + 1)
  {
    var q := (2 * num + den) / (2 * den);
    assert (2 * num + den) == 2 * den * q + (2 * num + den) % (2 * den);
    q
  }

  /** Two integers that both round `num / den` are the same. */
  lemma RoundHalfUpUnique(num: int, den: int, r: int, s: int)
    requires den > 0
    requires 2 * den * r <= 2 * num + den < 2 * den * (r + 1)
    requires 2 * den * s <= 2 * num + den < 2 * den * (s + 1)
    ensures r == s
  {
    if r < s {
      MulMonotone(2 * den, r + 1, s);
    } else if s < r {
      MulMonotone(2 * den, s + 1, r);
    }
  }

  lemma MulMonotone(k: int, a: int, b: int)
    requires k > 0 && a <= b
    ensures k * a <= k * b
  {
  }

  /** Scaling numerator and denominator alike does not change the rounded ratio. */
  lemma RoundHalfUpScale(num: int, den: int, m: int)
    requires den > 0 && m > 0
    ensures RoundHalfUp(num * m, den * m) == RoundHalfUp(num, den)
  {
    var r := RoundHalfUp(num * m, den * m);
    assert 2 * (den * m) * r == m * (2 * den * r);
    assert 2 * (num * m) + den * m == m * (2 * num + den);
    assert 2 * (den * m) * (r + 1) == m * (2 * den * (r + 1));
    MulCancel(m, 2 * den * r, 2 * num + den);
    MulCancelStrict(m, 2 * num + den, 2 * den * (r + 1));
    RoundHalfUpUnique(num, den, r, RoundHalfUp(num, den));
  }

  lemma MulCancel(m: int, a: int, b: int)
    requires m > 0 && m * a <= m * b
    ensures a <= b
  {
    if a > b {
      MulMonotone(m, b + 1, a);
    }
  }

  lemma MulCancelStrict(m: int, a: int, b: int)
    requires m > 0 && m * a < m * b
    ensures a < b
  {
    if a >= b {
      MulMonotone(m, b, a);
    }
  }

  /** `totalPossible > 0 ? Math.round((finalScore / totalPossible) * 100) : 0`. */
  function Percentage(score: int, total: int): int {
    if total > 0 then RoundHalfUp(100 * score, total) else 0
  }

  /** A score between nothing and everything gives a percentage between 0 and 100. */
  lemma PercentageBounds(score: int, total: int)
    requires 0 <= score <= total
    ensures 0 <= Percentage(score, total) <= 100
  {
    if total > 0 {
      var r := RoundHalfUp(100 * score, total);
      assert 2 * total * (r + 1) > 0;
      if r + 1 <= 0 {
        MulMonotone(2 * total, r + 1, 0);
      }
      assert 2 * total * r <= 2 * total * 100 + total;
      if r > 100 {
        MulMonotone(2 * total, 101, r);
      }
    }
  }

  /** Time taken: measured from the start the deadline implies (deadline minus the
      duration), capped at the duration from above only; without a stored deadline,
      the full duration. */
  function TimeTaken(savedEnd: Option<int>, now: int, durationMs: int): (t: int)
    ensures t <= durationMs
    ensures savedEnd.None? ==> t == durationMs
    ensures savedEnd.Some? ==> t == if now - savedEnd.value < 0 then now - (savedEnd.value - durationMs) else durationMs
  {
    var endTimeInt := savedEnd.GetOr(now);
    var startTime := endTimeInt - durationMs;
    var timeTakenMs := now - startTime;
    if timeTakenMs > durationMs then durationMs else timeTakenMs
  }

  /** The result `handleSubmit` records for these questions and answers at `now`. */
  function ResultOf(questions: seq<Question>, answers: map<string, string>, savedEnd: Option<int>,
                    now: int, durationMs: int, marksPerQuestion: int): TestResult
  {
    var finalScore := CorrectCount(questions, answers) * marksPerQuestion;
    var totalPossible := |questions| * marksPerQuestion;
    TestResult(finalScore, totalPossible, Percentage(finalScore, totalPossible), questions, answers,
               now, TimeTaken(savedEnd, now, durationMs), |answers|)
  }

  /** With positive marks the score is the marks for the correct answers, it lies
      between 0 and the total, and the percentage lies between 0 and 100. */
  lemma ResultBounds(questions: seq<Question>, answers: map<string, string>, savedEnd: Option<int>,
                     now: int, durationMs: int, marks: int)
    requires marks > 0
    ensures var r := ResultOf(questions, answers, savedEnd, now, durationMs, marks);
      && r.score == CorrectCount(questions, answers) * marks
      && r.total == |questions| * marks
      && 0 <= r.score <= r.total
      && 0 <= r.percentage <= 100
  {
    var raw := CorrectCount(questions, answers);
    var n := |questions|;
    assert 0 <= raw * marks <= n * marks by {
      MulMonotone(marks, 0, raw);
      MulMonotone(marks, raw, n);
    }
    PercentageBounds(raw * marks, n * marks);
  }

  /** The percentage is the rounded share of correct answers, whatever the marks per
      question, and 0 for an empty test. */
  lemma ResultPercentage(questions: seq<Question>, answers: map<string, string>, savedEnd: Option<int>,
                         now: int, durationMs: int, marks: int)
    requires marks > 0
    ensures var r := ResultOf(questions, answers, savedEnd, now, durationMs, marks);
      && (questions == [] ==> r.percentage == 0)
      && (questions != [] ==> r.percentage == RoundHalfUp(100 * CorrectCount(questions, answers), |questions|))
  {
    var raw := CorrectCount(questions, answers);
    var n := |questions|;
    if n > 0 {
      assert n * marks > 0 by {
        MulMonotone(marks, 1, n);
      }
      assert 100 * (raw * marks) == (100 * raw) * marks;
      RoundHalfUpScale(100 * raw, n, marks);
    }
  }

  /** Four questions at two marks, three answered correctly and one skipped: 6 of 8,
      that is 75 percent. */
  lemma ScoringExample(q1: Question, q2: Question, q3: Question, q4: Question)
    requires q1.id == "q-1" && q2.id == "q-2" && q3.id == "q-3" && q4.id == "q-4"
    ensures var answers := map["q-1" := q1.correctAnswer, "q-2" := q2.correctAnswer, "q-3" := q3.correctAnswer];
      var r := ResultOf([q1, q2, q3, q4], answers, None, 0, 1200000, 2);
      r.score == 6 && r.total == 8 && r.percentage == 75 && r.attemptedCount == 3
  {
    var qs := [q1, q2, q3, q4];
    var answers := map["q-1" := q1.correctAnswer, "q-2" := q2.correctAnswer, "q-3" := q3.correctAnswer];
    assert qs[..3] == [q1, q2, q3] && [q1, q2, q3][..2] == [q1, q2] && [q1, q2][..1] == [q1];
    assert [q1][..0] == [];
    assert IsCorrect(q1, answers) && IsCorrect(q2, answers) && IsCorrect(q3, answers);
    assert !IsCorrect(q4, answers);
    assert CorrectCount([q1], answers) == 1;
    assert CorrectCount([q1, q2], answers) == 2;
    assert CorrectCount([q1, q2, q3], answers) == 3;
    assert CorrectCount(qs, answers) == 3;
    assert |answers| == 3 by {
      assert answers.Keys == {"q-1", "q-2", "q-3"};
    }
  }

  /** The result view's tier. */
  datatype Tier = Fail | Pass | Distinction

  function TierOf(pct: int): Tier {
    if pct < 40 then Fail else if pct < 70 then Pass else Distinction
  }

  function TierRank(t: Tier): nat {
    match t
    case Fail => 0
    case Pass => 1
    case Distinction => 2
  }

  /** A higher percentage never earns a lower tier. */
  lemma TierMonotone(p1: int, p2: int)
    requires p1 <= p2
    ensures TierRank(TierOf(p1)) <= TierRank(TierOf(p2))
    ensures TierOf(39) == Fail && TierOf(40) == Pass && TierOf(69) == Pass && TierOf(70) == Distinction
  {
  }

  /** The counts the result view shows. */
  datatype Counts = Counts(total: int, correct: int, attempted: int, wrong: int, skipped: int)

  function CountsOf(r: TestResult): (c: Counts)
    ensures c.correct + c.wrong + c.skipped == c.total
  {
    var correct := CorrectCount(r.questions, r.answers);
    Counts(|r.questions|, correct, r.attemptedCount, r.attemptedCount - correct, |r.questions| - r.attemptedCount)
  }

  /** The ids of a question list, as a set. */
  function IdSet(qs: seq<Question>): set<string> {
    if qs == [] then {} else IdSet(qs[..|qs| - 1]) + {qs[|qs| - 1].id}
  }

  lemma {:induction false} IdSetMembers(qs: seq<Question>, id: string)
    ensures id in IdSet(qs) <==> HasId(qs, id)
  {
    if qs != [] {
      var init := qs[..|qs| - 1];
      IdSetMembers(init, id);
      assert qs == init + [qs[|qs| - 1]];
      IdsAppend(init, [qs[|qs| - 1]]);
    }
  }

  lemma {:induction false} IdSetSize(qs: seq<Question>)
    ensures |IdSet(qs)| <= |qs|
  {
    if qs != [] {
      IdSetSize(qs[..|qs| - 1]);
    }
  }

  /** The last question of a list with unique ids does not share its id with the
      questions before it. */
  lemma LastIdFresh(qs: seq<Question>)
    requires qs != [] && UniqueIds(qs)
    ensures qs[|qs| - 1].id !in IdSet(qs[..|qs| - 1])
  {
    var init := qs[..|qs| - 1];
    IdSetMembers(init, qs[|qs| - 1].id);
  }

  /** With unique ids, each correct answer is a distinct answered question of the
      list. */
  lemma {:induction false} CorrectCountAnswered(qs: seq<Question>, answers: map<string, string>)
    requires UniqueIds(qs)
    ensures CorrectCount(qs, answers) <= |answers.Keys * IdSet(qs)|
  {
    if qs != [] {
      var init, last := qs[..|qs| - 1], qs[|qs| - 1];
      assert UniqueIds(init);
      CorrectCountAnswered(init, answers);
      LastIdFresh(qs);
      var before := answers.Keys * IdSet(init);
      if last.id in answers {
        assert answers.Keys * IdSet(qs) == before + {last.id};
        assert last.id !in before;
      } else {
        assert answers.Keys * IdSet(qs) == before;
      }
    }
  }

  /** With unique ids, no more questions are correct than answered. */
  lemma CorrectAtMostAttempted(qs: seq<Question>, answers: map<string, string>)
    requires UniqueIds(qs)
    ensures CorrectCount(qs, answers) <= |answers|
  {
    CorrectCountAnswered(qs, answers);
    assert answers.Keys * IdSet(qs) <= answers.Keys;
    SubsetSize(answers.Keys * IdSet(qs), answers.Keys);
  }

  lemma SubsetSize(a: set<string>, b: set<string>)
    requires a <= b
    ensures |a| <= |b|
  {
    assert b == a + (b - a);
  }

  /** The counts of a submitted result are all non-negative when the ids are unique
      and every answer belongs to a question of the test; they add up to the number of
      questions. */
  lemma SubmittedCounts(questions: seq<Question>, answers: map<string, string>, savedEnd: Option<int>,
                        now: int, durationMs: int, marks: int)
    requires UniqueIds(questions)
    requires forall id :: id in answers ==> HasId(questions, id)
    ensures var c := CountsOf(ResultOf(questions, answers, savedEnd, now, durationMs, marks));
      && c.total == |questions| && c.attempted == |answers|
      && 0 <= c.correct <= c.attempted <= c.total
      && c.wrong >= 0 && c.skipped >= 0
  {
    CorrectAtMostAttempted(questions, answers);
    forall id | id in answers.Keys
      ensures id in IdSet(questions)
    {
      IdSetMembers(questions, id);
    }
    SubsetSize(answers.Keys, IdSet(questions));
    IdSetSize(questions);
  }

  /** Without unique ids the view can show more correct than attempted answers:
      one answer marks both copies of a duplicated question correct. */
  lemma DuplicateIdsOvercount(q: Question)
    ensures var answers := map[q.id := q.correctAnswer];
      CorrectCount([q, q], answers) == 2 && |answers| == 1
      && CountsOf(ResultOf([q, q], answers, None, 0, 0, 1)).wrong == -1
  {
    var answers := map[q.id := q.correctAnswer];
    assert [q, q][..1] == [q];
    assert answers.Keys == {q.id};
  }

  /** What the result screen shows of a stored result: its tier and its counts. */
  datatype Summary = Summary(tier: Tier, counts: Counts)

  function SummaryOf(r: TestResult): (s: Summary)
    ensures s.counts.total == |r.questions| && s.counts.attempted == r.attemptedCount
    ensures s.counts.correct == CorrectCount(r.questions, r.answers)
    ensures s.counts.wrong == r.attemptedCount - CorrectCount(r.questions, r.answers)
    ensures s.counts.skipped == |r.questions| - r.attemptedCount
    ensures s.tier == TierOf(r.percentage)
  {
    Summary(TierOf(r.percentage), CountsOf(r))
  }
}
