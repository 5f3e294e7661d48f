/** The exam session: the two browser stores, the React state of the runner, and the
    handlers that move between the welcome, test and result views. */
module Exam {
  import opened Wrappers
  import opened Questions
  import opened Shuffle
  import opened Loader
  import opened Merge
  import opened Scoring
  import opened Clock

  /** A stored value, already decoded from its JSON or decimal text. */
  datatype Stored =
    | Number(n: int)
    | AnswerMap(m: map<string, string>)
    | Bank(qs: seq<Question>)
    | Report(r: TestResult)

  /** A storage key: the five the runner uses, and any other. */
  datatype Key =
    | EndTimeKey
    | AnswersKey
    | IndexKey
    | QuestionsKey
    | ResultKey
    | OtherKey(name: string)
  {
    /** The key's name in the browser store. */
    function Name(): string {
      match this
      case EndTimeKey => "cbt_endTime"
      case AnswersKey => "cbt_answers"
      case IndexKey => "cbt_currentIndex"
      case QuestionsKey => "cbt_questions"
      case ResultKey => "cbt_currentResult"
      case OtherKey(name) => name
    }
  }

  /** Every key the runner uses is named apart from every other; `OtherKey` stands for
      the names the runner does not use. */
  predicate WellNamed(k: Key) {
    k.OtherKey? ==> k.name !in {"cbt_endTime", "cbt_answers", "cbt_currentIndex", "cbt_questions", "cbt_currentResult"}
  }

  lemma NameInjective(k1: Key, k2: Key)
    requires WellNamed(k1) && WellNamed(k2) && k1.Name() == k2.Name()
    ensures k1 == k2
  {
    var names := ["cbt_endTime", "cbt_answers", "cbt_currentIndex", "cbt_questions", "cbt_currentResult"];
    assert names[0][4] == 'e' && names[1][4] == 'a' && names[2][4] == 'c' && names[3][4] == 'q';
    assert names[2][5] == 'u' && names[4][5] == 'u' && names[2][11] == 'I' && names[4][11] == 'R';
  }

  type Store = map<Key, Stored>

  datatype View = Welcome | Test | ResultView

  /** Reading a key: absent when it is unset or holds another kind of value. */
  function NumberAt(store: Store, key: Key): (r: Option<int>)
    ensures r.Some? <==> key in store && store[key].Number?
  {
    if key in store && store[key].Number? then Some(store[key].n) else None
  }

  function AnswersAt(store: Store, key: Key): (r: Option<map<string, string>>)
    ensures r.Some? <==> key in store && store[key].AnswerMap?
  {
    if key in store && store[key].AnswerMap? then Some(store[key].m) else None
  }

  function BankAt(store: Store, key: Key): (r: Option<seq<Question>>)
    ensures r.Some? <==> key in store && store[key].Bank?
  {
    if key in store && store[key].Bank? then Some(store[key].qs) else None
  }

  function ReportAt(store: Store, key: Key): (r: Option<TestResult>)
    ensures r.Some? <==> key in store && store[key].Report?
  {
    if key in store && store[key].Report? then Some(store[key].r) else None
  }

  /** The view initialiser: the test while a stored deadline lies ahead, else the
      result while one is stored for this tab, else the welcome screen. A deadline
      already past does not submit anything. */
  function InitialView(local: Store, session: Store, now: int): (v: View)
    ensures v == Test <==> NumberAt(local, EndTimeKey).Some? && NumberAt(local, EndTimeKey).value > now
    ensures v == ResultView <==> v != Test && ReportAt(session, ResultKey).Some?
  {
    var savedEnd := NumberAt(local, EndTimeKey);
    if savedEnd.Some? && savedEnd.value > now then Test
    else if ReportAt(session, ResultKey).Some? then ResultView
    else Welcome
  }

  /** The initialisers of the question list, the answers and the question index. */
  function InitialQuestions(local: Store): seq<Question> {
    BankAt(local, QuestionsKey).GetOr([])
  }

  function InitialAnswers(local: Store): map<string, string> {
    AnswersAt(local, AnswersKey).GetOr(map[])
  }

  function InitialIndex(local: Store): int {
    NumberAt(local, IndexKey).GetOr(0)
  }

  /** The local store after `startTest`. */
  function StartedStore(local: Store, qs: seq<Question>, endTime: int): Store {
    local[QuestionsKey := Bank(qs)][EndTimeKey := Number(endTime)][AnswersKey := AnswerMap(map[])][IndexKey := Number(0)]
  }

  /** The local store after `handleSubmit` or `handleExitToWelcome`. */
  function ClearedStore(local: Store): Store {
    local - {EndTimeKey, AnswersKey, IndexKey}
  }

  /** What `startTest` stores reads back as its new test, and every other key is
      untouched. */
  lemma StartedStoreReads(local: Store, qs: seq<Question>, endTime: int)
    ensures var l := StartedStore(local, qs, endTime);
      && NumberAt(l, EndTimeKey) == Some(endTime)
      && InitialQuestions(l) == qs && InitialAnswers(l) == map[] && InitialIndex(l) == 0
    ensures forall k :: k !in {EndTimeKey, AnswersKey, IndexKey, QuestionsKey} ==>
      (k in StartedStore(local, qs, endTime) <==> k in local) &&
      (k in local ==> StartedStore(local, qs, endTime)[k] == local[k])
  {
  }

  /** What `startTest` stores holds the new test. */
  lemma StartedPersists(local: Store, qs: seq<Question>, endTime: int)
    ensures Persists(StartedStore(local, qs, endTime), qs, map[], 0)
  {
    StartedStoreReads(local, qs, endTime);
  }

  /** A reload after `startTest` resumes the test while its deadline lies ahead, and
      otherwise shows the welcome screen, since the old result was removed. */
  lemma ResumeAfterStart(local: Store, session: Store, qs: seq<Question>, endTime: int, now: int)
    ensures InitialView(StartedStore(local, qs, endTime), session - {ResultKey}, now)
            == if now < endTime then Test else Welcome
  {
    assert NumberAt(StartedStore(local, qs, endTime), EndTimeKey) == Some(endTime);
    assert ReportAt(session - {ResultKey}, ResultKey) == None;
  }

  /** A reload after `handleSubmit` shows the stored result. */
  lemma ResumeAfterSubmit(local: Store, session: Store, r: TestResult, now: int)
    ensures InitialView(ClearedStore(local), session[ResultKey := Report(r)], now) == ResultView
  {
    assert NumberAt(ClearedStore(local), EndTimeKey) == None;
  }

  /** A reload after `handleExitToWelcome` shows the welcome screen. */
  lemma ResumeAfterExit(local: Store, session: Store, now: int)
    ensures InitialView(ClearedStore(local), session - {ResultKey}, now) == Welcome
  {
    assert NumberAt(ClearedStore(local), EndTimeKey) == None;
    assert ReportAt(session - {ResultKey}, ResultKey) == None;
  }

  /** Submitting or leaving forgets the test in progress but keeps the bank. */
  lemma ClearedStoreKeepsBank(local: Store)
    ensures InitialQuestions(ClearedStore(local)) == InitialQuestions(local)
    ensures InitialAnswers(ClearedStore(local)) == map[] && InitialIndex(ClearedStore(local)) == 0
    ensures NumberAt(ClearedStore(local), EndTimeKey) == None
  {
  }

  /** The local store holds what a reload needs to restore this test exactly. */
  predicate Persists(local: Store, questions: seq<Question>, answers: map<string, string>, index: int) {
    && NumberAt(local, EndTimeKey).Some?
    && InitialQuestions(local) == questions
    && InitialAnswers(local) == answers
    && InitialIndex(local) == index
  }

  /** Storing a new bank, new answers or a new index keeps the rest of the test. */
  lemma PersistsBank(local: Store, qs: seq<Question>, answers: map<string, string>, index: int, newQs: seq<Question>)
    requires Persists(local, qs, answers, index)
    ensures Persists(local[QuestionsKey := Bank(newQs)], newQs, answers, index)
  {
    var l := local[QuestionsKey := Bank(newQs)];
    assert NumberAt(l, EndTimeKey) == NumberAt(local, EndTimeKey);
    assert AnswersAt(l, AnswersKey) == AnswersAt(local, AnswersKey);
    assert NumberAt(l, IndexKey) == NumberAt(local, IndexKey);
  }

  lemma PersistsAnswers(local: Store, qs: seq<Question>, answers: map<string, string>, index: int,
                        newAnswers: map<string, string>)
    requires Persists(local, qs, answers, index)
    ensures Persists(local[AnswersKey := AnswerMap(newAnswers)], qs, newAnswers, index)
  {
    var l := local[AnswersKey := AnswerMap(newAnswers)];
    assert NumberAt(l, EndTimeKey) == NumberAt(local, EndTimeKey);
    assert BankAt(l, QuestionsKey) == BankAt(local, QuestionsKey);
    assert NumberAt(l, IndexKey) == NumberAt(local, IndexKey);
  }

  lemma PersistsIndex(local: Store, qs: seq<Question>, answers: map<string, string>, index: int, newIndex: int)
    requires Persists(local, qs, answers, index)
    ensures Persists(local[IndexKey := Number(newIndex)], qs, answers, newIndex)
  {
    var l := local[IndexKey := Number(newIndex)];
    assert NumberAt(l, EndTimeKey) == NumberAt(local, EndTimeKey);
    assert BankAt(l, QuestionsKey) == BankAt(local, QuestionsKey);
    assert AnswersAt(l, AnswersKey) == AnswersAt(local, AnswersKey);
  }

  /** A reload before the deadline comes back to the same test: same question order,
      same answers, same question. */
  lemma ReloadResumes(local: Store, session: Store, now: int,
                      questions: seq<Question>, answers: map<string, string>, index: int)
    requires Persists(local, questions, answers, index)
    requires NumberAt(local, EndTimeKey).value > now
    ensures InitialView(local, session, now) == Test
    ensures InitialQuestions(local) == questions && InitialAnswers(local) == answers
    ensures InitialIndex(local) == index
  {
  }

  /** The Previous and Next buttons and the question palette. */
  datatype Move = Previous | Next | Jump(target: int)

  /** The index after one move on a test of `n` questions. A button that is disabled,
      or not on screen because the index names no question, leaves it. */
  function Step(index: int, n: int, m: Move): (j: int)
    ensures 0 <= index < n ==> 0 <= j < n
    ensures m.Previous? && 0 < index < n ==> j == index - 1
    ensures m.Next? && 0 <= index < n - 1 ==> j == index + 1
    ensures m.Jump? && 0 <= index < n && 0 <= m.target < n ==> j == m.target
    ensures !(0 <= index < n) ==> j == index
  {
    if !(0 <= index < n) then index
    else match m
      case Previous => if index != 0 then index - 1 else index
      case Next => if index != n - 1 then index + 1 else index
      case Jump(t) => if 0 <= t < n then t else index
  }

  function Navigate(index: int, n: int, moves: seq<Move>): int
    decreases |moves|
  {
    if moves == [] then index else Navigate(Step(index, n, moves[0]), n, moves[1..])
  }

  /** However the buttons are pressed, an index naming a question keeps naming one. */
  lemma {:induction false} NavigateInRange(index: int, n: int, moves: seq<Move>)
    requires 0 <= index < n
    ensures 0 <= Navigate(index, n, moves) < n
    decreases |moves|
  {
    if moves != [] {
      NavigateInRange(Step(index, n, moves[0]), n, moves[1..]);
    }
  }

  /** Pressing Next from the first question as often as there are questions reaches
      the last one and stays there. */
  lemma {:induction false} NextReachesLast(index: int, n: int, k: nat)
    requires 0 <= index < n
    ensures Navigate(index, n, seq(k, _ => Next)) == if index + k < n then index + k else n - 1
    decreases k
  {
    if k > 0 {
      var moves := seq(k, _ => Next);
      assert moves[0] == Next && moves[1..] == seq(k - 1, _ => Next);
      NextReachesLast(Step(index, n, Next), n, k - 1);
    }
  }

  /** `shuffleArray` on a fresh array holding the list. */
  method ShuffledCopy(qs: seq<Question>, picks: seq<nat>) returns (r: seq<Question>)
    requires ValidPicks(|qs|, picks)
    ensures r == Shuffled(qs, picks)
  {
    var a := new Question[|qs|](i requires 0 <= i < |qs| => qs[i]);
    assert a[..] == qs;
    var shuffled := ShuffleArray(a, picks);
    r := shuffled[..];
  }

  /** The list the mount effect keeps once questions have been loaded: merged into
      `current` while a test runs, else the loaded list shuffled. */
  method NewBank(newQuestions: seq<Question>, picks: seq<nat>, isTestRunning: bool, current: seq<Question>)
    returns (finalList: seq<Question>)
    requires ValidPicks(|newQuestions|, picks)
    ensures finalList == if isTestRunning then MergeRunning(current, newQuestions) else Shuffled(newQuestions, picks)
  {
    if isTestRunning {
      finalList := MergeRunning(current, newQuestions);
    } else {
      finalList := ShuffledCopy(newQuestions, picks);
    }
  }

  /** The runner: both stores, the React state, the fixed configuration, and what the
      mount effect and the running timer captured when they were set up. */
  class Session {
    var local: Store
    var session: Store
    var view: View
    var questions: seq<Question>
    var answers: map<string, string>
    var currentIndex: int
    var timeLeft: int
    const durationMinutes: int
    const marksPerQuestion: int
    /** The mount effect's closure: the view and questions of the first render. */
    const mountView: View
    const mountQuestions: seq<Question>
    /** The running timer's closure: the questions and answers of the render that
        entered the test view. */
    var timerQuestions: seq<Question>
    var timerAnswers: map<string, string>

    /** Whenever the test view is up, the local store holds the test in progress. */
    ghost predicate Resumable()
      reads this
    {
      view == Test ==> Persists(local, questions, answers, currentIndex)
    }

    function DurationMs(): int
      reads this
    {
      durationMinutes * 60 * 1000
    }

    /** Mounting the app: the initialisers, then the effect that persists the index
        while the test view is up. The timer's first tick at mount changes nothing,
        because the view is the test only while the deadline lies ahead. */
    constructor (local0: Store, session0: Store, now: int, durationMinutes: int, marksPerQuestion: int)
      ensures view == InitialView(local0, session0, now)
      ensures questions == InitialQuestions(local0) && answers == InitialAnswers(local0)
      ensures currentIndex == InitialIndex(local0)
      ensures timeLeft == InitialTimeLeft(NumberAt(local0, EndTimeKey), now)
      ensures local == if view == Test then local0[IndexKey := Number(currentIndex)] else local0
      ensures session == session0
      ensures this.durationMinutes == durationMinutes && this.marksPerQuestion == marksPerQuestion
      ensures mountView == view && mountQuestions == questions
      ensures timerQuestions == questions && timerAnswers == answers
      ensures Resumable()
    {
      var v := InitialView(local0, session0, now);
      var qs := InitialQuestions(local0);
      var index := InitialIndex(local0);
      view := v;
      questions := qs;
      answers := InitialAnswers(local0);
      currentIndex := index;
      timeLeft := InitialTimeLeft(NumberAt(local0, EndTimeKey), now);
      local := if v == Test then local0[IndexKey := Number(index)] else local0;
      session := session0;
      this.durationMinutes := durationMinutes;
      this.marksPerQuestion := marksPerQuestion;
      mountView := v;
      mountQuestions := qs;
      timerQuestions := qs;
      timerAnswers := InitialAnswers(local0);
    }

    /** The body of the mount effect once the CSV text has arrived. Nothing happens
        when no line yields a question. When the first render showed the test, the
        loaded questions are merged into that render's list; otherwise they replace
        the list in a shuffled order. Either way the list is stored. */
    method LoadBank(text: string, picks: seq<nat>)
      requires ValidPicks(|ParseBank(text)|, picks)
      requires Resumable()
      modifies this
      ensures var loaded := ParseBank(text);
        && questions == (if loaded == [] then old(questions)
                         else if mountView == Test then MergeRunning(mountQuestions, loaded)
                         else Shuffled(loaded, picks))
        && local == (if loaded == [] then old(local) else old(local)[QuestionsKey := Bank(questions)])
      ensures session == old(session) && view == old(view) && answers == old(answers)
      ensures currentIndex == old(currentIndex) && timeLeft == old(timeLeft)
      ensures timerQuestions == old(timerQuestions) && timerAnswers == old(timerAnswers)
      ensures Resumable()
    {
      var newQuestions := LoadQuestions(text);
      if |newQuestions| > 0 {
        var finalList := NewBank(newQuestions, picks, mountView == Test, mountQuestions);
        if view == Test {
          PersistsBank(local, questions, answers, currentIndex, finalList);
        }
        questions := finalList;
        local := local[QuestionsKey := Bank(finalList)];
      }
    }

    /** `startTest`. On an empty bank nothing changes. Otherwise the questions are
        shuffled afresh, a deadline `durationMinutes` from now is stored with empty
        answers and index 0, the stored result is removed, and the test view opens;
        the timer set up for it captures the new questions and the empty answers. */
    method StartTest(now: int, picks: seq<nat>)
      requires ValidPicks(|questions|, picks)
      modifies this
      ensures old(questions) == [] ==>
        && local == old(local) && session == old(session) && view == old(view)
        && questions == old(questions) && answers == old(answers) && currentIndex == old(currentIndex)
        && timerQuestions == old(timerQuestions) && timerAnswers == old(timerAnswers)
      ensures old(questions) != [] ==>
        && questions == Shuffled(old(questions), picks)
        && local == StartedStore(old(local), questions, now + DurationMs())
        && session == old(session) - {ResultKey}
        && answers == map[] && currentIndex == 0 && view == Test
        && timerQuestions == (if old(view) == Test then old(timerQuestions) else questions)
        && timerAnswers == (if old(view) == Test then old(timerAnswers) else map[])
      ensures timeLeft == old(timeLeft)
      ensures Resumable() <== old(questions) != [] || old(Resumable())
    {
      if |questions| == 0 {
        return;
      }
      var shuffled := ShuffledCopy(questions, picks);
      var endTime := now + DurationMs();
      var stored := local[QuestionsKey := Bank(shuffled)][EndTimeKey := Number(endTime)]
        [AnswersKey := AnswerMap(map[])][IndexKey := Number(0)];
      StartedPersists(local, shuffled, endTime);
      if view != Test {
        timerQuestions, timerAnswers := shuffled, map[];
      }
      questions, local, session, answers, currentIndex, view :=
        shuffled, stored, session - {ResultKey}, map[], 0, Test;
    }

    /** `handleAnswerSelect`: records one answer, in the state and in the store. */
    method SelectAnswer(qId: string, option: string)
      requires Resumable()
      modifies this
      ensures answers == old(answers)[qId := option]
      ensures local == old(local)[AnswersKey := AnswerMap(answers)]
      ensures session == old(session) && view == old(view) && questions == old(questions)
      ensures currentIndex == old(currentIndex) && timeLeft == old(timeLeft)
      ensures timerQuestions == old(timerQuestions) && timerAnswers == old(timerAnswers)
      ensures Resumable()
    {
      if view == Test {
        PersistsAnswers(local, questions, answers, currentIndex, answers[qId := option]);
      }
      answers := answers[qId := option];
      local := local[AnswersKey := AnswerMap(answers)];
    }

    /** A press of Previous, Next or a palette entry on the test screen, followed by
        the effect that persists the index while the test view is up. */
    method Move(m: Move)
      requires Resumable()
      modifies this
      ensures view == Test ==> currentIndex == Step(old(currentIndex), |questions|, m)
      ensures view != Test ==> currentIndex == old(currentIndex)
      ensures local == if view == Test then old(local)[IndexKey := Number(currentIndex)] else old(local)
      ensures session == old(session) && view == old(view) && questions == old(questions)
      ensures answers == old(answers) && timeLeft == old(timeLeft)
      ensures timerQuestions == old(timerQuestions) && timerAnswers == old(timerAnswers)
      ensures Resumable()
    {
      if view == Test {
        PersistsIndex(local, questions, answers, currentIndex, Step(currentIndex, |questions|, m));
        currentIndex := Step(currentIndex, |questions|, m);
        local := local[IndexKey := Number(currentIndex)];
      }
    }

    /** The scoring and storing half of `handleSubmit`, for the given questions and
        answers: the result goes to the session store, the test in progress leaves the
        local store, and the result view opens. */
    method SubmitWith(qs: seq<Question>, ans: map<string, string>, now: int)
      modifies this
      ensures session == old(session)[ResultKey :=
        Report(ResultOf(qs, ans, NumberAt(old(local), EndTimeKey), now, DurationMs(), marksPerQuestion))]
      ensures local == ClearedStore(old(local))
      ensures view == ResultView
      ensures questions == old(questions) && answers == old(answers)
      ensures currentIndex == old(currentIndex) && timeLeft == old(timeLeft)
      ensures timerQuestions == old(timerQuestions) && timerAnswers == old(timerAnswers)
      ensures Resumable()
    {
      var rawScore := RawScore(qs, ans);
      var finalScore := rawScore * marksPerQuestion;
      var totalPossible := |qs| * marksPerQuestion;
      var percentage := Percentage(finalScore, totalPossible);
      var attemptedCount := |ans|;
      var timeTakenMs := TimeTaken(NumberAt(local, EndTimeKey), now, DurationMs());
      var resultData := TestResult(finalScore, totalPossible, percentage, qs, ans, now, timeTakenMs, attemptedCount);
      assert resultData == ResultOf(qs, ans, NumberAt(local, EndTimeKey), now, DurationMs(), marksPerQuestion);
      session, local, view :=
        session[ResultKey := Report(resultData)], local - {EndTimeKey, AnswersKey, IndexKey}, ResultView;
    }

    /** `handleSubmit` from the Submit button, which sees the current state. */
    method Submit(now: int)
      modifies this
      ensures session == old(session)[ResultKey :=
        Report(ResultOf(old(questions), old(answers), NumberAt(old(local), EndTimeKey), now, DurationMs(), marksPerQuestion))]
      ensures local == ClearedStore(old(local)) && view == ResultView
      ensures questions == old(questions) && answers == old(answers)
      ensures currentIndex == old(currentIndex) && timeLeft == old(timeLeft)
      ensures timerQuestions == old(timerQuestions) && timerAnswers == old(timerAnswers)
      ensures Resumable()
    {
      SubmitWith(questions, answers, now);
    }

    /** One tick of the countdown, scoring what is answered at that moment. It runs
        only while the test view is up: with time left it shows the seconds left, and
        at or past the deadline it shows zero and submits. */
    method Tick(now: int)
      modifies this
      ensures old(view) != Test || NumberAt(old(local), EndTimeKey).None? ==>
        && local == old(local) && session == old(session) && view == old(view) && timeLeft == old(timeLeft)
      ensures old(view) == Test && NumberAt(old(local), EndTimeKey).Some? ==>
        var left := SecondsLeft(NumberAt(old(local), EndTimeKey).value, now);
        && (left > 0 ==> timeLeft == left && local == old(local) && session == old(session) && view == Test)
        && (left <= 0 ==>
              && timeLeft == 0 && local == ClearedStore(old(local)) && view == ResultView
              && session == old(session)[ResultKey := Report(ResultOf(old(questions), old(answers),
                   NumberAt(old(local), EndTimeKey), now, DurationMs(), marksPerQuestion))])
      ensures questions == old(questions) && answers == old(answers) && currentIndex == old(currentIndex)
      ensures timerQuestions == old(timerQuestions) && timerAnswers == old(timerAnswers)
      ensures old(Resumable()) ==> Resumable()
    {
      if view != Test {
        return;
      }
      var savedEnd := NumberAt(local, EndTimeKey);
      if savedEnd.None? {
        return;
      }
      var diff := SecondsLeft(savedEnd.value, now);
      if diff <= 0 {
        timeLeft := 0;
        SubmitWith(questions, answers, now);
      } else {
        timeLeft := diff;
      }
    }

    /** The tick as the timer effect runs it: the `handleSubmit` it calls belongs to the
        render that entered the test view, so at the deadline it scores the questions
        and answers of that moment instead of the current ones. */
    method TickAsWritten(now: int)
      modifies this
      ensures old(view) != Test || NumberAt(old(local), EndTimeKey).None? ==>
        && local == old(local) && session == old(session) && view == old(view) && timeLeft == old(timeLeft)
      ensures old(view) == Test && NumberAt(old(local), EndTimeKey).Some? ==>
        var left := SecondsLeft(NumberAt(old(local), EndTimeKey).value, now);
        && (left > 0 ==> timeLeft == left && local == old(local) && session == old(session) && view == Test)
        && (left <= 0 ==>
              && timeLeft == 0 && local == ClearedStore(old(local)) && view == ResultView
              && session == old(session)[ResultKey := Report(ResultOf(old(timerQuestions), old(timerAnswers),
                   NumberAt(old(local), EndTimeKey), now, DurationMs(), marksPerQuestion))])
      ensures questions == old(questions) && answers == old(answers) && currentIndex == old(currentIndex)
      ensures timerQuestions == old(timerQuestions) && timerAnswers == old(timerAnswers)
      ensures old(Resumable()) ==> Resumable()
    {
      if view != Test {
        return;
      }
      var savedEnd := NumberAt(local, EndTimeKey);
      if savedEnd.None? {
        return;
      }
      var diff := SecondsLeft(savedEnd.value, now);
      if diff <= 0 {
        timeLeft := 0;
        SubmitWith(timerQuestions, timerAnswers, now);
      } else {
        timeLeft := diff;
      }
    }

    /** `handleExitToWelcome`: forgets the test in progress and the stored result and
        shows the welcome screen. */
    method Exit()
      modifies this
      ensures local == ClearedStore(old(local)) && session == old(session) - {ResultKey}
      ensures view == Welcome
      ensures questions == old(questions) && answers == old(answers)
      ensures currentIndex == old(currentIndex) && timeLeft == old(timeLeft)
      ensures timerQuestions == old(timerQuestions) && timerAnswers == old(timerAnswers)
      ensures Resumable()
    {
      local := local - {EndTimeKey, AnswersKey, IndexKey};
      session := session - {ResultKey};
      view := Welcome;
    }

    /** The result screen: without a stored result it turns to the welcome screen;
        with one it shows the tier of the stored percentage and the counts. */
    method ShowResult() returns (shown: Option<Summary>)
      modifies this
      ensures old(view) != ResultView ==> shown == None && view == old(view)
      ensures old(view) == ResultView ==>
        match ReportAt(session, ResultKey)
        case None => shown == None && view == Welcome
        case Some(r) => shown == Some(SummaryOf(r)) && view == ResultView
      ensures local == old(local) && session == old(session)
      ensures questions == old(questions) && answers == old(answers)
      ensures currentIndex == old(currentIndex) && timeLeft == old(timeLeft)
      ensures timerQuestions == old(timerQuestions) && timerAnswers == old(timerAnswers)
      ensures old(Resumable()) ==> Resumable()
    {
      shown := None;
      if view == ResultView {
        var stored := ReportAt(session, ResultKey);
        if stored.None? {
          view := Welcome;
        } else {
          shown := Some(SummaryOf(stored.value));
        }
      }
    }
  }

  lemma ShuffledSingle(q: Question)
    ensures ValidPicks(1, [0]) && Shuffled([q], [0]) == [q]
  {
    assert ShuffleSteps([q], [0], 1) == Swap(ShuffleSteps([q], [0], 0), 0, 0);
  }

  /** A one-question test at two marks scores 2 when its answer is correct and 0
      otherwise. */
  lemma OneQuestionScores(q: Question, answers: map<string, string>)
    ensures ResultOf([q], answers, Some(1200000), 1200000, 1200000, 2).score
            == if IsCorrect(q, answers) then 2 else 0
  {
    assert [q][..0] == [];
  }

  /** A fresh browser holding one question, after Start Test: the clock stands at 0,
      the test lasts 20 minutes, each question is worth 2 marks. */
  method StartOneQuestion(q: Question) returns (s: Session)
    ensures fresh(s)
    ensures s.view == Test && s.questions == [q] && s.answers == map[]
    ensures s.timerQuestions == [q] && s.timerAnswers == map[]
    ensures NumberAt(s.local, EndTimeKey) == Some(1200000)
    ensures s.DurationMs() == 1200000 && s.marksPerQuestion == 2
    ensures s.Resumable()
  {
    s := new Session(map[QuestionsKey := Bank([q])], map[], 0, 20, 2);
    assert s.questions == [q] && s.view == Welcome;
    ShuffledSingle(q);
    s.StartTest(0, [0]);
  }

  /** A one-question test on a fresh browser, answered correctly, then left to run
      out: the score the runner records as written. */
  method ExpiryScoreAsWritten(q: Question) returns (score: int)
    ensures score == 0
  {
    var s := StartOneQuestion(q);
    s.SelectAnswer(q.id, q.correctAnswer);
    assert s.view == Test && s.timerQuestions == [q] && s.timerAnswers == map[];
    assert NumberAt(s.local, EndTimeKey) == Some(1200000);
    assert SecondsLeft(1200000, 1200000) == 0;
    s.TickAsWritten(1200000);
    OneQuestionScores(q, map[]);
    assert s.session[ResultKey] == Report(ResultOf([q], map[], Some(1200000), 1200000, 1200000, 2));
    score := ReportAt(s.session, ResultKey).value.score;
  }

  /** The same test under the corrected tick: the correct answer is scored. */
  method ExpiryScoreCorrected(q: Question) returns (score: int)
    ensures score == 2
  {
    var s := StartOneQuestion(q);
    s.SelectAnswer(q.id, q.correctAnswer);
    var answers := map[q.id := q.correctAnswer];
    assert s.view == Test && s.questions == [q] && s.answers == answers;
    assert NumberAt(s.local, EndTimeKey) == Some(1200000);
    assert SecondsLeft(1200000, 1200000) == 0;
    s.Tick(1200000);
    OneQuestionScores(q, answers);
    assert s.session[ResultKey] == Report(ResultOf([q], answers, Some(1200000), 1200000, 1200000, 2));
    score := ReportAt(s.session, ResultKey).value.score;
  }
}
