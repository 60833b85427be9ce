/**
 * The learning loop of FlashcardViewController as pure step functions over what outlives one
 * request: the `learn_session` entry and the `direction_{id}` entries of the HTTP session, and
 * the repetition records of the flashcards. Each step returns the new state and the response.
 */
module LearnFlow {
  import opened Wrappers
  import opened Seqs
  import opened Php
  import opened LearnService

  datatype Route = Dashboard | LearnStartRoute | LearnSessionRoute | LearnSummaryRoute | FlashcardListRoute

  /** A flash message: its kind ("warning", "info") and its text. */
  datatype Flash = Flash(kind: string, message: string)

  const NoFlashcardsWarning: string := "Nie masz jeszcze żadnych fiszek do nauki! Dodaj najpierw fiszki."
  const SessionExpiredWarning: string := "Sesja nauki wygasła. Rozpocznij nową sesję."
  const CheckExpiredWarning: string := "Sesja nauki wygasła."
  const NoSessionWarning: string := "Brak sesji nauki."
  const QuitInfo: string := "Sesja nauki została przerwana."

  datatype Page =
    | Redirect(to: Route, flash: Option<Flash>)
    | StartForm
    | LearnPage(
        flashcard: FlashcardId,
        direction: string,
        prompt: string,
        expectedAnswer: string,
        position: int,
        total: int,
        attemptNumber: int,
        previousResult: Option<AttemptResult>)
    | SummaryPage(summary: Summary)

  /** What one request leaves for the next. */
  datatype LearnState = LearnState(
    learnSession: Option<Session>,
    directions: map<FlashcardId, string>,
    records: map<FlashcardId, RepetitionRecord>)

  datatype Step = Step(state: LearnState, page: Page)

  function RecordOf(records: map<FlashcardId, RepetitionRecord>, id: FlashcardId): Option<RepetitionRecord> {
    if id in records then Some(records[id]) else None
  }

  /** The posted mode, or question_to_answer when it is missing or not one of the three modes. */
  function NormalizeMode(posted: Option<string>): (mode: string)
    ensures IsValidMode(mode)
    ensures posted.Some? && IsValidMode(posted.value) ==> mode == posted.value
    ensures !(posted.Some? && IsValidMode(posted.value)) ==> mode == QuestionToAnswer
  {
    var mode := posted.GetOr(QuestionToAnswer);
    if IsValidMode(mode) then mode else QuestionToAnswer
  }

  /** The number of the attempt about to be made on a flashcard. */
  function AttemptNumber(s: Session, id: FlashcardId): int {
    if id in s.results then s.results[id].attempts + 1 else 1
  }

  // ---------------------------------------------------------------- learnStart

  /**
   * learnStart, with the direction memos cleared when a session is stored; `order` is the
   * user's flashcards as initializeSession shuffled them.
   */
  function Started(st: LearnState, isPost: bool, posted: Option<string>, order: seq<FlashcardId>): Step {
    if !isPost then Step(st, StartForm)
    else if |order| == 0 then Step(st, Redirect(Dashboard, Some(Flash("warning", NoFlashcardsWarning))))
    else
      var s := Session(NormalizeMode(posted), order, 0, map[], |order|);
      Step(st.(learnSession := Some(s), directions := map[]), Redirect(LearnSessionRoute, None))
  }

  /** learnStart as written: the memos of an earlier session are kept. */
  function StartedAsWritten(st: LearnState, isPost: bool, posted: Option<string>, order: seq<FlashcardId>): Step {
    if !isPost then Step(st, StartForm)
    else if |order| == 0 then Step(st, Redirect(Dashboard, Some(Flash("warning", NoFlashcardsWarning))))
    else
      var s := Session(NormalizeMode(posted), order, 0, map[], |order|);
      Step(st.(learnSession := Some(s)), Redirect(LearnSessionRoute, None))
  }

  // ---------------------------------------------------------------- learnSession

  /** The direction already chosen for a flashcard, if a truthy one is remembered. */
  function RememberedDirection(directions: map<FlashcardId, string>, id: FlashcardId): Option<string> {
    if id in directions && !IsEmptyString(directions[id]) then Some(directions[id]) else None
  }

  /** learnSession; `heads` is the draw getDirectionForCurrentFlashcard would make. */
  function Presented(st: LearnState, repository: map<FlashcardId, Card>, heads: bool): Step {
    match st.learnSession
    case None => Step(st, Redirect(LearnStartRoute, Some(Flash("warning", SessionExpiredWarning))))
    case Some(s) =>
      if IsSessionFinished(s) then Step(st, Redirect(LearnSummaryRoute, None))
      else
        match GetCurrentFlashcard(s, repository)
        case None => Step(st, Redirect(LearnSummaryRoute, None))
        case Some(current) =>
          var id, card := current.0, current.1;
          var remembered := RememberedDirection(st.directions, id);
          var direction := remembered.GetOr(GetDirectionForCurrentFlashcard(s, heads));
          var directions := if remembered.Some? then st.directions else st.directions[id := direction];
          var prompt := if direction == QuestionToAnswer then card.question else card.answer;
          var expected := if direction == QuestionToAnswer then card.answer else card.question;
          var previous := if id in s.results then Some(s.results[id]) else None;
          Step(st.(directions := directions),
               LearnPage(id, direction, prompt, expected, s.currentIndex + 1, s.total, AttemptNumber(s, id), previous))
  }

  // ---------------------------------------------------------------- learnCheck

  /** The side of the card the answer is compared with: the answer only when the memo says question_to_answer. */
  function ExpectedAnswer(directions: map<FlashcardId, string>, id: FlashcardId, card: Card): string {
    if id in directions && directions[id] == QuestionToAnswer then card.answer else card.question
  }

  /** learnCheck: score the answer against the current flashcard, then apply the retry policy. */
  function Checked(st: LearnState, repository: map<FlashcardId, Card>, answer: string, now: int): Step {
    match st.learnSession
    case None => Step(st, Redirect(LearnStartRoute, Some(Flash("warning", CheckExpiredWarning))))
    case Some(s) =>
      match GetCurrentFlashcard(s, repository)
      case None => Step(st, Redirect(LearnSummaryRoute, None))
      case Some(current) =>
        Judged(st, s, current.0, CheckAnswer(answer, ExpectedAnswer(st.directions, current.0, current.1)), answer, now)
  }

  /**
   * The retry policy for flashcard `id` of session `s` once the answer is judged: record the attempt;
   * on a right answer or from the second attempt on, review the card (not past the second attempt),
   * move on and drop its memo.
   */
  function Judged(st: LearnState, s: Session, id: FlashcardId, isCorrect: bool, answer: string, now: int): Step {
    var attempt := AttemptNumber(s, id);
    var recorded := Recorded(s, id, isCorrect, answer, attempt);
    if isCorrect || attempt >= 2 then
      var records :=
        if attempt == 1 || (attempt == 2 && isCorrect) then
          st.records[id := Reviewed(RecordOf(st.records, id), isCorrect, now)]
        else if attempt == 2 && !isCorrect then
          st.records[id := Reviewed(RecordOf(st.records, id), false, now)]
        else
          st.records;
      Step(LearnState(Some(Advanced(recorded)), st.directions - {id}, records), Redirect(LearnSessionRoute, None))
    else
      Step(st.(learnSession := Some(recorded)), Redirect(LearnSessionRoute, None))
  }

  // ---------------------------------------------------------------- learnSummary / learnQuit

  function Summarised(st: LearnState): Step {
    match st.learnSession
    case None => Step(st, Redirect(LearnStartRoute, Some(Flash("warning", NoSessionWarning))))
    case Some(s) => Step(st.(learnSession := None), SummaryPage(SummaryOf(s)))
  }

  function Quit(st: LearnState): Step {
    Step(st.(learnSession := None), Redirect(FlashcardListRoute, Some(Flash("info", QuitInfo))))
  }

  // ---------------------------------------------------------------- invariants

  /** A flashcard the session has moved past: right at the first attempt, or answered twice. */
  predicate Ended(r: AttemptResult) {
    ((r.attempts == 1 && r.correct) || r.attempts == 2) && |r.userAnswers| == r.attempts
  }

  /** The current flashcard after one wrong answer. */
  predicate Pending(r: AttemptResult) {
    r.attempts == 1 && !r.correct && |r.userAnswers| == 1
  }

  /** The flashcards up to and including the current one. */
  function Seen(s: Session): set<FlashcardId> {
    set k | 0 <= k < |s.flashcards| && k <= s.currentIndex :: s.flashcards[k]
  }

  predicate SessionInvariant(s: Session) {
    && IsValidMode(s.mode)
    && s.total == |s.flashcards|
    && Distinct(s.flashcards)
    && s.currentIndex <= |s.flashcards|
    && (forall k | 0 <= k < s.currentIndex :: s.flashcards[k] in s.results && Ended(s.results[s.flashcards[k]]))
    && (s.currentIndex < |s.flashcards| && s.flashcards[s.currentIndex] in s.results ==>
          Pending(s.results[s.flashcards[s.currentIndex]]))
    && s.results.Keys <= Seen(s)
  }

  /** `r` is what reviewing a flashcard with record `prior` and the given verdict produces. */
  predicate ReviewedFrom(prior: Option<RepetitionRecord>, r: RepetitionRecord, isCorrect: bool) {
    r.lastReviewedAt.Some? && r == Reviewed(prior, isCorrect, r.lastReviewedAt.value)
  }

  /**
   * Relative to the records when the session started: every flashcard moved past was reviewed
   * once, with the verdict its result holds, and no other record changed.
   */
  ghost predicate ReviewedOnce(start: map<FlashcardId, RepetitionRecord>, records: map<FlashcardId, RepetitionRecord>, s: Session)
    requires s.currentIndex <= |s.flashcards|
  {
    && (forall k | 0 <= k < s.currentIndex ::
          s.flashcards[k] in records && s.flashcards[k] in s.results &&
          ReviewedFrom(RecordOf(start, s.flashcards[k]), records[s.flashcards[k]], s.results[s.flashcards[k]].correct))
    && (forall id | id !in s.flashcards[..s.currentIndex] :: RecordOf(records, id) == RecordOf(start, id))
  }

  /** Only the current flashcard has a direction memo; it is a direction, and the mode itself in a fixed mode. */
  predicate MemosInvariant(s: Session, directions: map<FlashcardId, string>) {
    forall id | id in directions ::
      && s.currentIndex < |s.flashcards| && id == s.flashcards[s.currentIndex]
      && (directions[id] == QuestionToAnswer || directions[id] == AnswerToQuestion)
      && (s.mode != RandomMode ==> directions[id] == s.mode)
  }

  ghost predicate LearnInvariant(start: map<FlashcardId, RepetitionRecord>, st: LearnState) {
    st.learnSession.Some? ==>
      && SessionInvariant(st.learnSession.value)
      && ReviewedOnce(start, st.records, st.learnSession.value)
      && MemosInvariant(st.learnSession.value, st.directions)
  }

  // ---------------------------------------------------------------- lemmas: starting

  /** A stored session starts over a permutation of the user's flashcards, with nothing answered or reviewed. */
  lemma StartedEstablishesInvariant(st: LearnState, isPost: bool, posted: Option<string>,
                                    userFlashcards: seq<FlashcardId>, order: seq<FlashcardId>)
    requires Distinct(userFlashcards) && multiset(order) == multiset(userFlashcards)
    requires isPost && |userFlashcards| > 0
    ensures var next := Started(st, isPost, posted, order).state;
      && next.learnSession.Some?
      && next.learnSession.value.mode == NormalizeMode(posted)
      && LearnInvariant(st.records, next)
  {
    PermutationKeepsDistinct(userFlashcards, order);
    var s := Started(st, isPost, posted, order).state.learnSession.value;
    assert s.flashcards[..0] == [];
  }

  /** Without a POST, or with no flashcards, learnStart changes nothing. */
  lemma StartedWithoutDeckChangesNothing(st: LearnState, isPost: bool, posted: Option<string>, order: seq<FlashcardId>)
    requires !isPost || |order| == 0
    ensures Started(st, isPost, posted, order).state == st
    ensures isPost ==> (Started(st, isPost, posted, order).page.Redirect? &&
                        Started(st, isPost, posted, order).page.to == Dashboard)
  {
  }

  // ---------------------------------------------------------------- lemmas: presenting

  /** Under the invariant, the current flashcard is at its first or second attempt. */
  lemma AttemptIsFirstOrSecond(s: Session)
    requires SessionInvariant(s) && !IsSessionFinished(s)
    ensures AttemptNumber(s, s.flashcards[s.currentIndex]) in {1, 2}
    ensures AttemptNumber(s, s.flashcards[s.currentIndex]) == 2 <==> s.flashcards[s.currentIndex] in s.results
  {
  }

  lemma PresentedPreservesInvariant(start: map<FlashcardId, RepetitionRecord>, st: LearnState,
                                    repository: map<FlashcardId, Card>, heads: bool)
    requires LearnInvariant(start, st)
    ensures LearnInvariant(start, Presented(st, repository, heads).state)
    ensures Presented(st, repository, heads).state.learnSession == st.learnSession
    ensures Presented(st, repository, heads).state.records == st.records
  {
    if st.learnSession.Some? {
      var s := st.learnSession.value;
      if !IsSessionFinished(s) && GetCurrentFlashcard(s, repository).Some? {
        DirectionFollowsMode(s, heads);
      }
    }
  }

  /** A card that already has a direction is shown in it again, without drawing, and the memos stay as they are. */
  lemma PresentedAgainKeepsDirection(st: LearnState, repository: map<FlashcardId, Card>, heads: bool)
    requires st.learnSession.Some? && GetCurrentFlashcard(st.learnSession.value, repository).Some?
    requires var s := st.learnSession.value;
      var id := s.flashcards[s.currentIndex];
      id in st.directions && (st.directions[id] == QuestionToAnswer || st.directions[id] == AnswerToQuestion)
    ensures var s := st.learnSession.value;
      var id := s.flashcards[s.currentIndex];
      var step := Presented(st, repository, heads);
      && step.state == st
      && step.page.LearnPage? && step.page.flashcard == id
      && step.page.direction == st.directions[id]
      && step.page.prompt == (if st.directions[id] == QuestionToAnswer then repository[id].question else repository[id].answer)
  {
  }

  /** learnSession shows the current flashcard, with its position and attempt number, whenever the repository has it. */
  lemma PresentedShowsCurrent(st: LearnState, repository: map<FlashcardId, Card>, heads: bool)
    requires st.learnSession.Some?
    ensures var s := st.learnSession.value;
      var page := Presented(st, repository, heads).page;
      && (page.LearnPage? <==> GetCurrentFlashcard(s, repository).Some?)
      && (page.LearnPage? ==>
            && page.flashcard == s.flashcards[s.currentIndex]
            && page.position == s.currentIndex + 1
            && page.total == s.total
            && page.attemptNumber == AttemptNumber(s, page.flashcard))
      && (!page.LearnPage? ==> page == Redirect(LearnSummaryRoute, None))
  {
  }

  /**
   * The page shows the card in the direction stored for it: a fixed mode's own direction, and
   * in random mode the remembered draw, or a fresh one that is then remembered.
   */
  lemma PresentedDirection(start: map<FlashcardId, RepetitionRecord>, st: LearnState,
                           repository: map<FlashcardId, Card>, heads: bool)
    requires LearnInvariant(start, st)
    ensures var step := Presented(st, repository, heads);
      step.page.LearnPage? ==>
        && step.state.directions == st.directions[step.page.flashcard := step.page.direction]
        && (st.learnSession.value.mode != RandomMode ==> step.page.direction == st.learnSession.value.mode)
        && (step.page.flashcard in st.directions ==> step.page.direction == st.directions[step.page.flashcard])
        && step.page.prompt == (if step.page.direction == QuestionToAnswer then repository[step.page.flashcard].question
                                else repository[step.page.flashcard].answer)
        && step.page.expectedAnswer == ExpectedAnswer(step.state.directions, step.page.flashcard, repository[step.page.flashcard])
  {
    var step := Presented(st, repository, heads);
    if step.page.LearnPage? {
      var s := st.learnSession.value;
      DirectionFollowsMode(s, heads);
      var id := step.page.flashcard;
      if id in st.directions {
        assert RememberedDirection(st.directions, id) == Some(st.directions[id]);
        assert st.directions[id := st.directions[id]] == st.directions;
      }
    }
  }

  // ---------------------------------------------------------------- lemmas: checking

  /** The verdict learnCheck reaches on the current flashcard. */
  function Verdict(st: LearnState, repository: map<FlashcardId, Card>, answer: string): bool
    requires st.learnSession.Some? && GetCurrentFlashcard(st.learnSession.value, repository).Some?
  {
    var s := st.learnSession.value;
    var id := s.flashcards[s.currentIndex];
    CheckAnswer(answer, ExpectedAnswer(st.directions, id, repository[id]))
  }

  lemma CheckedIsJudged(st: LearnState, repository: map<FlashcardId, Card>, answer: string, now: int)
    requires st.learnSession.Some? && GetCurrentFlashcard(st.learnSession.value, repository).Some?
    ensures var s := st.learnSession.value;
      Checked(st, repository, answer, now)
        == Judged(st, s, s.flashcards[s.currentIndex], Verdict(st, repository, answer), answer, now)
  {
  }

  /**
   * The retry policy on the current flashcard: the card advances exactly when the answer is right or
   * it is the second attempt; then its record is reviewed once with this attempt's verdict and its
   * memo is dropped; otherwise the records and memos are untouched.
   */
  lemma JudgedFollowsRetryPolicy(st: LearnState, s: Session, isCorrect: bool, answer: string, now: int)
    requires SessionInvariant(s) && !IsSessionFinished(s)
    ensures var id := s.flashcards[s.currentIndex];
      var attempt := AttemptNumber(s, id);
      var next := Judged(st, s, id, isCorrect, answer, now).state;
      && next.learnSession.Some?
      && (attempt == 1 || attempt == 2)
      && next.learnSession.value.results[id] == AttemptResult(
           isCorrect || (id in s.results && s.results[id].correct), attempt,
           (if id in s.results then s.results[id].userAnswers else []) + [answer])
      && (isCorrect || attempt == 2 ==>
            && next.learnSession.value == Advanced(Recorded(s, id, isCorrect, answer, attempt))
            && next.records == st.records[id := Reviewed(RecordOf(st.records, id), isCorrect, now)]
            && next.directions == st.directions - {id})
      && (!isCorrect && attempt == 1 ==>
            && next.learnSession.value == Recorded(s, id, isCorrect, answer, attempt)
            && next.records == st.records
            && next.directions == st.directions)
  {
    AttemptIsFirstOrSecond(s);
  }

  /** The same policy stated on learnCheck itself. */
  lemma CheckedFollowsRetryPolicy(st: LearnState, repository: map<FlashcardId, Card>, answer: string, now: int)
    requires st.learnSession.Some? && SessionInvariant(st.learnSession.value)
    requires GetCurrentFlashcard(st.learnSession.value, repository).Some?
    ensures var s := st.learnSession.value;
      var id := s.flashcards[s.currentIndex];
      var isCorrect := CheckAnswer(answer, ExpectedAnswer(st.directions, id, repository[id]));
      var attempt := AttemptNumber(s, id);
      var next := Checked(st, repository, answer, now).state;
      && next.learnSession.Some?
      && (attempt == 1 || attempt == 2)
      && (isCorrect || attempt == 2 ==>
            && next.learnSession.value.currentIndex == s.currentIndex + 1
            && next.records == st.records[id := Reviewed(RecordOf(st.records, id), isCorrect, now)]
            && next.directions == st.directions - {id})
      && (!isCorrect && attempt == 1 ==>
            && next.learnSession.value.currentIndex == s.currentIndex
            && next.records == st.records
            && next.directions == st.directions)
  {
    CheckedIsJudged(st, repository, answer, now);
    JudgedFollowsRetryPolicy(st, st.learnSession.value, Verdict(st, repository, answer), answer, now);
  }

  /** Recording an answer that ends the current flashcard and moving on keeps the session invariant. */
  lemma {:induction false} AdvancingKeepsSessionInvariant(s: Session, isCorrect: bool, answer: string)
    requires SessionInvariant(s) && !IsSessionFinished(s)
    requires isCorrect || AttemptNumber(s, s.flashcards[s.currentIndex]) == 2
    ensures var id := s.flashcards[s.currentIndex];
      SessionInvariant(Advanced(Recorded(s, id, isCorrect, answer, AttemptNumber(s, id))))
  {
    var i := s.currentIndex;
    var id := s.flashcards[i];
    AttemptIsFirstOrSecond(s);
    var recorded := Recorded(s, id, isCorrect, answer, AttemptNumber(s, id));
    var t := Advanced(recorded);
    assert id in Seen(s);
    assert Ended(t.results[id]);
    forall k | 0 <= k < t.currentIndex
      ensures t.flashcards[k] in t.results && Ended(t.results[t.flashcards[k]])
    {
      if k < i {
        assert s.flashcards[k] != id;
      }
    }
    forall x | x in t.results ensures x in Seen(t) {
      var j :| 0 <= j < |s.flashcards| && j <= i && s.flashcards[j] == x;
    }
    if i + 1 < |s.flashcards| {
      var nextId := s.flashcards[i + 1];
      forall j | 0 <= j < |s.flashcards| && j <= i ensures s.flashcards[j] != nextId {
      }
      assert nextId !in t.results;
    }
  }

  /** Recording a first wrong answer keeps the session invariant: the card is pending and stays current. */
  lemma {:induction false} StayingKeepsSessionInvariant(s: Session, answer: string)
    requires SessionInvariant(s) && !IsSessionFinished(s)
    requires AttemptNumber(s, s.flashcards[s.currentIndex]) == 1
    ensures var id := s.flashcards[s.currentIndex];
      SessionInvariant(Recorded(s, id, false, answer, 1))
  {
    var id := s.flashcards[s.currentIndex];
    AttemptIsFirstOrSecond(s);
    var recorded := Recorded(s, id, false, answer, 1);
    assert Pending(recorded.results[id]);
    assert id in Seen(s);
    assert Seen(recorded) == Seen(s);
  }

  lemma {:induction false} JudgedPreservesSession(st: LearnState, s: Session, isCorrect: bool, answer: string, now: int)
    requires SessionInvariant(s) && !IsSessionFinished(s)
    ensures SessionInvariant(Judged(st, s, s.flashcards[s.currentIndex], isCorrect, answer, now).state.learnSession.value)
  {
    var id := s.flashcards[s.currentIndex];
    AttemptIsFirstOrSecond(s);
    if isCorrect || AttemptNumber(s, id) == 2 {
      AdvancingKeepsSessionInvariant(s, isCorrect, answer);
    } else {
      StayingKeepsSessionInvariant(s, answer);
    }
  }

  /** The case that moves on: the current card gets its one review, nothing else changes. */
  lemma {:induction false} AdvancingKeepsReviewedOnce(start: map<FlashcardId, RepetitionRecord>, st: LearnState,
                                                      s: Session, isCorrect: bool, answer: string, now: int)
    requires SessionInvariant(s) && !IsSessionFinished(s) && ReviewedOnce(start, st.records, s)
    requires isCorrect || AttemptNumber(s, s.flashcards[s.currentIndex]) == 2
    ensures var next := Judged(st, s, s.flashcards[s.currentIndex], isCorrect, answer, now).state;
      next.learnSession.Some? && next.learnSession.value.currentIndex <= |next.learnSession.value.flashcards| &&
      ReviewedOnce(start, next.records, next.learnSession.value)
  {
    var i := s.currentIndex;
    var id := s.flashcards[i];
    JudgedFollowsRetryPolicy(st, s, isCorrect, answer, now);
    var next := Judged(st, s, id, isCorrect, answer, now).state;
    var t := next.learnSession.value;
    var rev := Reviewed(RecordOf(st.records, id), isCorrect, now);
    assert next.records == st.records[id := rev];
    assert id !in s.flashcards[..i];
    assert RecordOf(st.records, id) == RecordOf(start, id);
    assert t.results[id].correct == isCorrect;
    assert ReviewedFrom(RecordOf(start, id), rev, isCorrect);
    assert t.currentIndex == i + 1 && t.flashcards == s.flashcards;
    forall k | 0 <= k < t.currentIndex
      ensures t.flashcards[k] in next.records && t.flashcards[k] in t.results
      ensures ReviewedFrom(RecordOf(start, t.flashcards[k]), next.records[t.flashcards[k]], t.results[t.flashcards[k]].correct)
    {
      var x := s.flashcards[k];
      if k < i {
        assert x != id;
        assert ReviewedFrom(RecordOf(start, x), st.records[x], s.results[x].correct);
        assert next.records[x] == st.records[x] && t.results[x] == s.results[x];
      } else {
        assert k == i;
      }
    }
    assert t.flashcards[..t.currentIndex] == s.flashcards[..i] + [id];
    forall x | x !in t.flashcards[..t.currentIndex] ensures RecordOf(next.records, x) == RecordOf(start, x) {
      assert x != id && x !in s.flashcards[..i];
    }
  }

  /** The case that stays on the card: records untouched. */
  lemma {:induction false} StayingKeepsReviewedOnce(start: map<FlashcardId, RepetitionRecord>, st: LearnState,
                                                    s: Session, answer: string, now: int)
    requires SessionInvariant(s) && !IsSessionFinished(s) && ReviewedOnce(start, st.records, s)
    requires AttemptNumber(s, s.flashcards[s.currentIndex]) == 1
    ensures var next := Judged(st, s, s.flashcards[s.currentIndex], false, answer, now).state;
      next.learnSession.Some? && next.learnSession.value.currentIndex <= |next.learnSession.value.flashcards| &&
      ReviewedOnce(start, next.records, next.learnSession.value)
  {
    var i := s.currentIndex;
    var id := s.flashcards[i];
    JudgedFollowsRetryPolicy(st, s, false, answer, now);
    var next := Judged(st, s, id, false, answer, now).state;
    var t := next.learnSession.value;
    assert next.records == st.records && t.currentIndex == i && t.flashcards == s.flashcards;
    forall k | 0 <= k < t.currentIndex
      ensures t.flashcards[k] in next.records && t.flashcards[k] in t.results
      ensures ReviewedFrom(RecordOf(start, t.flashcards[k]), next.records[t.flashcards[k]], t.results[t.flashcards[k]].correct)
    {
      var x := s.flashcards[k];
      assert x != id;
      assert ReviewedFrom(RecordOf(start, x), st.records[x], s.results[x].correct);
      assert t.results[x] == s.results[x];
    }
  }

  lemma JudgedPreservesReviewedOnce(start: map<FlashcardId, RepetitionRecord>, st: LearnState,
                                    s: Session, isCorrect: bool, answer: string, now: int)
    requires SessionInvariant(s) && !IsSessionFinished(s) && ReviewedOnce(start, st.records, s)
    ensures var next := Judged(st, s, s.flashcards[s.currentIndex], isCorrect, answer, now).state;
      next.learnSession.Some? && next.learnSession.value.currentIndex <= |next.learnSession.value.flashcards| &&
      ReviewedOnce(start, next.records, next.learnSession.value)
  {
    AttemptIsFirstOrSecond(s);
    if isCorrect || AttemptNumber(s, s.flashcards[s.currentIndex]) == 2 {
      AdvancingKeepsReviewedOnce(start, st, s, isCorrect, answer, now);
    } else {
      StayingKeepsReviewedOnce(start, st, s, answer, now);
    }
  }

  lemma JudgedPreservesMemos(st: LearnState, s: Session, isCorrect: bool, answer: string, now: int)
    requires SessionInvariant(s) && !IsSessionFinished(s) && MemosInvariant(s, st.directions)
    ensures var next := Judged(st, s, s.flashcards[s.currentIndex], isCorrect, answer, now).state;
      next.learnSession.Some? && MemosInvariant(next.learnSession.value, next.directions)
  {
    JudgedFollowsRetryPolicy(st, s, isCorrect, answer, now);
  }

  lemma CheckedPreservesInvariant(start: map<FlashcardId, RepetitionRecord>, st: LearnState,
                                  repository: map<FlashcardId, Card>, answer: string, now: int)
    requires LearnInvariant(start, st)
    ensures LearnInvariant(start, Checked(st, repository, answer, now).state)
  {
    if st.learnSession.Some? && GetCurrentFlashcard(st.learnSession.value, repository).Some? {
      var s := st.learnSession.value;
      var v := Verdict(st, repository, answer);
      CheckedIsJudged(st, repository, answer, now);
      JudgedPreservesSession(st, s, v, answer, now);
      JudgedPreservesReviewedOnce(start, st, s, v, answer, now);
      JudgedPreservesMemos(st, s, v, answer, now);
    }
  }

  // ---------------------------------------------------------------- lemmas: ending

  lemma SummarisedAndQuitEndTheSession(start: map<FlashcardId, RepetitionRecord>, st: LearnState)
    ensures Summarised(st).state.learnSession.None? && LearnInvariant(start, Summarised(st).state)
    ensures Quit(st).state.learnSession.None? && LearnInvariant(start, Quit(st).state)
    ensures Summarised(st).state.records == st.records && Quit(st).state.records == st.records
    ensures st.learnSession.None? ==> Summarised(st).page.Redirect? && Summarised(st).page.to == LearnStartRoute
  {
  }

  /**
   * A finished session has a result for every flashcard, so the summary's right and wrong counts add up
   * to the total, and every flashcard was reviewed exactly once with its result's verdict.
   */
  lemma FinishedSessionAccountsForEveryCard(start: map<FlashcardId, RepetitionRecord>, st: LearnState)
    requires LearnInvariant(start, st) && st.learnSession.Some? && IsSessionFinished(st.learnSession.value)
    ensures var s := st.learnSession.value;
      && s.results.Keys == (set x | x in s.flashcards)
      && SummaryOf(s).correct + SummaryOf(s).incorrect == SummaryOf(s).total
      && SummaryOf(s).total == s.total
      && (forall k | 0 <= k < |s.flashcards| ::
            s.flashcards[k] in st.records &&
            ReviewedFrom(RecordOf(start, s.flashcards[k]), st.records[s.flashcards[k]], s.results[s.flashcards[k]].correct))
  {
    var s := st.learnSession.value;
    var deck := set x | x in s.flashcards;
    assert s.results.Keys == deck by {
      assert Seen(s) <= deck;
      forall x | x in deck ensures x in s.results {
        var k :| 0 <= k < |s.flashcards| && s.flashcards[k] == x;
      }
    }
    DistinctCardinality(s.flashcards);
  }

  // ---------------------------------------------------------------- the retry scenario

  /** A wrong first answer leaves the card current, its memo and the records as they were. */
  lemma WrongFirstAnswerKeepsCard(start: map<FlashcardId, RepetitionRecord>, st: LearnState,
                                  repository: map<FlashcardId, Card>, wrong: string, now: int)
    requires LearnInvariant(start, st) && st.learnSession.Some?
    requires GetCurrentFlashcard(st.learnSession.value, repository).Some?
    requires var s := st.learnSession.value; s.flashcards[s.currentIndex] !in s.results
    requires !Verdict(st, repository, wrong)
    ensures var s := st.learnSession.value;
      var id := s.flashcards[s.currentIndex];
      var next := Checked(st, repository, wrong, now).state;
      && next == st.(learnSession := Some(Recorded(s, id, false, wrong, 1)))
      && LearnInvariant(start, next)
      && next.learnSession.value.results[id] == AttemptResult(false, 1, [wrong])
  {
    var s := st.learnSession.value;
    CheckedIsJudged(st, repository, wrong, now);
    JudgedFollowsRetryPolicy(st, s, false, wrong, now);
    CheckedPreservesInvariant(start, st, repository, wrong, now);
  }

  /** A right second answer ends the card: attempts 2, correct, one review as right, and the next card. */
  lemma RightSecondAnswerEndsCard(start: map<FlashcardId, RepetitionRecord>, st: LearnState,
                                  repository: map<FlashcardId, Card>, wrong: string, right: string, now: int)
    requires LearnInvariant(start, st) && st.learnSession.Some?
    requires GetCurrentFlashcard(st.learnSession.value, repository).Some?
    requires var s := st.learnSession.value;
      var id := s.flashcards[s.currentIndex];
      id in s.results && s.results[id] == AttemptResult(false, 1, [wrong])
    requires Verdict(st, repository, right)
    ensures var s := st.learnSession.value;
      var id := s.flashcards[s.currentIndex];
      var next := Checked(st, repository, right, now).state;
      && next.learnSession.Some? && id in next.learnSession.value.results
      && next.learnSession.value.results[id] == AttemptResult(true, 2, [wrong, right])
      && next.records == st.records[id := Reviewed(RecordOf(st.records, id), true, now)]
      && next.learnSession.value.currentIndex == s.currentIndex + 1
      && id !in next.directions
  {
    var s := st.learnSession.value;
    CheckedIsJudged(st, repository, right, now);
    JudgedFollowsRetryPolicy(st, s, true, right, now);
  }

  /**
   * A card shown, answered wrong, shown again and answered right: the second page shows the same
   * direction and prompt whatever the second draw, the result holds attempts 2 and correct, the
   * record is reviewed once as right, and the position moves on by one.
   */
  lemma RetryScenario(start: map<FlashcardId, RepetitionRecord>, st: LearnState, repository: map<FlashcardId, Card>,
                      heads1: bool, heads2: bool, wrong: string, right: string, now1: int, now2: int)
    requires LearnInvariant(start, st) && st.learnSession.Some?
    requires var step := Presented(st, repository, heads1);
      step.page.LearnPage? && step.page.attemptNumber == 1 &&
      !CheckAnswer(wrong, step.page.expectedAnswer) && CheckAnswer(right, step.page.expectedAnswer)
    ensures var p1 := Presented(st, repository, heads1);
      var c1 := Checked(p1.state, repository, wrong, now1);
      var p2 := Presented(c1.state, repository, heads2);
      var c2 := Checked(p2.state, repository, right, now2);
      var id := p1.page.flashcard;
      && c1.state.records == st.records
      && c1.state.learnSession.Some?
      && c1.state.learnSession.value.currentIndex == st.learnSession.value.currentIndex
      && p2.page.LearnPage? && p2.page.flashcard == id && p2.page.attemptNumber == 2
      && p2.page.direction == p1.page.direction && p2.page.prompt == p1.page.prompt
      && c2.state.learnSession.Some? && id in c2.state.learnSession.value.results
      && c2.state.learnSession.value.results[id] == AttemptResult(true, 2, [wrong, right])
      && c2.state.records == st.records[id := Reviewed(RecordOf(st.records, id), true, now2)]
      && c2.state.learnSession.value.currentIndex == st.learnSession.value.currentIndex + 1
      && id !in c2.state.directions
  {
    var s := st.learnSession.value;
    var p1 := Presented(st, repository, heads1);
    PresentedPreservesInvariant(start, st, repository, heads1);
    PresentedDirection(start, st, repository, heads1);
    var id := p1.page.flashcard;
    assert id == s.flashcards[s.currentIndex] && id !in s.results;
    WrongFirstAnswerKeepsCard(start, p1.state, repository, wrong, now1);
    var c1 := Checked(p1.state, repository, wrong, now1);
    PresentedPreservesInvariant(start, c1.state, repository, heads2);
    PresentedDirection(start, c1.state, repository, heads2);
    var p2 := Presented(c1.state, repository, heads2);
    PresentedShowsCurrent(c1.state, repository, heads2);
    assert id in c1.state.directions && c1.state.directions == p1.state.directions;
    PresentedAgainKeepsDirection(c1.state, repository, heads2);
    RightSecondAnswerEndsCard(start, p2.state, repository, wrong, right, now2);
  }

  // ---------------------------------------------------------------- the stale direction

  /**
   * As written, a memo left by a random session that was quit survives into the next session:
   * started again in question_to_answer mode, the card is shown the other way round.
   */
  lemma StaleDirectionAsWritten()
    ensures var repository := map[7 := Card("kot", "cat")];
      var a := StartedAsWritten(LearnState(None, map[], map[]), true, Some(RandomMode), [7]);
      var b := Presented(a.state, repository, false);
      var c := Quit(b.state);
      var d := StartedAsWritten(c.state, true, Some(QuestionToAnswer), [7]);
      var e := Presented(d.state, repository, true);
      && d.state.learnSession.value.mode == QuestionToAnswer
      && e.page.LearnPage? && e.page.direction == AnswerToQuestion && e.page.prompt == "cat"
  {
  }

  /** With the memos cleared on start, the same requests show the card as the mode says. */
  lemma FreshDirectionAfterRestart()
    ensures var repository := map[7 := Card("kot", "cat")];
      var a := Started(LearnState(None, map[], map[]), true, Some(RandomMode), [7]);
      var b := Presented(a.state, repository, false);
      var c := Quit(b.state);
      var d := Started(c.state, true, Some(QuestionToAnswer), [7]);
      var e := Presented(d.state, repository, true);
      && e.page.LearnPage? && e.page.direction == QuestionToAnswer && e.page.prompt == "kot"
  {
  }
}
