/**
 * The learning service: a learning session is a value (the array kept in the HTTP session),
 * the operations that the PHP code applies to it by reference return the new value, and
 * the simplified SM-2 update of a flashcard's repetition record.
 *
 * Ease factors are kept in hundredths (2.50 is 250), time in seconds.
 */
module LearnService {
  import opened Wrappers
  import opened Seqs
  import opened Php

  type FlashcardId = int

  const QuestionToAnswer: string := "question_to_answer"
  const AnswerToQuestion: string := "answer_to_question"
  const RandomMode: string := "random"

  /** The modes a session may be started in. */
  predicate IsValidMode(mode: string) {
    mode == QuestionToAnswer || mode == AnswerToQuestion || mode == RandomMode
  }

  /** The two sides of a flashcard, as the repository gives them back. */
  datatype Card = Card(question: string, answer: string)

  /** One entry of `results`: whether some attempt was right, the last attempt number, every answer given. */
  datatype AttemptResult = AttemptResult(correct: bool, attempts: int, userAnswers: seq<string>)

  /** The `learn_session` array. */
  datatype Session = Session(
    mode: string,
    flashcards: seq<FlashcardId>,
    currentIndex: nat,
    results: map<FlashcardId, AttemptResult>,
    total: int)

  // ---------------------------------------------------------------- initializeSession

  /**
   * A session over the user's flashcards in shuffled order. shuffle() is modelled as the choice
   * of an arbitrary permutation.
   */
  method InitializeSession(userFlashcards: seq<FlashcardId>, mode: string) returns (s: Session)
    ensures s.mode == mode && s.currentIndex == 0 && s.results == map[]
    ensures multiset(s.flashcards) == multiset(userFlashcards)
    ensures s.total == |s.flashcards| == |userFlashcards|
  {
    if |userFlashcards| == 0 {
      return Session(mode, [], 0, map[], 0);
    }
    var shuffled :| multiset(shuffled) == multiset(userFlashcards);
    assert |multiset(shuffled)| == |shuffled| && |multiset(userFlashcards)| == |userFlashcards|;
    s := Session(mode, shuffled, 0, map[], |shuffled|);
  }

  // ---------------------------------------------------------------- getCurrentFlashcard / isSessionFinished

  predicate IsSessionFinished(s: Session) {
    s.currentIndex >= |s.flashcards|
  }

  /** The flashcard at the current index, if the session has one there and the repository still holds it. */
  function GetCurrentFlashcard(s: Session, repository: map<FlashcardId, Card>): (r: Option<(FlashcardId, Card)>)
    ensures r.Some? <==> !IsSessionFinished(s) && s.flashcards[s.currentIndex] in repository
    ensures r.Some? ==> r.value.0 == s.flashcards[s.currentIndex] && r.value.1 == repository[r.value.0]
  {
    if |s.flashcards| == 0 || s.currentIndex >= |s.flashcards| then None
    else
      var id := s.flashcards[s.currentIndex];
      if id in repository then Some((id, repository[id])) else None
  }

  // ---------------------------------------------------------------- getDirectionForCurrentFlashcard

  /** `heads` stands for random_int(0, 1) returning 0. */
  function GetDirectionForCurrentFlashcard(s: Session, heads: bool): string {
    if s.mode == RandomMode then
      (if heads then QuestionToAnswer else AnswerToQuestion)
    else
      s.mode
  }

  /** A fixed mode is its own direction; the random mode yields one of the two directions, each for one draw. */
  lemma DirectionFollowsMode(s: Session, heads: bool)
    requires IsValidMode(s.mode)
    ensures var d := GetDirectionForCurrentFlashcard(s, heads);
      (d == QuestionToAnswer || d == AnswerToQuestion) &&
      (s.mode != RandomMode ==> d == s.mode) &&
      (s.mode == RandomMode ==> GetDirectionForCurrentFlashcard(s, !heads) != d)
  {
  }

  // ---------------------------------------------------------------- checkAnswer

  /** normalizeAnswer: mb_strtolower(trim($answer)). */
  function NormalizeAnswer(answer: string): (r: string)
    ensures IsTrimmed(r) && Lower(r) == r
  {
    var t := Trim(answer);
    LowerKeepsTrimmed(t);
    LowerIdempotent(t);
    Lower(t)
  }

  predicate CheckAnswer(userAnswer: string, correctAnswer: string) {
    NormalizeAnswer(userAnswer) == NormalizeAnswer(correctAnswer)
  }

  lemma NormalizeAnswerIdempotent(answer: string)
    ensures NormalizeAnswer(NormalizeAnswer(answer)) == NormalizeAnswer(answer)
  {
    var n := NormalizeAnswer(answer);
    TrimKeepsTrimmed(n);
    LowerIdempotent(Trim(answer));
  }

  /** Answers are compared as an equivalence: reflexive, symmetric and transitive. */
  lemma CheckAnswerIsEquivalence(a: string, b: string, c: string)
    ensures CheckAnswer(a, a)
    ensures CheckAnswer(a, b) ==> CheckAnswer(b, a)
    ensures CheckAnswer(a, b) && CheckAnswer(b, c) ==> CheckAnswer(a, c)
  {
  }

  /** Upper or lower case, and whitespace around the answer, never change the verdict. */
  lemma {:induction false} CheckAnswerIgnoresCaseAndPadding(userAnswer: string, correctAnswer: string, pad: char)
    requires IsTrimChar(pad)
    ensures CheckAnswer(Lower(userAnswer), correctAnswer) == CheckAnswer(userAnswer, correctAnswer)
    ensures CheckAnswer([pad] + userAnswer + [pad], correctAnswer) == CheckAnswer(userAnswer, correctAnswer)
  {
    TrimCommutesWithLower(userAnswer);
    LowerIdempotent(Trim(userAnswer));
    TrimIgnoresPadding(pad, [pad] + userAnswer);
    TrimIgnoresPadding(pad, userAnswer);
  }

  lemma LowerExample()
    ensures Lower("Paris") == "paris" && Lower("paris") == "paris"
  {
    assert LowerChar('P') == 'p';
  }

  /** An answer without surrounding whitespace is only lower-cased. */
  lemma NormalizeTrimmed(s: string)
    requires IsTrimmed(s)
    ensures NormalizeAnswer(s) == Lower(s)
  {
    TrimKeepsTrimmed(s);
  }

  lemma LowerOfFour(a: char, b: char, c: char, d: char)
    ensures Lower([a, b, c, d]) == [LowerChar(a), LowerChar(b), LowerChar(c), LowerChar(d)]
  {
  }

  lemma NormalizesToLodz(s: string)
    requires s == "ŁÓDŹ" || s == "łódź"
    ensures NormalizeAnswer(s) == "łódź"
  {
    NormalizeTrimmed(s);
    LowerOfFour(s[0], s[1], s[2], s[3]);
  }

  lemma CheckAnswerFoldsPolishCapitals()
    ensures CheckAnswer("ŁÓDŹ", "łódź")
  {
    NormalizesToLodz("ŁÓDŹ");
    NormalizesToLodz("łódź");
  }

  lemma CheckAnswerKeepsPunctuation()
    ensures !CheckAnswer("paris!", "Paris")
  {
    var given, expected := "paris!", "Paris";
    NormalizeTrimmed(given);
    NormalizeTrimmed(expected);
    assert |Lower(given)| == 6 != |Lower(expected)|;
  }

  // ---------------------------------------------------------------- recordAttempt / moveToNextFlashcard

  /** The session after recordAttempt($session, $id, $isCorrect, $userAnswer, $attemptNumber). */
  function Recorded(s: Session, id: FlashcardId, isCorrect: bool, userAnswer: string, attemptNumber: int): (r: Session)
    ensures r.mode == s.mode && r.flashcards == s.flashcards && r.currentIndex == s.currentIndex && r.total == s.total
    ensures r.results.Keys == s.results.Keys + {id}
    ensures forall other | other in s.results && other != id :: r.results[other] == s.results[other]
    ensures r.results[id].attempts == attemptNumber
    ensures r.results[id].userAnswers == (if id in s.results then s.results[id].userAnswers else []) + [userAnswer]
    ensures r.results[id].correct <==> isCorrect || (id in s.results && s.results[id].correct)
  {
    var prior := if id in s.results then s.results[id] else AttemptResult(false, 0, []);
    s.(results := s.results[id := AttemptResult(prior.correct || isCorrect, attemptNumber, prior.userAnswers + [userAnswer])])
  }

  method RecordAttempt(s: Session, id: FlashcardId, isCorrect: bool, userAnswer: string, attemptNumber: int)
    returns (r: Session)
    ensures r == Recorded(s, id, isCorrect, userAnswer, attemptNumber)
  {
    r := s;
    if id !in r.results {
      r := r.(results := r.results[id := AttemptResult(false, 0, [])]);
    }
    var entry := r.results[id];
    r := r.(results := r.results[id := entry.(attempts := attemptNumber)]);
    entry := r.results[id];
    r := r.(results := r.results[id := entry.(userAnswers := entry.userAnswers + [userAnswer])]);
    if isCorrect {
      entry := r.results[id];
      r := r.(results := r.results[id := entry.(correct := true)]);
    }
  }

  /** A correct answer, once recorded, stays recorded whatever later attempts bring. */
  lemma CorrectIsSticky(s: Session, id: FlashcardId, isCorrect: bool, userAnswer: string, attemptNumber: int)
    requires id in s.results && s.results[id].correct
    ensures Recorded(s, id, isCorrect, userAnswer, attemptNumber).results[id].correct
  {
  }

  function Advanced(s: Session): (r: Session)
    ensures r.currentIndex == s.currentIndex + 1
    ensures r.mode == s.mode && r.flashcards == s.flashcards && r.results == s.results && r.total == s.total
  {
    s.(currentIndex := s.currentIndex + 1)
  }

  method MoveToNextFlashcard(s: Session) returns (r: Session)
    ensures r == Advanced(s)
  {
    r := s;
    r := r.(currentIndex := r.currentIndex + 1);
  }

  /** Advancing k times from the start finishes the session exactly when k reaches its length. */
  lemma {:induction false} AdvancedTimesFinishes(s: Session, k: nat)
    requires s.currentIndex == 0
    ensures IsSessionFinished(AdvancedTimes(s, k)) <==> k >= |s.flashcards|
  {
    AdvancedTimesIndex(s, k);
  }

  function AdvancedTimes(s: Session, k: nat): Session {
    if k == 0 then s else Advanced(AdvancedTimes(s, k - 1))
  }

  lemma {:induction false} AdvancedTimesIndex(s: Session, k: nat)
    ensures AdvancedTimes(s, k).currentIndex == s.currentIndex + k
    ensures AdvancedTimes(s, k).flashcards == s.flashcards
  {
    if k > 0 {
      AdvancedTimesIndex(s, k - 1);
    }
  }

  // ---------------------------------------------------------------- updateRepetitionRecord

  const DefaultEaseFactor: int := 250
  const MinEaseFactor: int := 130
  const CorrectBonus: int := 10
  const IncorrectPenalty: int := 20
  const SecondsPerDay: int := 86400

  /** A flashcard's repetition record; times are seconds, the ease factor is in hundredths. */
  datatype RepetitionRecord = RepetitionRecord(
    lastReviewedAt: Option<int>,
    nextReviewAt: Option<int>,
    easeFactor: int,
    intervalDays: int,
    repetitionCount: int)

  /** A record as `new RepetitionRecord()` creates it. */
  function NewRepetitionRecord(): RepetitionRecord {
    RepetitionRecord(None, None, DefaultEaseFactor, 1, 0)
  }

  /** ceil(x / 100). */
  function CeilHundredths(x: int): (r: int)
    ensures 100 * (r - 1) < x <= 100 * r
  {
    (x + 99) / 100
  }

  /** The record of a flashcard after it has been answered at time `now`; `prior` is its existing record, if any. */
  function Reviewed(prior: Option<RepetitionRecord>, isCorrect: bool, now: int): (r: RepetitionRecord)
    ensures var base := prior.GetOr(NewRepetitionRecord());
      && r.lastReviewedAt == Some(now)
      && r.repetitionCount == base.repetitionCount + 1
      && r.easeFactor >= MinEaseFactor
      && (isCorrect ==> r.easeFactor == Max(MinEaseFactor, base.easeFactor + CorrectBonus))
      && (isCorrect ==> 100 * (r.intervalDays - 1) < base.intervalDays * r.easeFactor <= 100 * r.intervalDays)
      && (!isCorrect ==> r.easeFactor == Max(MinEaseFactor, base.easeFactor - IncorrectPenalty))
      && (!isCorrect ==> r.intervalDays == 1)
      && r.nextReviewAt == Some(now + r.intervalDays * SecondsPerDay)
  {
    var base := prior.GetOr(NewRepetitionRecord());
    var ease := if isCorrect then Max(MinEaseFactor, base.easeFactor + CorrectBonus)
                else Max(MinEaseFactor, base.easeFactor - IncorrectPenalty);
    var interval := if isCorrect then CeilHundredths(base.intervalDays * ease) else 1;
    RepetitionRecord(Some(now), Some(now + interval * SecondsPerDay), ease, interval, base.repetitionCount + 1)
  }

  method UpdateRepetitionRecord(prior: Option<RepetitionRecord>, isCorrect: bool, now: int)
    returns (r: RepetitionRecord)
    ensures r == Reviewed(prior, isCorrect, now)
  {
    match prior {
      case Some(existing) => r := existing;
      case None => r := NewRepetitionRecord();
    }
    r := r.(lastReviewedAt := Some(now));
    r := r.(repetitionCount := r.repetitionCount + 1);
    if isCorrect {
      var ease := Max(MinEaseFactor, r.easeFactor + CorrectBonus);
      r := r.(easeFactor := ease);
      var interval := CeilHundredths(r.intervalDays * ease);
      r := r.(intervalDays := interval);
      r := r.(nextReviewAt := Some(now + interval * SecondsPerDay));
    } else {
      var ease := Max(MinEaseFactor, r.easeFactor - IncorrectPenalty);
      r := r.(easeFactor := ease);
      r := r.(intervalDays := 1);
      r := r.(nextReviewAt := Some(now + SecondsPerDay));
    }
  }

  /** A right answer strictly lengthens a positive interval, so a card answered right keeps coming back later. */
  lemma CorrectLengthensInterval(prior: Option<RepetitionRecord>, now: int)
    requires prior.GetOr(NewRepetitionRecord()).intervalDays >= 1
    ensures Reviewed(prior, true, now).intervalDays > prior.GetOr(NewRepetitionRecord()).intervalDays
    ensures Reviewed(prior, false, now).intervalDays == 1
  {
    var base := prior.GetOr(NewRepetitionRecord());
    var r := Reviewed(prior, true, now);
    var days, ease := base.intervalDays, r.easeFactor;
    assert 100 * (r.intervalDays - 1) < days * ease <= 100 * r.intervalDays;
    MulAtLeast(days, ease, MinEaseFactor);
  }

  lemma MulAtLeast(a: int, b: int, c: int)
    requires a >= 0 && b >= c
    ensures a * b >= a * c
  {
    assert a * b - a * c == a * (b - c);
  }

  lemma FirstReviewExamples(now: int)
    ensures Reviewed(None, true, now) == RepetitionRecord(Some(now), Some(now + 3 * SecondsPerDay), 260, 3, 1)
    ensures Reviewed(None, false, now) == RepetitionRecord(Some(now), Some(now + SecondsPerDay), 230, 1, 1)
    ensures var ten := RepetitionRecord(None, None, 250, 10, 4);
      Reviewed(Some(ten), true, now).intervalDays == 26 && Reviewed(Some(ten), false, now).intervalDays == 1
  {
  }

  /** The record after `n` wrong answers in a row, all at time `now`. */
  function ReviewedWrongTimes(prior: Option<RepetitionRecord>, n: nat, now: int): RepetitionRecord
    decreases n
  {
    if n == 0 then prior.GetOr(NewRepetitionRecord())
    else Reviewed(Some(ReviewedWrongTimes(prior, n - 1, now)), false, now)
  }

  /** Wrong answers lower the ease factor by 0.20 each, down to the floor of 1.30 and no lower. */
  lemma {:induction false} WrongAnswersReachFloor(prior: Option<RepetitionRecord>, n: nat, now: int)
    requires n >= 1
    ensures ReviewedWrongTimes(prior, n, now).easeFactor
         == Max(MinEaseFactor, prior.GetOr(NewRepetitionRecord()).easeFactor - n * IncorrectPenalty)
    ensures ReviewedWrongTimes(prior, n, now).repetitionCount == prior.GetOr(NewRepetitionRecord()).repetitionCount + n
    ensures ReviewedWrongTimes(prior, n, now).intervalDays == 1
  {
    if n > 1 {
      WrongAnswersReachFloor(prior, n - 1, now);
    }
  }

  lemma NewCardFloorsAfterSixWrongAnswers(now: int)
    ensures ReviewedWrongTimes(None, 6, now).easeFactor == MinEaseFactor
    ensures ReviewedWrongTimes(None, 5, now).easeFactor == 150
  {
    WrongAnswersReachFloor(None, 6, now);
    WrongAnswersReachFloor(None, 5, now);
  }

  // ---------------------------------------------------------------- generateSummary

  datatype Summary = Summary(
    total: int,
    correct: int,
    incorrect: int,
    firstAttemptCorrect: int,
    secondAttemptCorrect: int,
    percentageTenths: int)

  /** How one result counts: right at the first attempt, right later on, or never right. */
  datatype Outcome = FirstTry | LaterTry | Missed

  function OutcomeOf(r: AttemptResult): Outcome {
    if r.correct then (if r.attempts == 1 then FirstTry else LaterTry) else Missed
  }

  /** The flashcards among `ids` whose result has outcome `o`. */
  function WithOutcome(results: map<FlashcardId, AttemptResult>, ids: set<FlashcardId>, o: Outcome): set<FlashcardId> {
    set id | id in ids && id in results && OutcomeOf(results[id]) == o
  }

  /**
   * round($correct / $total * 100, 1) in tenths of a percent: the nearest tenth, a half rounded up;
   * 0 when there are no flashcards.
   */
  function PercentageTenths(correct: int, total: int): (p: int)
    ensures total > 0 ==> -total <= 2 * (1000 * correct - total * p) < total
    ensures total <= 0 ==> p == 0
  {
    if total > 0 then
      var n := 2000 * correct + total;
      var q := n / (2 * total);
      assert n == (2 * total) * q + n % (2 * total) && 0 <= n % (2 * total) < 2 * total;
      assert (2 * total) * q == 2 * (total * q);
      q
    else 0
  }

  lemma MulMonotone(t: int, a: int, b: int)
    requires t > 0
    ensures a < b <==> t * a < t * b
  {
    assert t * b - t * a == t * (b - a);
  }

  /** With no more right answers than flashcards the percentage lies in [0, 100], and is 100 when all are right. */
  lemma PercentageBounds(correct: int, total: int)
    requires 0 <= correct <= total
    ensures 0 <= PercentageTenths(correct, total) <= 1000
    ensures 0 < correct == total ==> PercentageTenths(correct, total) == 1000
  {
    if total > 0 {
      var p := PercentageTenths(correct, total);
      MulMonotone(total, -1, p);
      MulMonotone(total, p, 1001);
      MulMonotone(total, 999, p);
    }
  }

  lemma PercentageExamples()
    ensures PercentageTenths(2, 3) == 667 && PercentageTenths(1, 3) == 333
    ensures PercentageTenths(1, 16) == 63 && PercentageTenths(0, 0) == 0
  {
  }

  /** generateSummary($session), stated on sets: every result falls under exactly one outcome. */
  function SummaryOf(s: Session): (r: Summary)
    ensures r.total == |s.flashcards|
    ensures r.correct == r.firstAttemptCorrect + r.secondAttemptCorrect
    ensures r.correct + r.incorrect == |s.results|
    ensures r.correct == |set id | id in s.results && s.results[id].correct|
    ensures r.firstAttemptCorrect == |set id | id in s.results && s.results[id].correct && s.results[id].attempts == 1|
    ensures r.percentageTenths == PercentageTenths(r.correct, r.total)
  {
    var first := |WithOutcome(s.results, s.results.Keys, FirstTry)|;
    var later := |WithOutcome(s.results, s.results.Keys, LaterTry)|;
    var missed := |WithOutcome(s.results, s.results.Keys, Missed)|;
    OutcomesPartition(s.results);
    Summary(|s.flashcards|, first + later, missed, first, later, PercentageTenths(first + later, |s.flashcards|))
  }

  lemma OutcomesPartition(results: map<FlashcardId, AttemptResult>)
    ensures var ks := results.Keys;
      |WithOutcome(results, ks, FirstTry)| + |WithOutcome(results, ks, LaterTry)| + |WithOutcome(results, ks, Missed)| == |ks|
    ensures |set id | id in results && results[id].correct|
         == |WithOutcome(results, results.Keys, FirstTry)| + |WithOutcome(results, results.Keys, LaterTry)|
    ensures (set id | id in results && results[id].correct && results[id].attempts == 1)
         == WithOutcome(results, results.Keys, FirstTry)
  {
    OutcomesCover(results);
    CorrectIsFirstOrLater(results);
    FirstTimeIsFirstTry(results);
  }

  /** The three outcome sets are disjoint and together hold every result. */
  lemma OutcomesCover(results: map<FlashcardId, AttemptResult>)
    ensures var ks := results.Keys;
      |WithOutcome(results, ks, FirstTry)| + |WithOutcome(results, ks, LaterTry)| + |WithOutcome(results, ks, Missed)| == |ks|
  {
    var ks := results.Keys;
    var f, l, m := WithOutcome(results, ks, FirstTry), WithOutcome(results, ks, LaterTry), WithOutcome(results, ks, Missed);
    assert ks == f + l + m by {
      forall id | id in ks ensures id in f + l + m {
        var o := OutcomeOf(results[id]);
        assert o == FirstTry || o == LaterTry || o == Missed;
      }
    }
    assert f * l == {} && (f + l) * m == {};
  }

  lemma CorrectIsFirstOrLater(results: map<FlashcardId, AttemptResult>)
    ensures (set id | id in results && results[id].correct)
         == WithOutcome(results, results.Keys, FirstTry) + WithOutcome(results, results.Keys, LaterTry)
    ensures WithOutcome(results, results.Keys, FirstTry) * WithOutcome(results, results.Keys, LaterTry) == {}
  {
    var ks := results.Keys;
    var f, l := WithOutcome(results, ks, FirstTry), WithOutcome(results, ks, LaterTry);
    var correct := set id | id in results && results[id].correct;
    forall id | id in correct ensures id in f + l {
      assert OutcomeOf(results[id]) != Missed;
    }
    forall id | id in f + l ensures id in correct {
      assert results[id].correct;
    }
  }

  lemma FirstTimeIsFirstTry(results: map<FlashcardId, AttemptResult>)
    ensures (set id | id in results && results[id].correct && results[id].attempts == 1)
         == WithOutcome(results, results.Keys, FirstTry)
  {
    var f := WithOutcome(results, results.Keys, FirstTry);
    var firstTime := set id | id in results && results[id].correct && results[id].attempts == 1;
    forall id | id in f ensures id in firstTime {
      assert OutcomeOf(results[id]) == FirstTry;
    }
    forall id | id in firstTime ensures id in f {
      assert id in results.Keys && OutcomeOf(results[id]) == FirstTry;
    }
  }

  /** Adding one flashcard to the counted ones adds it to exactly the set of its own outcome. */
  lemma WithOutcomeAdd(results: map<FlashcardId, AttemptResult>, done: set<FlashcardId>, id: FlashcardId, o: Outcome)
    requires id in results && id !in done
    ensures |WithOutcome(results, done + {id}, o)|
         == |WithOutcome(results, done, o)| + (if OutcomeOf(results[id]) == o then 1 else 0)
  {
    if OutcomeOf(results[id]) == o {
      assert WithOutcome(results, done + {id}, o) == WithOutcome(results, done, o) + {id};
    } else {
      assert WithOutcome(results, done + {id}, o) == WithOutcome(results, done, o);
    }
  }

  lemma EmptyOrHasMember(s: set<FlashcardId>)
    ensures s == {} || exists id :: id in s
  {
    if forall id :: id !in s {
      assert s == {};
    }
  }

  /** The foreach over `results`, counting as it goes. */
  method GenerateSummary(s: Session) returns (r: Summary)
    ensures r == SummaryOf(s)
  {
    var total := |s.flashcards|;
    var correct, firstAttemptCorrect, secondAttemptCorrect, incorrect := 0, 0, 0, 0;
    var remaining := s.results.Keys;
    ghost var done: set<FlashcardId> := {};
    while remaining != {}
      invariant remaining <= s.results.Keys && done == s.results.Keys - remaining
      invariant firstAttemptCorrect == |WithOutcome(s.results, done, FirstTry)|
      invariant secondAttemptCorrect == |WithOutcome(s.results, done, LaterTry)|
      invariant incorrect == |WithOutcome(s.results, done, Missed)|
      invariant correct == firstAttemptCorrect + secondAttemptCorrect
      decreases |remaining|
    {
      EmptyOrHasMember(remaining);
      var id :| id in remaining;
      var result := s.results[id];
      WithOutcomeAdd(s.results, done, id, FirstTry);
      WithOutcomeAdd(s.results, done, id, LaterTry);
      WithOutcomeAdd(s.results, done, id, Missed);
      if result.correct {
        correct := correct + 1;
        if result.attempts == 1 {
          firstAttemptCorrect := firstAttemptCorrect + 1;
        } else {
          secondAttemptCorrect := secondAttemptCorrect + 1;
        }
      } else {
        incorrect := incorrect + 1;
      }
      remaining := remaining - {id};
      done := done + {id};
    }
    assert done == s.results.Keys;
    r := Summary(total, correct, incorrect, firstAttemptCorrect, secondAttemptCorrect,
                 PercentageTenths(correct, total));
  }

  lemma SummaryExample()
    ensures var s := Session(RandomMode, [1, 2, 3], 3,
                             map[1 := AttemptResult(true, 1, ["a"]),
                                 2 := AttemptResult(true, 2, ["x", "b"]),
                                 3 := AttemptResult(false, 2, ["x", "y"])], 3);
      SummaryOf(s) == Summary(3, 2, 1, 1, 1, 667)
  {
    var results := map[1 := AttemptResult(true, 1, ["a"]),
                        2 := AttemptResult(true, 2, ["x", "b"]),
                        3 := AttemptResult(false, 2, ["x", "y"])];
    assert results.Keys == {1, 2, 3};
    assert WithOutcome(results, results.Keys, FirstTry) == {1};
    assert WithOutcome(results, results.Keys, LaterTry) == {2};
    assert WithOutcome(results, results.Keys, Missed) == {3};
    PercentageExamples();
  }
}
