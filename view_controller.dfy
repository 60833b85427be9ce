/**
 * FlashcardViewController's learning actions as an object: the fields are what the actions read
 * and write between requests, and each action is proved to make exactly the step that LearnFlow
 * describes, keeping LearnFlow's invariant.
 */
module ViewController {
  import opened Wrappers
  import opened Seqs
  import opened Php
  import opened LearnService
  import opened LearnFlow

  class FlashcardViewController {
    /** The `learn_session` entry of the HTTP session. */
    var learnSession: Option<Session>
    /** The `direction_{id}` entries of the HTTP session. */
    var directions: map<FlashcardId, string>
    /** The repetition records, by flashcard. */
    var records: map<FlashcardId, RepetitionRecord>
    /** The records as they were when the current learning session was stored. */
    ghost var recordsAtStart: map<FlashcardId, RepetitionRecord>

    function State(): LearnState
      reads this
    {
      LearnState(learnSession, directions, records)
    }

    ghost predicate Valid()
      reads this
    {
      LearnInvariant(recordsAtStart, State())
    }

    constructor(records: map<FlashcardId, RepetitionRecord>)
      ensures Valid() && State() == LearnState(None, map[], records)
    {
      learnSession := None;
      directions := map[];
      this.records := records;
      recordsAtStart := records;
    }

    /** learnStart; `userFlashcards` are the ids of the user's flashcards, which the database keeps distinct. */
    method LearnStart(isPost: bool, postedMode: Option<string>, userFlashcards: seq<FlashcardId>) returns (page: Page)
      requires Valid() && Distinct(userFlashcards)
      modifies this
      ensures Valid()
      ensures exists order | multiset(order) == multiset(userFlashcards) ::
                Started(old(State()), isPost, postedMode, order) == Step(State(), page)
    {
      if !isPost {
        page := StartForm;
        assert Started(old(State()), isPost, postedMode, userFlashcards) == Step(State(), page);
        return;
      }
      var mode := NormalizeMode(postedMode);
      var session := InitializeSession(userFlashcards, mode);
      if |session.flashcards| == 0 {
        page := Redirect(Dashboard, Some(Flash("warning", NoFlashcardsWarning)));
        assert Started(old(State()), isPost, postedMode, session.flashcards) == Step(State(), page);
        return;
      }
      learnSession := Some(session);
      directions := map[];
      recordsAtStart := records;
      page := Redirect(LearnSessionRoute, None);
      StartedEstablishesInvariant(old(State()), isPost, postedMode, userFlashcards, session.flashcards);
      assert Started(old(State()), isPost, postedMode, session.flashcards) == Step(State(), page);
    }

    /** learnSession; `heads` is the draw of random_int(0, 1) == 0 should one be needed. */
    method LearnSession(repository: map<FlashcardId, Card>, heads: bool) returns (page: Page)
      requires Valid()
      modifies this
      ensures Valid() && recordsAtStart == old(recordsAtStart)
      ensures Step(State(), page) == Presented(old(State()), repository, heads)
    {
      PresentedPreservesInvariant(recordsAtStart, State(), repository, heads);
      if learnSession.None? {
        return Redirect(LearnStartRoute, Some(Flash("warning", SessionExpiredWarning)));
      }
      var session := learnSession.value;
      if IsSessionFinished(session) {
        return Redirect(LearnSummaryRoute, None);
      }
      var current := GetCurrentFlashcard(session, repository);
      if current.None? {
        return Redirect(LearnSummaryRoute, None);
      }
      var id, card := current.value.0, current.value.1;
      var direction: string;
      if id in directions && !IsEmptyString(directions[id]) {
        direction := directions[id];
      } else {
        direction := GetDirectionForCurrentFlashcard(session, heads);
        directions := directions[id := direction];
      }
      var prompt, expectedAnswer;
      if direction == QuestionToAnswer {
        prompt, expectedAnswer := card.question, card.answer;
      } else {
        prompt, expectedAnswer := card.answer, card.question;
      }
      var attemptNumber := 1;
      var previousResult: Option<AttemptResult> := None;
      if id in session.results {
        attemptNumber := session.results[id].attempts + 1;
        previousResult := Some(session.results[id]);
      }
      page := LearnPage(id, direction, prompt, expectedAnswer, session.currentIndex + 1, session.total,
                        attemptNumber, previousResult);
    }

    /** learnCheck at time `now`. */
    method LearnCheck(repository: map<FlashcardId, Card>, answer: string, now: int) returns (page: Page)
      requires Valid()
      modifies this
      ensures Valid() && recordsAtStart == old(recordsAtStart)
      ensures Step(State(), page) == Checked(old(State()), repository, answer, now)
    {
      CheckedPreservesInvariant(recordsAtStart, State(), repository, answer, now);
      if learnSession.None? {
        return Redirect(LearnStartRoute, Some(Flash("warning", CheckExpiredWarning)));
      }
      var session := learnSession.value;
      var current := GetCurrentFlashcard(session, repository);
      if current.None? {
        return Redirect(LearnSummaryRoute, None);
      }
      var id, card := current.value.0, current.value.1;
      var correctAnswer := if id in directions && directions[id] == QuestionToAnswer then card.answer else card.question;
      assert correctAnswer == ExpectedAnswer(directions, id, card);
      var isCorrect := CheckAnswer(answer, correctAnswer);
      page := Judge(session, id, isCorrect, answer, now);
    }

    /**
     * The part of learnCheck after the answer is scored: record the attempt on flashcard `id` of
     * `session`, then review, advance and forget the memo as the retry policy says.
     */
    method Judge(session: Session, id: FlashcardId, isCorrect: bool, answer: string, now: int) returns (page: Page)
      modifies this
      ensures recordsAtStart == old(recordsAtStart)
      ensures Step(State(), page) == Judged(old(State()), session, id, isCorrect, answer, now)
    {
      var attemptNumber := if id in session.results then session.results[id].attempts + 1 else 1;
      var s := RecordAttempt(session, id, isCorrect, answer, attemptNumber);
      if isCorrect || attemptNumber >= 2 {
        if attemptNumber == 1 || (attemptNumber == 2 && isCorrect) {
          var record := UpdateRepetitionRecord(RecordOf(records, id), isCorrect, now);
          records := records[id := record];
        } else if attemptNumber == 2 && !isCorrect {
          var record := UpdateRepetitionRecord(RecordOf(records, id), false, now);
          records := records[id := record];
        }
        s := MoveToNextFlashcard(s);
        directions := directions - {id};
      }
      learnSession := Some(s);
      page := Redirect(LearnSessionRoute, None);
    }

    method LearnSummary() returns (page: Page)
      requires Valid()
      modifies this
      ensures Valid() && recordsAtStart == old(recordsAtStart)
      ensures Step(State(), page) == Summarised(old(State()))
    {
      if learnSession.None? {
        return Redirect(LearnStartRoute, Some(Flash("warning", NoSessionWarning)));
      }
      var summary := GenerateSummary(learnSession.value);
      learnSession := None;
      page := SummaryPage(summary);
    }

    method LearnQuit() returns (page: Page)
      requires Valid()
      modifies this
      ensures Valid() && recordsAtStart == old(recordsAtStart)
      ensures Step(State(), page) == Quit(old(State()))
    {
      learnSession := None;
      page := Redirect(FlashcardListRoute, Some(Flash("info", QuitInfo)));
    }
  }
}
