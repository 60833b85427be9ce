# Flashcards: a Dafny model of the learning loop, the card generators and the flashcard API

This project models the core of a Symfony flashcard application and proves properties about it.
The application's users write or generate language flashcards and then learn them.

In a learning session the cards are shown in shuffled order. Each card gets one direction, fixed or drawn at random. A card gets a second chance after a wrong answer. Each card is reviewed once with a simplified SM-2 update, and a summary closes the session.

The model covers these parts:

- **Learning service** (`LearnService`): the session as a value, with initialisation, the current card, the direction, answer checking, recording an attempt, moving on, the repetition-record update and the summary.
- **Learning flow** (`LearnFlow`, `ViewController`): the controller actions learnStart, learnSession, learnCheck, learnSummary and learnQuit.
  - `LearnFlow` states them as pure steps over what outlives a request: the `learn_session` entry, the `direction_{id}` memos and the repetition records.
  - `ViewController.FlashcardViewController` is a class whose fields are that state. Each action method is proved to make exactly the corresponding step and to keep the session invariant.
- **Generators** (`Generation`, `OpenAIGenerator`, `MockGenerator`):
  - the suggested card count;
  - the parser for the language model's JSON reply, with every way it can fail;
  - the mock generator: Polish detection, template selection after a shuffle, and its two word helpers.
- **Flashcard API** (`FlashcardApi`):
  - the pagination arithmetic of `list`;
  - the patch rule and check order of `update`;
  - the defaulting loop of `bulkCreate`.
- **Exception listener** (`ExceptionListener`): the mapping from an exception raised under `/api` to a JSON error response.
- **User entity** (`Entities`): the role list, and the user's side of the user–flashcard association.
- **PHP built-ins** (`Php`): the ones the core relies on, written out:
  - `trim`, `empty`, `mb_strtolower` and `strlen`;
  - `explode`/`implode` and `array_slice`;
  - `isset` on decoded JSON, and truthiness.

Units and representations:

- Ease factors are fixed-point hundredths (2.50 is 250) and percentages are in tenths.
- Times are seconds.
- Decoded JSON is a `Php.Value`.
- The database is a map from id to row.

Inputs the model takes as parameters:

- the shuffle, as an arbitrary permutation chosen with `:|`;
- `random_int(0, 1)`, as the boolean `heads`;
- `str_word_count`, as the number `wordCount`;
- the clock, as `now`;
- the outcome of a Doctrine flush, as `flushSucceeds`;
- Symfony's status-text table, as `statusTexts`;
- `APP_ENV`, as an optional string;
- the security token, as whether it has a user.

Three details of the code the model keeps:

- The summary's `total` and the finished test count the session's `flashcards` list, not the stored `total` field. The invariant keeps the two equal.
- `initializeSession` works on the list of the user's flashcards the repository returns.
- The service accepts any mode string and keeps it. Only learnStart replaces a missing or unknown mode with `question_to_answer`; nothing rejects it.

Two defects are recorded under "## Findings", each with an as-written member that exhibits it. The class and the listener method use the corrected behaviour, and "## Left out" names every member this affects:

- learnStart in the class clears the `direction_{id}` memos when it stores a session; the code keeps them.
- the exception listener method includes debug details only when APP_ENV is "dev"; the code includes them for every non-empty APP_ENV.

## Model

| member | source | states |
|---|---|---|
| LearnService.InitializeSession | src/Service/LearnService.php:30-57 | The session's deck is a permutation of the user's flashcards. `total` is its length, the index is 0, there are no results, and the mode is kept. An empty user gives an empty deck. |
| LearnService.GetCurrentFlashcard | src/Service/LearnService.php:62-70 | A card is returned exactly when the session is not finished and the repository holds the id at the current index; the card is that id's. |
| LearnService.IsSessionFinished | src/Service/LearnService.php:75-78 | Definition: the index has reached the length of the deck. AdvancedTimesFinishes states when that happens. |
| LearnService.GetDirectionForCurrentFlashcard | src/Service/LearnService.php:85-92 | Definition: the mode, or the draw in random mode. DirectionFollowsMode states its promises. |
| LearnService.DirectionFollowsMode | src/Service/LearnService.php:85-92 | A fixed mode is its own direction. Random mode gives question_to_answer for one draw and answer_to_question for the other. |
| LearnService.NormalizeAnswer | src/Service/LearnService.php:112-115 | The normalised answer is trimmed and already lower-cased: folding it again changes nothing. |
| LearnService.CheckAnswer | src/Service/LearnService.php:101-107 | Definition: the two normalised answers are equal. CheckAnswerIsEquivalence, CheckAnswerIgnoresCaseAndPadding and the examples state its promises. |
| LearnService.NormalizeAnswerIdempotent | src/Service/LearnService.php:112-115 | Normalising twice is normalising once. |
| LearnService.CheckAnswerIsEquivalence | src/Service/LearnService.php:101-107 | checkAnswer is reflexive, symmetric and transitive. |
| LearnService.CheckAnswerIgnoresCaseAndPadding | src/Service/LearnService.php:101-115 | Lower-casing the user's answer, or padding it with a trimmed character on both sides, never changes the verdict. |
| LearnService.LowerExample | src/Service/LearnService.php:114 | "Paris" lower-cases to "paris", and "paris" is a fixed point. |
| LearnService.CheckAnswerFoldsPolishCapitals | src/Service/LearnService.php:114 | Polish capitals fold: "ŁÓDŹ" matches "łódź". |
| LearnService.CheckAnswerKeepsPunctuation | src/Service/LearnService.php:101-115 | Punctuation is not ignored: "paris!" does not match "Paris". |
| LearnService.Recorded | src/Service/LearnService.php:120-138 | After recordAttempt the card has a result; other results and fields are unchanged. Its attempts are the given number, its answers gain the new one at the end, and it is correct iff this or an earlier attempt was right. |
| LearnService.RecordAttempt | src/Service/LearnService.php:120-138 | The method produces exactly Recorded's session. |
| LearnService.CorrectIsSticky | src/Service/LearnService.php:135-137 | A recorded correct answer stays correct after any later attempt. |
| LearnService.Advanced | src/Service/LearnService.php:143-146 | Moving on raises the index by one and changes nothing else. |
| LearnService.MoveToNextFlashcard | src/Service/LearnService.php:143-146 | The method produces exactly Advanced's session. |
| LearnService.AdvancedTimesFinishes | src/Service/LearnService.php:75-78 | From index 0, k moves finish the session iff k reaches the deck's length. |
| LearnService.AdvancedTimesIndex | src/Service/LearnService.php:143-146 | k moves raise the index by k and keep the deck. |
| LearnService.CeilHundredths | src/Service/LearnService.php:172 | The result is the ceiling of x/100. |
| LearnService.Reviewed | src/Service/LearnService.php:151-189 | A review stamps `now` and adds one repetition. A right answer adds 0.10 to the ease and sets the interval to the ceiling of interval × ease. A wrong answer takes off 0.20 and resets the interval to 1. The ease never drops below 1.30, and the next review is the interval in days after `now`. |
| LearnService.UpdateRepetitionRecord | src/Service/LearnService.php:151-189 | The method produces exactly Reviewed's record, starting from a new record (2.50, 1 day, 0 repetitions) when there is none. |
| LearnService.CorrectLengthensInterval | src/Service/LearnService.php:165-186 | A right answer strictly lengthens a positive interval; a wrong one makes it 1. |
| LearnService.FirstReviewExamples | src/Service/LearnService.php:151-189 | A new card answered right gets ease 2.60, 3 days and 1 repetition; answered wrong it gets ease 2.30 and 1 day. A 10-day interval at ease 2.50 becomes 26 days. |
| LearnService.WrongAnswersReachFloor | src/Service/LearnService.php:177-186 | n wrong answers in a row lower the ease by 0.20 each, down to 1.30 and no further. Each adds a repetition, and the interval stays 1. |
| LearnService.NewCardFloorsAfterSixWrongAnswers | src/Service/LearnService.php:180 | A new card reaches the 1.30 floor on the sixth wrong answer and is at 1.50 after the fifth. |
| LearnService.PercentageTenths | src/Service/LearnService.php:221 | The result is round(correct / total × 100, 1) in tenths: the nearest tenth, with a half rounded up. It is 0 when there are no flashcards. |
| LearnService.PercentageBounds | src/Service/LearnService.php:221 | The percentage lies in [0, 100] and is 100 when every card is right. |
| LearnService.PercentageExamples | src/Service/LearnService.php:221 | 2 of 3 is 66.7, 1 of 3 is 33.3, 1 of 16 is 6.3, and an empty session is 0. |
| LearnService.SummaryOf | src/Service/LearnService.php:194-223 | `total` counts the deck. `correct` = first-attempt + later-attempt correct. `correct` + `incorrect` = the number of results, counted as sets over the results. The percentage is PercentageTenths. |
| LearnService.OutcomesPartition | src/Service/LearnService.php:202-213 | Every result falls under exactly one of right-first-time, right-later and never-right. |
| LearnService.OutcomesCover | src/Service/LearnService.php:202-213 | The three outcome sets are disjoint, and together they hold every result. |
| LearnService.CorrectIsFirstOrLater | src/Service/LearnService.php:203-208 | The right answers are exactly the right-first-time and right-later ones, which are disjoint. |
| LearnService.FirstTimeIsFirstTry | src/Service/LearnService.php:204-205 | The right-first-time results are exactly those right on attempt 1. |
| LearnService.GenerateSummary | src/Service/LearnService.php:194-223 | The counting foreach produces exactly SummaryOf. |
| LearnService.SummaryExample | src/Service/LearnService.php:194-223 | Three cards, right first time, right second time and wrong, give total 3, correct 2 (1 first, 1 later), incorrect 1 and 66.7 %. |
| LearnFlow.NormalizeMode | src/Controller/FlashcardViewController.php:62-68 | The mode is always one of the three. A posted valid mode is kept; a missing or unknown one becomes question_to_answer. |
| LearnFlow.Started | src/Controller/FlashcardViewController.php:58-87 | Definition of the corrected learnStart step, which clears the memos; see "## Left out". StartedEstablishesInvariant and StartedWithoutDeckChangesNothing state its promises. |
| LearnFlow.StartedAsWritten | src/Controller/FlashcardViewController.php:58-87 | Definition of learnStart as written: only `learn_session` is stored. StaleDirectionAsWritten shows the memo surviving a restart. |
| LearnFlow.Presented | src/Controller/FlashcardViewController.php:89-150 | Definition of the learnSession step. PresentedShowsCurrent, PresentedDirection, PresentedAgainKeepsDirection and PresentedPreservesInvariant state its promises. |
| LearnFlow.Checked | src/Controller/FlashcardViewController.php:152-209 | Definition of the learnCheck step. CheckedIsJudged, CheckedFollowsRetryPolicy and CheckedPreservesInvariant state its promises. |
| LearnFlow.Judged | src/Controller/FlashcardViewController.php:180-208 | Definition of the retry policy once the answer is scored. JudgedFollowsRetryPolicy and the three Judged…Preserves… lemmas state its promises. |
| LearnFlow.Summarised | src/Controller/FlashcardViewController.php:211-229 | Definition of the learnSummary step. SummarisedAndQuitEndTheSession and FinishedSessionAccountsForEveryCard state its promises. |
| LearnFlow.Quit | src/Controller/FlashcardViewController.php:231-240 | Definition of the learnQuit step. SummarisedAndQuitEndTheSession states its promises. |
| LearnFlow.StartedEstablishesInvariant | src/Controller/FlashcardViewController.php:61-83 | A POST with flashcards stores a session in the normalised mode, over a permutation of the cards. The session invariant holds relative to the records at that moment. This holds for the corrected start; see "## Left out". |
| LearnFlow.StartedWithoutDeckChangesNothing | src/Controller/FlashcardViewController.php:75-86 | A GET, or a user without flashcards, leaves the state alone; the latter is redirected to the dashboard. |
| LearnFlow.AttemptIsFirstOrSecond | src/Controller/FlashcardViewController.php:131-138 | Under the invariant the current card is at attempt 1 or 2, and at 2 iff it already has a result. |
| LearnFlow.PresentedPreservesInvariant | src/Controller/FlashcardViewController.php:89-150 | learnSession keeps the session, records and memo invariants. |
| LearnFlow.PresentedAgainKeepsDirection | src/Controller/FlashcardViewController.php:111-119 | A card with a remembered direction is shown in it again: no draw, and the memos are unchanged. |
| LearnFlow.PresentedShowsCurrent | src/Controller/FlashcardViewController.php:99-149 | learnSession shows the current card with its 1-based position, the total and its attempt number whenever the repository has it; otherwise it redirects to the summary. |
| LearnFlow.PresentedDirection | src/Controller/FlashcardViewController.php:111-128 | The prompt and expected answer follow the card's direction. In a fixed mode that direction is the mode; in random mode it is the remembered draw, or a fresh one that is then remembered. This holds for the corrected start; see "## Left out". |
| LearnFlow.CheckedIsJudged | src/Controller/FlashcardViewController.php:162-187 | learnCheck judges the answer against the side of the card opposite the prompt. |
| LearnFlow.JudgedFollowsRetryPolicy | src/Controller/FlashcardViewController.php:187-206 | The card advances iff the answer is right or it is the second attempt. If it advances, its record is reviewed once with this verdict and its memo dropped; otherwise records and memos are untouched. |
| LearnFlow.CheckedFollowsRetryPolicy | src/Controller/FlashcardViewController.php:152-209 | The same policy, stated on learnCheck itself. |
| LearnFlow.JudgedPreservesSession | src/Controller/FlashcardViewController.php:187-199 | Judging keeps the session invariant. |
| LearnFlow.AdvancingKeepsSessionInvariant | src/Controller/FlashcardViewController.php:187-199 | Recording an answer that ends the card and moving on keeps the session invariant. |
| LearnFlow.StayingKeepsSessionInvariant | src/Controller/FlashcardViewController.php:187 | Recording a first wrong answer leaves the card pending and current, and keeps the session invariant. |
| LearnFlow.AdvancingKeepsReviewedOnce | src/Controller/FlashcardViewController.php:190-199 | When the card moves on it gets its single review and no other record changes. |
| LearnFlow.StayingKeepsReviewedOnce | src/Controller/FlashcardViewController.php:189-203 | A wrong first answer changes no record. |
| LearnFlow.JudgedPreservesReviewedOnce | src/Controller/FlashcardViewController.php:187-203 | Every card moved past has been reviewed exactly once, with its result's verdict, relative to the records at the start. |
| LearnFlow.JudgedPreservesMemos | src/Controller/FlashcardViewController.php:199-202 | Only the current card keeps a direction memo. |
| LearnFlow.CheckedPreservesInvariant | src/Controller/FlashcardViewController.php:152-209 | learnCheck keeps the whole invariant. |
| LearnFlow.SummarisedAndQuitEndTheSession | src/Controller/FlashcardViewController.php:211-240 | The summary and quit both remove the session, keep the records and the invariant. Without a session, the summary redirects to the start page. |
| LearnFlow.FinishedSessionAccountsForEveryCard | src/Controller/FlashcardViewController.php:211-229 | When a session is finished, every card has a result and right plus wrong in the summary equals the total. Every card was reviewed exactly once with its result's verdict. |
| LearnFlow.WrongFirstAnswerKeepsCard | src/Controller/FlashcardViewController.php:189-203 | A wrong first answer keeps the card current, with its memo, and changes no record. |
| LearnFlow.RightSecondAnswerEndsCard | src/Controller/FlashcardViewController.php:189-203 | A right second answer records attempts 2 and correct, reviews the card once as right, and moves on. |
| LearnFlow.RetryScenario | src/Controller/FlashcardViewController.php:89-209 | Sequence: show, answer wrong, show again, answer right. The second page keeps the direction and prompt whatever the second draw, and the card ends with attempts 2, correct and one right review. |
| LearnFlow.StaleDirectionAsWritten | src/Controller/FlashcardViewController.php:81 | As written, a random session's memo survives quit and restart, so a question_to_answer session shows the card the other way round. |
| LearnFlow.FreshDirectionAfterRestart | src/Controller/FlashcardViewController.php:81 | With the memos cleared when a session is stored, the same requests show the card as the mode says. |
| ViewController.FlashcardViewController.constructor | src/Controller/FlashcardViewController.php:18-23 | The controller starts with no session and no memos, and satisfies the invariant. |
| ViewController.FlashcardViewController.LearnStart | src/Controller/FlashcardViewController.php:58-87 | The fields change exactly as the corrected Started says, for some shuffle of the user's cards, and the invariant is kept. The memos are cleared; see "## Left out". |
| ViewController.FlashcardViewController.LearnSession | src/Controller/FlashcardViewController.php:89-150 | The fields and page are exactly Presented's, and the invariant is kept. |
| ViewController.FlashcardViewController.LearnCheck | src/Controller/FlashcardViewController.php:152-209 | The fields and page are exactly Checked's, and the invariant is kept. |
| ViewController.FlashcardViewController.Judge | src/Controller/FlashcardViewController.php:180-208 | Once the answer is scored, the fields and page are exactly Judged's. |
| ViewController.FlashcardViewController.LearnSummary | src/Controller/FlashcardViewController.php:211-229 | The fields and page are exactly Summarised's, and the invariant is kept. |
| ViewController.FlashcardViewController.LearnQuit | src/Controller/FlashcardViewController.php:231-240 | The fields and page are exactly Quit's, and the invariant is kept. |
| Generation.SuggestedCount | src/Service/OpenAIFlashcardGenerator.php:144-145 | The count is between 3 and 10. It is 3 below 90 words and 10 from 300 words. In between it is the number of whole thirties in the word count. |
| Generation.SuggestedCountMonotone | src/Service/MockFlashcardGenerator.php:18-19 | More words never ask for fewer cards. |
| OpenAIGenerator.Judge | src/Service/OpenAIFlashcardGenerator.php:179-192 | A kept item's question and answer are trimmed and not empty(). An item throws iff both fields are set but one is not a string. |
| OpenAIGenerator.Outcomes | src/Service/OpenAIFlashcardGenerator.php:179 | There is one outcome per item, in order. |
| OpenAIGenerator.Collected | src/Service/OpenAIFlashcardGenerator.php:177-193 | Definition: the cards the foreach collects, or None on a throw. CollectedIsOrderedSubsequence, CollectedNoneIffThrow and CollectedCardsAreClean state its promises. |
| OpenAIGenerator.Parsed | src/Service/OpenAIFlashcardGenerator.php:170-207 | Definition of parseFlashcards's result. ParsedSuccess and ParsedFailures state its promises. |
| OpenAIGenerator.ThrowIsFinal | src/Service/OpenAIFlashcardGenerator.php:179-193 | Once an item throws, the whole parse throws. |
| OpenAIGenerator.CollectedNoneIffThrow | src/Service/OpenAIFlashcardGenerator.php:179-193 | The foreach throws exactly when some item throws. |
| OpenAIGenerator.ParseFlashcards | src/Service/OpenAIFlashcardGenerator.php:170-207 | The result is exactly Parsed: the format check, the collected cards, then the count checks. |
| OpenAIGenerator.JudgeItem | src/Service/OpenAIFlashcardGenerator.php:179-192 | The foreach body for one item (the isset checks, trim() and the empty() checks) decides exactly Judge(item). |
| OpenAIGenerator.CollectedSnoc | src/Service/OpenAIFlashcardGenerator.php:177-193 | One more item extends the collected cards by that item's card, keeps them on a skip, and ends them on a throw. |
| OpenAIGenerator.CollectItems | src/Service/OpenAIFlashcardGenerator.php:177-193 | The foreach with `continue` collects exactly Collected(Outcomes(items)), and stops with None at an item that throws. |
| OpenAIGenerator.AfterDecode | src/Service/OpenAIFlashcardGenerator.php:59-93 | A falsy decoded reply fails with the wrapped decode message. A truthy non-array is a TypeError. A parser RuntimeException is rethrown as the prefix followed by its message, and a parser TypeError escapes unwrapped, since catch (\Exception) does not catch an \Error. A successful parse of an array reply is returned unchanged. |
| OpenAIGenerator.KeptPositions | src/Service/OpenAIFlashcardGenerator.php:179-193 | Every position of a kept item lies within the input. |
| OpenAIGenerator.CollectedIsOrderedSubsequence | src/Service/OpenAIFlashcardGenerator.php:179-193 | Without a throw, the collected cards are exactly the kept items' cards, in input order, with none missed. |
| OpenAIGenerator.CollectedCardsAreClean | src/Service/OpenAIFlashcardGenerator.php:185-192 | Every collected card is trimmed and not empty(). |
| OpenAIGenerator.ParsedSuccess | src/Service/OpenAIFlashcardGenerator.php:196-206 | A successful parse returns 3 to 10 clean cards: the first ten collected, or all of them when there are at most ten. |
| OpenAIGenerator.ParsedFailures | src/Service/OpenAIFlashcardGenerator.php:172-199 | Each failure matches its cause: an invalid format iff `flashcards` is missing, null or not an array; a TypeError iff some item has both fields set and one of them is not a string; "Too few flashcards generated: n" iff fewer than 3 are collected. |
| OpenAIGenerator.TooFewIsNotInvalidFormat | src/Service/OpenAIFlashcardGenerator.php:174-198 | The two RuntimeException messages are different. |
| OpenAIGenerator.JudgePair | src/Service/OpenAIFlashcardGenerator.php:180-192 | A question/answer pair of strings is kept with both sides trimmed, unless either trims to an empty() string. |
| OpenAIGenerator.JudgeCleanPair | src/Service/OpenAIFlashcardGenerator.php:185-192 | A pair already trimmed and non-empty is kept as it is. |
| OpenAIGenerator.JudgeWithoutAnswer | src/Service/OpenAIFlashcardGenerator.php:180-183 | An item without an answer is skipped. |
| OpenAIGenerator.JudgeBlankAnswer | src/Service/OpenAIFlashcardGenerator.php:188-190 | An answer made of one character that trim() strips is skipped. |
| OpenAIGenerator.JudgePaddedQuestion | src/Service/OpenAIFlashcardGenerator.php:185-192 | A question padded with spaces is kept without them. |
| OpenAIGenerator.CollectedExample | src/Service/OpenAIFlashcardGenerator.php:179-193 | Keep, skip, skip, keep, keep collects the three kept cards in order. |
| OpenAIGenerator.ParsedExample | src/Service/OpenAIFlashcardGenerator.php:170-207 | For a five-item reply with two bad items and a padded question, the parse returns the three good cards, trimmed. |
| MockGenerator.DetectPolish | src/Service/MockFlashcardGenerator.php:71-92 | The result is true iff the lower-cased text contains a Polish diacritic or one of the listed words anywhere. |
| MockGenerator.LooksPolish | src/Service/MockFlashcardGenerator.php:71-92 | Definition: a diacritic or a listed word in the lower-cased text. PolishWordAnywhere, PolishExamples and ShortAsciiIsNotPolish state its promises. |
| MockGenerator.Generate | src/Service/MockFlashcardGenerator.php:15-69 | The method returns SuggestedCount(wordCount) distinct cards, all from the list chosen by DetectPolish. They are the first cards of some permutation of that list. |
| MockGenerator.Select | src/Service/MockFlashcardGenerator.php:58-66 | The selected cards are the shuffled list's prefix of the requested length, distinct and from the list. |
| MockGenerator.TemplatesAreDistinct | src/Service/MockFlashcardGenerator.php:27-55 | Both lists hold ten different cards. |
| MockGenerator.PolishWordAnywhere | src/Service/MockFlashcardGenerator.php:84-89 | A listed word anywhere in the text, in any case the fold knows, makes the text Polish. |
| MockGenerator.PolishExamples | src/Service/MockFlashcardGenerator.php:84-89 | "JEST" or "Oraz" inside any text makes it Polish. |
| MockGenerator.ShortAsciiIsNotPolish | src/Service/MockFlashcardGenerator.php:71-92 | ASCII text shorter than four characters is never Polish. |
| MockGenerator.ExtractFirstWords | src/Service/MockFlashcardGenerator.php:94-98 | For a non-negative count, the result is a prefix of the text: its first `count` space-separated words joined with single spaces. |
| MockGenerator.LongWords | src/Service/MockFlashcardGenerator.php:105 | Exactly the words longer than four bytes are kept. LongWordsOfConcat gives their order and repeats. |
| MockGenerator.LongWordsOfConcat | src/Service/MockFlashcardGenerator.php:105 | The filter keeps order and repeats: the long words of a + b are those of a, then those of b. |
| MockGenerator.LongWordsOfOne | src/Service/MockFlashcardGenerator.php:105 | A single word is kept iff it is longer than four bytes. |
| MockGenerator.KeywordsProperties | src/Service/MockFlashcardGenerator.php:100-109 | The keywords are exactly the first min(count, n) of the n long words among the first 3·count words, in order. So there are at most `count`, each longer than four bytes, and all n are kept when n <= count. |
| MockGenerator.Keywords | src/Service/MockFlashcardGenerator.php:102-106 | Definition of the words extractKeywords keeps. KeywordsProperties states its promises. |
| MockGenerator.ExtractKeywords | src/Service/MockFlashcardGenerator.php:100-109 | Definition: the keywords joined by ", ". KeywordsProperties states what is joined. |
| FlashcardApi.CeilDiv | src/Controller/Api/FlashcardController.php:161 | The result is the ceiling of total / limit. |
| FlashcardApi.Paginate | src/Controller/Api/FlashcardController.php:137-161 | The page is at least 1 and the limit lies in [1, 100], with defaults 1 and 20. Valid query values are kept. The offset is (page − 1) × limit, and the page count is the ceiling of total / limit. |
| FlashcardApi.PaginateExamples | src/Controller/Api/FlashcardController.php:137-161 | 25 rows at limit 10 make 3 pages. No rows give 0 pages at the defaults. Page 0 and limit 500 clamp to 1 and 100, and a negative limit becomes 1. |
| FlashcardApi.FirstPagesArePrefix | src/Controller/Api/FlashcardController.php:139-141 | Pages 1 to k together are the first k × limit rows. |
| FlashcardApi.AllPages | src/Controller/Api/FlashcardController.php:139-161 | For any limit, pages 1 to the page count list all rows. |
| FlashcardApi.PagesListEveryRowOnce | src/Controller/Api/FlashcardController.php:137-161 | Walking the pages from 1 to `pages` lists every row exactly once, in order. |
| FlashcardApi.PageAfterLastIsEmpty | src/Controller/Api/FlashcardController.php:139-161 | A page after the last is empty. |
| FlashcardApi.Update | src/Controller/Api/FlashcardController.php:204-271 | The response is Patched's, and the store changes only on success, to the updated row. |
| FlashcardApi.Patched | src/Controller/Api/FlashcardController.php:204-271 | Definition of update's response. UpdateChecksExistenceThenOwner, UpdateSetsPresentFieldsOnly, UpdateRefusesBlankFields, UpdateIsIdempotent and EmptyBodyKeepsRow state its promises. |
| FlashcardApi.Edited | src/Controller/Api/FlashcardController.php:225-270 | Definition of the part of update after the owner check. The same lemmas state its promises through Patched. |
| FlashcardApi.EditRow | src/Controller/Api/FlashcardController.php:225-270 | On the owner's row, the checks, setters and flush give exactly Edited's response. |
| FlashcardApi.UpdateChecksExistenceThenOwner | src/Controller/Api/FlashcardController.php:211-223 | The response is 404 iff the row is missing, and 403 iff it exists but belongs to someone else. |
| FlashcardApi.UpdateSetsPresentFieldsOnly | src/Controller/Api/FlashcardController.php:225-245 | Success sets exactly the fields present in the body, to their values as sent, and each trims to a non-empty string. The other field, the owner and the source are kept. |
| FlashcardApi.UpdateRefusesBlankFields | src/Controller/Api/FlashcardController.php:227-245 | A question that trims to an empty() string is refused first. A blank answer beside a good question is refused. |
| FlashcardApi.UpdateIsIdempotent | src/Controller/Api/FlashcardController.php:225-248 | Sending the same body again yields the same row. |
| FlashcardApi.EmptyBodyKeepsRow | src/Controller/Api/FlashcardController.php:225-248 | A body without either field, or one that does not decode, returns the row unchanged. |
| FlashcardApi.BulkFailureIsFinal | src/Controller/Api/FlashcardController.php:93-102 | Once an element raises, the whole request fails. |
| FlashcardApi.BulkCard | src/Controller/Api/FlashcardController.php:93-98 | Definition of the row one element becomes. BulkCardDefaultsSource states its promises. |
| FlashcardApi.BulkCards | src/Controller/Api/FlashcardController.php:93-100 | Definition of the rows for all elements. BulkCardsFollowInput and BulkFailureIsFinal state its promises. |
| FlashcardApi.BulkCreate | src/Controller/Api/FlashcardController.php:88-129 | Cards are created iff every element converts and the flush succeeds, and the response is exactly those rows. A TypeError happens iff an element does not convert. |
| FlashcardApi.BulkCardsFollowInput | src/Controller/Api/FlashcardController.php:93-102 | There is one row per element, in input order. |
| FlashcardApi.BulkCardDefaultsSource | src/Controller/Api/FlashcardController.php:94-98 | Each row is owned by the caller and carries the element's question and answer. The source is "ai" when it is absent or null, otherwise the given string. |
| ExceptionListener.ViolationEntries | src/EventListener/ApiExceptionListener.php:75-81 | There is one {property, message} entry per violation, in order. |
| ExceptionListener.ErrorName | src/EventListener/ApiExceptionListener.php:63-70 | Definition: the match on the status code. HttpStatusPassesThrough states it. |
| ExceptionListener.HttpMessage | src/EventListener/ApiExceptionListener.php:62 | Definition: the message, or the status text, or "An error occurred". HttpStatusPassesThrough states it. |
| ExceptionListener.Classified | src/EventListener/ApiExceptionListener.php:26-104 | Definition of the response by kind of exception. ApiPathsOnly, AccessDeniedDependsOnUser, HttpStatusPassesThrough, ValidationListsEveryViolation and OtherIsInternalError state its promises. |
| ExceptionListener.DetailsEnabledAsWritten | src/EventListener/ApiExceptionListener.php:86 | Definition of the test as PHP parses it: APP_ENV is set and not empty(). ProductionLeaksDetailsAsWritten shows it holds for "prod". |
| ExceptionListener.OnKernelException | src/EventListener/ApiExceptionListener.php:26-104 | The response is exactly Classified's, with the corrected dev-only details test; see "## Left out". |
| ExceptionListener.ApiPathsOnly | src/EventListener/ApiExceptionListener.php:32-34 | A response is set iff the path starts with /api; "/apix" counts and "/learn" does not. |
| ExceptionListener.AccessDeniedDependsOnUser | src/EventListener/ApiExceptionListener.php:40-59 | Denied access is 403 access_denied iff the token has a user, else 401. A failed authentication is always 401 "Authentication required". |
| ExceptionListener.HttpStatusPassesThrough | src/EventListener/ApiExceptionListener.php:60-70 | The status passes through. The error name follows the match: 400 bad_request, 401 unauthorized, 403 forbidden, 404 not_found, 422 validation_failed, http_error for others. The message is the exception's own unless empty(), in which case the status text is used. There are no details. |
| ExceptionListener.ValidationListsEveryViolation | src/EventListener/ApiExceptionListener.php:71-82 | A failed validation is 422 with one entry per violation, in order. |
| ExceptionListener.OtherIsInternalError | src/EventListener/ApiExceptionListener.php:83-95 | Any other exception is 500 internal_server_error "An error occurred"; it carries debug details iff details are enabled. |
| ExceptionListener.DetailsOnlyInDev | src/EventListener/ApiExceptionListener.php:86 | The corrected test enables details only when APP_ENV is "dev". |
| ExceptionListener.ProductionLeaksDetailsAsWritten | src/EventListener/ApiExceptionListener.php:86 | As written, APP_ENV "prod" enables details, so a 500 response carries class, message, file and line. The corrected test does not. |
| Entities.Unique | src/Entity/User.php:80 | array_unique's values have no repeats and hold exactly the input's values. |
| Entities.UniqueOfDistinct | src/Entity/User.php:80 | A list without repeats is its own array_unique. |
| Entities.EffectiveRoles | src/Entity/User.php:75-81 | getRoles always holds ROLE_USER and every stored role, nothing else, no repeats. A clean list without ROLE_USER gets it appended. |
| Entities.User.GetRoles | src/Entity/User.php:75-81 | Definition through EffectiveRoles, whose contract states it; SetRoles states it after an update. |
| Entities.EffectiveRolesKeepsCleanList | src/Entity/User.php:75-81 | Stored roles that already hold ROLE_USER and no repeats come back unchanged. |
| Entities.NoStoredRoles | src/Entity/User.php:75-81 | Without stored roles, getRoles is exactly [ROLE_USER]. |
| Entities.Identifier | src/Entity/User.php:70-73 | The identifier is the email, or "" while none is set. |
| Entities.User.GetUserIdentifier | src/Entity/User.php:70-73 | Definition through Identifier, whose contract states it; SetEmail states it after an update. |
| Entities.RemoveFirst | src/Entity/User.php:151 | Removing an element a list holds takes out one occurrence and keeps the rest; a list without it is unchanged. |
| Entities.RemoveFirstOfDistinct | src/Entity/User.php:151 | In a list without repeats, the removed card is gone altogether and every other card stays. |
| Entities.Flashcard.SetUser | src/Entity/Flashcard.php:60-65 | The owner becomes the given user or null. |
| Entities.User.SetEmail | src/Entity/User.php:63-68 | The email is set, it becomes the identifier, and nothing else changes. |
| Entities.User.SetRoles | src/Entity/User.php:83-88 | The stored list is replaced. ROLE_USER and every new role are granted, and setRoles([]) leaves exactly [ROLE_USER]. |
| Entities.User.AddFlashcard | src/Entity/User.php:139-147 | A card already held changes nothing. Otherwise it is appended and its owner becomes this user. The association invariant is kept. |
| Entities.User.RemoveFlashcard | src/Entity/User.php:149-158 | A card not held changes nothing. Otherwise its first occurrence is removed, and its owner is cleared only if it was this user. The association invariant is kept. |
| Php.Trim | src/Service/LearnService.php:114 | trim() strips only " \t\n\r\0\x0B" from both ends, and the result is trimmed. |
| Php.TrimCommutesWithLower | src/Service/LearnService.php:114 | Trimming and lower-casing commute. |
| Php.LowerIdempotent | src/Service/LearnService.php:114 | Lower-casing twice is lower-casing once. |
| Php.ImplodeExplode | src/Service/MockFlashcardGenerator.php:96-97 | implode(' ', explode(' ', s)) is s. |
| Php.Isset | src/Controller/Api/FlashcardController.php:227 | isset($data[key]) holds iff $data is an array with a non-null value at the key; that value is returned. |

## Left out

- HTTP, rendering and sessions: Twig templates and flash bags are modelled only as the page and redirect values the actions return.
- OpenAI client: the call itself, `json_decode` of the reply, the logger, `microtime` timing and `estimateCost`. These are network I/O and floating-point money arithmetic; the model starts from the decoded value.
- OpenAICostTracker, AuthService, AuthController and SecurityController: cache I/O, password hashing and JWT issuance. They are not part of this model.
- Doctrine: repositories, queries and `flush` are a map from id to row and a boolean outcome.
  - The order `findByUser` returns rows in (newest first) is taken as given.
  - Ids and timestamps assigned by the database are not modelled.
  - Entity changes made before an error response, which Doctrine would not flush, are not modelled.
- Validator: the request DTOs' constraints are not modelled. Bulk elements are taken to be arrays, as those constraints demand.
- The `(int)` cast of the `page` and `limit` query strings: the model takes the cast integers as input.
- Floating point:
  - The ease factor and the percentage are exact fixed-point values. PHP's float rounding of `2.5 + 0.1` and similar sums is not modelled. Nor is the rounding in `(int)ceil($currentInterval * $newEaseFactor)` (LearnService.php:172): with a double just above the exact ease, the product can lie just above an integer, and the source's interval is then one day longer than the exact ceiling LearnService.Reviewed computes (ease 2.20, interval 20, right answer: 2.3000000000000003 × 20 gives 47 against 46).
  - `DateTimeImmutable::modify('+N days')` is N × 86400 seconds, ignoring daylight-saving changes.
- `mb_strtolower`: folds ASCII and the nine Polish capitals only; other Unicode letters are left as they are.
- `str_word_count`: an input number, not computed from the text.
- JSON objects with repeated keys: a lookup finds the first entry.
- Integer width: PHP's 64-bit integers are unbounded here, so overflow of the interval or the counters is not modelled.
- MockGenerator.ExtractKeywords: array_filter keeps the original keys; the model keeps only the values in order, which is what implode uses.
- Entities.EffectiveRoles: array_unique keeps the original keys, which may leave gaps; the model keeps the values in order.
- Entities.User.AddFlashcard: adding a card that another user holds does not take it out of that user's list, in the source as in the model. The association invariant is stated for this user only.
- LearnFlow.Started: models the corrected learnStart, which clears the `direction_{id}` memos when it stores a session. The code as written keeps them (FlashcardViewController.php:81); LearnFlow.StartedAsWritten models that, and LearnFlow.StaleDirectionAsWritten shows its effect.
- ViewController.FlashcardViewController.LearnStart: takes the step of the corrected LearnFlow.Started and sets `directions` to the empty map. After a quit and a restart, the code as written would still show a card in the direction drawn in the earlier session.
- LearnFlow.StartedEstablishesInvariant: is proved of the corrected start only. The memo clauses of the invariant (only the current card has a memo; in a fixed mode the memo is the mode) do not hold after the start as written.
- LearnFlow.PresentedDirection: its "a fixed mode shows the mode" clause rests on that memo invariant, so it holds for the corrected start only. After the start as written, a card can keep a random-mode direction.
- ExceptionListener.OnKernelException: uses the corrected test DetailsEnabled (APP_ENV is "dev"), not the test as written, which is true for every non-empty APP_ENV (ApiExceptionListener.php:86). ExceptionListener.DetailsEnabledAsWritten models the code, and ExceptionListener.ProductionLeaksDetailsAsWritten shows that it sends the details in production.
- FlashcardApi.BulkCard: a missing question or answer (the bulk request allows missing fields, src/Request/BulkCreateFlashcardsRequest.php:49-50) is modelled as the TypeError of the string setter. PHP first warns of the undefined key. Under an error handler that turns warnings into ErrorException, the catch at src/Controller/Api/FlashcardController.php:124 would answer 500 instead; that handler is not part of this model.
- FlashcardGeneration, RepetitionRecord's timestamps, and the other entity getters and setters are plain field access and are not modelled beyond what the core uses.

## Findings

| source | as written | input that shows it | evidently intended | confidence | as-written member | corrected member |
|---|---|---|---|---|---|---|
| src/Controller/FlashcardViewController.php:81 | learnStart stores a new session but keeps the `direction_{id}` memos of an earlier session that was quit. | Start in random mode over card 7 and draw answer_to_question; quit; start in question_to_answer mode: card 7 is shown answer-first. | A new session starts without memos, so a fixed mode shows every card in that mode. | not executed | LearnFlow.StaleDirectionAsWritten | LearnFlow.FreshDirectionAfterRestart |
| src/EventListener/ApiExceptionListener.php:86 | `$_ENV['APP_ENV'] ?? 'prod' === 'dev'` parses as `$_ENV['APP_ENV'] ?? ('prod' === 'dev')`, which is true for every non-empty APP_ENV. | APP_ENV = "prod" and an unexpected exception: the 500 response carries the exception's class, message, file and line. | `($_ENV['APP_ENV'] ?? 'prod') === 'dev'`: details only in development. | not executed | ExceptionListener.ProductionLeaksDetailsAsWritten | ExceptionListener.DetailsOnlyInDev |
