/**
 * What both flashcard generators share: the generated card and the number of cards a source text
 * calls for.
 */
module Generation {
  import opened Seqs

  /** GeneratedFlashcardResponse: a proposed card, not yet stored. */
  datatype GeneratedFlashcard = GeneratedFlashcard(question: string, answer: string)

  const MinFlashcards: nat := 3
  const MaxFlashcards: nat := 10

  /**
   * min(10, max(3, intdiv($wordCount, 30))): one card per thirty words, but never fewer than three
   * nor more than ten. `wordCount` is what str_word_count reports, which is never negative.
   */
  function SuggestedCount(wordCount: nat): (n: nat)
    ensures MinFlashcards <= n <= MaxFlashcards
    ensures wordCount < 30 * MinFlashcards ==> n == MinFlashcards
    ensures wordCount >= 30 * MaxFlashcards ==> n == MaxFlashcards
    ensures 30 * MinFlashcards <= wordCount < 30 * (MaxFlashcards + 1) ==> 30 * n <= wordCount < 30 * (n + 1)
  {
    Min(MaxFlashcards, Max(MinFlashcards, wordCount / 30))
  }

  /** More words never ask for fewer cards. */
  lemma SuggestedCountMonotone(a: nat, b: nat)
    requires a <= b
    ensures SuggestedCount(a) <= SuggestedCount(b)
  {
    assert a / 30 <= b / 30;
  }
}
