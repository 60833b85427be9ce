/**
 * The JSON API's flashcard controller: the pagination arithmetic of `list`, the partial update of
 * `update` with its order of checks, and the defaulting loop of `bulkCreate`. The flashcard table
 * is a map from id to row; Doctrine's flush is a step that either succeeds or throws.
 */
module FlashcardApi {
  import opened Wrappers
  import opened Seqs
  import opened Php

  // ---------------------------------------------------------------- list: pagination

  const DefaultPage := 1
  const DefaultLimit := 20
  const MaxLimit := 100

  /** The pagination block of the response; `offset` is what the repository query skips. */
  datatype Pagination = Pagination(total: nat, page: int, limit: int, offset: int, pages: int)

  /** (int) ceil($total / $limit) for a positive limit, in exact arithmetic. */
  function CeilDiv(total: nat, limit: int): (q: nat)
    requires limit >= 1
    ensures total == 0 ==> q == 0
    ensures total > 0 ==> limit * (q - 1) < total <= limit * q
  {
    var q := (total + limit - 1) / limit;
    assert limit * q <= total + limit - 1 < limit * q + limit;
    q
  }

  /**
   * The page, limit and offset `list` computes from the query values already cast with (int)
   * (None: the parameter is absent), and the page count for `total` flashcards.
   */
  function Paginate(pageQuery: Option<int>, limitQuery: Option<int>, total: nat): (p: Pagination)
    ensures p.total == total && p.page >= 1 && 1 <= p.limit <= MaxLimit
    ensures p.offset == (p.page - 1) * p.limit && p.offset >= 0
    ensures p.pages == CeilDiv(total, p.limit)
    ensures pageQuery.None? ==> p.page == DefaultPage
    ensures limitQuery.None? ==> p.limit == DefaultLimit
    ensures pageQuery.Some? && pageQuery.value >= 1 ==> p.page == pageQuery.value
    ensures limitQuery.Some? && 1 <= limitQuery.value <= MaxLimit ==> p.limit == limitQuery.value
  {
    var page := Max(1, pageQuery.GetOr(DefaultPage));
    var limit := Min(MaxLimit, Max(1, limitQuery.GetOr(DefaultLimit)));
    assert (page - 1) * limit >= 0 by {
      MulNonNegative(page - 1, limit);
    }
    Pagination(total, page, limit, (page - 1) * limit, CeilDiv(total, limit))
  }

  lemma MulNonNegative(a: int, b: int)
    requires a >= 0 && b >= 0
    ensures a * b >= 0
  {
  }

  lemma PaginateExamples()
    ensures Paginate(None, Some(10), 25).pages == 3
    ensures Paginate(None, None, 0) == Pagination(0, 1, 20, 0, 0)
    ensures Paginate(Some(0), Some(500), 7) == Pagination(7, 1, 100, 0, 1)
    ensures Paginate(Some(3), Some(-4), 5) == Pagination(5, 3, 1, 2, 5)
  {
    assert CeilDiv(25, 10) == 3;
    assert CeilDiv(7, 100) == 1;
    assert CeilDiv(5, 1) == 5;
  }

  /** The rows `findByUser($userId, $limit, $offset)` returns from the user's rows in query order. */
  function PageItems<T>(ordered: seq<T>, p: Pagination): seq<T>
    requires p.offset >= 0 && p.limit >= 1
  {
    ordered[Min(p.offset, |ordered|)..Min(p.offset + p.limit, |ordered|)]
  }

  /** The rows on pages 1 to k of `limit` rows each, one page after another. */
  function FirstPages<T>(ordered: seq<T>, limit: int, k: nat): seq<T>
    requires limit >= 1
  {
    if k == 0 then []
    else FirstPages(ordered, limit, k - 1) + PageItems(ordered, Pagination(|ordered|, k, limit, (k - 1) * limit, 0))
  }

  lemma {:induction false} FirstPagesArePrefix<T>(ordered: seq<T>, limit: int, k: nat)
    requires limit >= 1
    ensures FirstPages(ordered, limit, k) == ordered[..Min(k * limit, |ordered|)]
  {
    if k > 0 {
      FirstPagesArePrefix(ordered, limit, k - 1);
      assert (k - 1) * limit + limit == k * limit;
      MulNonNegative(k - 1, limit);
      assert (k - 1) * limit <= k * limit;
      var a, b := Min((k - 1) * limit, |ordered|), Min(k * limit, |ordered|);
      assert ordered[..a] + ordered[a..b] == ordered[..b];
    }
  }

  /** Walking the pages from 1 to `pages` lists every row of the user exactly once and in order. */
  lemma PagesListEveryRowOnce<T>(ordered: seq<T>, limitQuery: Option<int>)
    ensures var p := Paginate(None, limitQuery, |ordered|);
            FirstPages(ordered, p.limit, p.pages) == ordered
  {
    var p := Paginate(None, limitQuery, |ordered|);
    AllPages(ordered, p.limit);
  }

  lemma AllPages<T>(ordered: seq<T>, limit: int)
    requires limit >= 1
    ensures FirstPages(ordered, limit, CeilDiv(|ordered|, limit)) == ordered
  {
    var pages := CeilDiv(|ordered|, limit);
    FirstPagesArePrefix(ordered, limit, pages);
    assert pages * limit == limit * pages;
    assert pages * limit >= |ordered|;
    assert ordered[..|ordered|] == ordered;
  }

  /** A page after the last one is empty. */
  lemma PageAfterLastIsEmpty<T>(ordered: seq<T>, pageQuery: Option<int>, limitQuery: Option<int>)
    ensures var p := Paginate(pageQuery, limitQuery, |ordered|);
            p.page > p.pages ==> PageItems(ordered, p) == []
  {
    var p := Paginate(pageQuery, limitQuery, |ordered|);
    if p.page > p.pages {
      OffsetPastEnd(ordered, p);
    }
  }

  lemma OffsetPastEnd<T>(ordered: seq<T>, p: Pagination)
    requires p.limit >= 1 && p.offset == (p.page - 1) * p.limit && p.offset >= 0
    requires p.pages == CeilDiv(|ordered|, p.limit) && p.page > p.pages
    ensures PageItems(ordered, p) == []
  {
    MulMonotone(p.limit, p.pages, p.page - 1);
    assert p.offset == p.limit * (p.page - 1) >= p.limit * p.pages;
    assert Min(p.offset, |ordered|) == |ordered|;
  }

  lemma MulMonotone(a: int, b: int, c: int)
    requires a >= 0 && b <= c
    ensures a * b <= a * c
  {
    assert a * c - a * b == a * (c - b);
    MulNonNegative(a, c - b);
  }

  // ---------------------------------------------------------------- update

  /** A row of the flashcards table, as far as the API touches it. */
  datatype StoredCard = StoredCard(ownerId: int, question: string, answer: string, source: string)

  datatype UpdateResponse =
    | NotFound            // 404 "Flashcard not found"
    | AccessDenied        // 403 "Access denied"
    | QuestionEmpty       // 400 "Question cannot be empty"
    | AnswerEmpty         // 400 "Answer cannot be empty"
    | TypeError           // trim() of a value that is not a string, under strict_types
    | FlushFailed         // 500 "Failed to update flashcard: ..."
    | Updated(card: StoredCard)  // 200 with the stored card

  /** update($id) by user `userId` with the decoded body `data`; `flushSucceeds` is the database's answer. */
  function Patched(store: map<int, StoredCard>, id: int, userId: int, data: Value, flushSucceeds: bool): UpdateResponse {
    if id !in store then NotFound
    else if store[id].ownerId != userId then AccessDenied
    else Edited(store[id], data, flushSucceeds)
  }

  /** The part of update after the owner check: each field present is checked, then set, then the flush. */
  function Edited(card: StoredCard, data: Value, flushSucceeds: bool): UpdateResponse {
    var question := Isset(data, "question");
    var answer := Isset(data, "answer");
    if question.Some? && !question.value.Str? then TypeError
    else if question.Some? && IsEmptyString(Trim(question.value.s)) then QuestionEmpty
    else if answer.Some? && !answer.value.Str? then TypeError
    else if answer.Some? && IsEmptyString(Trim(answer.value.s)) then AnswerEmpty
    else if !flushSucceeds then FlushFailed
    else
      var card := if question.Some? then card.(question := question.value.s) else card;
      var card := if answer.Some? then card.(answer := answer.value.s) else card;
      Updated(card)
  }

  /**
   * update: the row is looked up, its owner checked, then each field present in the body is
   * checked and set in turn; only a successful flush stores the changes.
   */
  method Update(store: map<int, StoredCard>, id: int, userId: int, data: Value, flushSucceeds: bool)
    returns (response: UpdateResponse, stored: map<int, StoredCard>)
    ensures response == Patched(store, id, userId, data, flushSucceeds)
    ensures stored == if response.Updated? then store[id := response.card] else store
  {
    stored := store;
    if id !in store {
      return NotFound, stored;
    }
    var flashcard := store[id];
    if flashcard.ownerId != userId {
      return AccessDenied, stored;
    }
    response := EditRow(flashcard, data, flushSucceeds);
    if response.Updated? {
      stored := store[id := response.card];
    }
  }

  /** The field checks and setters of update on the owner's row, and the flush. */
  method EditRow(flashcard: StoredCard, data: Value, flushSucceeds: bool) returns (response: UpdateResponse)
    ensures response == Edited(flashcard, data, flushSucceeds)
  {
    var card := flashcard;
    var question := Isset(data, "question");
    if question.Some? {
      if !question.value.Str? {
        return TypeError;
      }
      if IsEmptyString(Trim(question.value.s)) {
        return QuestionEmpty;
      }
      card := card.(question := question.value.s);
    }
    var answer := Isset(data, "answer");
    if answer.Some? {
      if !answer.value.Str? {
        return TypeError;
      }
      if IsEmptyString(Trim(answer.value.s)) {
        return AnswerEmpty;
      }
      card := card.(answer := answer.value.s);
    }
    if !flushSucceeds {
      return FlushFailed;
    }
    response := Updated(card);
  }

  /** A missing row is reported before ownership, and another user's row is refused before the body is read. */
  lemma UpdateChecksExistenceThenOwner(store: map<int, StoredCard>, id: int, userId: int, data: Value, flushSucceeds: bool)
    ensures Patched(store, id, userId, data, flushSucceeds) == NotFound <==> id !in store
    ensures Patched(store, id, userId, data, flushSucceeds) == AccessDenied <==>
              id in store && store[id].ownerId != userId
  {
  }

  /**
   * A successful update sets exactly the fields present in the body, to the values as sent (not
   * trimmed), and keeps the others, the owner and the source.
   */
  lemma UpdateSetsPresentFieldsOnly(store: map<int, StoredCard>, id: int, userId: int, data: Value)
    requires Patched(store, id, userId, data, true).Updated?
    ensures var card, old_ := Patched(store, id, userId, data, true).card, store[id];
            && card.ownerId == old_.ownerId == userId && card.source == old_.source
            && card.question == (if Isset(data, "question").Some? then Isset(data, "question").value.s else old_.question)
            && card.answer == (if Isset(data, "answer").Some? then Isset(data, "answer").value.s else old_.answer)
            && (Isset(data, "question").Some? ==> !IsEmptyString(Trim(card.question)))
            && (Isset(data, "answer").Some? ==> !IsEmptyString(Trim(card.answer)))
  {
  }

  /** A present field that trims to an empty() string is refused, whatever else the body holds. */
  lemma UpdateRefusesBlankFields(store: map<int, StoredCard>, id: int, userId: int, question: string, answer: string,
                                 flushSucceeds: bool)
    requires id in store && store[id].ownerId == userId
    ensures IsEmptyString(Trim(question)) ==>
              Patched(store, id, userId, Arr([(StrKey("question"), Str(question)), (StrKey("answer"), Str(answer))]),
                      flushSucceeds) == QuestionEmpty
    ensures !IsEmptyString(Trim(question)) && IsEmptyString(Trim(answer)) ==>
              Patched(store, id, userId, Arr([(StrKey("question"), Str(question)), (StrKey("answer"), Str(answer))]),
                      flushSucceeds) == AnswerEmpty
  {
    IssetOfTwoEntries("question", Str(question), "answer", Str(answer));
  }

  /** Sending the same body again changes nothing more. */
  lemma UpdateIsIdempotent(store: map<int, StoredCard>, id: int, userId: int, data: Value)
    requires Patched(store, id, userId, data, true).Updated?
    ensures var card := Patched(store, id, userId, data, true).card;
            Patched(store[id := card], id, userId, data, true) == Updated(card)
  {
  }

  /** A body with neither field only flushes: the row comes back as it was. */
  lemma EmptyBodyKeepsRow(store: map<int, StoredCard>, id: int, userId: int)
    requires id in store && store[id].ownerId == userId
    ensures Patched(store, id, userId, Arr([]), true) == Updated(store[id])
    ensures Patched(store, id, userId, Null, true) == Updated(store[id])
  {
  }

  // ---------------------------------------------------------------- bulkCreate

  const DefaultSource := "ai"

  /**
   * The row bulkCreate makes from one element of `flashcards` (an array, as the request's
   * constraints demand): a null question or answer, or a value of another type than string,
   * reaches a string-typed setter and raises a TypeError. A missing one is treated the same way;
   * PHP first warns of the undefined key, and an error handler that turns warnings into exceptions
   * is not part of this model.
   */
  function BulkCard(userId: int, item: seq<(Key, Value)>): Option<StoredCard> {
    var question := Lookup(item, StrKey("question"));
    var answer := Lookup(item, StrKey("answer"));
    var source := Lookup(item, StrKey("source"));
    if question.None? || !question.value.Str? then None
    else if answer.None? || !answer.value.Str? then None
    else if source.Some? && !source.value.Null? && !source.value.Str? then None
    else
      var s := if source.None? || source.value.Null? then DefaultSource else source.value.s;
      Some(StoredCard(userId, question.value.s, answer.value.s, s))
  }

  /** The rows for all of `items`, or None when one of them raises. */
  function BulkCards(userId: int, items: seq<seq<(Key, Value)>>): Option<seq<StoredCard>> {
    if |items| == 0 then Some([])
    else
      match BulkCards(userId, items[..|items| - 1])
      case None => None
      case Some(cards) =>
        match BulkCard(userId, items[|items| - 1])
        case None => None
        case Some(card) => Some(cards + [card])
  }

  datatype BulkResponse =
    | Created(cards: seq<StoredCard>)   // 201 with the new cards
    | BulkTypeError                     // a setter received a value that is not a string
    | BulkFlushFailed                   // 500 "Failed to create flashcards: ..."

  lemma {:induction false} BulkFailureIsFinal(userId: int, items: seq<seq<(Key, Value)>>, i: nat)
    requires i <= |items| && BulkCards(userId, items[..i]).None?
    ensures BulkCards(userId, items).None?
    decreases |items| - i
  {
    if i < |items| {
      assert items[..i + 1][..i] == items[..i];
      BulkFailureIsFinal(userId, items, i + 1);
    } else {
      assert items[..i] == items;
    }
  }

  /** bulkCreate: one new row per element, in order; nothing is stored unless the final flush succeeds. */
  method BulkCreate(userId: int, items: seq<seq<(Key, Value)>>, flushSucceeds: bool) returns (response: BulkResponse)
    ensures response.Created? <==> BulkCards(userId, items).Some? && flushSucceeds
    ensures response.Created? ==> response.cards == BulkCards(userId, items).value
    ensures response == BulkTypeError <==> BulkCards(userId, items).None?
  {
    var createdFlashcards: seq<StoredCard> := [];
    var i := 0;
    while i < |items|
      invariant 0 <= i <= |items|
      invariant BulkCards(userId, items[..i]) == Some(createdFlashcards)
    {
      var flashcardData := items[i];
      assert items[..i + 1][..i] == items[..i];
      var question := Lookup(flashcardData, StrKey("question"));
      var answer := Lookup(flashcardData, StrKey("answer"));
      var source := Lookup(flashcardData, StrKey("source"));
      if question.None? || !question.value.Str? || answer.None? || !answer.value.Str? {
        BulkFailureIsFinal(userId, items, i + 1);
        return BulkTypeError;
      }
      var s := DefaultSource;
      if source.Some? && !source.value.Null? {
        if !source.value.Str? {
          BulkFailureIsFinal(userId, items, i + 1);
          return BulkTypeError;
        }
        s := source.value.s;
      }
      createdFlashcards := createdFlashcards + [StoredCard(userId, question.value.s, answer.value.s, s)];
      i := i + 1;
    }
    assert items[..i] == items;
    if !flushSucceeds {
      return BulkFlushFailed;
    }
    response := Created(createdFlashcards);
  }

  /**
   * When every element converts, the new rows follow the input one for one: owned by the caller,
   * with the element's question and answer, and the source "ai" unless the element names one.
   */
  lemma {:induction false} BulkCardsFollowInput(userId: int, items: seq<seq<(Key, Value)>>)
    requires BulkCards(userId, items).Some?
    ensures var cards := BulkCards(userId, items).value;
            |cards| == |items|
            && forall i | 0 <= i < |items| :: BulkCard(userId, items[i]) == Some(cards[i])
  {
    if |items| > 0 {
      var init := items[..|items| - 1];
      BulkCardsFollowInput(userId, init);
      var cards := BulkCards(userId, items).value;
      var earlier, last := BulkCards(userId, init).value, BulkCard(userId, items[|items| - 1]).value;
      assert cards == earlier + [last];
      forall i | 0 <= i < |items| ensures BulkCard(userId, items[i]) == Some(cards[i]) {
        if i < |init| {
          assert init[i] == items[i] && cards[i] == earlier[i];
        } else {
          assert cards[i] == last;
        }
      }
    }
  }

  /** What one element turns into: the caller's row with the given fields, "ai" when no source is given. */
  lemma BulkCardDefaultsSource(userId: int, item: seq<(Key, Value)>)
    requires BulkCard(userId, item).Some?
    ensures var card := BulkCard(userId, item).value;
            && card.ownerId == userId
            && Lookup(item, StrKey("question")) == Some(Str(card.question))
            && Lookup(item, StrKey("answer")) == Some(Str(card.answer))
            && (Lookup(item, StrKey("source")).None? || Lookup(item, StrKey("source")) == Some(Null) ==>
                  card.source == DefaultSource)
            && (Lookup(item, StrKey("source")).Some? && Lookup(item, StrKey("source")).value.Str? ==>
                  card.source == Lookup(item, StrKey("source")).value.s)
  {
  }
}
