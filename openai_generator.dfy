/**
 * OpenAIFlashcardGenerator once the model's reply has been decoded: parseFlashcards, which checks
 * the shape of the reply, keeps the well-formed items trimmed and enforces the bounds on their
 * number, and the part of generate that wraps its errors. The HTTP call is not modelled; the decoded
 * reply is the input.
 */
module OpenAIGenerator {
  import opened Wrappers
  import opened Seqs
  import opened Php
  import opened Generation

  /**
   * How generation fails: a RuntimeException with its message, or a TypeError, which the source
   * raises under strict_types when trim() or a typed parameter receives a value of the wrong type.
   * A TypeError is an \Error, not an \Exception, so `catch (\Exception $e)` does not wrap it.
   */
  datatype Failure = RuntimeError(message: string) | TypeError

  const InvalidFormatMessage := "Invalid response format from OpenAI"
  const DecodeFailedMessage := "Failed to decode OpenAI response"
  const WrapPrefix := "Failed to generate flashcards with AI: "

  function TooFewMessage(count: nat): string {
    "Too few flashcards generated: " + NatToString(count)
  }

  /** What the foreach body does with one item. */
  datatype ItemOutcome = Skip | Keep(card: GeneratedFlashcard) | Throw

  /**
   * One item: skipped unless both `question` and `answer` are set (non-null); a set field that is
   * not a string makes trim() throw; otherwise both are trimmed and the item is kept unless either
   * is empty() afterwards.
   */
  function Judge(item: Value): (o: ItemOutcome)
    ensures o.Keep? ==> IsTrimmed(o.card.question) && !IsEmptyString(o.card.question)
    ensures o.Keep? ==> IsTrimmed(o.card.answer) && !IsEmptyString(o.card.answer)
    ensures o.Throw? <==> Isset(item, "question").Some? && Isset(item, "answer").Some?
                          && !(Isset(item, "question").value.Str? && Isset(item, "answer").value.Str?)
  {
    var q := Isset(item, "question");
    var a := Isset(item, "answer");
    if q.None? || a.None? then Skip
    else if !q.value.Str? || !a.value.Str? then Throw
    else
      var question := Trim(q.value.s);
      var answer := Trim(a.value.s);
      if IsEmptyString(question) || IsEmptyString(answer) then Skip
      else Keep(GeneratedFlashcard(question, answer))
  }

  /** What the foreach body does with each item, in order. */
  function Outcomes(items: seq<Value>): (os: seq<ItemOutcome>)
    ensures |os| == |items| && forall i | 0 <= i < |items| :: os[i] == Judge(items[i])
  {
    seq(|items|, i requires 0 <= i < |items| => Judge(items[i]))
  }

  /** The cards the foreach collects, given what it does with each item; None when an item throws. */
  function Collected(os: seq<ItemOutcome>): Option<seq<GeneratedFlashcard>> {
    if |os| == 0 then Some([])
    else
      match Collected(os[..|os| - 1])
      case None => None
      case Some(cards) =>
        match os[|os| - 1]
        case Skip => Some(cards)
        case Keep(card) => Some(cards + [card])
        case Throw => None
  }

  /** The items of the `flashcards` list, when $data has one. */
  function ListedItems(data: seq<(Key, Value)>): Option<seq<Value>> {
    var list := Isset(Arr(data), "flashcards");
    if list.None? || !list.value.Arr? then None else Some(Values(list.value.entries))
  }

  /** parseFlashcards($data), for the entries of the array $data. */
  function Parsed(data: seq<(Key, Value)>): Result<seq<GeneratedFlashcard>, Failure> {
    match ListedItems(data)
    case None => Failure(RuntimeError(InvalidFormatMessage))
    case Some(items) =>
      match Collected(Outcomes(items))
      case None => Failure(TypeError)
      case Some(cards) =>
        if |cards| < MinFlashcards then Failure(RuntimeError(TooFewMessage(|cards|)))
        else if |cards| > MaxFlashcards then Success(cards[..MaxFlashcards])
        else Success(cards)
  }

  /** One more item: Collected of the longer prefix in terms of the shorter one. */
  lemma CollectedSnoc(os: seq<ItemOutcome>, i: nat)
    requires i < |os|
    ensures Collected(os[..i + 1]) ==
              match Collected(os[..i])
              case None => None
              case Some(cards) =>
                match os[i]
                case Skip => Some(cards)
                case Keep(card) => Some(cards + [card])
                case Throw => None
  {
    assert os[..i + 1][..i] == os[..i];
  }

  /** An item that throws ends the collection for good. */
  lemma {:induction false} ThrowIsFinal(os: seq<ItemOutcome>, i: nat)
    requires i <= |os| && Collected(os[..i]) == None
    ensures Collected(os) == None
    decreases |os| - i
  {
    if i < |os| {
      assert os[..i + 1][..i] == os[..i];
      ThrowIsFinal(os, i + 1);
    } else {
      assert os[..i] == os;
    }
  }

  method ParseFlashcards(data: seq<(Key, Value)>) returns (r: Result<seq<GeneratedFlashcard>, Failure>)
    ensures r == Parsed(data)
  {
    var list := Isset(Arr(data), "flashcards");
    if list.None? || !list.value.Arr? {
      return Failure(RuntimeError(InvalidFormatMessage));
    }
    var collected := CollectItems(Values(list.value.entries));
    if collected.None? {
      return Failure(TypeError);
    }
    var flashcards := collected.value;
    var count := |flashcards|;
    if count < MinFlashcards {
      return Failure(RuntimeError(TooFewMessage(count)));
    }
    if count > MaxFlashcards {
      flashcards := flashcards[..MaxFlashcards];
    }
    r := Success(flashcards);
  }

  /** The body of the foreach of parseFlashcards for one item: skip it, keep its card, or throw. */
  method JudgeItem(item: Value) returns (o: ItemOutcome)
    ensures o == Judge(item)
  {
    var q := Isset(item, "question");
    var a := Isset(item, "answer");
    if q.None? || a.None? {
      return Skip;
    }
    if !q.value.Str? || !a.value.Str? {
      return Throw;
    }
    var question := Trim(q.value.s);
    var answer := Trim(a.value.s);
    if IsEmptyString(question) || IsEmptyString(answer) {
      return Skip;
    }
    o := Keep(GeneratedFlashcard(question, answer));
  }

  /** The foreach of parseFlashcards: the cards it collects, or None when trim() throws on an item. */
  method CollectItems(items: seq<Value>) returns (collected: Option<seq<GeneratedFlashcard>>)
    ensures collected == Collected(Outcomes(items))
  {
    ghost var os := Outcomes(items);
    var flashcards: seq<GeneratedFlashcard> := [];
    var i := 0;
    while i < |items|
      invariant 0 <= i <= |items|
      invariant Collected(os[..i]) == Some(flashcards)
    {
      var o := JudgeItem(items[i]);
      assert os[i] == o;
      CollectedSnoc(os, i);
      match o {
        case Skip =>
        case Keep(card) =>
          flashcards := flashcards + [card];
        case Throw =>
          ThrowIsFinal(os, i + 1);
          return None;
      }
      i := i + 1;
    }
    assert os[..i] == os;
    collected := Some(flashcards);
  }

  /** The part of generate after json_decode: a falsy reply, then parseFlashcards, with RuntimeExceptions wrapped. */
  function AfterDecode(decoded: Value): (r: Result<seq<GeneratedFlashcard>, Failure>)
    ensures r.Failure? && r.error.RuntimeError? ==> WrapPrefix <= r.error.message
    ensures !Truthy(decoded) ==> r == Failure(RuntimeError(WrapPrefix + DecodeFailedMessage))
    ensures Truthy(decoded) && !decoded.Arr? ==> r == Failure(TypeError)
    ensures decoded.Arr? && |decoded.entries| > 0 && !Parsed(decoded.entries).Failure? ==> r == Parsed(decoded.entries)
    ensures Truthy(decoded) && decoded.Arr? && Parsed(decoded.entries).Failure? ==>
              r == (if Parsed(decoded.entries).error.RuntimeError?
                    then Failure(RuntimeError(WrapPrefix + Parsed(decoded.entries).error.message))
                    else Failure(TypeError))
  {
    if !Truthy(decoded) then Failure(RuntimeError(WrapPrefix + DecodeFailedMessage))
    else if !decoded.Arr? then Failure(TypeError)
    else
      match Parsed(decoded.entries)
      case Success(cards) => Success(cards)
      case Failure(RuntimeError(m)) => Failure(RuntimeError(WrapPrefix + m))
      case Failure(TypeError) => Failure(TypeError)
  }

  // ---------------------------------------------------------------- properties

  /** The positions of the items the foreach keeps, in input order: an independent account of Collected. */
  function KeptPositions(os: seq<ItemOutcome>): (ps: seq<nat>)
    ensures forall k | 0 <= k < |ps| :: ps[k] < |os|
  {
    if |os| == 0 then []
    else
      var ps := KeptPositions(os[..|os| - 1]);
      if os[|os| - 1].Keep? then ps + [|os| - 1] else ps
  }

  /**
   * When no item throws, the collected cards are exactly the kept items' cards, in input order:
   * card k comes from item ps[k], the positions increase, and every kept item is among them.
   */
  lemma {:induction false} CollectedIsOrderedSubsequence(os: seq<ItemOutcome>)
    requires Collected(os).Some?
    ensures |KeptPositions(os)| == |Collected(os).value|
    ensures forall k | 0 <= k < |KeptPositions(os)| :: os[KeptPositions(os)[k]] == Keep(Collected(os).value[k])
    ensures forall k, l | 0 <= k < l < |KeptPositions(os)| :: KeptPositions(os)[k] < KeptPositions(os)[l]
    ensures forall j | 0 <= j < |os| && os[j].Keep? :: j in KeptPositions(os)
  {
    if |os| > 0 {
      var init := os[..|os| - 1];
      var last := |os| - 1;
      CollectedIsOrderedSubsequence(init);
      var cards, ps := Collected(init).value, KeptPositions(init);
      var ps', cards' := KeptPositions(os), Collected(os).value;
      if os[last].Skip? {
        assert cards' == cards && ps' == ps;
      } else {
        assert cards' == cards + [os[last].card] && ps' == ps + [last];
        forall k | 0 <= k < |ps'| ensures os[ps'[k]] == Keep(cards'[k]) {
          if k < |ps| {
            assert ps'[k] == ps[k] && cards'[k] == cards[k] && init[ps[k]] == os[ps[k]];
          }
        }
      }
      forall j | 0 <= j < |os| && os[j].Keep? ensures j in ps' {
        if j < last {
          assert init[j] == os[j];
        }
      }
    }
  }

  /** Every collected card was trimmed and is not empty(). */
  lemma {:induction false} CollectedCardsAreClean(os: seq<ItemOutcome>)
    requires Collected(os).Some?
    requires forall i | 0 <= i < |os| :: os[i].Keep? ==> Clean(os[i].card)
    ensures forall c | c in Collected(os).value :: Clean(c)
  {
    if |os| > 0 {
      var init := os[..|os| - 1];
      assert forall i | 0 <= i < |init| :: init[i] == os[i];
      CollectedCardsAreClean(init);
    }
  }

  predicate Clean(c: GeneratedFlashcard) {
    IsTrimmed(c.question) && !IsEmptyString(c.question) && IsTrimmed(c.answer) && !IsEmptyString(c.answer)
  }

  /**
   * parseFlashcards succeeds with between three and ten clean cards: the first collected cards in
   * input order, all of them when there are at most ten.
   */
  lemma ParsedSuccess(data: seq<(Key, Value)>)
    requires Parsed(data).Success?
    ensures ListedItems(data).Some? && Collected(Outcomes(ListedItems(data).value)).Some?
    ensures var cards := Parsed(data).value;
            var all := Collected(Outcomes(ListedItems(data).value)).value;
            MinFlashcards <= |cards| <= MaxFlashcards
            && MinFlashcards <= |all|
            && cards == all[..Min(|all|, MaxFlashcards)]
            && forall c | c in cards :: Clean(c)
  {
    var os := Outcomes(ListedItems(data).value);
    var all := Collected(os).value;
    CollectedCardsAreClean(os);
    assert forall c | c in all[..Min(|all|, MaxFlashcards)] :: c in all;
  }

  /** Each way parseFlashcards can fail, with the condition that causes it. */
  lemma ParsedFailures(data: seq<(Key, Value)>)
    ensures Parsed(data) == Failure(RuntimeError(InvalidFormatMessage)) <==> ListedItems(data).None?
    ensures Parsed(data) == Failure(TypeError) <==>
              ListedItems(data).Some? && Collected(Outcomes(ListedItems(data).value)).None?
    ensures Parsed(data) == Failure(TypeError) <==>
              ListedItems(data).Some? &&
              exists i | 0 <= i < |ListedItems(data).value| ::
                var item := ListedItems(data).value[i];
                Isset(item, "question").Some? && Isset(item, "answer").Some?
                && !(Isset(item, "question").value.Str? && Isset(item, "answer").value.Str?)
    ensures ListedItems(data).Some? && Collected(Outcomes(ListedItems(data).value)).Some? ==>
              var n := |Collected(Outcomes(ListedItems(data).value)).value|;
              (Parsed(data).Failure? <==> n < MinFlashcards)
              && (n < MinFlashcards ==> Parsed(data) == Failure(RuntimeError(TooFewMessage(n))))
  {
    if ListedItems(data).Some? {
      var items := ListedItems(data).value;
      CollectedNoneIffThrow(Outcomes(items));
      match Collected(Outcomes(items))
      case None =>
      case Some(cards) =>
        if |cards| < MinFlashcards {
          TooFewIsNotInvalidFormat(|cards|);
        }
    }
  }

  /** The foreach throws exactly when some item throws. */
  lemma {:induction false} CollectedNoneIffThrow(os: seq<ItemOutcome>)
    ensures Collected(os).None? <==> exists i | 0 <= i < |os| :: os[i].Throw?
  {
    if |os| > 0 {
      var init := os[..|os| - 1];
      CollectedNoneIffThrow(init);
      if exists i | 0 <= i < |init| :: init[i].Throw? {
        var i :| 0 <= i < |init| && init[i].Throw?;
        assert os[i].Throw?;
      }
      if exists i | 0 <= i < |os| :: os[i].Throw? {
        var i :| 0 <= i < |os| && os[i].Throw?;
        if i < |init| {
          assert init[i].Throw?;
        }
      }
    }
  }

  lemma TooFewIsNotInvalidFormat(n: nat)
    requires n < MinFlashcards
    ensures TooFewMessage(n) != InvalidFormatMessage
  {
    assert TooFewMessage(n)[0] == 'T' != InvalidFormatMessage[0];
  }

  /** An item holding a question and an answer, as the model is asked to write them. */
  function Pair(question: string, answer: string): Value {
    Arr([(StrKey("question"), Str(question)), (StrKey("answer"), Str(answer))])
  }

  lemma JudgePair(question: string, answer: string)
    ensures Judge(Pair(question, answer)) ==
              if IsEmptyString(Trim(question)) || IsEmptyString(Trim(answer)) then Skip
              else Keep(GeneratedFlashcard(Trim(question), Trim(answer)))
  {
    IssetOfTwoEntries("question", Str(question), "answer", Str(answer));
  }

  /** A pair that is already trimmed and not empty() is kept as it is. */
  lemma JudgeCleanPair(question: string, answer: string)
    requires IsTrimmed(question) && !IsEmptyString(question) && IsTrimmed(answer) && !IsEmptyString(answer)
    ensures Judge(Pair(question, answer)) == Keep(GeneratedFlashcard(question, answer))
  {
    JudgePair(question, answer);
    TrimKeepsTrimmed(question);
    TrimKeepsTrimmed(answer);
  }

  lemma JudgeWithoutAnswer(question: string)
    ensures Judge(Arr([(StrKey("question"), Str(question))])) == Skip
  {
    assert StrKey("question") != StrKey("answer");
  }

  /** An answer made only of characters trim() strips is blank, so the item is skipped. */
  lemma JudgeBlankAnswer(question: string, blank: char)
    requires IsTrimChar(blank)
    ensures Judge(Pair(question, [blank])) == Skip
  {
    JudgePair(question, [blank]);
    TrimIgnoresPadding(blank, []);
    assert [blank] + [] == [blank];
  }

  /** A clean question padded with a space on each side is kept without the spaces. */
  lemma JudgePaddedQuestion(question: string, answer: string)
    requires IsTrimmed(question) && !IsEmptyString(question) && IsTrimmed(answer) && !IsEmptyString(answer)
    ensures Judge(Pair([' '] + question + [' '], answer)) == Keep(GeneratedFlashcard(question, answer))
  {
    TrimOfPadded(' ', question);
    TrimKeepsTrimmed(answer);
    JudgePair([' '] + question + [' '], answer);
  }

  lemma CollectedExample(os: seq<ItemOutcome>, a: GeneratedFlashcard, b: GeneratedFlashcard, c: GeneratedFlashcard)
    requires |os| == 5 && os[0] == Keep(a) && os[1] == Skip && os[2] == Skip && os[3] == Keep(b) && os[4] == Keep(c)
    ensures Collected(os) == Some([a, b, c])
  {
    var o1 := os[..1];
    assert o1[..|o1| - 1] == [] && o1[|o1| - 1] == Keep(a) && [] + [a] == [a];
    assert Collected(o1) == Some([a]);
    assert os[..2][..1] == os[..1] && os[..2][1] == Skip;
    assert os[..3][..2] == os[..2] && os[..3][2] == Skip;
    assert Collected(os[..3]) == Some([a]);
    assert os[..4][..3] == os[..3] && os[..4][3] == Keep(b);
    assert [a] + [b] == [a, b];
    assert Collected(os[..4]) == Some([a, b]);
    assert os[..4] == os[..|os| - 1] && os[|os| - 1] == Keep(c) && [a, b] + [c] == [a, b, c];
  }

  /**
   * A reply with a good item, an item without an answer, an item whose answer is a lone tab, a
   * good item whose question is padded with spaces, and a third good item: the two bad items are
   * skipped and the padded question is trimmed.
   */
  lemma ParsedExample(a: GeneratedFlashcard, b: GeneratedFlashcard, c: GeneratedFlashcard, lone: string)
    requires Clean(a) && Clean(b) && Clean(c)
    ensures Parsed([(StrKey("flashcards"), Arr([
              (IntKey(0), Pair(a.question, a.answer)),
              (IntKey(1), Arr([(StrKey("question"), Str(lone))])),
              (IntKey(2), Pair(b.question, "\t")),
              (IntKey(3), Pair([' '] + b.question + [' '], b.answer)),
              (IntKey(4), Pair(c.question, c.answer))]))])
            == Success([a, b, c])
  {
    var items := [Pair(a.question, a.answer), Arr([(StrKey("question"), Str(lone))]), Pair(b.question, "\t"),
                  Pair([' '] + b.question + [' '], b.answer), Pair(c.question, c.answer)];
    var entries := [(IntKey(0), items[0]), (IntKey(1), items[1]), (IntKey(2), items[2]), (IntKey(3), items[3]),
                    (IntKey(4), items[4])];
    var data := [(StrKey("flashcards"), Arr(entries))];
    assert Lookup(data, StrKey("flashcards")) == Some(Arr(entries));
    assert Values(entries) == items;
    assert ListedItems(data) == Some(items);
    JudgeCleanPair(a.question, a.answer);
    JudgeWithoutAnswer(lone);
    JudgeBlankAnswer(b.question, '\t');
    JudgePaddedQuestion(b.question, b.answer);
    JudgeCleanPair(c.question, c.answer);
    var judged := Outcomes(items);
    assert judged[0] == Judge(items[0]) && judged[1] == Judge(items[1]) && judged[2] == Judge(items[2]);
    assert judged[3] == Judge(items[3]) && judged[4] == Judge(items[4]);
    CollectedExample(judged, a, b, c);
  }
}
