/**
 * MockFlashcardGenerator: picks as many cards as the text's word count calls for from one of two
 * fixed lists of ten, chosen by a substring test for Polish, plus its two word-extraction helpers.
 * shuffle() is modelled as an arbitrary permutation, str_word_count as the parameter `wordCount`.
 */
module MockGenerator {
  import opened Seqs
  import opened Php
  import opened Generation

  /** The Polish-to-English cards offered for a Polish text. */
  const PolishTemplates: seq<GeneratedFlashcard> := [
    GeneratedFlashcard("doświadczenie", "experience"),
    GeneratedFlashcard("rozwiązanie", "solution"),
    GeneratedFlashcard("możliwość", "possibility, opportunity"),
    GeneratedFlashcard("w międzyczasie", "in the meantime"),
    GeneratedFlashcard("przeprowadzić", "to conduct, to carry out"),
    GeneratedFlashcard("zwiększyć", "to increase"),
    GeneratedFlashcard("zmniejszyć", "to decrease, to reduce"),
    GeneratedFlashcard("wpływ", "influence, impact"),
    GeneratedFlashcard("osiągnąć", "to achieve, to accomplish"),
    GeneratedFlashcard("zastosowanie", "application, use")
  ]

  /** The English-to-Polish cards offered for any other text. */
  const EnglishTemplates: seq<GeneratedFlashcard> := [
    GeneratedFlashcard("nevertheless", "mimo to, jednak"),
    GeneratedFlashcard("furthermore", "ponadto, co więcej"),
    GeneratedFlashcard("to accomplish", "osiągnąć, zrealizować"),
    GeneratedFlashcard("to enhance", "zwiększyć, ulepszyć"),
    GeneratedFlashcard("essential", "niezbędny, kluczowy"),
    GeneratedFlashcard("approach", "podejście, sposób"),
    GeneratedFlashcard("therefore", "dlatego, zatem"),
    GeneratedFlashcard("significant", "znaczący, istotny"),
    GeneratedFlashcard("opportunity", "okazja, możliwość"),
    GeneratedFlashcard("to implement", "wdrożyć, wprowadzić")
  ]

  function Templates(isPolish: bool): seq<GeneratedFlashcard> {
    if isPolish then PolishTemplates else EnglishTemplates
  }

  const PolishChars: seq<char> := ['ą', 'ć', 'ę', 'ł', 'ń', 'ó', 'ś', 'ź', 'ż']
  const PolishWords: seq<string> := ["jest", "być", "może", "można", "przez", "oraz", "także", "który"]

  /**
   * The text counts as Polish when its lower-cased form contains one of the diacritics or one of
   * the common words anywhere, also inside a longer word.
   */
  predicate LooksPolish(text: string) {
    (exists c | c in PolishChars :: Contains(Lower(text), [c]))
    || (exists w | w in PolishWords :: Contains(Lower(text), w))
  }

  /** detectPolish: the diacritics first, then the words, returning as soon as one is found. */
  method DetectPolish(text: string) returns (isPolish: bool)
    ensures isPolish == LooksPolish(text)
  {
    var lowerText := Lower(text);
    var i := 0;
    while i < |PolishChars|
      invariant 0 <= i <= |PolishChars|
      invariant forall k | 0 <= k < i :: !Contains(lowerText, [PolishChars[k]])
    {
      if Contains(lowerText, [PolishChars[i]]) {
        return true;
      }
      i := i + 1;
    }
    var j := 0;
    while j < |PolishWords|
      invariant 0 <= j <= |PolishWords|
      invariant forall k | 0 <= k < j :: !Contains(lowerText, PolishWords[k])
    {
      if Contains(lowerText, PolishWords[j]) {
        return true;
      }
      j := j + 1;
    }
    return false;
  }

  /**
   * generate: SuggestedCount(wordCount) cards from the chosen list, in the order of some shuffle of
   * it, so all different.
   */
  method Generate(sourceText: string, wordCount: nat) returns (flashcards: seq<GeneratedFlashcard>)
    ensures |flashcards| == SuggestedCount(wordCount)
    ensures Distinct(flashcards)
    ensures forall f | f in flashcards :: f in Templates(LooksPolish(sourceText))
    ensures exists shuffled: seq<GeneratedFlashcard> | multiset(shuffled) == multiset(Templates(LooksPolish(sourceText))) ::
              flashcards == shuffled[..SuggestedCount(wordCount)]
  {
    var flashcardCount := SuggestedCount(wordCount);
    var isPolish := DetectPolish(sourceText);
    var templates := if isPolish then PolishTemplates else EnglishTemplates;
    TemplatesAreDistinct();
    assert Distinct(templates);
    var shuffled :| multiset(shuffled) == multiset(templates);
    assert |shuffled| == |multiset(templates)| == 10;
    flashcards := Select(templates, shuffled, flashcardCount);
  }

  /** The loop over array_slice($templates, 0, $count) after the shuffle, for a list without repeats. */
  method Select(templates: seq<GeneratedFlashcard>, shuffled: seq<GeneratedFlashcard>, count: nat)
    returns (flashcards: seq<GeneratedFlashcard>)
    requires Distinct(templates) && multiset(shuffled) == multiset(templates) && count <= |shuffled|
    ensures flashcards == shuffled[..count]
    ensures Distinct(flashcards) && forall f | f in flashcards :: f in templates
  {
    PermutationKeepsDistinct(templates, shuffled);
    var selected := SliceFromStart(shuffled, count);
    PrefixOfDistinct(shuffled, count);
    flashcards := [];
    var i := 0;
    while i < |selected|
      invariant 0 <= i <= |selected|
      invariant flashcards == selected[..i]
    {
      var template := selected[i];
      flashcards := flashcards + [GeneratedFlashcard(template.question, template.answer)];
      i := i + 1;
    }
    assert selected[..i] == selected;
    forall f | f in flashcards ensures f in templates {
      assert f in multiset(shuffled);
    }
  }

  /** Both lists hold ten different cards. */
  lemma TemplatesAreDistinct()
    ensures |PolishTemplates| == 10 && Distinct(PolishTemplates)
    ensures |EnglishTemplates| == 10 && Distinct(EnglishTemplates)
  {
  }

  // ---------------------------------------------------------------- detectPolish

  /** Lower-casing works character by character, so it distributes over concatenation. */
  lemma LowerConcat(a: string, b: string)
    ensures Lower(a + b) == Lower(a) + Lower(b)
  {
  }

  /** A listed word inside any text, in any mix of capitals the fold knows, makes it Polish. */
  lemma PolishWordAnywhere(before: string, word: string, after: string)
    requires Lower(word) in PolishWords
    ensures LooksPolish(before + word + after)
  {
    var w := Lower(word);
    LowerConcat(before + word, after);
    LowerConcat(before, word);
    var lower := Lower(before + word + after);
    assert lower == Lower(before) + w + Lower(after);
    assert lower[|before|..|before| + |w|] == w;
    assert OccursAt(lower, w, |before|);
  }

  lemma PolishExamples(before: string, after: string)
    ensures LooksPolish(before + "JEST" + after)
    ensures LooksPolish(before + "Oraz" + after)
  {
    assert Lower("JEST") == "jest";
    assert Lower("Oraz") == "oraz";
    PolishWordAnywhere(before, "JEST", after);
    PolishWordAnywhere(before, "Oraz", after);
  }

  /** A needle with a character the text lacks does not occur in it. */
  lemma AbsentCharacter(hay: string, needle: string, k: nat)
    requires k < |needle| && needle[k] !in hay
    ensures !Contains(hay, needle)
  {
  }

  /** Text in ASCII shorter than four characters holds no diacritic and no listed word. */
  lemma ShortAsciiIsNotPolish(text: string)
    requires |text| < 4 && forall k | 0 <= k < |text| :: text[k] as int < 0x80
    ensures !LooksPolish(text)
  {
    var lower := Lower(text);
    assert forall k | 0 <= k < |lower| :: lower[k] as int < 0x80;
    forall c | c in PolishChars ensures !Contains(lower, [c]) {
      assert c as int >= 0x80;
      AbsentCharacter(lower, [c], 0);
    }
    forall w | w in PolishWords ensures !Contains(lower, w) {
      if |w| < 4 {
        assert w == "być";
        assert w[2] as int >= 0x80;
        AbsentCharacter(lower, w, 2);
      }
    }
  }

  // ---------------------------------------------------------------- extractFirstWords / extractKeywords

  /** extractFirstWords: the first `count` space-separated words, joined by single spaces. */
  function ExtractFirstWords(text: string, count: int): (r: string)
    ensures 0 <= count ==> r <= text
    ensures 0 <= count ==> r == Implode(" ", Explode(text)[..Min(count, |Explode(text)|)])
  {
    var words := Explode(text);
    ImplodedPrefix(text, if count < 0 then 0 else count);
    Implode(" ", SliceFromStart(words, Min(count, |words|)))
  }

  /** array_filter with strlen($w) > 4. */
  function LongWords(words: seq<string>): (r: seq<string>)
    ensures |r| <= |words|
    ensures forall w | w in r :: w in words && Utf8Length(w) > 4
    ensures forall w | w in words && Utf8Length(w) > 4 :: w in r
  {
    if |words| == 0 then []
    else if Utf8Length(words[0]) > 4 then [words[0]] + LongWords(words[1..])
    else LongWords(words[1..])
  }

  /**
   * array_filter keeps order and repeats: the long words of two lists one after the other are the
   * long words of the first, then those of the second. With LongWordsOfOne this determines LongWords.
   */
  lemma {:induction false} LongWordsOfConcat(a: seq<string>, b: seq<string>)
    ensures LongWords(a + b) == LongWords(a) + LongWords(b)
  {
    if |a| > 0 {
      assert (a + b)[1..] == a[1..] + b;
      LongWordsOfConcat(a[1..], b);
    } else {
      assert a + b == b;
    }
  }

  /** A single word is kept exactly when it is longer than four bytes. */
  lemma LongWordsOfOne(w: string)
    ensures LongWords([w]) == if Utf8Length(w) > 4 then [w] else []
  {
    assert [w][1..] == [];
  }

  /** The words extractKeywords joins. */
  function Keywords(text: string, count: int): seq<string> {
    var words := Explode(text);
    var keywords := SliceFromStart(words, Min(count * 3, |words|));
    SliceFromStart(LongWords(keywords), count)
  }

  /** extractKeywords: the keywords joined by ", ". */
  function ExtractKeywords(text: string, count: int): string {
    Implode(", ", Keywords(text, count))
  }

  /**
   * For a non-negative count: exactly the first min(count, n) of the n long words among the first
   * 3 * count words, in their order; so at most `count` keywords, each longer than four bytes.
   */
  lemma KeywordsProperties(text: string, count: int)
    requires 0 <= count
    ensures var ks, window := Keywords(text, count), Explode(text)[..Min(3 * count, |Explode(text)|)];
            && ks <= LongWords(window)
            && |ks| == Min(count, |LongWords(window)|)
            && (forall w | w in ks :: Utf8Length(w) > 4 && w in window)
            && (|LongWords(window)| <= count ==> ks == LongWords(window))
  {
    var words := Explode(text);
    var window := words[..Min(3 * count, |words|)];
    assert SliceFromStart(words, Min(count * 3, |words|)) == window;
    var long := LongWords(window);
    assert forall w | w in long[..Min(count, |long|)] :: w in long;
    assert long[..|long|] == long;
  }
}
