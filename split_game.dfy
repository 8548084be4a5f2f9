/** The Split game: the player types the current word of SPLIT_WORDS split into syllables with
    hyphens, and the answer is compared with what `splitWord` makes of the word. */
module SplitGame {
  import opened JsString
  import opened Splitter
  import opened SyllableProperties
  import opened SplitTraces

  /** The words the game cycles through. */
  const SPLIT_WORDS: seq<string> := ["ЗИМА", "РЕБЯТА", "ШКОЛА", "ОБЛАКО", "ПЧЕЛА", "КАПУСТА"]

  /** The expected answer `correct`: the syllables of the word joined by hyphens, in upper case. */
  function Answer(word: string): string {
    Upper(Join(SyllablesOf(word), "-"))
  }

  /** What the typed input is compared with: trimmed and upper-cased. */
  function Normalize(input: string): string {
    Upper(Trim(input))
  }

  /** The state of `result`: null until the answer is checked. */
  datatype Verdict = Unchecked | Correct | Wrong

  class Game {
    var idx: nat
    var input: string
    var result: Verdict
    var score: nat

    ghost predicate Valid()
      reads this
    {
      idx < |SPLIT_WORDS|
    }

    /** The initial state of the component. */
    constructor()
      ensures Valid()
      ensures idx == 0 && input == "" && result == Unchecked && score == 0
    {
      idx := 0;
      input := "";
      result := Unchecked;
      score := 0;
    }

    /** The word on screen. */
    function Word(): string
      reads this
      requires Valid()
    {
      SPLIT_WORDS[idx]
    }

    /** `correct`, computed by running the splitter on the current word. */
    method Expected() returns (answer: string)
      requires Valid()
      ensures answer == Answer(Word())
    {
      var syllables := SplitWord(SPLIT_WORDS[idx]);
      answer := Upper(Join(syllables, "-"));
    }

    /** `check`: the verdict, and one more point for a right answer. */
    method Check()
      requires Valid()
      modifies this
      ensures Valid() && idx == old(idx) && input == old(input)
      ensures Normalize(old(input)) == Answer(old(Word())) ==> result == Correct && score == old(score) + 1
      ensures Normalize(old(input)) != Answer(old(Word())) ==> result == Wrong && score == old(score)
    {
      var correct := Expected();
      var norm := Upper(Trim(input));
      if norm == correct {
        result := Correct;
        score := score + 1;
      } else {
        result := Wrong;
      }
    }

    /** `next`: the following word, wrapping around, with the input and the verdict cleared. */
    method Next()
      requires Valid()
      modifies this
      ensures Valid()
      ensures idx == (old(idx) + 1) % |SPLIT_WORDS| && input == "" && result == Unchecked
      ensures score == old(score)
    {
      idx := (idx + 1) % |SPLIT_WORDS|;
      input := "";
      result := Unchecked;
    }

    /** `onChange` of the input box: the text is stored upper-cased and the verdict cleared. */
    method Type(value: string)
      requires Valid()
      modifies this
      ensures Valid() && idx == old(idx) && score == old(score)
      ensures input == Upper(value) && result == Unchecked
    {
      input := Upper(value);
      result := Unchecked;
    }

    /** `onKeyDown` of the input box: Enter checks the answer unless it has been checked already. */
    method KeyDown(key: string)
      requires Valid()
      modifies this
      ensures Valid() && idx == old(idx) && input == old(input)
      ensures key == "Enter" && old(result) == Unchecked ==>
        (Normalize(old(input)) == Answer(old(Word())) ==> result == Correct && score == old(score) + 1) &&
        (Normalize(old(input)) != Answer(old(Word())) ==> result == Wrong && score == old(score))
      ensures !(key == "Enter" && old(result) == Unchecked) ==> result == old(result) && score == old(score)
    {
      if key == "Enter" && result == Unchecked {
        Check();
      }
    }
  }

  /** The expected answer is the word itself with hyphens between its syllables. */
  lemma AnswerSpellsWord(word: string)
    requires Upper(word) == word && '-' !in word
    ensures Without(Answer(word), '-') == word
  {
    var syllables := SyllablesOf(word);
    NoHyphenLower(word);
    forall k | 0 <= k < |syllables| ensures '-' !in syllables[k] {
      SyllableIsSlice(word, k);
    }
    JoinThenRemoveSeparator(syllables, '-');
    SplitRoundTrip(word);
    WithoutHyphenUpper(Join(syllables, "-"));
    UpperOfLowerOfUpper(word);
  }

  lemma SyllableIsSlice(word: string, k: nat)
    requires '-' !in Lower(word) && k < |SyllablesOf(word)|
    ensures '-' !in SyllablesOf(word)[k]
  {
    var l := Lower(word);
    SyllableAt(l, k);
    var g := SyllableEnds(l);
    var s := SyllablesOf(word)[k];
    forall i | 0 <= i < |s| ensures s[i] != '-' {
      assert s[i] == l[StartOf(g, k) + i];
      assert l[StartOf(g, k) + i] in l;
    }
  }

  /** The expected answer is accepted however it is cased and with any white space around it. */
  lemma AnswerAccepted(word: string, typed: string, pre: string, post: string)
    requires AllWhiteSpace(pre) && AllWhiteSpace(post)
    requires Upper(typed) == Answer(word)
    requires typed == [] || (!IsWhiteSpace(typed[0]) && !IsWhiteSpace(typed[|typed| - 1]))
    ensures Normalize(pre + typed + post) == Answer(word)
  {
    TrimPadded(pre, typed, post);
  }

  lemma AnswerOf2(word: string, s1: string, s2: string, answer: string)
    requires SyllablesOf(word) == [s1, s2] && Upper(s1 + "-" + s2) == answer
    ensures Answer(word) == answer
  {
    assert [s1, s2][..1] == [s1];
    assert Join([s1, s2], "-") == s1 + "-" + s2;
  }

  lemma AnswerOf3(word: string, s1: string, s2: string, s3: string, answer: string)
    requires SyllablesOf(word) == [s1, s2, s3] && Upper(s1 + "-" + s2 + "-" + s3) == answer
    ensures Answer(word) == answer
  {
    assert [s1, s2, s3][..2] == [s1, s2] && [s1, s2][..1] == [s1];
    assert Join([s1, s2], "-") == s1 + "-" + s2;
    assert Join([s1, s2, s3], "-") == s1 + "-" + s2 + "-" + s3;
  }

  /** The answer expected for word 1 of the game. */
  lemma AnswerZima()
    ensures Answer(SPLIT_WORDS[0]) == "ЗИ-МА"
  {
    SplitZima();
    assert "зи" + "-" + "ма" == "зи-ма";
    assert Upper("зи-ма") == "ЗИ-МА";
    AnswerOf2(SPLIT_WORDS[0], "зи", "ма", "ЗИ-МА");
  }

  /** The answer expected for word 2 of the game. */
  lemma AnswerRebyata()
    ensures Answer(SPLIT_WORDS[1]) == "РЕ-БЯ-ТА"
  {
    SplitRebyata();
    assert "ре" + "-" + "бя" + "-" + "та" == "ре-бя-та";
    assert Upper("ре-бя-та") == "РЕ-БЯ-ТА";
    AnswerOf3(SPLIT_WORDS[1], "ре", "бя", "та", "РЕ-БЯ-ТА");
  }

  /** The answer expected for word 3 of the game. */
  lemma AnswerShkola()
    ensures Answer(SPLIT_WORDS[2]) == "ШКО-ЛА"
  {
    SplitShkola();
    assert "шко" + "-" + "ла" == "шко-ла";
    assert Upper("шко-ла") == "ШКО-ЛА";
    AnswerOf2(SPLIT_WORDS[2], "шко", "ла", "ШКО-ЛА");
  }

  /** The answer expected for word 4 of the game. */
  lemma AnswerOblako()
    ensures Answer(SPLIT_WORDS[3]) == "ОБЛА-КО"
  {
    SplitOblako();
    assert "обла" + "-" + "ко" == "обла-ко";
    assert Upper("обла-ко") == "ОБЛА-КО";
    AnswerOf2(SPLIT_WORDS[3], "обла", "ко", "ОБЛА-КО");
  }

  /** The answer expected for word 5 of the game. */
  lemma AnswerPchela()
    ensures Answer(SPLIT_WORDS[4]) == "ПЧЕ-ЛА"
  {
    SplitPchela();
    assert "пче" + "-" + "ла" == "пче-ла";
    assert Upper("пче-ла") == "ПЧЕ-ЛА";
    AnswerOf2(SPLIT_WORDS[4], "пче", "ла", "ПЧЕ-ЛА");
  }

  /** The answer expected for word 6 of the game. */
  lemma AnswerKapusta()
    ensures Answer(SPLIT_WORDS[5]) == "КА-ПУСТА"
  {
    SplitKapusta();
    assert "ка" + "-" + "пуста" == "ка-пуста";
    assert Upper("ка-пуста") == "КА-ПУСТА";
    AnswerOf2(SPLIT_WORDS[5], "ка", "пуста", "КА-ПУСТА");
  }
}
