/** What `splitWord` returns for the six words of the Split game and for six words used on the
    page, worked through letter by letter. The syllable ends depend only
    on which letters are vowels, so they are worked out once per vowel pattern. */
module SplitTraces {
  import opened JsString
  import opened Splitter

  /** One step of the scan that closes a syllable after letter n. */
  lemma CutYes(l: string, n: nat, e: seq<nat>)
    requires n < |l| && CutEnds(l, n) == e && ClosesAfter(l, n)
    ensures CutEnds(l, n + 1) == e + [n + 1]
  {
  }

  /** One step of the scan that closes nothing. */
  lemma CutNo(l: string, n: nat, e: seq<nat>)
    requires n < |l| && CutEnds(l, n) == e && !ClosesAfter(l, n)
    ensures CutEnds(l, n + 1) == e
  {
    assert e + [] == e;
  }

  lemma SplitAt1(w: string, l: string, s1: string)
    requires Lower(w) == l && SyllableEnds(l) == [|l|]
    requires |s1| == |l| && forall i :: 0 <= i < |l| ==> l[i] == s1[i]
    ensures SyllablesOf(w) == [s1]
  {
    assert SyllablesOf(w) == Pieces(l, [|l|]);
    assert [|l|][..0] == [];
    assert l == s1;
    assert Slice(l, 0, |l|) == s1;
  }

  lemma SplitAt2(w: string, l: string, a: nat, s1: string, s2: string)
    requires Lower(w) == l && 0 < a < |l| && SyllableEnds(l) == [a, |l|]
    requires l[..a] == s1 && l[a..] == s2
    ensures SyllablesOf(w) == [s1, s2]
  {
    var e := [a, |l|];
    assert SyllablesOf(w) == Pieces(l, e);
    assert e[..1] == [a] && [a][..0] == [];
    assert Slice(l, 0, a) == s1 && Slice(l, a, |l|) == s2;
    assert Pieces(l, [a]) == [s1];
    assert Pieces(l, e) == [s1] + [s2];
  }

  lemma SplitAt3(w: string, l: string, a: nat, b: nat, s1: string, s2: string, s3: string)
    requires Lower(w) == l && 0 < a < b < |l| && SyllableEnds(l) == [a, b, |l|]
    requires l[..a] == s1 && l[a..b] == s2 && l[b..] == s3
    ensures SyllablesOf(w) == [s1, s2, s3]
  {
    var e := [a, b, |l|];
    assert SyllablesOf(w) == Pieces(l, e);
    assert e[..2] == [a, b] && [a, b][..1] == [a] && [a][..0] == [];
    assert Slice(l, 0, a) == s1 && Slice(l, a, b) == s2 && Slice(l, b, |l|) == s3;
    assert Pieces(l, [a]) == [s1];
    assert Pieces(l, [a, b]) == [s1] + [s2];
    assert Pieces(l, e) == [s1, s2] + [s3];
  }

  /** The letters of the words below, vowels first. Each fact is a lemma of its own so that a
      word's proof brings in only the letters it uses: asserting several `IsVowel` facts about
      literal letters in one proof makes the solver's work grow far faster than their number. */
  lemma VowelA()
    ensures IsVowel('а')
  {
  }

  lemma VowelE()
    ensures IsVowel('е')
  {
  }

  lemma VowelI()
    ensures IsVowel('и')
  {
  }

  lemma VowelO()
    ensures IsVowel('о')
  {
  }

  lemma VowelU()
    ensures IsVowel('у')
  {
  }

  lemma VowelYa()
    ensures IsVowel('я')
  {
  }

  lemma VowelYo()
    ensures IsVowel('ё')
  {
  }

  lemma ConsonantB()
    ensures !IsVowel('б')
  {
  }

  lemma ConsonantV()
    ensures !IsVowel('в')
  {
  }

  lemma ConsonantD()
    ensures !IsVowel('д')
  {
  }

  lemma ConsonantZ()
    ensures !IsVowel('з')
  {
  }

  lemma ConsonantK()
    ensures !IsVowel('к')
  {
  }

  lemma ConsonantL()
    ensures !IsVowel('л')
  {
  }

  lemma ConsonantM()
    ensures !IsVowel('м')
  {
  }

  lemma ConsonantN()
    ensures !IsVowel('н')
  {
  }

  lemma ConsonantP()
    ensures !IsVowel('п')
  {
  }

  lemma ConsonantR()
    ensures !IsVowel('р')
  {
  }

  lemma ConsonantS()
    ensures !IsVowel('с')
  {
  }

  lemma ConsonantT()
    ensures !IsVowel('т')
  {
  }

  lemma ConsonantCh()
    ensures !IsVowel('ч')
  {
  }

  lemma ConsonantSh()
    ensures !IsVowel('ш')
  {
  }

  lemma ConsonantSoftSign()
    ensures !IsVowel('ь')
  {
  }

  /** The syllable ends of every 6-letter word with the vowel pattern CVCVCV (V a vowel, C any other letter). */
  lemma EndsCVCVCV(l: string)
    requires |l| == 6
    requires !IsVowel(l[0]) && IsVowel(l[1]) && !IsVowel(l[2]) && IsVowel(l[3]) && !IsVowel(l[4]) && IsVowel(l[5])
    ensures SyllableEnds(l) == [2, 4, |l|]
  {
    CutNo(l, 0, []);
    CutYes(l, 1, []);
    CutNo(l, 2, [2]);
    CutYes(l, 3, [2]);
    CutNo(l, 4, [2, 4]);
    CutYes(l, 5, [2, 4]);
    assert [2, 4, 6][..2] == [2, 4];
  }

  /** The syllable ends of every 5-letter word with the vowel pattern CVCCV (V a vowel, C any other letter). */
  lemma EndsCVCCV(l: string)
    requires |l| == 5
    requires !IsVowel(l[0]) && IsVowel(l[1]) && !IsVowel(l[2]) && !IsVowel(l[3]) && IsVowel(l[4])
    ensures SyllableEnds(l) == [|l|]
  {
    CutNo(l, 0, []);
    CutNo(l, 1, []);
    CutNo(l, 2, []);
    CutNo(l, 3, []);
    CutYes(l, 4, []);
    assert [5][..0] == [];
  }

  /** The syllable ends of every 3-letter word with the vowel pattern CVC (V a vowel, C any other letter). */
  lemma EndsCVC(l: string)
    requires |l| == 3
    requires !IsVowel(l[0]) && IsVowel(l[1]) && !IsVowel(l[2])
    ensures SyllableEnds(l) == [|l|]
  {
    CutNo(l, 0, []);
    CutNo(l, 1, []);
    CutNo(l, 2, []);
  }

  /** The syllable ends of every 8-letter word with the vowel pattern CVCCVCVC (V a vowel, C any other letter). */
  lemma EndsCVCCVCVC(l: string)
    requires |l| == 8
    requires !IsVowel(l[0]) && IsVowel(l[1]) && !IsVowel(l[2]) && !IsVowel(l[3]) && IsVowel(l[4]) && !IsVowel(l[5]) && IsVowel(l[6]) && !IsVowel(l[7])
    ensures SyllableEnds(l) == [|l|]
  {
    CutNo(l, 0, []);
    CutNo(l, 1, []);
    CutNo(l, 2, []);
    CutNo(l, 3, []);
    CutYes(l, 4, []);
    CutNo(l, 5, [5]);
    CutNo(l, 6, [5]);
    CutNo(l, 7, [5]);
    assert [5][..0] == [];
  }

  /** The syllable ends of every 8-letter word with the vowel pattern VCVCCCVC (V a vowel, C any other letter). */
  lemma EndsVCVCCCVC(l: string)
    requires |l| == 8
    requires IsVowel(l[0]) && !IsVowel(l[1]) && IsVowel(l[2]) && !IsVowel(l[3]) && !IsVowel(l[4]) && !IsVowel(l[5]) && IsVowel(l[6]) && !IsVowel(l[7])
    ensures SyllableEnds(l) == [|l|]
  {
    CutYes(l, 0, []);
    CutNo(l, 1, [1]);
    CutNo(l, 2, [1]);
    CutNo(l, 3, [1]);
    CutNo(l, 4, [1]);
    CutNo(l, 5, [1]);
    CutNo(l, 6, [1]);
    CutNo(l, 7, [1]);
    assert [1][..0] == [];
  }

  /** The syllable ends of every 6-letter word with the vowel pattern CVCCVC (V a vowel, C any other letter). */
  lemma EndsCVCCVC(l: string)
    requires |l| == 6
    requires !IsVowel(l[0]) && IsVowel(l[1]) && !IsVowel(l[2]) && !IsVowel(l[3]) && IsVowel(l[4]) && !IsVowel(l[5])
    ensures SyllableEnds(l) == [|l|]
  {
    CutNo(l, 0, []);
    CutNo(l, 1, []);
    CutNo(l, 2, []);
    CutNo(l, 3, []);
    CutNo(l, 4, []);
    CutNo(l, 5, []);
  }

  /** The syllable ends of every 4-letter word with the vowel pattern CVCV (V a vowel, C any other letter). */
  lemma EndsCVCV(l: string)
    requires |l| == 4
    requires !IsVowel(l[0]) && IsVowel(l[1]) && !IsVowel(l[2]) && IsVowel(l[3])
    ensures SyllableEnds(l) == [2, |l|]
  {
    CutNo(l, 0, []);
    CutYes(l, 1, []);
    CutNo(l, 2, [2]);
    CutYes(l, 3, [2]);
    assert [2, 4][..1] == [2];
  }

  /** The syllable ends of every 5-letter word with the vowel pattern CCVCV (V a vowel, C any other letter). */
  lemma EndsCCVCV(l: string)
    requires |l| == 5
    requires !IsVowel(l[0]) && !IsVowel(l[1]) && IsVowel(l[2]) && !IsVowel(l[3]) && IsVowel(l[4])
    ensures SyllableEnds(l) == [3, |l|]
  {
    CutNo(l, 0, []);
    CutNo(l, 1, []);
    CutYes(l, 2, []);
    CutNo(l, 3, [3]);
    CutYes(l, 4, [3]);
    assert [3, 5][..1] == [3];
  }

  /** The syllable ends of every 6-letter word with the vowel pattern VCCVCV (V a vowel, C any other letter). */
  lemma EndsVCCVCV(l: string)
    requires |l| == 6
    requires IsVowel(l[0]) && !IsVowel(l[1]) && !IsVowel(l[2]) && IsVowel(l[3]) && !IsVowel(l[4]) && IsVowel(l[5])
    ensures SyllableEnds(l) == [4, |l|]
  {
    CutNo(l, 0, []);
    CutNo(l, 1, []);
    CutNo(l, 2, []);
    CutYes(l, 3, []);
    CutNo(l, 4, [4]);
    CutYes(l, 5, [4]);
    assert [4, 6][..1] == [4];
  }

  /** The syllable ends of every 7-letter word with the vowel pattern CVCVCCV (V a vowel, C any other letter). */
  lemma EndsCVCVCCV(l: string)
    requires |l| == 7
    requires !IsVowel(l[0]) && IsVowel(l[1]) && !IsVowel(l[2]) && IsVowel(l[3]) && !IsVowel(l[4]) && !IsVowel(l[5]) && IsVowel(l[6])
    ensures SyllableEnds(l) == [2, |l|]
  {
    CutNo(l, 0, []);
    CutYes(l, 1, []);
    CutNo(l, 2, [2]);
    CutNo(l, 3, [2]);
    CutNo(l, 4, [2]);
    CutNo(l, 5, [2]);
    CutYes(l, 6, [2]);
    assert [2, 7][..1] == [2];
  }

  lemma SplitKorova()
    ensures SyllablesOf("корова") == ["ко", "ро", "ва"]
  {
    SpelledKorova("корова");
  }

  lemma SpelledKorova(w: string)
    requires |w| == 6 && w[0] == 'к' && w[1] == 'о' && w[2] == 'р' && w[3] == 'о' && w[4] == 'в' && w[5] == 'а'
    ensures SyllablesOf(w) == ["ко", "ро", "ва"]
  {
    var l := Lower(w);
    assert l[0] == 'к' && l[1] == 'о' && l[2] == 'р' && l[3] == 'о' && l[4] == 'в' && l[5] == 'а';
    VowelA(); VowelO(); ConsonantV(); ConsonantK(); ConsonantR();
    EndsCVCVCV(l);
    assert l[..2] == "ко" && l[2..4] == "ро" && l[4..] == "ва";
    SplitAt3(w, l, 2, 4, "ко", "ро", "ва");
  }

  lemma SplitRepka()
    ensures SyllablesOf("репка") == ["репка"]
  {
    SpelledRepka("репка");
  }

  lemma SpelledRepka(w: string)
    requires |w| == 5 && w[0] == 'р' && w[1] == 'е' && w[2] == 'п' && w[3] == 'к' && w[4] == 'а'
    ensures SyllablesOf(w) == ["репка"]
  {
    var l := Lower(w);
    assert l[0] == 'р' && l[1] == 'е' && l[2] == 'п' && l[3] == 'к' && l[4] == 'а';
    VowelA(); VowelE(); ConsonantK(); ConsonantP(); ConsonantR();
    EndsCVCCV(l);
    assert |l| == 5;
    SplitAt1(w, l, "репка");
  }

  lemma SplitLyod()
    ensures SyllablesOf("лёд") == ["лёд"]
  {
    SpelledLyod("лёд");
  }

  lemma SpelledLyod(w: string)
    requires |w| == 3 && w[0] == 'л' && w[1] == 'ё' && w[2] == 'д'
    ensures SyllablesOf(w) == ["лёд"]
  {
    var l := Lower(w);
    assert l[0] == 'л' && l[1] == 'ё' && l[2] == 'д';
    VowelYo(); ConsonantD(); ConsonantL();
    EndsCVC(l);
    assert |l| == 3;
    SplitAt1(w, l, "лёд");
  }

  lemma SplitMandarin()
    ensures SyllablesOf("мандарин") == ["мандарин"]
  {
    SpelledMandarin("мандарин");
  }

  lemma SpelledMandarin(w: string)
    requires |w| == 8 && w[0] == 'м' && w[1] == 'а' && w[2] == 'н' && w[3] == 'д' && w[4] == 'а' && w[5] == 'р' && w[6] == 'и' && w[7] == 'н'
    ensures SyllablesOf(w) == ["мандарин"]
  {
    var l := Lower(w);
    assert l[0] == 'м' && l[1] == 'а' && l[2] == 'н' && l[3] == 'д' && l[4] == 'а' && l[5] == 'р' && l[6] == 'и' && l[7] == 'н';
    VowelA(); VowelI(); ConsonantD(); ConsonantM(); ConsonantN(); ConsonantR();
    EndsCVCCVCVC(l);
    assert |l| == 8;
    SplitAt1(w, l, "мандарин");
  }

  lemma SplitApelsin()
    ensures SyllablesOf("апельсин") == ["апельсин"]
  {
    SpelledApelsin("апельсин");
  }

  lemma SpelledApelsin(w: string)
    requires |w| == 8 && w[0] == 'а' && w[1] == 'п' && w[2] == 'е' && w[3] == 'л' && w[4] == 'ь' && w[5] == 'с' && w[6] == 'и' && w[7] == 'н'
    ensures SyllablesOf(w) == ["апельсин"]
  {
    var l := Lower(w);
    assert l[0] == 'а' && l[1] == 'п' && l[2] == 'е' && l[3] == 'л' && l[4] == 'ь' && l[5] == 'с' && l[6] == 'и' && l[7] == 'н';
    VowelA(); VowelE(); VowelI(); ConsonantL(); ConsonantN(); ConsonantP(); ConsonantS(); ConsonantSoftSign();
    EndsVCVCCCVC(l);
    assert |l| == 8;
    SplitAt1(w, l, "апельсин");
  }

  lemma SplitNochnik()
    ensures SyllablesOf("ночник") == ["ночник"]
  {
    SpelledNochnik("ночник");
  }

  lemma SpelledNochnik(w: string)
    requires |w| == 6 && w[0] == 'н' && w[1] == 'о' && w[2] == 'ч' && w[3] == 'н' && w[4] == 'и' && w[5] == 'к'
    ensures SyllablesOf(w) == ["ночник"]
  {
    var l := Lower(w);
    assert l[0] == 'н' && l[1] == 'о' && l[2] == 'ч' && l[3] == 'н' && l[4] == 'и' && l[5] == 'к';
    VowelI(); VowelO(); ConsonantK(); ConsonantN(); ConsonantCh();
    EndsCVCCVC(l);
    assert |l| == 6;
    SplitAt1(w, l, "ночник");
  }

  lemma SplitZima()
    ensures SyllablesOf("ЗИМА") == ["зи", "ма"]
  {
    SpelledZima("ЗИМА");
  }

  lemma SpelledZima(w: string)
    requires |w| == 4 && w[0] == 'З' && w[1] == 'И' && w[2] == 'М' && w[3] == 'А'
    ensures SyllablesOf(w) == ["зи", "ма"]
  {
    var l := Lower(w);
    assert l[0] == 'з' && l[1] == 'и' && l[2] == 'м' && l[3] == 'а';
    VowelA(); VowelI(); ConsonantZ(); ConsonantM();
    EndsCVCV(l);
    assert l[..2] == "зи" && l[2..] == "ма";
    SplitAt2(w, l, 2, "зи", "ма");
  }

  lemma SplitRebyata()
    ensures SyllablesOf("РЕБЯТА") == ["ре", "бя", "та"]
  {
    SpelledRebyata("РЕБЯТА");
  }

  lemma SpelledRebyata(w: string)
    requires |w| == 6 && w[0] == 'Р' && w[1] == 'Е' && w[2] == 'Б' && w[3] == 'Я' && w[4] == 'Т' && w[5] == 'А'
    ensures SyllablesOf(w) == ["ре", "бя", "та"]
  {
    var l := Lower(w);
    assert l[0] == 'р' && l[1] == 'е' && l[2] == 'б' && l[3] == 'я' && l[4] == 'т' && l[5] == 'а';
    VowelA(); VowelE(); VowelYa(); ConsonantB(); ConsonantR(); ConsonantT();
    EndsCVCVCV(l);
    assert l[..2] == "ре" && l[2..4] == "бя" && l[4..] == "та";
    SplitAt3(w, l, 2, 4, "ре", "бя", "та");
  }

  lemma SplitShkola()
    ensures SyllablesOf("ШКОЛА") == ["шко", "ла"]
  {
    SpelledShkola("ШКОЛА");
  }

  lemma SpelledShkola(w: string)
    requires |w| == 5 && w[0] == 'Ш' && w[1] == 'К' && w[2] == 'О' && w[3] == 'Л' && w[4] == 'А'
    ensures SyllablesOf(w) == ["шко", "ла"]
  {
    var l := Lower(w);
    assert l[0] == 'ш' && l[1] == 'к' && l[2] == 'о' && l[3] == 'л' && l[4] == 'а';
    VowelA(); VowelO(); ConsonantK(); ConsonantL(); ConsonantSh();
    EndsCCVCV(l);
    assert l[..3] == "шко" && l[3..] == "ла";
    SplitAt2(w, l, 3, "шко", "ла");
  }

  lemma SplitOblako()
    ensures SyllablesOf("ОБЛАКО") == ["обла", "ко"]
  {
    SpelledOblako("ОБЛАКО");
  }

  lemma SpelledOblako(w: string)
    requires |w| == 6 && w[0] == 'О' && w[1] == 'Б' && w[2] == 'Л' && w[3] == 'А' && w[4] == 'К' && w[5] == 'О'
    ensures SyllablesOf(w) == ["обла", "ко"]
  {
    var l := Lower(w);
    assert l[0] == 'о' && l[1] == 'б' && l[2] == 'л' && l[3] == 'а' && l[4] == 'к' && l[5] == 'о';
    VowelA(); VowelO(); ConsonantB(); ConsonantK(); ConsonantL();
    EndsVCCVCV(l);
    assert l[..4] == "обла" && l[4..] == "ко";
    SplitAt2(w, l, 4, "обла", "ко");
  }

  lemma SplitPchela()
    ensures SyllablesOf("ПЧЕЛА") == ["пче", "ла"]
  {
    SpelledPchela("ПЧЕЛА");
  }

  lemma SpelledPchela(w: string)
    requires |w| == 5 && w[0] == 'П' && w[1] == 'Ч' && w[2] == 'Е' && w[3] == 'Л' && w[4] == 'А'
    ensures SyllablesOf(w) == ["пче", "ла"]
  {
    var l := Lower(w);
    assert l[0] == 'п' && l[1] == 'ч' && l[2] == 'е' && l[3] == 'л' && l[4] == 'а';
    VowelA(); VowelE(); ConsonantL(); ConsonantP(); ConsonantCh();
    EndsCCVCV(l);
    assert l[..3] == "пче" && l[3..] == "ла";
    SplitAt2(w, l, 3, "пче", "ла");
  }

  lemma SplitKapusta()
    ensures SyllablesOf("КАПУСТА") == ["ка", "пуста"]
  {
    SpelledKapusta("КАПУСТА");
  }

  lemma SpelledKapusta(w: string)
    requires |w| == 7 && w[0] == 'К' && w[1] == 'А' && w[2] == 'П' && w[3] == 'У' && w[4] == 'С' && w[5] == 'Т' && w[6] == 'А'
    ensures SyllablesOf(w) == ["ка", "пуста"]
  {
    var l := Lower(w);
    assert l[0] == 'к' && l[1] == 'а' && l[2] == 'п' && l[3] == 'у' && l[4] == 'с' && l[5] == 'т' && l[6] == 'а';
    VowelA(); VowelU(); ConsonantK(); ConsonantP(); ConsonantS(); ConsonantT();
    EndsCVCVCCV(l);
    assert l[..2] == "ка" && l[2..] == "пуста";
    SplitAt2(w, l, 2, "ка", "пуста");
  }

}
