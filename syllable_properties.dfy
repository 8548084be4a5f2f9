/** What `splitWord` guarantees about its result, proved about its specification `SyllablesOf`
    (which the loop in `Splitter.SplitWord` is proved to compute). */
module SyllableProperties {
  import opened JsString
  import opened Splitter

  predicate HasVowel(s: string) {
    exists i :: 0 <= i < |s| && IsVowel(s[i])
  }

  predicate EndsInVowel(s: string) {
    s != [] && IsVowel(s[|s| - 1])
  }

  /** The number of vowels in `s`, upper or lower case. */
  function VowelCount(s: string): nat
    decreases |s|
  {
    if s == [] then 0 else VowelCount(s[..|s| - 1]) + (if IsVowel(s[|s| - 1]) then 1 else 0)
  }

  // ---------------------------------------------------------------------------------------
  // Cut ends and pieces

  /** A position is a cut end exactly when the letter before it closes a syllable. */
  lemma {:induction false} CutEndsMembers(l: string, n: nat, p: nat)
    requires n <= |l|
    ensures p in CutEnds(l, n) <==> 1 <= p <= n && ClosesAfter(l, p - 1)
    decreases n
  {
    if n > 0 {
      CutEndsMembers(l, n - 1, p);
      if p in CutEnds(l, n - 1) {
        assert p <= n - 1 by { InAscending(CutEnds(l, n - 1), n - 1, p); }
      }
    }
  }

  lemma {:induction false} InAscending(e: seq<nat>, n: nat, p: nat)
    requires Ascending(e, n) && p in e
    ensures 0 < p <= n
    decreases |e|
  {
    var init := e[..|e| - 1];
    assert e == init + [e[|e| - 1]];
    if p != e[|e| - 1] {
      InAscending(init, e[|e| - 1] - 1, p);
    }
  }

  /** Piece k of `Pieces(l, e)` is the slice from the previous end to e[k]. */
  lemma {:induction false} PieceAt(l: string, e: seq<nat>, k: nat)
    requires Ascending(e, |l|) && k < |e|
    ensures |Pieces(l, e)| == |e|
    ensures StartOf(e, k) < e[k] <= |l|
    ensures Pieces(l, e)[k] == l[StartOf(e, k)..e[k]]
    decreases |e|
  {
    var init := e[..|e| - 1];
    var last := e[|e| - 1];
    assert Ascending(init, last - 1);
    AscendingWeaken(init, last - 1, |l|);
    PieceCount(l, init);
    if k < |e| - 1 {
      PieceAt(l, init, k);
      assert init[k] == e[k];
      assert k > 0 ==> init[k - 1] == e[k - 1];
    } else {
      LastEndBound(init, last - 1);
      assert k > 0 ==> init[|init| - 1] == e[k - 1];
    }
  }

  lemma LastEndBound(e: seq<nat>, n: nat)
    requires Ascending(e, n)
    ensures LastEnd(e) <= n
  {
  }

  /** The concatenation of the pieces is the word up to the last end. */
  lemma {:induction false} JoinPieces(l: string, e: seq<nat>)
    requires Ascending(e, |l|)
    ensures Join(Pieces(l, e), "") == l[..LastEnd(e)]
    decreases |e|
  {
    if e != [] {
      var init := e[..|e| - 1];
      var last := e[|e| - 1];
      assert Ascending(init, last - 1);
      AscendingWeaken(init, last - 1, |l|);
      LastEndBound(init, last - 1);
      JoinPieces(l, init);
      JoinSnoc(Pieces(l, init), l[LastEnd(init)..last]);
      assert l[..LastEnd(init)] + l[LastEnd(init)..last] == l[..last];
    }
  }

  lemma JoinSnoc(parts: seq<string>, x: string)
    ensures Join(parts + [x], "") == Join(parts, "") + x
  {
    assert (parts + [x])[..|parts|] == parts;
    if parts == [] {
      assert parts + [x] == [x];
    }
  }

  // ---------------------------------------------------------------------------------------
  // The syllable ends

  /** There are syllable ends exactly for a non-empty word, and the last is the end of the word;
      there are as many as cut ends, or one when nothing was cut. */
  lemma SyllableEndsCount(l: string)
    ensures var g := SyllableEnds(l); var e := CutEnds(l, |l|);
      (g == [] <==> l == []) && (g != [] ==> g[|g| - 1] == |l|) &&
      (e == [] ==> g == [] || g == [|l|]) && (e != [] ==> |g| == |e|)
  {
    GlueEndsCount(l, CutEnds(l, |l|));
  }

  lemma GlueEndsCount(l: string, e: seq<nat>)
    requires Ascending(e, |l|)
    ensures var g := GlueEnds(l, e);
      (g == [] <==> l == []) && (g != [] ==> g[|g| - 1] == |l|) &&
      (e == [] ==> g == [] || g == [|l|]) && (e != [] ==> |g| == |e|) &&
      (forall k :: 0 <= k < |g| - 1 ==> g[k] == e[k])
  {
  }

  /** Every syllable but the last ends where the scan closed one. */
  lemma SyllableEndIsCut(l: string, k: nat)
    requires k + 1 < |SyllableEnds(l)|
    ensures var g := SyllableEnds(l); 0 < g[k] <= |l| && ClosesAfter(l, g[k] - 1)
  {
    var e := CutEnds(l, |l|);
    GlueEndsCount(l, e);
    assert e[k] in e;
    CutEndsMembers(l, |l|, e[k]);
  }

  /** When something was cut, the last syllable contains the last closing vowel. */
  lemma LastSyllableHoldsLastCut(l: string)
    requires CutEnds(l, |l|) != []
    ensures var g := SyllableEnds(l); var e := CutEnds(l, |l|);
      g != [] && StartOf(g, |g| - 1) < e[|e| - 1] <= |l| && ClosesAfter(l, e[|e| - 1] - 1)
  {
    var g := SyllableEnds(l);
    var e := CutEnds(l, |l|);
    assert e[|e| - 1] in e;
    CutEndsMembers(l, |l|, e[|e| - 1]);
    InAscending(e, |l|, e[|e| - 1]);
    if |e| > 1 {
      PieceAt(l, e, |e| - 1);
      assert g[|g| - 2] == e[|e| - 2];
    }
  }

  /** Syllable k of a lower-cased word: where it starts and ends, and what it is. */
  lemma SyllableAt(l: string, k: nat)
    requires k < |Syllabify(l)|
    ensures |Syllabify(l)| == |SyllableEnds(l)|
    ensures var g := SyllableEnds(l);
      StartOf(g, k) < g[k] <= |l| && Syllabify(l)[k] == l[StartOf(g, k)..g[k]]
  {
    PieceCount(l, SyllableEnds(l));
    PieceAt(l, SyllableEnds(l), k);
  }

  // ---------------------------------------------------------------------------------------
  // Lower case

  lemma {:induction false} VowelCountLower(s: string)
    ensures VowelCount(Lower(s)) == VowelCount(s)
    decreases |s|
  {
    if s != [] {
      var init := s[..|s| - 1];
      assert Lower(s)[..|s| - 1] == Lower(init);
      VowelCountLower(init);
      IsVowelIgnoresCase(s[|s| - 1]);
    }
  }

  lemma {:induction false} CutsWithinVowels(l: string, n: nat)
    requires n <= |l|
    ensures |CutEnds(l, n)| <= VowelCount(l[..n])
    decreases n
  {
    if n > 0 {
      CutsWithinVowels(l, n - 1);
      assert l[..n][..n - 1] == l[..n - 1];
    }
  }

  lemma {:induction false} NoVowelNoCuts(l: string, n: nat)
    requires n <= |l|
    requires forall i :: 0 <= i < |l| ==> !IsVowel(l[i])
    ensures CutEnds(l, n) == []
    decreases n
  {
    if n > 0 {
      NoVowelNoCuts(l, n - 1);
    }
  }

  // ---------------------------------------------------------------------------------------
  // The properties of splitWord

  /** Gluing the syllables back together gives the lower-cased word: nothing is dropped,
      repeated or reordered. */
  lemma SplitRoundTrip(word: string)
    ensures Join(SyllablesOf(word), "") == Lower(word)
  {
    var l := Lower(word);
    var g := SyllableEnds(l);
    SyllableEndsCount(l);
    JoinPieces(l, g);
    assert l[..LastEnd(g)] == l;
  }

  /** The empty word has no syllables, any other word has at least one, and none is empty. */
  lemma SplitShape(word: string)
    ensures SyllablesOf(word) == [] <==> word == []
    ensures forall k :: 0 <= k < |SyllablesOf(word)| ==> SyllablesOf(word)[k] != []
  {
    var l := Lower(word);
    SyllableEndsCount(l);
    PieceCount(l, SyllableEnds(l));
    forall k | 0 <= k < |SyllablesOf(word)| ensures SyllablesOf(word)[k] != [] {
      SyllableAt(l, k);
    }
  }

  /** A word without vowels is one syllable: the whole word, lower-cased. */
  lemma SplitWithoutVowels(word: string)
    requires word != []
    requires forall i :: 0 <= i < |word| ==> !IsVowel(word[i])
    ensures SyllablesOf(word) == [Lower(word)]
  {
    var l := Lower(word);
    forall i | 0 <= i < |l| ensures !IsVowel(l[i]) {
      IsVowelIgnoresCase(word[i]);
    }
    NoVowelNoCuts(l, |l|);
    assert SyllableEnds(l) == [|l|];
    assert [|l|][..0] == [];
    assert Pieces(l, [|l|]) == Pieces(l, []) + [Slice(l, 0, |l|)];
    assert Slice(l, 0, |l|) == l;
  }

  /** A word with a vowel has at least one and at most as many syllables as vowels. */
  lemma SplitCountWithinVowels(word: string)
    requires HasVowel(word)
    ensures 1 <= |SyllablesOf(word)| <= VowelCount(word)
  {
    var l := Lower(word);
    SyllableEndsCount(l);
    PieceCount(l, SyllableEnds(l));
    CutsWithinVowels(l, |l|);
    VowelCountLower(word);
    assert l[..|l|] == l;
    var i :| 0 <= i < |word| && IsVowel(word[i]);
    VowelCountPositive(word, i);
  }

  /** In a word with a vowel, every syllable holds a vowel. */
  lemma SplitSyllablesHoldVowels(word: string)
    requires HasVowel(word)
    ensures forall k :: 0 <= k < |SyllablesOf(word)| ==> HasVowel(SyllablesOf(word)[k])
  {
    forall k | 0 <= k < |SyllablesOf(word)| ensures HasVowel(SyllablesOf(word)[k]) {
      SyllableHoldsVowel(word, k);
    }
  }

  lemma SyllableHoldsVowel(word: string, k: nat)
    requires HasVowel(word) && k < |SyllablesOf(word)|
    ensures HasVowel(SyllablesOf(word)[k])
  {
    var l := Lower(word);
    SyllableEndsCount(l);
    SyllableAt(l, k);
    if k < |SyllablesOf(word)| - 1 {
      InnerSyllableHoldsVowel(l, k);
    } else if CutEnds(l, |l|) != [] {
      LastSyllableHoldsVowel(l);
    } else {
      var i :| 0 <= i < |word| && IsVowel(word[i]);
      IsVowelIgnoresCase(word[i]);
      assert SyllablesOf(word)[k] == l;
      assert IsVowel(l[i]);
    }
  }

  lemma InnerSyllableHoldsVowel(l: string, k: nat)
    requires k + 1 < |Syllabify(l)|
    ensures EndsInVowel(Syllabify(l)[k]) && HasVowel(Syllabify(l)[k])
  {
    var g := SyllableEnds(l);
    SyllableAt(l, k);
    SyllableEndIsCut(l, k);
    var r := Syllabify(l)[k];
    assert r[|r| - 1] == l[g[k] - 1];
  }

  lemma LastSyllableHoldsVowel(l: string)
    requires CutEnds(l, |l|) != []
    ensures Syllabify(l) != [] && HasVowel(Syllabify(l)[|Syllabify(l)| - 1])
  {
    var g := SyllableEnds(l);
    var e := CutEnds(l, |l|);
    SyllableEndsCount(l);
    PieceCount(l, g);
    var k := |g| - 1;
    SyllableAt(l, k);
    LastSyllableHoldsLastCut(l);
    var a := StartOf(g, k);
    assert Syllabify(l)[k][e[|e| - 1] - 1 - a] == l[e[|e| - 1] - 1];
  }

  lemma {:induction false} VowelCountPositive(s: string, i: nat)
    requires i < |s| && IsVowel(s[i])
    ensures VowelCount(s) >= 1
    decreases |s|
  {
    if i < |s| - 1 {
      VowelCountPositive(s[..|s| - 1], i);
    }
  }

  /** Every syllable but the last is open (ends in a vowel). */
  lemma SplitInnerSyllablesOpen(word: string)
    ensures forall k :: 0 <= k < |SyllablesOf(word)| - 1 ==> EndsInVowel(SyllablesOf(word)[k])
  {
    var l := Lower(word);
    var r := SyllablesOf(word);
    forall k | 0 <= k < |r| - 1 ensures EndsInVowel(r[k]) {
      InnerSyllableHoldsVowel(l, k);
    }
  }

  /** The last syllable is open exactly when the word ends in a vowel, since trailing
      consonants join it. */
  lemma SplitLastSyllable(word: string)
    requires word != []
    ensures EndsInVowel(SyllablesOf(word)[|SyllablesOf(word)| - 1]) <==> EndsInVowel(word)
  {
    var l := Lower(word);
    var r := SyllablesOf(word);
    SyllableEndsCount(l);
    PieceCount(l, SyllableEnds(l));
    SyllableAt(l, |r| - 1);
    IsVowelIgnoresCase(word[|word| - 1]);
  }

  /** `splitWord` lower-cases first, so the case of the input does not matter, and every
      syllable is in lower case. */
  lemma SplitIgnoresCase(word: string)
    ensures SyllablesOf(Lower(word)) == SyllablesOf(word)
    ensures forall k :: 0 <= k < |SyllablesOf(word)| ==> Lower(SyllablesOf(word)[k]) == SyllablesOf(word)[k]
  {
    var l := Lower(word);
    LowerIdempotent(word);
    forall k | 0 <= k < |SyllablesOf(word)| ensures Lower(SyllablesOf(word)[k]) == SyllablesOf(word)[k] {
      SyllableAt(l, k);
      var g := SyllableEnds(l);
      LowerSlice(l, StartOf(g, k), g[k]);
      LowerIdempotent(word);
    }
  }
}
