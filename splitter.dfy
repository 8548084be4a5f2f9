/** The syllable splitter of the page component: `isVowel` and `splitWord`.

    `splitWord` scans the lower-cased word once. It closes a syllable right after a vowel when
    that vowel is followed by exactly one consonant and then a vowel, or when it is the last
    letter or is followed by another vowel. Whatever is left after the scan is glued onto the
    last syllable, or becomes the only one if none was closed.

    The specification of the scan, `Syllabify`, names the places where a syllable is closed
    (`CutEnds`), cuts the word there, and moves the last cut to the end of the word. */
module Splitter {
  import opened JsString

  /** The fixed vowel set of the page, in lower case. */
  const VOWELS: string := "аеёиоуыэюя"

  /** `isVowel`: membership of the lower-cased character in VOWELS. */
  predicate IsVowel(c: char) {
    LowerChar(c) in VOWELS
  }

  /** The vowels are the ten letters of VOWELS, in lower or upper case, and nothing else. */
  lemma IsVowelExactly(c: char)
    ensures IsVowel(c) <==> c in "аеёиоуыэюя" || c in "АЕЁИОУЫЭЮЯ"
  {
  }

  lemma IsVowelIgnoresCase(c: char)
    ensures IsVowel(LowerChar(c)) == IsVowel(c)
  {
    LowerCharIdempotent(c);
  }

  /** True when the scan closes a syllable right after letter `i` of the lower-cased word `l`. */
  predicate ClosesAfter(l: string, i: nat)
    requires i < |l|
  {
    IsVowel(l[i]) &&
    (  // one consonant, then a vowel
       (i + 1 < |l| && !IsVowel(l[i + 1]) && i + 2 < |l| && IsVowel(l[i + 2]))
       // the last letter, or a vowel next
    || (i + 1 >= |l| || IsVowel(l[i + 1])))
  }

  /** `e` lists strictly increasing end positions in 1..n. */
  predicate Ascending(e: seq<nat>, n: nat)
    decreases |e|
  {
    e == [] || (0 < e[|e| - 1] <= n && Ascending(e[..|e| - 1], e[|e| - 1] - 1))
  }

  lemma AscendingWeaken(e: seq<nat>, n: nat, m: nat)
    requires Ascending(e, n) && n <= m
    ensures Ascending(e, m)
  {
  }

  function LastEnd(e: seq<nat>): nat {
    if e == [] then 0 else e[|e| - 1]
  }

  /** The end positions (exclusive) of the syllables the scan closes within the first n letters. */
  function CutEnds(l: string, n: nat): (e: seq<nat>)
    requires n <= |l|
    ensures Ascending(e, n) && LastEnd(e) <= n
  {
    if n == 0 then []
    else
      var e := CutEnds(l, n - 1);
      assert (e + [n])[..|e|] == e && e + [] == e;
      AscendingWeaken(e, n - 1, n);
      e + (if ClosesAfter(l, n - 1) then [n] else [])
  }

  /** `l[a..b]`, or nothing when the bounds are out of order (which Ascending ends rule out). */
  function Slice(l: string, a: nat, b: nat): string {
    if a <= b <= |l| then l[a..b] else []
  }

  /** The slices of `l` between consecutive end positions, starting at position 0. */
  function Pieces(l: string, e: seq<nat>): seq<string>
    decreases |e|
  {
    if e == [] then []
    else
      var init := e[..|e| - 1];
      Pieces(l, init) + [Slice(l, LastEnd(init), e[|e| - 1])]
  }

  /** Where piece k starts. */
  function StartOf(e: seq<nat>, k: nat): nat
    requires k < |e|
  {
    if k == 0 then 0 else e[k - 1]
  }

  /** Where the syllables of `l` end: after each closing vowel, except that the last syllable
      runs to the end of the word, taking the leftover letters with it. A word in which nothing
      is closed is one syllable; the empty word has none. */
  function SyllableEnds(l: string): (g: seq<nat>)
    ensures Ascending(g, |l|)
  {
    GlueEnds(l, CutEnds(l, |l|))
  }

  /** The cut ends e with the last one moved to the end of the word (or the end of the word
      alone, when nothing was cut in a non-empty word). */
  function GlueEnds(l: string, e: seq<nat>): (g: seq<nat>)
    requires Ascending(e, |l|)
    ensures Ascending(g, |l|)
  {
    if e == [] then (if l == [] then [] else [|l|])
    else
      var init := e[..|e| - 1];
      assert Ascending(init, e[|e| - 1] - 1);
      assert (init + [|l|])[..|init|] == init;
      init + [|l|]
  }

  /** What `splitWord` returns for the lower-cased word `l`. */
  function Syllabify(l: string): seq<string> {
    Pieces(l, SyllableEnds(l))
  }

  /** What `splitWord(word)` returns. */
  function SyllablesOf(word: string): seq<string> {
    Syllabify(Lower(word))
  }

  /** Closing one more syllable appends one piece. */
  lemma PiecesSnoc(l: string, e: seq<nat>, n: nat)
    requires Ascending(e, |l|) && LastEnd(e) < n <= |l|
    ensures Ascending(e + [n], |l|)
    ensures Pieces(l, e + [n]) == Pieces(l, e) + [l[LastEnd(e)..n]]
  {
    assert (e + [n])[..|e|] == e;
  }

  /** One step of the scan: letter i joins the open syllable, which is then closed if ClosesAfter says so. */
  lemma ScanStep(l: string, i: nat, syllables: seq<string>, current: string)
    requires i < |l|
    requires syllables == Pieces(l, CutEnds(l, i)) && current == l[LastEnd(CutEnds(l, i))..i]
    ensures ClosesAfter(l, i) ==>
      syllables + [current + [l[i]]] == Pieces(l, CutEnds(l, i + 1)) &&
      "" == l[LastEnd(CutEnds(l, i + 1))..i + 1]
    ensures !ClosesAfter(l, i) ==>
      syllables == Pieces(l, CutEnds(l, i + 1)) &&
      current + [l[i]] == l[LastEnd(CutEnds(l, i + 1))..i + 1]
  {
    var e := CutEnds(l, i);
    assert current + [l[i]] == l[LastEnd(e)..i + 1];
    if ClosesAfter(l, i) {
      assert CutEnds(l, i + 1) == e + [i + 1];
      PiecesSnoc(l, e, i + 1);
    } else {
      assert CutEnds(l, i + 1) == e + [] == e;
    }
  }

  /** After the scan, when the word ends where the last syllable was closed. */
  lemma GlueNothing(l: string, e: seq<nat>)
    requires Ascending(e, |l|) && LastEnd(e) == |l|
    ensures Pieces(l, GlueEnds(l, e)) == Pieces(l, e)
  {
    if e != [] {
      assert e[..|e| - 1] + [LastEnd(e)] == e;
    }
  }

  lemma SliceThenRest(l: string, a: nat, b: nat)
    requires a <= b <= |l|
    ensures Slice(l, a, b) + l[b..] == Slice(l, a, |l|)
  {
  }

  /** Appending to the last element of a sequence, as `syllables[syllables.length - 1] += current` does. */
  lemma AppendToLast(p: seq<string>, rest: string)
    requires p != []
    ensures p[|p| - 1 := p[|p| - 1] + rest] == p[..|p| - 1] + [p[|p| - 1] + rest]
  {
  }

  /** After the scan, when no syllable was closed: the whole word is the only piece. */
  lemma GlueWhole(l: string)
    requires l != []
    ensures Pieces(l, GlueEnds(l, [])) == [l]
  {
    assert GlueEnds(l, []) == [|l|];
    assert [|l|][..0] == [];
    assert Slice(l, 0, |l|) == l;
  }

  /** After the scan, when letters are left over: they are glued onto the last piece. */
  lemma GlueLeftover(l: string, e: seq<nat>)
    requires Ascending(e, |l|) && e != [] && LastEnd(e) < |l|
    ensures var p := Pieces(l, e);
      |p| == |e| && Pieces(l, GlueEnds(l, e)) == p[..|p| - 1] + [p[|p| - 1] + l[LastEnd(e)..]]
  {
    var init := e[..|e| - 1];
    var a, b := LastEnd(init), LastEnd(e);
    assert init + [b] == e;
    assert Ascending(init, b - 1);
    AscendingWeaken(init, b - 1, |l|);
    PieceCount(l, e);
    PieceCount(l, init);
    PiecesSnoc(l, init, b);
    PiecesSnoc(l, init, |l|);
    assert GlueEnds(l, e) == init + [|l|];
    SliceThenRest(l, a, b);
    var p := Pieces(l, e);
    assert p[..|p| - 1] == Pieces(l, init);
  }

  lemma {:induction false} PieceCount(l: string, e: seq<nat>)
    ensures |Pieces(l, e)| == |e|
    decreases |e|
  {
    if e != [] {
      PieceCount(l, e[..|e| - 1]);
    }
  }

  /** `splitWord`, as the loop the source runs. */
  method SplitWord(word: string) returns (syllables: seq<string>)
    ensures syllables == SyllablesOf(word)
  {
    var letters := Lower(word);
    syllables := [];
    var current := "";
    for i := 0 to |letters|
      invariant syllables == Pieces(letters, CutEnds(letters, i))
      invariant current == letters[LastEnd(CutEnds(letters, i))..i]
    {
      ScanStep(letters, i, syllables, current);
      current := current + [letters[i]];
      // `next` and `afterNext` are undefined past the end of the word
      if IsVowel(letters[i]) {
        if i + 1 < |letters| && !IsVowel(letters[i + 1]) && i + 2 < |letters| && IsVowel(letters[i + 2]) {
          syllables := syllables + [current];
          current := "";
        } else if i + 1 >= |letters| || IsVowel(letters[i + 1]) {
          syllables := syllables + [current];
          current := "";
        }
      }
    }
    ghost var e := CutEnds(letters, |letters|);
    assert current == letters[LastEnd(e)..];
    if current != "" {
      PieceCount(letters, e);
      if |syllables| > 0 {
        GlueLeftover(letters, e);
        AppendToLast(syllables, current);
        syllables := syllables[|syllables| - 1 := syllables[|syllables| - 1] + current];
      } else {
        GlueWhole(letters);
        syllables := syllables + [current];
      }
    } else {
      GlueNothing(letters, e);
    }
  }
}
