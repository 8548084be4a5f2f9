/** The few JavaScript string built-ins the syllable splitter and the Split game rely on:
    `toLowerCase`, `toUpperCase`, `trim`, and `Array.prototype.join` on arrays of strings.
    Case mapping covers the Latin letters A-Z and the basic Cyrillic block (U+0400-U+045F),
    one character to one character; every other character is left as it is. */
module JsString {

  /** `toLowerCase` of one character. */
  function LowerChar(c: char): char {
    if 'A' <= c <= 'Z' then (c as int + 0x20) as char
    else if 'А' <= c <= 'Я' then (c as int + 0x20) as char   // U+0410-U+042F
    else if 'Ѐ' <= c <= 'Џ' then (c as int + 0x50) as char   // U+0400-U+040F, Ё among them
    else c
  }

  /** `toUpperCase` of one character. */
  function UpperChar(c: char): char {
    if 'a' <= c <= 'z' then (c as int - 0x20) as char
    else if 'а' <= c <= 'я' then (c as int - 0x20) as char   // U+0430-U+044F
    else if 'ѐ' <= c <= 'џ' then (c as int - 0x50) as char   // U+0450-U+045F, ё among them
    else c
  }

  lemma LowerCharIdempotent(c: char)
    ensures LowerChar(LowerChar(c)) == LowerChar(c)
    ensures UpperChar(LowerChar(c)) == UpperChar(c)
    ensures UpperChar(UpperChar(c)) == UpperChar(c)
  {
  }

  function Lower(s: string): (r: string)
    ensures |r| == |s|
  {
    seq(|s|, i requires 0 <= i < |s| => LowerChar(s[i]))
  }

  function Upper(s: string): (r: string)
    ensures |r| == |s|
  {
    seq(|s|, i requires 0 <= i < |s| => UpperChar(s[i]))
  }

  /** A lower-cased string is its own lower case, and its upper case is that of the original. */
  lemma LowerIdempotent(s: string)
    ensures Lower(Lower(s)) == Lower(s)
    ensures Upper(Lower(s)) == Upper(s)
  {
    forall i | 0 <= i < |s|
      ensures Lower(Lower(s))[i] == Lower(s)[i] && Upper(Lower(s))[i] == Upper(s)[i]
    {
      LowerCharIdempotent(s[i]);
    }
  }

  lemma UpperIdempotent(s: string)
    ensures Upper(Upper(s)) == Upper(s)
  {
    forall i | 0 <= i < |s| ensures Upper(Upper(s))[i] == Upper(s)[i] {
      LowerCharIdempotent(s[i]);
    }
  }

  /** The upper case of an upper-case string's lower case is the string itself. */
  lemma {:induction false} UpperOfLowerOfUpper(s: string)
    requires Upper(s) == s
    ensures Upper(Lower(s)) == s
  {
    forall i | 0 <= i < |s| ensures Upper(Lower(s))[i] == s[i] {
      assert UpperChar(s[i]) == s[i] by { assert Upper(s)[i] == s[i]; }
    }
  }

  lemma LowerAppend(a: string, b: string)
    ensures Lower(a + b) == Lower(a) + Lower(b)
    ensures Upper(a + b) == Upper(a) + Upper(b)
  {
  }

  lemma LowerSlice(s: string, i: nat, j: nat)
    requires i <= j <= |s|
    ensures Lower(s)[i..j] == Lower(s[i..j])
  {
  }

  /** The characters `trim` removes: ECMAScript's WhiteSpace and LineTerminator. */
  predicate IsWhiteSpace(c: char) {
    c == '\t' || c == '\n' || c == '\U{000B}' || c == '\U{000C}' || c == '\r' || c == ' '
    || c == '\U{00A0}' || c == '\U{1680}' || ('\U{2000}' <= c <= '\U{200A}')
    || c == '\U{2028}' || c == '\U{2029}' || c == '\U{202F}' || c == '\U{205F}'
    || c == '\U{3000}' || c == '\U{FEFF}'
  }

  predicate AllWhiteSpace(s: string) {
    forall k :: 0 <= k < |s| ==> IsWhiteSpace(s[k])
  }

  /** `trimStart`: the longest suffix that does not start with white space. */
  function TrimStart(s: string): (r: string)
    ensures |r| <= |s| && r == s[|s| - |r|..]
    ensures AllWhiteSpace(s[..|s| - |r|])
    ensures r == [] || !IsWhiteSpace(r[0])
  {
    if s != [] && IsWhiteSpace(s[0]) then TrimStart(s[1..]) else s
  }

  /** `trimEnd`: the longest prefix that does not end with white space. */
  function TrimEnd(s: string): (r: string)
    ensures |r| <= |s| && r == s[..|r|]
    ensures AllWhiteSpace(s[|r|..])
    ensures r == [] || !IsWhiteSpace(r[|r| - 1])
  {
    if s != [] && IsWhiteSpace(s[|s| - 1]) then TrimEnd(s[..|s| - 1]) else s
  }

  /** `trim`: the input with its leading and trailing white space removed, and nothing else. */
  function Trim(s: string): (r: string)
    ensures exists i, j ::
      0 <= i <= j <= |s| && r == s[i..j] && AllWhiteSpace(s[..i]) && AllWhiteSpace(s[j..])
    ensures r == [] || (!IsWhiteSpace(r[0]) && !IsWhiteSpace(r[|r| - 1]))
  {
    var t := TrimStart(s);
    var r := TrimEnd(t);
    var i := |s| - |t|;
    assert r == s[i..i + |r|];
    assert s[i + |r|..] == t[|r|..];
    r
  }

  lemma {:induction false} TrimStartPadded(pre: string, y: string)
    requires AllWhiteSpace(pre) && (y == [] || !IsWhiteSpace(y[0]))
    ensures TrimStart(pre + y) == y
    decreases |pre|
  {
    if pre == [] {
      assert pre + y == y;
    } else {
      assert (pre + y)[0] == pre[0];
      assert (pre + y)[1..] == pre[1..] + y;
      TrimStartPadded(pre[1..], y);
    }
  }

  lemma {:induction false} TrimEndPadded(y: string, post: string)
    requires AllWhiteSpace(post) && (y == [] || !IsWhiteSpace(y[|y| - 1]))
    ensures TrimEnd(y + post) == y
    decreases |post|
  {
    if post == [] {
      assert y + post == y;
    } else {
      var s := y + post;
      assert s[|s| - 1] == post[|post| - 1];
      assert s[..|s| - 1] == y + post[..|post| - 1];
      TrimEndPadded(y, post[..|post| - 1]);
    }
  }

  /** White space added around a string that neither starts nor ends with white space is trimmed away again. */
  lemma {:induction false} TrimPadded(pre: string, x: string, post: string)
    requires AllWhiteSpace(pre) && AllWhiteSpace(post)
    requires x == [] || (!IsWhiteSpace(x[0]) && !IsWhiteSpace(x[|x| - 1]))
    ensures Trim(pre + x + post) == x
  {
    assert pre + x + post == pre + (x + post);
    if x == [] {
      assert pre + x + post == (pre + post) + [];
      assert AllWhiteSpace(pre + post);
      TrimStartPadded(pre + post, []);
    } else {
      TrimStartPadded(pre, x + post);
      TrimEndPadded(x, post);
    }
  }

  /** `parts.join(sep)`. */
  function Join(parts: seq<string>, sep: string): (r: string)
    decreases |parts|
  {
    if |parts| == 0 then []
    else if |parts| == 1 then parts[0]
    else Join(parts[..|parts| - 1], sep) + sep + parts[|parts| - 1]
  }

  /** The string with every occurrence of `c` removed. */
  function Without(s: string, c: char): (r: string)
    ensures c !in r
    ensures |r| <= |s|
  {
    if s == [] then [] else (if s[0] == c then [] else [s[0]]) + Without(s[1..], c)
  }

  lemma {:induction false} WithoutAppend(a: string, b: string, c: char)
    ensures Without(a + b, c) == Without(a, c) + Without(b, c)
  {
    if a == [] {
      assert a + b == b;
    } else {
      assert (a + b)[0] == a[0];
      assert (a + b)[1..] == a[1..] + b;
      WithoutAppend(a[1..], b, c);
    }
  }

  lemma {:induction false} WithoutAbsent(s: string, c: char)
    requires c !in s
    ensures Without(s, c) == s
  {
    if s != [] {
      WithoutAbsent(s[1..], c);
    }
  }

  lemma DropSeparator(head: string, c: char, last: string)
    requires c !in last
    ensures Without(head + [c] + last, c) == Without(head, c) + last
  {
    WithoutAppend(head + [c], last, c);
    WithoutAppend(head, [c], c);
    WithoutAbsent(last, c);
    WithoutSelf(c);
    assert Without(head, c) + [] == Without(head, c);
  }

  lemma WithoutSelf(c: char)
    ensures Without([c], c) == []
  {
    assert [c][1..] == [];
  }

  /** Joining with a one-character separator and then deleting that character gives the plain
      concatenation, provided no part contains the separator. */
  lemma {:induction false} JoinThenRemoveSeparator(parts: seq<string>, c: char)
    requires forall k :: 0 <= k < |parts| ==> c !in parts[k]
    ensures Without(Join(parts, [c]), c) == Join(parts, [])
    decreases |parts|
  {
    if |parts| == 1 {
      WithoutAbsent(parts[0], c);
    } else if |parts| > 1 {
      var init := parts[..|parts| - 1];
      var last := parts[|parts| - 1];
      JoinThenRemoveSeparator(init, c);
      DropSeparator(Join(init, [c]), c, last);
      assert Join(init, []) + [] + last == Join(init, []) + last;
    }
  }

  /** Case mapping never produces or removes a hyphen. */
  lemma HyphenKeepsCase(c: char)
    ensures LowerChar(c) == '-' <==> c == '-'
    ensures UpperChar(c) == '-' <==> c == '-'
  {
  }

  lemma {:induction false} NoHyphenLower(s: string)
    requires '-' !in s
    ensures '-' !in Lower(s)
  {
    forall i | 0 <= i < |s| ensures Lower(s)[i] != '-' {
      assert s[i] in s;
      HyphenKeepsCase(s[i]);
    }
  }

  /** Deleting hyphens and upper-casing can be done in either order. */
  lemma {:induction false} WithoutHyphenUpper(s: string)
    ensures Without(Upper(s), '-') == Upper(Without(s, '-'))
    decreases |s|
  {
    if s != [] {
      HyphenKeepsCase(s[0]);
      assert Upper(s)[1..] == Upper(s[1..]);
      WithoutHyphenUpper(s[1..]);
      LowerAppend(if s[0] == '-' then [] else [s[0]], Without(s[1..], '-'));
    }
  }
}
