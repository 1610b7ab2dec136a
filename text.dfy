/**
 * The string operations the player lookup is built from: Python's
 * `str.lower()` (restricted to ASCII letters), `str.strip()` with no
 * argument, and the substring test that `str.contains` performs when the
 * pattern holds no regular-expression metacharacters.
 */
module Text {

  /**
   * The characters Python's `str.isspace()` accepts, by code point: tab, line
   * feed, vertical tab, form feed, carriage return, the four information
   * separators, space, next line, no-break space, and the Unicode space,
   * line and paragraph separators.
   */
  predicate IsSpace(c: char) {
    var n := c as int;
    || 9 <= n <= 13
    || 28 <= n <= 32
    || n == 0x85 || n == 0xA0 || n == 0x1680
    || 0x2000 <= n <= 0x200A
    || n == 0x2028 || n == 0x2029 || n == 0x202F || n == 0x205F || n == 0x3000
  }

  predicate AllSpace(s: string) {
    forall i {:trigger IsSpace(s[i])} :: 0 <= i < |s| ==> IsSpace(s[i])
  }

  predicate IsUpper(c: char) {
    'A' <= c <= 'Z'
  }

  /** ASCII case folding of one character. */
  function LowerChar(c: char): (r: char)
    ensures !IsUpper(r)
    ensures IsUpper(c) ==> r as int == c as int + 32
    ensures !IsUpper(c) ==> r == c
  {
    if IsUpper(c) then (c as int + 32) as char else c
  }

  /** `s.lower()`, for the ASCII letters. */
  function Lower(s: string): (r: string)
    ensures |r| == |s|
    ensures forall i :: 0 <= i < |s| ==> r[i] == LowerChar(s[i])
    ensures NoUpper(r)
  {
    if s == [] then [] else [LowerChar(s[0])] + Lower(s[1..])
  }

  /** Folding an already folded string changes nothing. */
  lemma LowerIdempotent(s: string)
    ensures Lower(Lower(s)) == Lower(s)
  {
    assert forall i :: 0 <= i < |s| ==> Lower(Lower(s))[i] == Lower(s)[i];
  }

  /** Folding works character by character, so it distributes over concatenation. */
  lemma LowerConcat(a: string, b: string)
    ensures Lower(a + b) == Lower(a) + Lower(b)
  {
    assert forall i :: 0 <= i < |a + b| ==> Lower(a + b)[i] == (Lower(a) + Lower(b))[i];
  }

  /** No whitespace character is a letter, so folding leaves whitespace alone. */
  lemma LowerKeepsSpace(s: string)
    requires AllSpace(s)
    ensures Lower(s) == s
  {
    assert forall i :: 0 <= i < |s| ==> IsSpace(s[i]) && Lower(s)[i] == s[i];
  }

  /** No character of `s` is an upper-case ASCII letter. */
  predicate NoUpper(s: string) {
    forall i :: 0 <= i < |s| ==> !IsUpper(s[i])
  }

  /** The first index at or after `i` that does not hold whitespace, or `|s|`. */
  function SkipSpace(s: string, i: nat): (k: nat)
    requires i <= |s|
    ensures i <= k <= |s|
    ensures forall j {:trigger IsSpace(s[j])} :: i <= j < k ==> IsSpace(s[j])
    ensures k < |s| ==> !IsSpace(s[k])
    decreases |s| - i
  {
    if i < |s| && IsSpace(s[i]) then SkipSpace(s, i + 1) else i
  }

  /** Scanning back from `j`, no lower than `lo`: the end of the text before its trailing whitespace. */
  function SkipSpaceBack(s: string, lo: nat, j: nat): (k: nat)
    requires lo <= j <= |s|
    ensures lo <= k <= j
    ensures forall m {:trigger IsSpace(s[m])} :: k <= m < j ==> IsSpace(s[m])
    ensures k > lo ==> !IsSpace(s[k - 1])
    decreases j
  {
    if j > lo && IsSpace(s[j - 1]) then SkipSpaceBack(s, lo, j - 1) else j
  }

  /** `s.strip()`: the slice of `s` left after both ends lose their whitespace. */
  function Strip(s: string): (r: string)
    ensures |r| <= |s|
    ensures exists start :: StrippedAt(s, r, start)
    ensures r == [] || (!IsSpace(r[0]) && !IsSpace(r[|r| - 1]))
  {
    var lo := SkipSpace(s, 0);
    var hi := SkipSpaceBack(s, lo, |s|);
    assert StrippedAt(s, s[lo..hi], lo);
    s[lo..hi]
  }

  /** `r` is the slice of `s` at `start`, and everything around it is whitespace. */
  predicate StrippedAt(s: string, r: string, start: int) {
    && 0 <= start <= |s| - |r|
    && r == s[start..start + |r|]
    && (forall i {:trigger IsSpace(s[i])} :: 0 <= i < start ==> IsSpace(s[i]))
    && (forall i {:trigger IsSpace(s[i])} :: start + |r| <= i < |s| ==> IsSpace(s[i]))
  }

  /**
   * Only one slice has whitespace all around it and none at its ends, so
   * that slice is what `strip()` returns.
   */
  lemma StripUnique(s: string, r: string, start: int)
    requires StrippedAt(s, r, start)
    requires r == [] || (!IsSpace(r[0]) && !IsSpace(r[|r| - 1]))
    ensures Strip(s) == r
  {
    var lo := SkipSpace(s, 0);
    var hi := SkipSpaceBack(s, lo, |s|);
    if r == [] {
      assert forall i :: 0 <= i < |s| ==> IsSpace(s[i]);
      assert lo == |s|;
    } else {
      var e := start + |r|;
      assert s[start] == r[0] && s[e - 1] == r[|r| - 1];
      assert !IsSpace(s[start]) && !IsSpace(s[e - 1]);
      assert lo == start;
      assert hi == e;
    }
  }

  /** Padding a string with whitespace on either side does not change what it strips to. */
  lemma StripIgnoresPadding(pre: string, m: string, post: string)
    requires AllSpace(pre) && AllSpace(post)
    ensures Strip(pre + m + post) == Strip(m)
  {
    var r := Strip(m);
    var start :| StrippedAt(m, r, start);
    var s := pre + m + post;
    var at := |pre| + start;
    assert forall i :: 0 <= i < |m| ==> s[|pre| + i] == m[i];
    assert forall i :: 0 <= i < |post| ==> s[|pre| + |m| + i] == post[i];
    assert r == s[at..at + |r|];
    forall i | 0 <= i < at
      ensures IsSpace(s[i])
    {
      if i < |pre| {
        assert s[i] == pre[i];
      } else {
        assert s[i] == m[i - |pre|];
      }
    }
    forall i | at + |r| <= i < |s|
      ensures IsSpace(s[i])
    {
      if i < |pre| + |m| {
        assert s[i] == m[i - |pre|];
      } else {
        assert s[i] == post[i - |pre| - |m|];
      }
    }
    StripUnique(s, r, at);
  }

  /** A string made only of whitespace strips to the empty string. */
  lemma StripAllSpace(s: string)
    requires AllSpace(s)
    ensures Strip(s) == []
  {
    StripUnique(s, [], 0);
  }

  /** A string with no whitespace at either end strips to itself. */
  lemma StripOfStripped(s: string)
    requires s == [] || (!IsSpace(s[0]) && !IsSpace(s[|s| - 1]))
    ensures Strip(s) == s
  {
    assert s == s[0..|s|];
    StripUnique(s, s, 0);
  }

  /** Stripping a string without upper-case letters leaves none. */
  lemma StripKeepsLower(s: string)
    requires NoUpper(s)
    ensures NoUpper(Strip(s))
  {
    var r := Strip(s);
    var start :| StrippedAt(s, r, start);
    assert forall i :: 0 <= i < |r| ==> r[i] == s[start + i];
  }

  /** `needle` starts at position `i` of `hay`. */
  predicate OccursAt(hay: string, needle: string, i: int) {
    0 <= i && i + |needle| <= |hay| && hay[i..i + |needle|] == needle
  }

  /** `needle in hay`: the substring test. */
  function Contains(hay: string, needle: string): (b: bool)
    ensures b <==> exists i :: OccursAt(hay, needle, i)
    decreases |hay|
  {
    if needle <= hay then
      assert OccursAt(hay, needle, 0);
      true
    else if hay == [] then
      false
    else
      var rest := Contains(hay[1..], needle);
      assert forall i :: 1 <= i ==> (OccursAt(hay, needle, i) <==> OccursAt(hay[1..], needle, i - 1));
      assert forall i :: 0 <= i ==> (OccursAt(hay[1..], needle, i) <==> OccursAt(hay, needle, i + 1));
      rest
  }

  /** The empty string occurs in every string. */
  lemma ContainsEmpty(hay: string)
    ensures Contains(hay, [])
  {
    assert OccursAt(hay, [], 0);
  }
}
