/** Character classes, trimming, lower-casing and substring search on the
    strings the product catalog handles. A string is a sequence of Unicode
    scalar values; JavaScript counts UTF-16 code units instead, so a
    character outside the Basic Multilingual Plane is one character here and
    two there. */
module Text {

  /** The characters JavaScript's `\s` matches and `String.prototype.trim`
      strips: the ECMAScript WhiteSpace and LineTerminator characters, with the
      Unicode space separators written out. */
  predicate IsSpace(c: char) {
    || c == '\t' || c == '\n' || c == '\U{000B}' || c == '\U{000C}' || c == '\r'
    || c == ' ' || c == '\U{00A0}' || c == '\U{1680}' || ('\U{2000}' <= c <= '\U{200A}')
    || c == '\U{2028}' || c == '\U{2029}' || c == '\U{202F}' || c == '\U{205F}'
    || c == '\U{3000}' || c == '\U{FEFF}'
  }

  /** The line terminators: the characters a regular-expression `.` does not
      match unless the `s` flag is set. */
  predicate IsLineTerminator(c: char) {
    c == '\n' || c == '\r' || c == '\U{2028}' || c == '\U{2029}'
  }

  /** `\d` */
  predicate IsDigit(c: char) {
    '0' <= c <= '9'
  }

  /** `[a-zA-Z]` */
  predicate IsAsciiLetter(c: char) {
    'a' <= c <= 'z' || 'A' <= c <= 'Z'
  }

  /** `\w` of a regular expression without the `u` flag. */
  predicate IsWordChar(c: char) {
    IsAsciiLetter(c) || IsDigit(c) || c == '_'
  }

  predicate AllSpace(s: string) {
    forall k :: 0 <= k < |s| ==> IsSpace(s[k])
  }

  /** The number of whitespace characters `s` starts with. */
  function LeadingSpaces(s: string): (n: nat)
    ensures n <= |s|
    ensures forall k :: 0 <= k < n ==> IsSpace(s[k])
    ensures n < |s| ==> !IsSpace(s[n])
  {
    if |s| > 0 && IsSpace(s[0]) then 1 + LeadingSpaces(s[1..]) else 0
  }

  /** The number of whitespace characters `s` ends with. */
  function TrailingSpaces(s: string): (n: nat)
    ensures n <= |s|
    ensures forall k :: |s| - n <= k < |s| ==> IsSpace(s[k])
    ensures n < |s| ==> !IsSpace(s[|s| - 1 - n])
  {
    if |s| > 0 && IsSpace(s[|s| - 1]) then 1 + TrailingSpaces(s[..|s| - 1]) else 0
  }

  /** `s[i..i + n]` has only whitespace before and after it within `s`, and
      neither starts nor ends with whitespace. */
  predicate TrimmedAt(s: string, i: nat, n: nat) {
    && i + n <= |s|
    && (forall k :: 0 <= k < i ==> IsSpace(s[k]))
    && (forall k :: i + n <= k < |s| ==> IsSpace(s[k]))
    && (n > 0 ==> !IsSpace(s[i]) && !IsSpace(s[i + n - 1]))
  }

  /** `String.prototype.trim`: the result is the stretch of `s` left once the
      whitespace at both ends is cut off, so it neither starts nor ends with
      whitespace. */
  function Trim(s: string): (r: string)
    ensures |r| <= |s|
    ensures exists i: nat :: TrimmedAt(s, i, |r|) && r == s[i..i + |r|]
  {
    var i := LeadingSpaces(s);
    var t := s[i..];
    var n := TrailingSpaces(t);
    var r := t[..|t| - n];
    assert r == s[i..i + |r|];
    assert TrimmedAt(s, i, |r|) by {
      assert forall k :: i + |r| <= k < |s| ==> s[k] == t[k - i] && |t| - n <= k - i;
      assert |r| > 0 ==> s[i + |r| - 1] == t[|t| - 1 - n];
    }
    r
  }

  /** Helper: `Trim(s)` is such a stretch of `s`. */
  lemma TrimIsTrimmedAt(s: string) returns (i: nat)
    ensures TrimmedAt(s, i, |Trim(s)|) && Trim(s) == s[i..i + |Trim(s)|]
  {
    var r := Trim(s);
    i :| TrimmedAt(s, i, |r|) && r == s[i..i + |r|];
  }

  /** Helper: a string holding a non-space character is not all space. */
  lemma NotAllSpace(s: string, i: nat, n: nat)
    requires TrimmedAt(s, i, n) && n > 0
    ensures !AllSpace(s)
  {
    assert !IsSpace(s[i]);
  }

  /** Helper: when the stretch is empty, all of `s` is whitespace. */
  lemma EmptyStretchAllSpace(s: string, i: nat)
    requires TrimmedAt(s, i, 0)
    ensures AllSpace(s)
  {
  }

  /** There is only one such stretch (up to where an empty one sits). */
  lemma TrimmedAtUnique(s: string, i: nat, n: nat, j: nat, m: nat)
    requires TrimmedAt(s, i, n) && TrimmedAt(s, j, m)
    ensures n == m && (n > 0 ==> i == j)
  {
    if n == 0 {
      EmptyStretchAllSpace(s, i);
      if m > 0 {
        NotAllSpace(s, j, m);
      }
    } else if m == 0 {
      EmptyStretchAllSpace(s, j);
      NotAllSpace(s, i, n);
    }
  }

  /** Helper: a stretch of `x` with only whitespace around it keeps that
      property inside `pre + x + post` when `pre` and `post` are whitespace. */
  lemma PaddedStretch(pre: string, x: string, post: string, j: nat, n: nat)
    requires AllSpace(pre) && AllSpace(post) && TrimmedAt(x, j, n)
    ensures TrimmedAt(pre + x + post, |pre| + j, n)
    ensures (pre + x + post)[|pre| + j..|pre| + j + n] == x[j..j + n]
  {
    var s := pre + x + post;
    assert forall k :: 0 <= k < |pre| ==> s[k] == pre[k];
    assert forall k :: 0 <= k < |x| ==> s[|pre| + k] == x[k];
    assert forall k :: 0 <= k < |post| ==> s[|pre| + |x| + k] == post[k];
    assert s[|pre| + j..|pre| + j + n] == x[j..j + n];
  }

  /** `trim` yields the one stretch of `s` with only whitespace around it
      and none at its ends. */
  lemma TrimFromStretch(s: string, i: nat, n: nat)
    requires TrimmedAt(s, i, n)
    ensures Trim(s) == s[i..i + n]
  {
    var i' := TrimIsTrimmedAt(s);
    TrimmedAtUnique(s, i, n, i', |Trim(s)|);
  }

  /** Helper: two strings holding the same trimmed stretch trim alike. */
  lemma SameStretchSameTrim(s: string, x: string, i: nat, j: nat, n: nat)
    requires TrimmedAt(s, i, n) && TrimmedAt(x, j, n) && s[i..i + n] == x[j..j + n]
    ensures Trim(s) == Trim(x)
  {
    TrimFromStretch(s, i, n);
    TrimFromStretch(x, j, n);
  }

  /** Whitespace added around a value does not change what `trim` yields. */
  lemma TrimIgnoresPadding(pre: string, x: string, post: string)
    requires AllSpace(pre) && AllSpace(post)
    ensures Trim(pre + x + post) == Trim(x)
  {
    var j := TrimIsTrimmedAt(x);
    PaddedStretch(pre, x, post, j, |Trim(x)|);
    SameStretchSameTrim(pre + x + post, x, |pre| + j, j, |Trim(x)|);
  }

  /** Trimming twice trims nothing more. */
  lemma {:induction false} TrimIdempotent(s: string)
    ensures Trim(Trim(s)) == Trim(s)
  {
    var r := Trim(s);
    assert LeadingSpaces(r) == 0;
    assert TrailingSpaces(r) == 0;
    assert r[0..][..|r|] == r;
  }

  /** ASCII `toLowerCase`: upper-case ASCII letters become lower-case, every
      other character is kept. */
  function Lower(c: char): (d: char)
    ensures 'A' <= c <= 'Z' ==> 'a' <= d <= 'z' && d as int - c as int == 32
    ensures !('A' <= c <= 'Z') ==> d == c
  {
    if 'A' <= c <= 'Z' then (c as int + 32) as char else c
  }

  function LowerStr(s: string): (r: string)
    ensures |r| == |s|
    ensures forall k :: 0 <= k < |s| ==> r[k] == Lower(s[k])
  {
    seq(|s|, k requires 0 <= k < |s| => Lower(s[k]))
  }

  /** `hay` holds `needle` starting at position `k`. */
  predicate OccursAt(hay: string, needle: string, k: nat) {
    k + |needle| <= |hay| && hay[k..k + |needle|] == needle
  }

  /** `String.prototype.includes` as a left-to-right scan: does `needle`
      start at the first position of `hay`, and if not, at a later one? */
  function Includes(hay: string, needle: string): bool
    decreases |hay|
  {
    if |needle| > |hay| then false
    else if hay[..|needle|] == needle then true
    else Includes(hay[1..], needle)
  }

  /** An occurrence anywhere is found by the scan. */
  lemma {:induction false} OccursImpliesIncludes(hay: string, needle: string, k: nat)
    requires OccursAt(hay, needle, k)
    ensures Includes(hay, needle)
    decreases k
  {
    if hay[..|needle|] != needle {
      assert k != 0;
      assert hay[1..][k - 1..k - 1 + |needle|] == hay[k..k + |needle|];
      OccursImpliesIncludes(hay[1..], needle, k - 1);
    }
  }

  /** What the scan finds is an occurrence. */
  lemma {:induction false} IncludesWitness(hay: string, needle: string) returns (k: nat)
    requires Includes(hay, needle)
    ensures OccursAt(hay, needle, k)
    decreases |hay|
  {
    if hay[..|needle|] == needle {
      k := 0;
    } else {
      var k' := IncludesWitness(hay[1..], needle);
      assert hay[1..][k'..k' + |needle|] == hay[k' + 1..k' + 1 + |needle|];
      k := k' + 1;
    }
  }

  /** The scan agrees with the definition of a substring. */
  lemma IncludesIffOccurs(hay: string, needle: string)
    ensures Includes(hay, needle) <==> exists k: nat :: OccursAt(hay, needle, k)
  {
    if Includes(hay, needle) {
      var k := IncludesWitness(hay, needle);
    }
    forall k: nat | OccursAt(hay, needle, k)
      ensures Includes(hay, needle)
    {
      OccursImpliesIncludes(hay, needle, k);
    }
  }

  /** Every character of a contained string occurs in the containing one. */
  lemma IncludesKeepsCharacters(hay: string, needle: string)
    ensures Includes(hay, needle) ==> forall j :: 0 <= j < |needle| ==> needle[j] in hay
  {
    if Includes(hay, needle) {
      var k := IncludesWitness(hay, needle);
      forall j | 0 <= j < |needle|
        ensures needle[j] in hay
      {
        assert hay[k..k + |needle|][j] == hay[k + j];
      }
    }
  }
}
