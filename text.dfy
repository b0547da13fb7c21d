/**
 * The string operations the movie filters rely on: lower-casing (Java
 * `String.toLowerCase`, restricted to ASCII), trimming (Java `String.trim`,
 * which strips every character at or below U+0020 from both ends) and
 * substring search (Java `String.contains`).
 */
module Text {

  /** Lower-cases one ASCII letter; every other character is left alone. */
  function LowerChar(c: char): (r: char)
    ensures IsUpper(c) ==> 'a' <= r <= 'z' && r as int - c as int == 32
    ensures !IsUpper(c) ==> r == c
  {
    if IsUpper(c) then (c as int + 32) as char else c
  }

  /** `c` is an upper-case ASCII letter. */
  predicate IsUpper(c: char) {
    'A' <= c <= 'Z'
  }

  /** Java `String.toLowerCase`, over ASCII letters only. */
  function Lower(s: string): (r: string)
    ensures |r| == |s|
    ensures forall i :: 0 <= i < |s| ==> r[i] == LowerChar(s[i])
  {
    seq(|s|, i requires 0 <= i < |s| => LowerChar(s[i]))
  }

  /**
   * Lower-casing leaves no upper-case letter behind and changes only the
   * upper-case letters.
   */
  lemma LowerMeaning(s: string)
    ensures forall i :: 0 <= i < |s| ==> !IsUpper(Lower(s)[i])
    ensures forall i :: 0 <= i < |s| && !IsUpper(s[i]) ==> Lower(s)[i] == s[i]
  {
  }

  /** Lower-casing an already lower-cased string changes nothing. */
  lemma LowerIdempotent(s: string)
    ensures Lower(Lower(s)) == Lower(s)
  {
    LowerMeaning(s);
  }

  /** `a` and `b` are the same letter up to ASCII case, or the same character. */
  predicate SameIgnoringCase(a: char, b: char) {
    a == b || (IsUpper(a) && b as int == a as int + 32) || (IsUpper(b) && a as int == b as int + 32)
  }

  /** Strings that differ only in the case of ASCII letters lower-case alike. */
  lemma LowerIgnoresCase(s: string, t: string)
    requires |s| == |t|
    requires forall i :: 0 <= i < |s| ==> SameIgnoringCase(s[i], t[i])
    ensures Lower(s) == Lower(t)
  {
    forall i | 0 <= i < |s| ensures Lower(s)[i] == Lower(t)[i] {
      assert Lower(s)[i] == LowerChar(s[i]) && Lower(t)[i] == LowerChar(t[i]);
    }
  }

  /** The characters `String.trim` removes: U+0000 up to and including the space. */
  predicate IsTrimChar(c: char) {
    c <= ' '
  }

  /** Index of the first character that `trim` keeps (|s| when it keeps none). */
  function TrimStart(s: string): (i: nat)
    ensures i <= |s|
    ensures forall k :: 0 <= k < i ==> IsTrimChar(s[k])
    ensures i < |s| ==> !IsTrimChar(s[i])
  {
    if s == [] || !IsTrimChar(s[0]) then 0 else 1 + TrimStart(s[1..])
  }

  /** One past the last character at or after `lo` that `trim` keeps (`lo` when it keeps none). */
  function TrimEnd(s: string, lo: nat): (j: nat)
    requires lo <= |s|
    ensures lo <= j <= |s|
    ensures forall k :: j <= k < |s| ==> IsTrimChar(s[k])
    ensures lo < j ==> !IsTrimChar(s[j - 1])
    decreases |s|
  {
    if |s| == lo || !IsTrimChar(s[|s| - 1]) then |s| else TrimEnd(s[..|s| - 1], lo)
  }

  /**
   * Java `String.trim`: the longest middle part of `s` that neither starts nor
   * ends with a trimmed character, everything cut off on either side being trimmed.
   */
  function Trim(s: string): (r: string)
    ensures |r| <= |s|
    ensures r == [] || (!IsTrimChar(r[0]) && !IsTrimChar(r[|r| - 1]))
    ensures r == [] <==> forall k :: 0 <= k < |s| ==> IsTrimChar(s[k])
    ensures exists i, j :: 0 <= i <= j <= |s| && r == s[i..j] && AllTrimChars(s[..i]) && AllTrimChars(s[j..])
  {
    var i := TrimStart(s);
    var j := TrimEnd(s, i);
    assert AllTrimChars(s[..i]) && AllTrimChars(s[j..]);
    s[i..TrimEnd(s, i)]
  }

  /** Every character of `s` is one `trim` removes. */
  predicate AllTrimChars(s: string) {
    forall k :: 0 <= k < |s| ==> IsTrimChar(s[k])
  }

  /** `s.trim().isEmpty()`: what the service calls a blank pattern. */
  predicate IsBlank(s: string) {
    Trim(s) == []
  }

  /** `p` occurs in `s` at index `i`. */
  predicate OccursAt(s: string, p: string, i: int) {
    0 <= i && i + |p| <= |s| && s[i..i + |p|] == p
  }

  /** Java `String.contains`: `p` occurs somewhere in `s` (the empty string occurs everywhere). */
  function Contains(s: string, p: string): (r: bool)
    ensures r <==> exists i :: OccursAt(s, p, i)
  {
    if |p| <= |s| && s[..|p|] == p then
      assert OccursAt(s, p, 0);
      true
    else if s == [] then
      false
    else
      var r := Contains(s[1..], p);
      assert forall i :: OccursAt(s[1..], p, i) ==> OccursAt(s, p, i + 1);
      assert forall i :: OccursAt(s, p, i) && i > 0 ==> OccursAt(s[1..], p, i - 1);
      r
  }

  /** Every character of a contained pattern occurs in the text. */
  lemma ContainsChars(s: string, p: string, c: char)
    requires Contains(s, p) && c in p
    ensures c in s
  {
    var i :| OccursAt(s, p, i);
    var k :| 0 <= k < |p| && p[k] == c;
    assert s[i + k] == s[i..i + |p|][k];
  }

  /** The pattern the service actually looks for: lower-cased, then trimmed. */
  function Normalize(p: string): (r: string)
    ensures |r| <= |p|
  {
    Trim(Lower(p))
  }

  /** Lower-casing keeps the trimmed characters where they are, so it commutes with `trim`. */
  lemma {:induction false} TrimStartLower(s: string)
    ensures TrimStart(Lower(s)) == TrimStart(s)
  {
    if s != [] && IsTrimChar(s[0]) {
      assert Lower(s)[1..] == Lower(s[1..]);
      TrimStartLower(s[1..]);
    }
  }

  lemma {:induction false} TrimEndLower(s: string, lo: nat)
    requires lo <= |s|
    ensures TrimEnd(Lower(s), lo) == TrimEnd(s, lo)
    decreases |s|
  {
    if |s| != lo && IsTrimChar(s[|s| - 1]) {
      assert Lower(s)[..|s| - 1] == Lower(s[..|s| - 1]);
      TrimEndLower(s[..|s| - 1], lo);
    }
  }

  /** Trimming then lower-casing gives the same string as lower-casing then trimming. */
  lemma TrimLowerCommute(s: string)
    ensures Trim(Lower(s)) == Lower(Trim(s))
  {
    var i := TrimStart(s);
    TrimStartLower(s);
    TrimEndLower(s, i);
    var j := TrimEnd(s, i);
    assert Trim(Lower(s)) == Lower(s)[i..j];
    LowerSlice(s, i, j);
  }

  /** Lower-casing works character by character, so it commutes with slicing. */
  lemma LowerSlice(s: string, i: nat, j: nat)
    requires i <= j <= |s|
    ensures Lower(s)[i..j] == Lower(s[i..j])
  {
  }

  /** Blankness judged on the raw pattern agrees with emptiness of the normalised pattern. */
  lemma BlankIffNormalizedEmpty(p: string)
    ensures IsBlank(p) <==> Normalize(p) == []
  {
    TrimLowerCommute(p);
  }

  /** Normalising twice changes nothing: a normalised pattern is its own normal form. */
  lemma NormalizeIdempotent(p: string)
    ensures Normalize(Normalize(p)) == Normalize(p)
  {
    var n := Normalize(p);
    var i := TrimStart(Lower(p));
    var j := TrimEnd(Lower(p), i);
    assert n == Lower(p)[i..j];
    LowerSlice(p, i, j);
    LowerIdempotent(p[i..j]);
    TrimLowerCommute(n);
    TrimTrimmed(n);
  }

  lemma {:induction false} TrimStartPadded(pre: string, rest: string)
    requires AllTrimChars(pre)
    requires rest == [] || !IsTrimChar(rest[0])
    ensures TrimStart(pre + rest) == |pre|
  {
    if pre != [] {
      assert (pre + rest)[1..] == pre[1..] + rest;
      TrimStartPadded(pre[1..], rest);
    } else {
      assert pre + rest == rest;
    }
  }

  lemma {:induction false} TrimEndPadded(s: string, lo: nat, post: string)
    requires lo <= |s|
    requires AllTrimChars(post)
    requires lo < |s| ==> !IsTrimChar(s[|s| - 1])
    ensures TrimEnd(s + post, lo) == |s|
    decreases |post|
  {
    if post != [] {
      var n := |s + post|;
      assert (s + post)[..n - 1] == s + post[..|post| - 1];
      assert IsTrimChar((s + post)[n - 1]);
      TrimEndPadded(s, lo, post[..|post| - 1]);
    } else {
      assert s + post == s;
    }
  }

  /** Trimming strips exactly the padding on either side of a word. */
  lemma TrimPadded(pre: string, word: string, post: string)
    requires AllTrimChars(pre) && AllTrimChars(post)
    requires word != [] && !IsTrimChar(word[0]) && !IsTrimChar(word[|word| - 1])
    ensures Trim(pre + word + post) == word
  {
    var s := pre + word + post;
    assert s == pre + (word + post);
    TrimStartPadded(pre, word + post);
    assert s == (pre + word) + post;
    TrimEndPadded(pre + word, |pre|, post);
    assert s[|pre|..|pre| + |word|] == word;
  }

  /** A padded pattern normalises to its lower-cased word. */
  lemma NormalizePadded(pre: string, word: string, post: string)
    requires AllTrimChars(pre) && AllTrimChars(post)
    requires word != [] && !IsTrimChar(word[0]) && !IsTrimChar(word[|word| - 1])
    ensures Normalize(pre + word + post) == Lower(word)
  {
    TrimLowerCommute(pre + word + post);
    TrimPadded(pre, word, post);
  }

  /** A string that neither starts nor ends with a trimmed character is its own trim. */
  lemma TrimTrimmed(s: string)
    requires s == [] || (!IsTrimChar(s[0]) && !IsTrimChar(s[|s| - 1]))
    ensures Trim(s) == s
  {
  }
}
