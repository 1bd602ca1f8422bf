/**
 * The parts of Python's `str` that the scraper relies on: lower-casing,
 * capitalising, stripping, substring and suffix tests, replacing every
 * occurrence of a pattern, splitting off the first label and joining.
 * Case mapping covers the ASCII letters only; whitespace is the set of
 * code points for which `str.isspace()` holds.
 */
module Strings {

  /** Python's `str.isspace()` for one code point (also what `\s` matches in a `str` pattern). */
  predicate IsSpace(c: char) {
    var n := c as int;
    (9 <= n <= 13) || (28 <= n <= 32) || n == 0x85 || n == 0xA0 || n == 0x1680
    || (0x2000 <= n <= 0x200A) || n == 0x2028 || n == 0x2029 || n == 0x202F
    || n == 0x205F || n == 0x3000
  }

  predicate IsUpper(c: char) { 'A' <= c <= 'Z' }
  predicate IsLower(c: char) { 'a' <= c <= 'z' }
  predicate IsDigit(c: char) { '0' <= c <= '9' }

  function LowerChar(c: char): (r: char)
    ensures !IsUpper(r)
    ensures IsUpper(c) ==> IsLower(r) && r as int == c as int + 32
    ensures !IsUpper(c) ==> r == c
  {
    if IsUpper(c) then (c as int + 32) as char else c
  }

  function UpperChar(c: char): (r: char)
    ensures !IsLower(r)
    ensures IsLower(c) ==> IsUpper(r) && r as int + 32 == c as int
    ensures !IsLower(c) ==> r == c
  {
    if IsLower(c) then (c as int - 32) as char else c
  }

  /** No ASCII upper-case letter occurs in `s`. */
  predicate IsLowerCase(s: string) {
    forall i :: 0 <= i < |s| ==> !IsUpper(s[i])
  }

  /** `s.lower()`: every character mapped on its own. */
  function Lower(s: string): (r: string)
    ensures |r| == |s| && IsLowerCase(r)
    ensures forall i :: 0 <= i < |s| ==> r[i] == LowerChar(s[i])
  {
    seq(|s|, i requires 0 <= i < |s| => LowerChar(s[i]))
  }

  lemma LowerOfLowerCase(s: string)
    requires IsLowerCase(s)
    ensures Lower(s) == s
  {
    assert forall i :: 0 <= i < |s| ==> Lower(s)[i] == s[i];
  }

  /** Lower-casing works piece by piece. */
  lemma LowerAppend(a: string, b: string)
    ensures Lower(a + b) == Lower(a) + Lower(b)
  {
    assert forall i :: 0 <= i < |a + b| ==> Lower(a + b)[i] == (Lower(a) + Lower(b))[i];
  }

  /** A lower-case letter absent from `s` in both cases is absent from `Lower(s)`. */
  lemma LowerAvoids(s: string, c: char)
    requires IsLower(c) && c !in s && UpperChar(c) !in s
    ensures c !in Lower(s)
  {
    forall i | 0 <= i < |s|
      ensures Lower(s)[i] != c
    {
      assert s[i] != c && s[i] != UpperChar(c);
    }
  }

  /** `s.capitalize()`: the first character upper-cased, the rest lower-cased. */
  function Capitalize(s: string): (r: string)
    ensures |r| == |s|
    ensures |s| > 0 ==> r[0] == UpperChar(s[0]) && !IsLower(r[0])
    ensures forall i :: 1 <= i < |s| ==> r[i] == LowerChar(s[i]) && !IsUpper(r[i])
  {
    if s == [] then [] else [UpperChar(s[0])] + Lower(s[1..])
  }

  /** Capitalising a lower-case string and lower-casing it again gives the string back. */
  lemma LowerCapitalize(s: string)
    requires IsLowerCase(s)
    ensures Lower(Capitalize(s)) == s
  {
    var r := Lower(Capitalize(s));
    forall i | 0 <= i < |s|
      ensures r[i] == s[i]
    {
      if i == 0 {
        assert r[0] == LowerChar(UpperChar(s[0]));
      }
    }
  }

  /** Case mapping never produces or removes a character outside the letters. */
  lemma CapitalizeKeepsNonLetters(s: string, c: char)
    requires !IsUpper(c) && !IsLower(c)
    ensures c in Capitalize(s) <==> c in s
  {
    var r := Capitalize(s);
    if c in r {
      var i :| 0 <= i < |r| && r[i] == c;
      assert s[i] == c;
    }
    if c in s {
      var i :| 0 <= i < |s| && s[i] == c;
      assert r[i] == c;
    }
  }

  /** Python's `sub in s`: `sub` occurs in `s` at some offset. */
  predicate Contains(s: string, sub: string)
    ensures Contains(s, sub) ==> |sub| <= |s|
    decreases |s|
  {
    sub <= s || (s != [] && Contains(s[1..], sub))
  }

  lemma {:induction false} ContainsAt(s: string, sub: string, i: nat)
    requires i + |sub| <= |s| && s[i..i + |sub|] == sub
    ensures Contains(s, sub)
    decreases i
  {
    if i > 0 {
      assert s[1..][i - 1..i - 1 + |sub|] == s[i..i + |sub|];
      ContainsAt(s[1..], sub, i - 1);
    }
  }

  lemma {:induction false} ContainsWitness(s: string, sub: string) returns (i: nat)
    requires Contains(s, sub)
    ensures i + |sub| <= |s| && s[i..i + |sub|] == sub
    decreases |s|
  {
    if sub <= s {
      i := 0;
    } else {
      var j := ContainsWitness(s[1..], sub);
      assert s[1..][j..j + |sub|] == s[j + 1..j + 1 + |sub|];
      i := j + 1;
    }
  }

  /** Every character of a string that `s` contains is a character of `s`. */
  lemma ContainedChars(s: string, sub: string)
    requires Contains(s, sub)
    ensures forall c :: c in sub ==> c in s
  {
    var i := ContainsWitness(s, sub);
    forall c | c in sub
      ensures c in s
    {
      var k :| 0 <= k < |sub| && sub[k] == c;
      assert s[i + k] == sub[k];
    }
  }

  /** Every string contains itself, so two strings that do not contain each other differ. */
  lemma ContainsSelf(s: string)
    ensures Contains(s, s)
  {
    assert s <= s;
  }

  /** Python's `s.endswith(suffix)`. */
  predicate EndsWith(s: string, suffix: string) {
    |suffix| <= |s| && s[|s| - |suffix|..] == suffix
  }

  /** `s.replace(pat, "")`: occurrences are found left to right and do not overlap. */
  function RemoveAll(s: string, pat: string): (r: string)
    requires |pat| > 0
    ensures |r| <= |s|
    ensures forall c :: c in r ==> c in s
    ensures r == s <==> !Contains(s, pat)
    decreases |s|
  {
    if |s| < |pat| then s
    else if s[..|pat|] == pat then RemoveAll(s[|pat|..], pat)
    else [s[0]] + RemoveAll(s[1..], pat)
  }

  /** `pat` occurs in `s` at position `j`. */
  predicate MatchAt(s: string, pat: string, j: nat) {
    j + |pat| <= |s| && s[j..j + |pat|] == pat
  }

  /** A character in front moves every match one place to the right. */
  lemma MatchAfterHead(c: char, s: string, pat: string, j: nat)
    ensures MatchAt([c] + s, pat, j + 1) == MatchAt(s, pat, j)
  {
    if j + |pat| <= |s| {
      assert ([c] + s)[j + 1..j + 1 + |pat|] == s[j..j + |pat|];
    }
  }

  /** No match in `s[..i + |pat| - 1]` means no match of `s` starting before `i`. */
  lemma NoMatchBefore(s: string, pat: string, i: nat)
    requires 0 < |pat| && i + |pat| <= |s| && !Contains(s[..i + |pat| - 1], pat)
    ensures forall j: nat :: j < i ==> !MatchAt(s, pat, j)
  {
    var t := s[..i + |pat| - 1];
    forall j: nat | j < i
      ensures !MatchAt(s, pat, j)
    {
      if MatchAt(s, pat, j) {
        assert t[j..j + |pat|] == s[j..j + |pat|];
        ContainsAt(t, pat, j);
      }
    }
  }

  /**
   * What `replace(pat, "")` takes out, independently of how it scans: when
   * the first occurrence of `pat` starts at `i`, the text before it is kept,
   * the occurrence is dropped, and the removal goes on after it.
   */
  lemma RemoveAllAtFirst(s: string, pat: string, i: nat)
    requires |pat| > 0 && i + |pat| <= |s| && s[i..i + |pat|] == pat
    requires !Contains(s[..i + |pat| - 1], pat)
    ensures RemoveAll(s, pat) == s[..i] + RemoveAll(s[i + |pat|..], pat)
  {
    NoMatchBefore(s, pat, i);
    SplitAround(s, i, |pat|);
    RemoveAllPast(s[..i], pat, s[i + |pat|..]);
  }

  /** Induction on the text in front of the first match: it is kept character by character. */
  lemma {:induction false} RemoveAllPast(pre: string, pat: string, post: string)
    requires |pat| > 0
    requires forall j: nat :: j < |pre| ==> !MatchAt(pre + pat + post, pat, j)
    ensures RemoveAll(pre + pat + post, pat) == pre + RemoveAll(post, pat)
    decreases |pre|
  {
    if pre == [] {
      RemoveAllAtStart(pat, post);
    } else {
      var c, pre' := pre[0], pre[1..];
      var tail := pre' + pat + post;
      PeelHead(pre, pat + post);
      Regroup(pre, pat, post);
      Regroup(pre', pat, post);
      assert !MatchAt([c] + tail, pat, 0);
      forall j: nat | j < |pre'|
        ensures !MatchAt(tail, pat, j)
      {
        MatchAfterHead(c, tail, pat, j);
      }
      RemoveAllPast(pre', pat, post);
      RemoveAllCons(c, tail, pat);
      Regroup([c], pre', RemoveAll(post, pat));
    }
  }

  /** A character where no match starts is kept in front of the removal of the rest. */
  lemma RemoveAllCons(c: char, tail: string, pat: string)
    requires |pat| > 0 && !MatchAt([c] + tail, pat, 0)
    ensures RemoveAll([c] + tail, pat) == [c] + RemoveAll(tail, pat)
  {
    var s := [c] + tail;
    assert s[0] == c && s[1..] == tail;
    if |s| >= |pat| {
      assert s[0..|pat|] == s[..|pat|];
    } else {
      assert RemoveAll(tail, pat) == tail;
    }
  }

  lemma RemoveAllAtStart(pat: string, post: string)
    requires |pat| > 0
    ensures RemoveAll([] + pat + post, pat) == [] + RemoveAll(post, pat)
  {
    EmptyFront(pat + post);
    EmptyFront(RemoveAll(post, pat));
    assert (pat + post)[..|pat|] == pat && (pat + post)[|pat|..] == post;
  }

  /** A leading occurrence is dropped; a rest without the pattern is kept whole. */
  lemma RemoveAllLeading(pat: string, post: string)
    requires |pat| > 0 && !Contains(post, pat)
    ensures RemoveAll(pat + post, pat) == post
  {
    RemoveAllAtStart(pat, post);
    EmptyFront(pat + post);
    EmptyFront(RemoveAll(post, pat));
  }

  lemma EmptyFront(s: string)
    ensures [] + s == s
  {
  }


  /** The occurrence right after `pre` is the first one when none ends earlier: it is dropped and `pre` is kept. */
  lemma RemoveAllAfter(pre: string, pat: string, post: string)
    requires |pat| > 0 && !Contains(pre + pat[..|pat| - 1], pat)
    ensures RemoveAll(pre + pat + post, pat) == pre + RemoveAll(post, pat)
  {
    var s := pre + pat + post;
    var i := |pre|;
    assert s[i..i + |pat|] == pat;
    assert s[..i + |pat| - 1] == pre + pat[..|pat| - 1];
    RemoveAllAtFirst(s, pat, i);
    assert s[..i] == pre && s[i + |pat|..] == post;
  }

  /** A pattern with a character the string lacks is not removed from it. */
  lemma RemoveAllAbsent(s: string, pat: string, c: char)
    requires c in pat && c !in s
    ensures RemoveAll(s, pat) == s
  {
    if Contains(s, pat) {
      ContainedChars(s, pat);
      assert false;
    }
  }

  /** How many characters at the start of `s` satisfy `p`. */
  function CountLeading(s: string, p: char -> bool): (n: nat)
    ensures n <= |s|
    ensures forall k :: 0 <= k < n ==> p(s[k])
    ensures n < |s| ==> !p(s[n])
    decreases |s|
  {
    if s == [] || !p(s[0]) then 0 else 1 + CountLeading(s[1..], p)
  }

  /** How many characters at the end of `s` satisfy `p`. */
  function CountTrailing(s: string, p: char -> bool): (n: nat)
    ensures n <= |s|
    ensures forall k :: |s| - n <= k < |s| ==> p(s[k])
    ensures n < |s| ==> !p(s[|s| - 1 - n])
    decreases |s|
  {
    if s == [] || !p(s[|s| - 1]) then 0 else 1 + CountTrailing(s[..|s| - 1], p)
  }

  /**
   * `s.strip(chars)`: the longest run of characters satisfying `p` is taken
   * off each end. The result is the slice `s[i..j]`; everything outside it
   * satisfies `p`, and neither end of a non-empty result does.
   */
  function StripBy(s: string, p: char -> bool): (r: string)
    ensures |r| <= |s|
    ensures r != [] ==> !p(r[0]) && !p(r[|r| - 1])
    ensures exists i, j ::
              && 0 <= i <= j <= |s| && r == s[i..j]
              && (forall k :: 0 <= k < i ==> p(s[k]))
              && (forall k :: j <= k < |s| ==> p(s[k]))
  {
    var i := CountLeading(s, p);
    var n := CountTrailing(s[i..], p);
    var j := |s| - n;
    assert forall k :: j <= k < |s| ==> s[k] == s[i..][k - i];
    s[i..j]
  }

  /** `s.strip()`: whitespace removed from both ends. */
  function Strip(s: string): (r: string)
    ensures |r| <= |s|
    ensures r != [] ==> !IsSpace(r[0]) && !IsSpace(r[|r| - 1])
  {
    StripBy(s, IsSpace)
  }

  /** A string with no whitespace at either end is left as it is by `strip`. */
  lemma StripTrimmed(s: string)
    requires s != [] ==> !IsSpace(s[0]) && !IsSpace(s[|s| - 1])
    ensures Strip(s) == s
  {
    if s != [] {
      assert CountLeading(s, IsSpace) == 0;
      assert CountTrailing(s[0..], IsSpace) == 0;
    }
  }

  /** `s.split(sep)[0]`: the longest prefix of `s` that does not contain `sep`. */
  function FirstField(s: string, sep: char): (r: string)
    ensures r <= s && sep !in r
    ensures |r| < |s| ==> s[|r|] == sep
    decreases |s|
  {
    if s == [] || s[0] == sep then [] else [s[0]] + FirstField(s[1..], sep)
  }

  /** The first field ends at the first occurrence of `sep`. */
  lemma {:induction false} FirstFieldEndsAt(s: string, sep: char, k: nat)
    requires k < |s| && s[k] == sep && sep !in s[..k]
    ensures FirstField(s, sep) == s[..k]
    decreases k
  {
    if k > 0 {
      assert s[1..][..k - 1] == s[1..k];
      FirstFieldEndsAt(s[1..], sep, k - 1);
      assert s[..k] == [s[0]] + s[1..k];
    }
  }

  /** `sep.join(xs)`. */
  function Join(xs: seq<string>, sep: string): (r: string)
    ensures |sep| > 0 ==> (r == [] <==> xs == [] || xs == [[]])
    decreases |xs|
  {
    if xs == [] then []
    else if |xs| == 1 then xs[0]
    else xs[0] + sep + Join(xs[1..], sep)
  }

  /** Appending an element to a non-empty list appends the separator and the element to the joined string. */
  lemma {:induction false} JoinAppend(xs: seq<string>, x: string, sep: string)
    requires xs != []
    ensures Join(xs + [x], sep) == Join(xs, sep) + sep + x
    decreases |xs|
  {
    if |xs| > 1 {
      assert (xs + [x])[1..] == xs[1..] + [x];
      JoinAppend(xs[1..], x, sep);
    } else {
      assert (xs + [x])[1..] == [x];
    }
  }

  /** Every element of the joined list occurs in the joined string. */
  lemma {:induction false} JoinContainsEach(xs: seq<string>, sep: string, k: nat)
    requires k < |xs|
    ensures Contains(Join(xs, sep), xs[k])
    decreases |xs|
  {
    if |xs| == 1 {
      ContainsSelf(xs[0]);
    } else if k == 0 {
      var r := Join(xs, sep);
      assert r[0..|xs[0]|] == xs[0];
      ContainsAt(r, xs[0], 0);
    } else {
      JoinContainsEach(xs[1..], sep, k - 1);
      var rest := Join(xs[1..], sep);
      var i := ContainsWitness(rest, xs[k]);
      var off := |xs[0]| + |sep|;
      var r := Join(xs, sep);
      assert r == xs[0] + sep + rest;
      assert r[off + i..off + i + |xs[k]|] == rest[i..i + |xs[k]|];
      ContainsAt(r, xs[k], off + i);
    }
  }

  // Sequence facts used by the proofs here and in other modules, stated
  // for any element type.

  lemma Regroup<T>(x: seq<T>, y: seq<T>, z: seq<T>)
    ensures x + (y + z) == x + y + z
  {
  }

  lemma PeelHead<T>(a: seq<T>, b: seq<T>)
    requires a != []
    ensures a == [a[0]] + a[1..] && a + b == [a[0]] + (a[1..] + b)
  {
  }

  lemma ConsParts<T>(t: T, s: seq<T>)
    ensures ([t] + s)[0] == t && ([t] + s)[1..] == s
  {
  }

  lemma SplitAround<T>(s: seq<T>, i: nat, n: nat)
    requires i + n <= |s|
    ensures s == s[..i] + s[i..i + n] + s[i + n..]
  {
  }

  lemma InTail<T>(s: seq<T>, t: T)
    requires s != [] && t in s[1..]
    ensures t in s
  {
  }
}
