/**
 * The part of `extract_keywords` that follows the TF-IDF vectorizer: the
 * character cleaning of the input text, the stable sort of the scored
 * terms by descending score, the length and digit filter, the greedy
 * substring de-duplication capped at `top_n`, and the `", "` join. The
 * vectorizer itself is a parameter; it returns `None` when it raises.
 */
module Keywords {
  import opened Wrappers
  import opened Strings

  /** One `(term, score)` pair produced by the vectorizer. */
  datatype ScoredTerm = ScoredTerm(term: string, score: real)

  const DefaultTopN := 10

  // ---------------------------------------------------------------------
  // Character cleaning: every character that is not an ASCII letter,
  // digit or whitespace becomes a space
  // ---------------------------------------------------------------------

  /** The characters the cleaning keeps: ASCII letters and digits and whitespace. */
  predicate IsWordOrSpace(c: char) {
    IsUpper(c) || IsLower(c) || IsDigit(c) || IsSpace(c)
  }

  /**
   * Every character outside the kept class becomes one space; the text
   * keeps its length and every kept character stays where it was.
   */
  function CleanText(text: string): (r: string)
    ensures |r| == |text|
    ensures forall i :: 0 <= i < |r| ==> IsWordOrSpace(r[i])
    ensures forall i :: 0 <= i < |r| ==> IsWordOrSpace(text[i]) ==> r[i] == text[i]
    ensures forall i :: 0 <= i < |r| ==> !IsWordOrSpace(text[i]) ==> r[i] == ' '
  {
    seq(|text|, i requires 0 <= i < |text| => if IsWordOrSpace(text[i]) then text[i] else ' ')
  }

  /** Cleaning a cleaned text changes nothing. */
  lemma CleanTextIdempotent(text: string)
    ensures CleanText(CleanText(text)) == CleanText(text)
  {
  }

  // ---------------------------------------------------------------------
  // Stable sort of the scored terms by descending score
  // ---------------------------------------------------------------------

  ghost predicate SortedByScoreDesc(s: seq<ScoredTerm>) {
    forall i, j :: 0 <= i < j < |s| ==> s[i].score >= s[j].score
  }

  /** The elements of `s` with score `v`, in their order in `s`. */
  function WithScore(s: seq<ScoredTerm>, v: real): (r: seq<ScoredTerm>)
    ensures |r| <= |s|
    ensures forall i :: 0 <= i < |r| ==> r[i].score == v
    decreases |s|
  {
    if s == [] then []
    else if s[0].score == v then [s[0]] + WithScore(s[1..], v)
    else WithScore(s[1..], v)
  }

  /** `x` goes in front of the first element whose score is not above its own. */
  function InsertByScore(x: ScoredTerm, s: seq<ScoredTerm>): (r: seq<ScoredTerm>)
    ensures |r| == |s| + 1 && multiset(r) == multiset(s) + multiset{x}
    decreases |s|
  {
    if s == [] || s[0].score <= x.score then [x] + s
    else
      assert s == [s[0]] + s[1..];
      [s[0]] + InsertByScore(x, s[1..])
  }

  /** Python's stable `sorted(..., reverse=True)` on the score, as an insertion sort. */
  function SortByScoreDesc(s: seq<ScoredTerm>): (r: seq<ScoredTerm>)
    ensures |r| == |s| && multiset(r) == multiset(s)
    decreases |s|
  {
    if s == [] then []
    else
      assert s == [s[0]] + s[1..];
      InsertByScore(s[0], SortByScoreDesc(s[1..]))
  }

  lemma {:induction false} InsertSorted(x: ScoredTerm, s: seq<ScoredTerm>)
    requires SortedByScoreDesc(s)
    ensures SortedByScoreDesc(InsertByScore(x, s))
    decreases |s|
  {
    if s != [] && s[0].score > x.score {
      InsertSorted(x, s[1..]);
      var r := InsertByScore(x, s);
      forall i, j | 0 <= i < j < |r|
        ensures r[i].score >= r[j].score
      {
        if i == 0 {
          assert r[j] in multiset(s[1..]) + multiset{x};
          assert r[j] in s[1..] || r[j] == x;
        }
      }
    }
  }

  lemma {:induction false} InsertStable(x: ScoredTerm, s: seq<ScoredTerm>, v: real)
    requires SortedByScoreDesc(s)
    ensures WithScore(InsertByScore(x, s), v) == if x.score == v then [x] + WithScore(s, v) else WithScore(s, v)
    decreases |s|
  {
    if s != [] && s[0].score > x.score {
      InsertStable(x, s[1..], v);
      if x.score == v {
        // s is sorted and s[0] is above x, so every element of s with x's score comes after s[0]
        assert s[0].score != v;
      }
    }
  }

  /**
   * The sort puts the scores in non-increasing order, is a permutation, and
   * is stable: for every score, the terms with that score appear in the
   * same order as in the input.
   */
  lemma {:induction false} SortByScoreDescCorrect(s: seq<ScoredTerm>)
    ensures SortedByScoreDesc(SortByScoreDesc(s))
    ensures multiset(SortByScoreDesc(s)) == multiset(s)
    ensures forall v :: WithScore(SortByScoreDesc(s), v) == WithScore(s, v)
    decreases |s|
  {
    if s != [] {
      SortByScoreDescCorrect(s[1..]);
      InsertSorted(s[0], SortByScoreDesc(s[1..]));
      forall v
        ensures WithScore(SortByScoreDesc(s), v) == WithScore(s, v)
      {
        InsertStable(s[0], SortByScoreDesc(s[1..]), v);
      }
    }
  }

  /** A term is in the group of its own score; so a non-empty sequence has a non-empty group. */
  lemma {:induction false} InOwnGroup(s: seq<ScoredTerm>, k: nat)
    requires k < |s|
    ensures s[k] in WithScore(s, s[k].score)
    decreases k
  {
    if k > 0 {
      InOwnGroup(s[1..], k - 1);
    }
  }

  lemma {:induction false} GroupMember(s: seq<ScoredTerm>, v: real, x: ScoredTerm)
    requires x in WithScore(s, v)
    ensures x in s
    decreases |s|
  {
    if s[0] != x {
      GroupMember(s[1..], v, x);
    }
  }

  /** The first elements of two sorted sequences that agree group by group are the same. */
  lemma SameHead(a: seq<ScoredTerm>, b: seq<ScoredTerm>)
    requires a != [] && b != []
    requires SortedByScoreDesc(a) && SortedByScoreDesc(b)
    requires forall v :: WithScore(a, v) == WithScore(b, v)
    ensures a[0] == b[0]
  {
    InOwnGroup(a, 0);
    InOwnGroup(b, 0);
    GroupMember(a, b[0].score, b[0]);
    GroupMember(b, a[0].score, a[0]);
    assert a[0].score >= b[0].score by {
      var k :| 0 <= k < |a| && a[k] == b[0];
    }
    assert b[0].score >= a[0].score by {
      var k :| 0 <= k < |b| && b[k] == a[0];
    }
    var v := a[0].score;
    assert a[0].score == v == b[0].score;
    assert WithScore(a, v)[0] == a[0];
    assert WithScore(b, v)[0] == b[0];
  }

  /** Removing an equal first element keeps the groups equal. */
  lemma SameTailGroups(a: seq<ScoredTerm>, b: seq<ScoredTerm>, w: real)
    requires a != [] && b != [] && a[0] == b[0]
    requires WithScore(a, w) == WithScore(b, w)
    ensures WithScore(a[1..], w) == WithScore(b[1..], w)
  {
    if a[0].score == w {
      assert WithScore(a[1..], w) == WithScore(a, w)[1..];
      assert WithScore(b[1..], w) == WithScore(b, w)[1..];
    }
  }

  /**
   * The two properties of the sort determine its result: two sequences
   * that are both in non-increasing score order and agree on the order of
   * every group of equal scores are equal. So `SortByScoreDesc` is the
   * only stable descending sort.
   */
  lemma {:induction false} StableSortUnique(a: seq<ScoredTerm>, b: seq<ScoredTerm>)
    requires SortedByScoreDesc(a) && SortedByScoreDesc(b)
    requires forall v :: WithScore(a, v) == WithScore(b, v)
    ensures a == b
    decreases |a|
  {
    if a == [] {
      if b != [] {
        InOwnGroup(b, 0);
        assert false;
      }
    } else if b == [] {
      InOwnGroup(a, 0);
      assert false;
    } else {
      SameHead(a, b);
      forall w
        ensures WithScore(a[1..], w) == WithScore(b[1..], w)
      {
        SameTailGroups(a, b, w);
      }
      StableSortUnique(a[1..], b[1..]);
      assert a == [a[0]] + a[1..];
      assert b == [b[0]] + b[1..];
    }
  }

  // ---------------------------------------------------------------------
  // Length and digit filter on each term, then strip and lower-case
  // ---------------------------------------------------------------------

  /** Python's `str.isdigit()` on ASCII: non-empty and made of digits only. */
  predicate IsDigits(w: string) {
    |w| > 0 && forall i :: 0 <= i < |w| ==> IsDigit(w[i])
  }

  /** The filter on the vectorizer's term, before it is normalised. */
  predicate IsCandidate(w: string) {
    |w| > 2 && !IsDigits(w)
  }

  /** The normalised form of a term: stripped, then lower-cased. */
  function NormalizeTerm(w: string): (r: string)
    ensures |r| <= |w| && IsLowerCase(r)
  {
    Lower(Strip(w))
  }

  /** `x` is the normalised form of a term of `s` that passes the filter. */
  ghost predicate NormalizedCandidateOf(x: string, s: seq<ScoredTerm>) {
    exists t :: t in s && IsCandidate(t.term) && x == NormalizeTerm(t.term)
  }

  /** A candidate of the tail is a candidate of the whole sequence. */
  lemma CandidateOfTail(sorted: seq<ScoredTerm>, x: string)
    requires sorted != [] && NormalizedCandidateOf(x, sorted[1..])
    ensures NormalizedCandidateOf(x, sorted)
  {
    var t :| t in sorted[1..] && IsCandidate(t.term) && x == NormalizeTerm(t.term);
    InTail(sorted, t);
  }

  /** Putting the first term's contribution in front of the tail's candidates keeps every candidate traceable to a term. */
  lemma PrependCandidate(sorted: seq<ScoredTerm>, rest: seq<string>)
    requires sorted != []
    requires forall k :: 0 <= k < |rest| ==> NormalizedCandidateOf(rest[k], sorted[1..])
    ensures forall k :: 0 <= k < |Contribution(sorted[0]) + rest| ==> NormalizedCandidateOf((Contribution(sorted[0]) + rest)[k], sorted)
  {
    var c := Contribution(sorted[0]);
    var r := c + rest;
    forall k | 0 <= k < |r|
      ensures NormalizedCandidateOf(r[k], sorted)
    {
      if k < |c| {
        assert r[k] == NormalizeTerm(sorted[0].term) && sorted[0] == sorted[0];
        assert sorted[0] in sorted;
      } else {
        assert r[k] == rest[k - |c|];
        CandidateOfTail(sorted, rest[k - |c|]);
      }
    }
  }

  /** The normalised candidate terms, in the order of the sorted pairs. */
  function Candidates(sorted: seq<ScoredTerm>): (r: seq<string>)
    ensures |r| <= |sorted|
    ensures forall k :: 0 <= k < |r| ==> NormalizedCandidateOf(r[k], sorted)
    decreases |sorted|
  {
    if sorted == [] then []
    else
      var rest := Candidates(sorted[1..]);
      PrependCandidate(sorted, rest);
      Contribution(sorted[0]) + rest
  }

  /** What one term in front contributes to the candidates. */
  function Contribution(t: ScoredTerm): seq<string> {
    if IsCandidate(t.term) then [NormalizeTerm(t.term)] else []
  }

  lemma CandidatesCons(t: ScoredTerm, s: seq<ScoredTerm>)
    ensures Candidates([t] + s) == Contribution(t) + Candidates(s)
  {
    ConsParts(t, s);
  }

  /** The filter works term by term: the candidates of a concatenation are those of its parts, in order. */
  lemma {:induction false} CandidatesAppend(a: seq<ScoredTerm>, b: seq<ScoredTerm>)
    ensures Candidates(a + b) == Candidates(a) + Candidates(b)
    decreases |a|
  {
    if a != [] {
      var t, a' := a[0], a[1..];
      PeelHead(a, b);
      CandidatesCons(t, a' + b);
      CandidatesCons(t, a');
      CandidatesAppend(a', b);
      Regroup(Contribution(t), Candidates(a'), Candidates(b));
    } else {
      assert a + b == b;
    }
  }

  lemma CandidatesAround(a: seq<ScoredTerm>, t: ScoredTerm, b: seq<ScoredTerm>)
    ensures Candidates(a + ([t] + b)) == Candidates(a) + Contribution(t) + Candidates(b)
  {
    CandidatesAppend(a, [t] + b);
    CandidatesCons(t, b);
    Regroup(Candidates(a), Contribution(t), Candidates(b));
  }

  /**
   * The term at position `k` contributes exactly its normalised form when it
   * passes the filter and nothing otherwise, between the candidates of the
   * terms before it and those of the terms after it; so every term that
   * passes the filter is kept.
   */
  lemma CandidatesAt(sorted: seq<ScoredTerm>, k: nat)
    requires k < |sorted|
    ensures Candidates(sorted) == Candidates(sorted[..k]) + Contribution(sorted[k]) + Candidates(sorted[k + 1..])
    ensures IsCandidate(sorted[k].term) ==> NormalizeTerm(sorted[k].term) in Candidates(sorted)
  {
    var front, t, back := sorted[..k], sorted[k], sorted[k + 1..];
    SplitAround(sorted, k, 1);
    assert sorted[k..k + 1] == [t];
    Regroup(front, [t], back);
    CandidatesAround(front, t, back);
    ContributionMember(Candidates(front), t, Candidates(back));
  }

  lemma ContributionMember(before: seq<string>, t: ScoredTerm, after: seq<string>)
    ensures IsCandidate(t.term) ==> NormalizeTerm(t.term) in before + Contribution(t) + after
  {
    if IsCandidate(t.term) {
      assert (before + Contribution(t) + after)[|before|] == NormalizeTerm(t.term);
    }
  }

  /**
   * A term the vectorizer produces has no whitespace at its ends (its
   * tokens are runs of word characters, joined by one space for bigrams);
   * for such terms normalising keeps the length and the digit test.
   */
  predicate Trimmed(w: string) {
    w != [] ==> !IsSpace(w[0]) && !IsSpace(w[|w| - 1])
  }

  lemma NormalizeTrimmed(w: string)
    requires Trimmed(w)
    ensures |NormalizeTerm(w)| == |w|
    ensures IsDigits(NormalizeTerm(w)) == IsDigits(w)
  {
    StripTrimmed(w);
    var r := NormalizeTerm(w);
    assert forall i :: 0 <= i < |w| ==> (IsDigit(r[i]) <==> IsDigit(w[i]));
  }

  // ---------------------------------------------------------------------
  // The greedy de-duplication loop, capped at top_n
  // ---------------------------------------------------------------------

  /** `kw in existing or existing in kw`. */
  predicate Overlaps(kw: string, existing: string) {
    Contains(existing, kw) || Contains(kw, existing)
  }

  /** `any(kw in existing or existing in kw for existing in final_keywords)`. */
  predicate OverlapsAny(kw: string, kept: seq<string>) {
    exists j :: 0 <= j < |kept| && Overlaps(kw, kept[j])
  }

  /** No kept keyword is a substring of another one. */
  ghost predicate NoOverlap(kept: seq<string>) {
    forall i, j :: 0 <= i < |kept| && 0 <= j < |kept| && i != j ==> !Contains(kept[i], kept[j])
  }

  /**
   * The loop of `extract_keywords` from the state `kept` with the terms
   * `rest` still to visit: a term that overlaps no kept keyword is
   * appended, and the walk stops as soon as the number kept equals `topN`
   * (a test made after every term, whether it was appended or not).
   */
  function GreedySelect(kept: seq<string>, rest: seq<string>, topN: int): (r: seq<string>)
    ensures |kept| <= |r| <= |kept| + |rest|
    decreases |rest|
  {
    if rest == [] then kept
    else
      var next := if OverlapsAny(rest[0], kept) then kept else kept + [rest[0]];
      if |next| == topN then next else GreedySelect(next, rest[1..], topN)
  }

  /** `xs` is `ys` with some elements left out, the rest in the same order. */
  ghost predicate IsSubsequence(xs: seq<string>, ys: seq<string>)
    decreases |ys|
  {
    xs == [] || (ys != [] && ((xs[0] == ys[0] && IsSubsequence(xs[1..], ys[1..])) || IsSubsequence(xs, ys[1..])))
  }

  lemma {:induction false} SubsequenceSkip(xs: seq<string>, y: string, ys: seq<string>)
    requires IsSubsequence(xs, ys)
    ensures IsSubsequence(xs, [y] + ys)
  {
    assert ([y] + ys)[1..] == ys;
  }

  lemma {:induction false} SubsequenceTake(x: string, xs: seq<string>, ys: seq<string>)
    requires IsSubsequence(xs, ys)
    ensures IsSubsequence([x] + xs, [x] + ys)
  {
    assert ([x] + xs)[1..] == xs;
    assert ([x] + ys)[1..] == ys;
  }

  /** Appending a term that overlaps none of the kept ones keeps them pairwise non-overlapping. */
  lemma AppendKeepsNoOverlap(kept: seq<string>, kw: string)
    requires NoOverlap(kept) && !OverlapsAny(kw, kept)
    ensures NoOverlap(kept + [kw])
  {
    var r := kept + [kw];
    forall i, j | 0 <= i < |r| && 0 <= j < |r| && i != j
      ensures !Contains(r[i], r[j])
    {
      if i == |kept| {
        assert !Overlaps(kw, kept[j]);
      } else if j == |kept| {
        assert !Overlaps(kw, kept[i]);
      }
    }
  }

  /** The walk only appends, so the result starts with `kept`; what it appends is a subsequence of `rest`. */
  lemma {:induction false} GreedyExtends(kept: seq<string>, rest: seq<string>, topN: int)
    ensures |GreedySelect(kept, rest, topN)| >= |kept|
    ensures GreedySelect(kept, rest, topN)[..|kept|] == kept
    ensures IsSubsequence(GreedySelect(kept, rest, topN)[|kept|..], rest)
    decreases |rest|
  {
    var r := GreedySelect(kept, rest, topN);
    if rest == [] {
      assert r[|kept|..] == [];
    } else {
      var taken := !OverlapsAny(rest[0], kept);
      var next := if taken then kept + [rest[0]] else kept;
      var tail := if |next| == topN then [] else rest[1..];
      if |next| != topN {
        GreedyExtends(next, rest[1..], topN);
      } else {
        assert r == next;
        assert r[|next|..] == [];
      }
      assert r[..|next|] == next && IsSubsequence(r[|next|..], tail);
      if |next| == topN {
        assert IsSubsequence(r[|next|..], rest[1..]);
      }
      if taken {
        assert r[|kept|..] == [rest[0]] + r[|next|..];
        SubsequenceTake(rest[0], r[|next|..], rest[1..]);
      } else {
        SubsequenceSkip(r[|kept|..], rest[0], rest[1..]);
      }
      assert rest == [rest[0]] + rest[1..];
    }
  }

  /** Every kept keyword is pairwise non-overlapping with the others when the start state is. */
  lemma {:induction false} GreedyNoOverlap(kept: seq<string>, rest: seq<string>, topN: int)
    requires NoOverlap(kept)
    ensures NoOverlap(GreedySelect(kept, rest, topN))
    decreases |rest|
  {
    if rest != [] {
      var next := if OverlapsAny(rest[0], kept) then kept else kept + [rest[0]];
      if !OverlapsAny(rest[0], kept) {
        AppendKeepsNoOverlap(kept, rest[0]);
      }
      if |next| != topN {
        GreedyNoOverlap(next, rest[1..], topN);
      }
    }
  }

  /** With a positive cap that the start state is below, the walk keeps at most `topN` keywords. */
  lemma {:induction false} GreedyBound(kept: seq<string>, rest: seq<string>, topN: int)
    requires topN >= 1 && |kept| < topN
    ensures |GreedySelect(kept, rest, topN)| <= topN
    decreases |rest|
  {
    if rest != [] {
      var next := if OverlapsAny(rest[0], kept) then kept else kept + [rest[0]];
      if |next| != topN {
        GreedyBound(next, rest[1..], topN);
      }
    }
  }

  /**
   * Unless the walk stopped at the cap, every visited term ends up either
   * kept or overlapping a kept keyword. With `topN <= 0` the cap is never
   * reached once a term has been kept, so no term is dropped for any other
   * reason than an overlap.
   */
  lemma {:induction false} GreedyMaximal(kept: seq<string>, rest: seq<string>, topN: int)
    requires topN < 1 || |GreedySelect(kept, rest, topN)| < topN
    ensures forall k :: 0 <= k < |rest| ==>
              rest[k] in GreedySelect(kept, rest, topN) || OverlapsAny(rest[k], GreedySelect(kept, rest, topN))
    decreases |rest|
  {
    if rest != [] {
      var r := GreedySelect(kept, rest, topN);
      var next := if OverlapsAny(rest[0], kept) then kept else kept + [rest[0]];
      assert |next| != topN by {
        if topN >= 1 {
          GreedyExtends(next, rest[1..], topN);
        }
      }
      GreedyMaximal(next, rest[1..], topN);
      GreedyExtends(next, rest[1..], topN);
      assert r[..|next|] == next;
      if OverlapsAny(rest[0], kept) {
        var j :| 0 <= j < |kept| && Overlaps(rest[0], kept[j]);
        assert r[j] == kept[j];
      } else {
        assert r[|kept|] == rest[0];
      }
      forall k | 1 <= k < |rest|
        ensures rest[k] in r || OverlapsAny(rest[k], r)
      {
        assert rest[k] == rest[1..][k - 1];
      }
    }
  }

  /** `final_keywords` as the loop of `extract_keywords` builds it from `raw_keywords`. */
  method SelectKeywords(raw: seq<string>, topN: int) returns (kept: seq<string>)
    ensures kept == GreedySelect([], raw, topN)
    ensures NoOverlap(kept)
    ensures topN >= 1 ==> |kept| <= topN
    ensures forall k :: 0 <= k < |kept| ==> kept[k] in raw
  {
    kept := [];
    var i := 0;
    while i < |raw|
      invariant 0 <= i <= |raw|
      invariant GreedySelect(kept, raw[i..], topN) == GreedySelect([], raw, topN)
      invariant NoOverlap(kept)
      invariant topN >= 1 ==> |kept| < topN
      invariant forall k :: 0 <= k < |kept| ==> kept[k] in raw[..i]
    {
      var kw := raw[i];
      if !OverlapsAny(kw, kept) {
        AppendKeepsNoOverlap(kept, kw);
        kept := kept + [kw];
      }
      assert raw[i..][0] == kw && raw[i..][1..] == raw[i + 1..];
      assert forall k :: 0 <= k < |kept| ==> kept[k] in raw[..i + 1];
      if |kept| == topN {
        break;
      }
      i := i + 1;
    }
  }

  /** The keywords kept from the vectorizer's pairs. */
  function KeywordList(pairs: seq<ScoredTerm>, topN: int): seq<string> {
    GreedySelect([], Candidates(SortByScoreDesc(pairs)), topN)
  }

  /** What `extract_keywords(text, top_n)` returns; `vectorize` gives `None` when the vectorizer raises. */
  function ExtractedKeywords(text: string, vectorize: string -> Option<seq<ScoredTerm>>, topN: int): string {
    match vectorize(CleanText(text))
    case None => ""
    case Some(pairs) => Join(KeywordList(pairs, topN), ", ")
  }

  /** `extract_keywords`: clean, vectorize, sort, filter, de-duplicate, join; `""` when the vectorizer raises. */
  method ExtractKeywords(text: string, vectorize: string -> Option<seq<ScoredTerm>>, topN: int := DefaultTopN) returns (r: string)
    ensures r == ExtractedKeywords(text, vectorize, topN)
    ensures vectorize(CleanText(text)).None? ==> r == ""
    ensures vectorize(CleanText(text)).Some? ==> (r == "" <==> KeywordList(vectorize(CleanText(text)).value, topN) in {[], [[]]})
  {
    var cleaned := CleanText(text);
    var scored := vectorize(cleaned);
    if scored.None? {
      return "";
    }
    var sorted := SortByScoreDesc(scored.value);
    var raw := Candidates(sorted);
    var kept := SelectKeywords(raw, topN);
    r := Join(kept, ", ");
  }

  /**
   * The kept keywords: pairwise non-overlapping (so without duplicates), at
   * most `topN` of them for a positive `topN`, in the order of the sorted
   * candidates, each the normalised form of a term longer than two
   * characters that is not all digits.
   */
  lemma KeywordListShape(pairs: seq<ScoredTerm>, topN: int)
    ensures var kept := KeywordList(pairs, topN);
            && NoOverlap(kept)
            && (forall i, j :: 0 <= i < j < |kept| ==> kept[i] != kept[j])
            && (topN >= 1 ==> |kept| <= topN)
            && IsSubsequence(kept, Candidates(SortByScoreDesc(pairs)))
  {
    var raw := Candidates(SortByScoreDesc(pairs));
    var kept := KeywordList(pairs, topN);
    GreedyNoOverlap([], raw, topN);
    if topN >= 1 {
      GreedyBound([], raw, topN);
    }
    GreedyExtends([], raw, topN);
    assert kept[0..] == kept;
    forall i, j | 0 <= i < j < |kept|
      ensures kept[i] != kept[j]
    {
      ContainsSelf(kept[i]);
    }
  }

  /** Every kept keyword comes from a pair whose term passed the filter. */
  lemma KeywordOrigin(pairs: seq<ScoredTerm>, topN: int)
    ensures var kept := KeywordList(pairs, topN);
            forall k :: 0 <= k < |kept| ==> NormalizedCandidateOf(kept[k], pairs)
  {
    var sorted := SortByScoreDesc(pairs);
    var raw := Candidates(sorted);
    var kept := KeywordList(pairs, topN);
    GreedyExtends([], raw, topN);
    assert kept[0..] == kept;
    SortByScoreDescCorrect(pairs);
    forall k | 0 <= k < |kept|
      ensures NormalizedCandidateOf(kept[k], pairs)
    {
      SubsequenceMembers(kept, raw, k);
      var i :| 0 <= i < |raw| && raw[i] == kept[k];
      var t :| t in sorted && IsCandidate(t.term) && raw[i] == NormalizeTerm(t.term);
      assert t in multiset(pairs);
    }
  }

  lemma {:induction false} SubsequenceMembers(xs: seq<string>, ys: seq<string>, k: nat)
    requires IsSubsequence(xs, ys) && k < |xs|
    ensures xs[k] in ys
    decreases |ys|
  {
    if xs[0] == ys[0] && IsSubsequence(xs[1..], ys[1..]) {
      if k > 0 {
        SubsequenceMembers(xs[1..], ys[1..], k - 1);
      }
    } else {
      SubsequenceMembers(xs, ys[1..], k);
    }
  }

  /**
   * For terms as the vectorizer produces them (no whitespace at either
   * end), every kept keyword is longer than two characters and not all
   * digits.
   */
  lemma KeywordsLongAndNotNumeric(pairs: seq<ScoredTerm>, topN: int)
    requires forall j :: 0 <= j < |pairs| ==> Trimmed(pairs[j].term)
    ensures var kept := KeywordList(pairs, topN);
            forall k :: 0 <= k < |kept| ==> |kept[k]| > 2 && !IsDigits(kept[k])
  {
    KeywordOrigin(pairs, topN);
    var kept := KeywordList(pairs, topN);
    forall k | 0 <= k < |kept|
      ensures |kept[k]| > 2 && !IsDigits(kept[k])
    {
      var t :| t in pairs && IsCandidate(t.term) && kept[k] == NormalizeTerm(t.term);
      NormalizeTrimmed(t.term);
    }
  }

  /**
   * With `topN <= 0` the test `len(final_keywords) == top_n` never fires,
   * so every candidate is kept unless it overlaps a kept keyword.
   */
  lemma NonPositiveTopNKeepsAllDistinct(pairs: seq<ScoredTerm>, topN: int)
    requires topN <= 0
    ensures var raw := Candidates(SortByScoreDesc(pairs));
            var kept := KeywordList(pairs, topN);
            forall k :: 0 <= k < |raw| ==> raw[k] in kept || OverlapsAny(raw[k], kept)
    ensures var kept := KeywordList(pairs, topN);
            forall j :: 0 <= j < |pairs| && IsCandidate(pairs[j].term) ==>
              NormalizeTerm(pairs[j].term) in kept || OverlapsAny(NormalizeTerm(pairs[j].term), kept)
  {
    var sorted := SortByScoreDesc(pairs);
    var raw := Candidates(sorted);
    GreedyMaximal([], raw, topN);
    forall j | 0 <= j < |pairs| && IsCandidate(pairs[j].term)
      ensures NormalizeTerm(pairs[j].term) in raw
    {
      assert pairs[j] in multiset(pairs);
      assert pairs[j] in multiset(sorted);
      var k :| 0 <= k < |sorted| && sorted[k] == pairs[j];
      CandidatesAt(sorted, k);
    }
  }
}
