/**
 * `extract_domain` and `clean_company_name`: the domain of a URL and the
 * company name derived from it. Both take the URL's netloc, which is what
 * `urlparse(url).netloc` yields.
 */
module CompanyNames {
  import opened Strings

  /**
   * `extract_domain`: every `"www."` removed first, then whitespace
   * stripped, then lower-cased. Because the removal comes before the
   * lower-casing, an upper-case `"WWW."` is kept (as `"www."`).
   */
  function ExtractDomain(netloc: string): (d: string)
    ensures IsLowerCase(d) && |d| <= |netloc|
    ensures d != [] ==> !IsSpace(d[0]) && !IsSpace(d[|d| - 1])
  {
    var s := Strip(RemoveAll(netloc, "www."));
    var d := Lower(s);
    assert d != [] ==> d[0] == LowerChar(s[0]) && d[|d| - 1] == LowerChar(s[|s| - 1]);
    d
  }

  /** The first `.`-separated label of the domain (`domain.split(".")[0]`). */
  function DomainLabel(netloc: string): (l: string)
    ensures IsLowerCase(l) && '.' !in l
    ensures l <= ExtractDomain(netloc)
  {
    var d := ExtractDomain(netloc);
    var l := FirstField(d, '.');
    assert forall i :: 0 <= i < |l| ==> l[i] == d[i];
    l
  }

  /**
   * `clean_company_name`: the first label of the domain, capitalised.
   * The name holds no `.`, is empty exactly when that label is, starts
   * with a character that is not a lower-case letter (an upper-case one
   * when the label starts with a letter), has no upper-case letter after
   * that, and lower-cases back to the label itself.
   */
  function CleanCompanyName(netloc: string): (name: string)
    ensures '.' !in name
    ensures |name| == |DomainLabel(netloc)| && (name == [] <==> DomainLabel(netloc) == [])
    ensures name != [] ==> !IsLower(name[0]) && (IsLower(DomainLabel(netloc)[0]) ==> IsUpper(name[0]))
    ensures forall i :: 1 <= i < |name| ==> !IsUpper(name[i])
    ensures Lower(name) == DomainLabel(netloc)
  {
    var l := DomainLabel(netloc);
    LowerCapitalize(l);
    CapitalizeKeepsNonLetters(l, '.');
    Capitalize(l)
  }

  /**
   * A netloc without a lower-case `w` and without whitespace at its ends
   * is only lower-cased by `extract_domain`.
   */
  lemma PlainNetlocDomain(netloc: string)
    requires 'w' !in netloc
    requires netloc != [] && !IsSpace(netloc[0]) && !IsSpace(netloc[|netloc| - 1])
    ensures ExtractDomain(netloc) == Lower(netloc)
  {
    if Contains(netloc, "www.") {
      ContainedChars(netloc, "www.");
      assert false;
    }
    assert RemoveAll(netloc, "www.") == netloc;
    StripTrimmed(netloc);
  }

  /**
   * An upper-case `"WWW."` is not removed, since the removal comes before
   * the lower-casing: it survives as `"www."`, and the company name of
   * `WWW.ACME.COM` is `"Www"`.
   */
  lemma UpperCaseWwwSurvives(rest: string)
    requires 'w' !in rest && rest != [] && !IsSpace(rest[|rest| - 1])
    ensures ExtractDomain("WWW." + rest) == "www." + Lower(rest)
    ensures DomainLabel("WWW." + rest) == "www"
    ensures CleanCompanyName("WWW." + rest) == "Www"
  {
    var netloc := "WWW." + rest;
    PlainNetlocDomain(netloc);
    LowerAppend("WWW.", rest);
    var d := ExtractDomain(netloc);
    WwwFront(Lower(rest), d);
    FirstFieldEndsAt(d, '.', 3);
  }

  /** The literal facts behind the lemma above. */
  lemma WwwFront(lr: string, d: string)
    requires d == Lower("WWW.") + lr
    ensures d == "www." + lr && d[..3] == "www" && d[3] == '.' && '.' !in d[..3]
    ensures Capitalize("www") == "Www"
  {
    assert Lower("WWW.") == "www.";
  }

  /**
   * A leading `"www."` is taken out by `extract_domain`: when the rest
   * holds no further `"www."` and no whitespace at its ends, the domain is
   * the rest lower-cased, and the company name is its first label,
   * capitalised.
   */
  lemma LeadingWwwRemoved(rest: string)
    requires !Contains(rest, "www.")
    requires rest != [] && !IsSpace(rest[0]) && !IsSpace(rest[|rest| - 1])
    ensures ExtractDomain("www." + rest) == Lower(rest)
    ensures DomainLabel("www." + rest) == FirstField(Lower(rest), '.')
    ensures CleanCompanyName("www." + rest) == Capitalize(FirstField(Lower(rest), '.'))
  {
    RemoveAllLeading("www.", rest);
    StripTrimmed(rest);
  }

  /**
   * A lower-case netloc `www.<first>.<suffix>`, with no further `w` and no
   * `.` in its first label, has the domain `<first>.<suffix>` and the
   * company name `<first>` capitalised: `www.acme.com` gives `acme.com`
   * and `"Acme"`.
   */
  lemma WwwLabelCompanyName(first: string, suffix: string)
    requires first != [] && '.' !in first && 'w' !in first && 'w' !in suffix
    requires IsLowerCase(first) && IsLowerCase(suffix)
    requires !IsSpace(first[0]) && (suffix != [] ==> !IsSpace(suffix[|suffix| - 1]))
    ensures ExtractDomain("www." + first + "." + suffix) == first + "." + suffix
    ensures DomainLabel("www." + first + "." + suffix) == first
    ensures CleanCompanyName("www." + first + "." + suffix) == Capitalize(first)
  {
    var rest := first + "." + suffix;
    DottedFacts(first, suffix);
    Regroup("www.", first, ".");
    Regroup("www.", first + ".", suffix);
    LeadingWwwRemoved(rest);
    LowerOfLowerCase(rest);
    FirstFieldEndsAt(rest, '.', |first|);
  }

  /** The facts about `<first>.<suffix>` that the lemma above relies on. */
  lemma DottedFacts(first: string, suffix: string)
    requires first != [] && '.' !in first && 'w' !in first && 'w' !in suffix
    requires IsLowerCase(first) && IsLowerCase(suffix)
    requires !IsSpace(first[0]) && (suffix != [] ==> !IsSpace(suffix[|suffix| - 1]))
    ensures var rest := first + "." + suffix;
            && !Contains(rest, "www.")
            && rest != [] && !IsSpace(rest[0]) && !IsSpace(rest[|rest| - 1])
            && IsLowerCase(rest)
            && |first| < |rest| && rest[|first|] == '.' && '.' !in rest[..|first|]
            && rest[..|first|] == first
  {
    var rest := first + "." + suffix;
    assert 'w' !in rest && "www."[0] == 'w';
    if Contains(rest, "www.") {
      ContainedChars(rest, "www.");
      assert false;
    }
    assert rest[0] == first[0] && rest[|rest| - 1] == (if suffix == [] then '.' else suffix[|suffix| - 1]);
    assert rest[..|first|] == first;
  }
}
