/**
 * The record assembly of `scrape_website`: given what the page fetch
 * produced, a profile is built from the company name of the URL and the
 * keywords of the page's content, where the content is the meta
 * description when it is non-blank and otherwise the text of the first
 * ten paragraphs.
 */
module Profile {
  import opened Wrappers
  import opened Strings
  import opened CompanyNames
  import opened Keywords

  /**
   * What fetching and parsing the page produced: a failure (the request
   * raised) or a response with its status code, the text of each `<p>`
   * element in document order, and the `content` attribute of
   * `<meta name="description">` when the tag and the attribute exist.
   */
  datatype Fetched =
    | FetchFailed
    | Response(status: int, paragraphs: seq<string>, metaDescription: Option<string>)

  /** The record `scrape_website` returns. */
  datatype CompanyProfile = CompanyProfile(url: string, companyName: string, services: string, keywords: string)

  const MaxParagraphs := 10
  const OkStatus := 200

  function StripAll(ps: seq<string>): (r: seq<string>)
    ensures |r| == |ps| && forall i :: 0 <= i < |ps| ==> r[i] == Strip(ps[i])
  {
    seq(|ps|, i requires 0 <= i < |ps| => Strip(ps[i]))
  }

  /**
   * The text of the first ten paragraphs, each stripped, joined by one
   * space: empty without paragraphs, a lone paragraph stripped, and every
   * one of the first ten paragraphs, stripped, occurs in it.
   */
  function BodyText(paragraphs: seq<string>): (b: string)
    ensures paragraphs == [] ==> b == []
    ensures |paragraphs| == 1 ==> b == Strip(paragraphs[0])
    ensures forall i :: 0 <= i < |paragraphs| && i < MaxParagraphs ==> Contains(b, Strip(paragraphs[i]))
  {
    var n := if |paragraphs| < MaxParagraphs then |paragraphs| else MaxParagraphs;
    var xs := StripAll(paragraphs[..n]);
    var b := Join(xs, " ");
    assert forall i :: 0 <= i < n ==> Contains(b, Strip(paragraphs[i])) by {
      forall i | 0 <= i < n
        ensures Contains(b, Strip(paragraphs[i]))
      {
        assert xs[i] == Strip(paragraphs[i]);
        JoinContainsEach(xs, " ", i);
      }
    }
    b
  }

  /** Below ten paragraphs, one more paragraph is appended after a single space, stripped. */
  lemma BodyTextAppend(paragraphs: seq<string>, p: string)
    requires 1 <= |paragraphs| < MaxParagraphs
    ensures BodyText(paragraphs + [p]) == BodyText(paragraphs) + " " + Strip(p)
  {
    var ps := paragraphs + [p];
    assert ps[..|ps|] == ps && paragraphs[..|paragraphs|] == paragraphs;
    assert StripAll(ps) == StripAll(paragraphs) + [Strip(p)];
    JoinAppend(StripAll(paragraphs), Strip(p), " ");
  }

  /** The meta description stripped, or `""` when there is none. */
  function MetaText(meta: Option<string>): (m: string)
    ensures m != [] ==> !IsSpace(m[0]) && !IsSpace(m[|m| - 1])
  {
    match meta
    case None => ""
    case Some(d) => Strip(d)
  }

  /** `content = meta_desc or body_text`. */
  function PageContent(paragraphs: seq<string>, meta: Option<string>): (c: string)
    ensures MetaText(meta) != [] ==> c == MetaText(meta)
    ensures MetaText(meta) == [] ==> c == BodyText(paragraphs)
  {
    var m := MetaText(meta);
    if m != [] then m else BodyText(paragraphs)
  }

  /** Paragraphs after the tenth never reach the content. */
  lemma LaterParagraphsIgnored(paragraphs: seq<string>, extra: seq<string>, meta: Option<string>)
    requires |paragraphs| >= MaxParagraphs
    ensures PageContent(paragraphs + extra, meta) == PageContent(paragraphs, meta)
  {
    assert (paragraphs + extra)[..MaxParagraphs] == paragraphs[..MaxParagraphs];
  }

  /** A non-blank meta description decides the content whatever the paragraphs are. */
  lemma MetaDescriptionWins(paragraphs: seq<string>, others: seq<string>, d: string)
    requires Strip(d) != []
    ensures PageContent(paragraphs, Some(d)) == PageContent(others, Some(d)) == Strip(d)
  {
  }

  /**
   * `scrape_website(url)`: no profile when the fetch failed or the status
   * is not 200; otherwise the profile of the URL with the company name of
   * its netloc and the keywords of the page content (`top_n` = 10).
   */
  method ScrapeWebsite(url: string, netloc: string, fetched: Fetched, vectorize: string -> Option<seq<ScoredTerm>>)
    returns (profile: Option<CompanyProfile>)
    ensures profile.None? <==> fetched.FetchFailed? || fetched.status != OkStatus
    ensures profile.Some? ==>
              var content := PageContent(fetched.paragraphs, fetched.metaDescription);
              && profile.value.url == url
              && profile.value.companyName == CleanCompanyName(netloc)
              && profile.value.services == content
              && profile.value.keywords == ExtractedKeywords(content, vectorize, DefaultTopN)
  {
    if fetched.FetchFailed? || fetched.status != OkStatus {
      return None;
    }
    var content := PageContent(fetched.paragraphs, fetched.metaDescription);
    var keywords := ExtractKeywords(content, vectorize);
    profile := Some(CompanyProfile(url, CleanCompanyName(netloc), content, keywords));
  }
}
