/**
 * The homepage classifier `is_company_homepage`: a search result is
 * rejected outright when its domain is on a fixed block-list (or is a
 * subdomain of an entry) or ends in a blocked suffix; otherwise a score
 * that starts at 100 is adjusted by literal substring tests on the path,
 * title and snippet, and compared with a threshold.
 */
module Homepage {
  import opened Wrappers
  import opened Strings

  /**
   * A search result as the classifier reads it. The URL is given already
   * split: `netloc` and `path` are what `urlparse(url)` yields for it.
   * A title or snippet absent from the record is `None`.
   */
  datatype SearchResult = SearchResult(netloc: string, path: string, title: Option<string>, snippet: Option<string>)

  const BlockDomains: set<string> := {
    "medium.com", "techtarget.com", "reddit.com", "quora.com", "thegoodtrade.com", "sustainablejungle.com",
    "community.openai.com", "hubspot.com", "capterra.com", "forbes.com", "springer.com", "wordpress.com",
    "dev.to", "hrvisionevent.com", "cxtoday.com", "techdogs.com", "analyticsindiamag.com", "psqh.com",
    "rupahealth.com", "appliedradiology.com", "k12dive.com", "fastercapital.com", "influencermarketinghub.com",
    "news.ycombinator.com", "profiletree.com", "mediaincanada.com", "edtechinnovationhub.com", "aithority.com",
    "theaijournal.substack.com", "scribd.com", "pmarketresearch.com", "iecc.libguides.com",
    "districtadministration.com", "mypossibilit.com", "biospace.com", "nature.com", "theguardian.com",
    "scopus.com", "sciencedirect.com", "arxiv.org", "ieee.org", "ncbi.nlm.nih.gov", "huggingface.co",
    "stackexchange.com", "stackoverflow.com", "discord.com", "venturebeat.com", "wired.com", "theverge.com",
    "nytimes.com", "cnn.com", "bbc.com", "businessinsider.com", "hashnode.com", "substack.com",
    "towardsdatascience.com", "forem.com", "inc42.com", "erpublications.com", "journals.lww.com", "ijrpr.com",
    "bestdigitaltoolsmentor.com", "xperiencify.com", "globenewswire.com", "martech360.com",
    "lpsonline.sas.upenn.edu", "nb-data.com", "monday.com", "andrewchen.com", "verywellmind.com",
    "digitalmarketinginstitute.com"
  }

  const BlockedSuffixes: seq<string> := [".blog", ".substack.com", ".notion.site", ".github.io"]

  // Token lists of the soft scoring, each tested as a literal substring.
  const ContentPageTokens: seq<string> := ["blog", "news", "post", "article", "press", "review", "comparison"]
  const ListicleTokens: seq<string> := ["top", "best", "guide", "how to", "vs", "comparison", "review"]
  const EditorialTokens: seq<string> := ["read more", "subscribe", "published", "author", "updated"]
  const CompanyPageTokens: seq<string> := ["about", "contact", "company", "services", "product"]
  const ProductPageTokens: seq<string> := ["our product", "our service", "solution", "platform", "pricing"]

  const BaseScore := 100
  const DefaultThreshold := 60

  /** `any(kw in s for kw in tokens)`. */
  predicate ContainsAny(s: string, tokens: seq<string>) {
    exists i :: 0 <= i < |tokens| && Contains(s, tokens[i])
  }

  /** `s.endswith(suffixes)` with a tuple of suffixes. */
  predicate EndsWithAny(s: string, suffixes: seq<string>) {
    exists i :: 0 <= i < |suffixes| && EndsWith(s, suffixes[i])
  }

  /**
   * The classifier's domain: the netloc lower-cased, then every `"www."`
   * removed, wherever it occurs. It holds no upper-case letter.
   */
  function HomepageDomain(netloc: string): (d: string)
    ensures IsLowerCase(d) && |d| <= |netloc|
    ensures !Contains(Lower(netloc), "www.") ==> d == Lower(netloc)
  {
    var r := RemoveAll(Lower(netloc), "www.");
    assert forall i :: 0 <= i < |r| ==> r[i] in Lower(netloc);
    r
  }

  /** The path with its leading and trailing `/` removed, lower-cased. */
  function HomepagePath(path: string): (p: string)
    ensures IsLowerCase(p)
    ensures p != [] ==> p[0] != '/' && p[|p| - 1] != '/'
  {
    Lower(StripBy(path, c => c == '/'))
  }

  /** `domain == d or domain.endswith("." + d)` for some block-list entry `d`. */
  predicate OnBlockList(domain: string) {
    exists d | d in BlockDomains :: domain == d || EndsWith(domain, "." + d)
  }

  /** The two guards that return `False` before any scoring. */
  predicate HardRejected(domain: string) {
    OnBlockList(domain) || EndsWithAny(domain, BlockedSuffixes)
  }

  /**
   * The score of a result that passed the guards, from its normalised path,
   * title and snippet: three penalties and two bonuses, each applied at most
   * once, so the score lies between 40 and 120.
   */
  function HomepageScore(path: string, title: string, snippet: string): (score: int)
    ensures 40 <= score <= 120
    ensures (&& ContainsAny(path, CompanyPageTokens)
             && !ContainsAny(path, ContentPageTokens)
             && !ContainsAny(title, ListicleTokens)
             && !ContainsAny(snippet, EditorialTokens)) ==> score >= 110
  {
    BaseScore
    - (if ContainsAny(path, ContentPageTokens) then 30 else 0)
    - (if ContainsAny(title, ListicleTokens) then 15 else 0)
    - (if ContainsAny(snippet, EditorialTokens) then 15 else 0)
    + (if ContainsAny(path, CompanyPageTokens) then 10 else 0)
    + (if ContainsAny(snippet, ProductPageTokens) then 10 else 0)
  }

  function ResultScore(result: SearchResult): (score: int)
    ensures 40 <= score <= 120
  {
    HomepageScore(HomepagePath(result.path), Lower(result.title.GetOr("")), Lower(result.snippet.GetOr("")))
  }

  /** What `is_company_homepage(result, threshold)` returns. */
  predicate LikelyHomepage(result: SearchResult, threshold: int) {
    !HardRejected(HomepageDomain(result.netloc)) && ResultScore(result) >= threshold
  }

  /** `is_company_homepage`: early returns for the guards, then the score adjusted step by step. */
  method IsCompanyHomepage(result: SearchResult, threshold: int := DefaultThreshold) returns (accepted: bool)
    ensures accepted == LikelyHomepage(result, threshold)
    ensures HardRejected(HomepageDomain(result.netloc)) ==> !accepted
    ensures !HardRejected(HomepageDomain(result.netloc)) && threshold <= 40 ==> accepted
    ensures threshold > 120 ==> !accepted
  {
    var domain := HomepageDomain(result.netloc);
    var path := HomepagePath(result.path);
    var title := Lower(result.title.GetOr(""));
    var snippet := Lower(result.snippet.GetOr(""));

    if OnBlockList(domain) {
      return false;
    }
    if EndsWithAny(domain, BlockedSuffixes) {
      return false;
    }

    var score := BaseScore;
    if ContainsAny(path, ContentPageTokens) {
      score := score - 30;
    }
    if ContainsAny(title, ListicleTokens) {
      score := score - 15;
    }
    if ContainsAny(snippet, EditorialTokens) {
      score := score - 15;
    }
    if ContainsAny(path, CompanyPageTokens) {
      score := score + 10;
    }
    if ContainsAny(snippet, ProductPageTokens) {
      score := score + 10;
    }
    accepted := score >= threshold;
  }

  /**
   * Hard rejection: a domain equal to a block-list entry, a subdomain of
   * one, or ending in a blocked suffix is refused whatever the path, title,
   * snippet and threshold.
   */
  lemma HardRejection(result: SearchResult, threshold: int)
    ensures var domain := HomepageDomain(result.netloc);
            forall d :: d in BlockDomains && (domain == d || EndsWith(domain, "." + d)) ==> !LikelyHomepage(result, threshold)
    ensures var domain := HomepageDomain(result.netloc);
            forall i :: 0 <= i < |BlockedSuffixes| && EndsWith(domain, BlockedSuffixes[i]) ==> !LikelyHomepage(result, threshold)
  {
  }

  /**
   * Thresholds: a result that passes the guards is accepted at every
   * threshold up to 40 and at none above 120, and acceptance at `t`
   * implies acceptance at every lower threshold.
   */
  lemma ThresholdBounds(result: SearchResult, t: int, t': int)
    requires !HardRejected(HomepageDomain(result.netloc))
    ensures t <= 40 ==> LikelyHomepage(result, t)
    ensures t > 120 ==> !LikelyHomepage(result, t)
    ensures LikelyHomepage(result, t) && t' <= t ==> LikelyHomepage(result, t')
  {
  }

  /**
   * The classifier lower-cases before it removes `"www."`, so an upper-case
   * `"WWW."` prefix is dropped too (unlike in `extract_domain`).
   */
  lemma UpperCaseWwwDropped(rest: string)
    requires 'w' !in rest && 'W' !in rest
    ensures HomepageDomain("WWW." + rest) == Lower(rest)
  {
    var l := Lower("WWW." + rest);
    assert l == "www." + Lower(rest);
    assert l[..4] == "www." && l[4..] == Lower(rest);
    assert 'w' !in Lower(rest);
    assert "www."[0] == 'w';
    if Contains(Lower(rest), "www.") {
      ContainedChars(Lower(rest), "www.");
      assert false;
    }
  }

  /**
   * `"www."` is removed wherever it occurs, not only at the start: with no
   * `w` of either case around it, `shop.www.acme.com` becomes
   * `shop.acme.com`.
   */
  lemma InnerWwwDropped(before: string, after: string)
    requires 'w' !in before && 'W' !in before && 'w' !in after && 'W' !in after
    ensures HomepageDomain(before + "www." + after) == Lower(before) + Lower(after)
  {
    var lb, la := Lower(before), Lower(after);
    LowerAroundWww(before, after);
    LowerAvoids(before, 'w');
    LowerAvoids(after, 'w');
    NoWwwUpToPrefix(lb);
    RemoveAllAfter(lb, "www.", la);
    RemoveAllAbsent(la, "www.", 'w');
  }

  lemma LowerAroundWww(before: string, after: string)
    ensures Lower(before + "www." + after) == Lower(before) + "www." + Lower(after)
  {
    LowerAppend(before + "www.", after);
    LowerAppend(before, "www.");
    LowerOfLowerCase("www.");
  }

  /** Without a `w` in `p`, no `"www."` ends before the three `w` that follow it. */
  lemma NoWwwUpToPrefix(p: string)
    requires 'w' !in p
    ensures !Contains(p + "www."[..3], "www.")
  {
    var head := p + "www."[..3];
    assert forall j :: 0 <= j < |p| ==> head[j] != 'w';
    assert "www."[0] == 'w';
    if Contains(head, "www.") {
      var j := ContainsWitness(head, "www.");
      assert false;
    }
  }

  /**
   * A result that passes the guards, whose path mentions `about` and which
   * carries no penalty token scores at least 110, so it is accepted at
   * every threshold up to 110.
   */
  lemma AboutPageAccepted(result: SearchResult, threshold: int)
    requires !HardRejected(HomepageDomain(result.netloc))
    requires Contains(HomepagePath(result.path), "about")
    requires !ContainsAny(HomepagePath(result.path), ContentPageTokens)
    requires !ContainsAny(Lower(result.title.GetOr("")), ListicleTokens)
    requires !ContainsAny(Lower(result.snippet.GetOr("")), EditorialTokens)
    requires threshold <= 110
    ensures LikelyHomepage(result, threshold)
  {
    assert CompanyPageTokens[0] == "about";
  }

  /** A `medium.com` article is refused by the block-list. */
  lemma MediumArticleRejected(threshold: int)
    ensures !LikelyHomepage(SearchResult("medium.com", "/@x/my-post", Some("..."), Some("...")), threshold)
  {
    var netloc := "medium.com";
    assert IsLowerCase(netloc);
    LowerOfLowerCase(netloc);
    assert "www."[0] == 'w' && 'w' !in netloc;
    if Contains(netloc, "www.") {
      ContainedChars(netloc, "www.");
      assert false;
    }
    assert HomepageDomain(netloc) == netloc;
    assert "medium.com" in BlockDomains;
    assert OnBlockList("medium.com");
  }
}
