# Company homepage classifier, keyword extractor and profile assembly

This project models, in Dafny, the decision and string-processing core of
the competitor analyser's scraper (`code/utils/scraper.py`):

- **`is_company_homepage`** decides whether a search result is a company's
  own homepage. A domain on a fixed block-list (or a subdomain of an entry),
  or one ending in `.blog`, `.substack.com`, `.notion.site` or `.github.io`,
  is refused outright. Otherwise a score starts at 100. Literal substring
  tests on the path, title and snippet subtract 30, 15 and 15 and add 10 and
  10, each at most once. The result is accepted when the score reaches the
  threshold (default 60).
- **`extract_domain` and `clean_company_name`** normalise a URL's netloc
  into a domain and derive a capitalised company name from its first label.
- **`extract_keywords`** cleans the text to ASCII letters, digits and
  whitespace and hands it to a TF-IDF vectorizer. It sorts the scored terms
  stably by descending score and keeps terms longer than two characters
  that are not all digits. A greedy walk then keeps a term only if it is
  not a substring of, and does not contain, an already kept term, stopping
  at `top_n` terms. The kept terms are joined with `", "`. A failure of the
  vectorizer gives `""`.
- **`scrape_website`** assembles a profile from a fetched page. The content
  is the stripped meta description if it is non-blank, else the text of the
  first ten paragraphs. The profile holds the company name and the keywords
  of that content. A non-200 status or a failed fetch gives no profile.

Modules: `Wrappers` (optional values), `Strings` (the Python `str`
operations the scraper uses), `Homepage`, `CompanyNames`, `Keywords`,
`Profile`.

`is_company_homepage` is modelled as a method that adjusts a local score
step by step after the guards. It is proved equal to the predicate
`LikelyHomepage`. The loop of `extract_keywords` is the method
`SelectKeywords`, proved equal to the function `GreedySelect`. The lemmas
state the properties of those functions. Python's `sorted(...,
reverse=True)` is modelled as an insertion sort. It is proved sorted, a
permutation and stable, and to be the only sequence with those three
properties.

Choices that follow the code:
- the classifier removes every `"www."` after lower-casing, not only a
  leading label;
- the block-list, suffixes and token lists are fixed constants;
- `extract_keywords` returns a `", "`-joined string, not a sequence;
- stop words are the vectorizer's concern;
- the profile's content field is called `services`.

## Model

| member | source | states |
|---|---|---|
| `Wrappers.Option.GetOr` | code/utils/scraper.py:17-18 | the value when there is one, and the given default otherwise, as `result.get(key, "")` |
| `Strings.IsSpace` | code/utils/scraper.py:8 | the characters `str.strip()` and `str.isspace()` treat as whitespace, by code point |
| `Strings.Lower` | code/utils/scraper.py:15-18 | `str.lower()` keeps the length, maps each character on its own and leaves no upper-case letter |
| `Strings.Capitalize` | code/utils/scraper.py:65 | `str.capitalize()`: the first character upper-cased (never a lower-case letter), the rest lower-cased, same length |
| `Strings.LowerCapitalize` | code/utils/scraper.py:65 | capitalising a lower-case string and lower-casing it again gives the string back |
| `Strings.Contains` | code/utils/scraper.py:49-59 | the `in` substring test; a contained string is never longer than the container |
| `Strings.EndsWith` | code/utils/scraper.py:39 | `endswith(suffix)`: the suffix is no longer than the string and equals its last characters |
| `Strings.ContainedChars` | code/utils/scraper.py:78 | every character of a contained string occurs in the container |
| `Strings.RemoveAll` | code/utils/scraper.py:8 | `replace(pat, "")` never lengthens, introduces no character, and changes the string exactly when the pattern occurs |
| `Strings.RemoveAllAtFirst` | code/utils/scraper.py:8 | when the first occurrence of the pattern starts at `i`, the result is the text before it followed by the removal applied to the text after it: the occurrence is dropped wherever it is |
| `Strings.StripBy` | code/utils/scraper.py:16 | `strip(chars)` returns a slice of the input; everything cut off satisfies the predicate and neither end of the result does |
| `Strings.Strip` | code/utils/scraper.py:8 | `strip()` leaves no whitespace at either end |
| `Strings.FirstField` | code/utils/scraper.py:65 | `split(sep)[0]` is the longest prefix without `sep`; it ends at the first `sep` |
| `Strings.FirstFieldEndsAt` | code/utils/scraper.py:65 | the first field is the prefix before the first separator |
| `Strings.Join` | code/utils/scraper.py:83 | `sep.join(xs)` with a non-empty separator is empty exactly when the list is empty or holds only the empty string |
| `Strings.JoinAppend` | code/utils/scraper.py:83 | joining a non-empty list with one more element appends the separator and then that element, so the elements appear in order with one separator between neighbours |
| `Strings.JoinContainsEach` | code/utils/scraper.py:83 | every element of the list occurs in the joined string |
| `Homepage.HomepageDomain` | code/utils/scraper.py:15 | the classifier's domain has no upper-case letter, is no longer than the netloc, and is the lower-cased netloc when that holds no `"www."` |
| `Homepage.InnerWwwDropped` | code/utils/scraper.py:15 | a `"www."` in the middle of the netloc is removed too: `shop.www.acme.com` gives `shop.acme.com` |
| `Homepage.OnBlockList` | code/utils/scraper.py:39 | the domain equals a block-list entry or ends with `"."` followed by one |
| `Homepage.EndsWithAny` | code/utils/scraper.py:43 | `endswith` of a tuple: the string ends with at least one of the suffixes |
| `Homepage.HardRejected` | code/utils/scraper.py:38-44 | a domain is refused before scoring when it is on the block list or ends with one of `.blog`, `.substack.com`, `.notion.site`, `.github.io` |
| `Homepage.ContainsAny` | code/utils/scraper.py:49-58 | `any(kw in s for kw in tokens)`: at least one token occurs in the string |
| `Homepage.LikelyHomepage` | code/utils/scraper.py:12-61 | a result is accepted when its domain passes both guards and its score reaches the threshold |
| `Homepage.HomepagePath` | code/utils/scraper.py:16 | the path is lower-case and has no `/` at either end |
| `Homepage.HomepageScore` | code/utils/scraper.py:47-59 | the score lies in [40, 120]; an `about`-style path with no penalty token scores at least 110 |
| `Homepage.ResultScore` | code/utils/scraper.py:16-18 | the score of a result read with absent title or snippet as `""` lies in [40, 120] |
| `Homepage.IsCompanyHomepage` | code/utils/scraper.py:12-61 | the step-by-step classifier (threshold 60 by default) returns exactly `LikelyHomepage`: false on a hard rejection, true at thresholds up to 40 and false above 120 otherwise |
| `Homepage.HardRejection` | code/utils/scraper.py:38-44 | a domain equal to a block-list entry, a subdomain of one, or ending in a blocked suffix is refused whatever the path, title, snippet and threshold |
| `Homepage.ThresholdBounds` | code/utils/scraper.py:47-61 | a result past the guards is accepted at every threshold up to 40, at none above 120, and acceptance is monotone in the threshold |
| `Homepage.AboutPageAccepted` | code/utils/scraper.py:47-61 | a result past the guards whose path contains `about` and that carries no penalty token is accepted at every threshold up to 110 |
| `Homepage.UpperCaseWwwDropped` | code/utils/scraper.py:15 | the classifier drops an upper-case `"WWW."` because it lower-cases first |
| `Homepage.MediumArticleRejected` | code/utils/scraper.py:21-40 | a `medium.com` result is refused at any threshold |
| `CompanyNames.ExtractDomain` | code/utils/scraper.py:7-8 | the domain is lower-case, no longer than the netloc and has no whitespace at either end |
| `CompanyNames.DomainLabel` | code/utils/scraper.py:65 | the first label is a lower-case prefix of the domain without `.` |
| `CompanyNames.CleanCompanyName` | code/utils/scraper.py:63-65 | the name has no `.`, is empty exactly when the label is, starts with no lower-case letter (upper-case when the label starts with a letter), has no upper-case letter after that, and lower-cases back to the label |
| `CompanyNames.PlainNetlocDomain` | code/utils/scraper.py:8 | a netloc without `w` and without edge whitespace is only lower-cased |
| `CompanyNames.LeadingWwwRemoved` | code/utils/scraper.py:7-8 | a leading `"www."` is removed: the domain of `"www." + rest` is `rest` lower-cased, and the company name is its first label capitalised |
| `CompanyNames.WwwLabelCompanyName` | code/utils/scraper.py:63-65 | a lower-case netloc `www.<first>.<suffix>` without a further `w` has the domain `<first>.<suffix>` and the company name `<first>` capitalised (`www.acme.com` gives `acme.com` and `"Acme"`) |
| `CompanyNames.UpperCaseWwwSurvives` | code/utils/scraper.py:63-65 | an upper-case `"WWW."` in front of a netloc without `w` is not removed, because the removal precedes the lower-casing: the domain starts with `"www."`, the label is `"www"` and the company name is `"Www"` (as for `WWW.ACME.COM`) |
| `Keywords.IsWordOrSpace` | code/utils/scraper.py:69 | the characters the substitution keeps: ASCII letters, ASCII digits and whitespace |
| `Keywords.CleanText` | code/utils/scraper.py:69 | the substitution keeps the length, leaves only ASCII letters, digits and whitespace, keeps those in place and turns every other character into one space |
| `Keywords.CleanTextIdempotent` | code/utils/scraper.py:69 | cleaning a cleaned text changes nothing |
| `Keywords.InsertByScore` | code/utils/scraper.py:73 | inserting adds exactly the inserted pair to the multiset of pairs |
| `Keywords.SortByScoreDesc` | code/utils/scraper.py:73 | the sort keeps the length and the multiset of pairs |
| `Keywords.SortByScoreDescCorrect` | code/utils/scraper.py:73 | the sort is non-increasing in score, a permutation, and stable: each group of equal scores keeps its input order |
| `Keywords.StableSortUnique` | code/utils/scraper.py:73 | two score-descending sequences that agree on every equal-score group are equal, so the sort is the stable descending sort |
| `Keywords.NormalizeTerm` | code/utils/scraper.py:75 | `word.strip().lower()` is lower-case and no longer than the word |
| `Keywords.IsDigits` | code/utils/scraper.py:75 | `isdigit()`: the term is non-empty and made of digits only |
| `Keywords.IsCandidate` | code/utils/scraper.py:75 | the filter: the term is longer than two characters and not all digits |
| `Keywords.Contribution` | code/utils/scraper.py:75 | one term yields its stripped, lower-cased form when it passes the length and digit filter, and nothing otherwise |
| `Keywords.Candidates` | code/utils/scraper.py:75 | every candidate is the normalised form of a sorted term longer than two characters that is not all digits |
| `Keywords.CandidatesAppend` | code/utils/scraper.py:75 | the comprehension works term by term: the candidates of a concatenation are those of its parts, in order |
| `Keywords.CandidatesAt` | code/utils/scraper.py:75 | the term at each position contributes exactly its normalised form when it passes the filter and nothing otherwise, in place; so every term passing the filter is a candidate |
| `Keywords.NormalizeTrimmed` | code/utils/scraper.py:75 | for a term without edge whitespace, normalising keeps the length and the all-digits test |
| `Keywords.Overlaps` | code/utils/scraper.py:78 | two keywords overlap when either occurs in the other |
| `Keywords.OverlapsAny` | code/utils/scraper.py:78 | a keyword overlaps at least one of the kept keywords |
| `Keywords.AppendKeepsNoOverlap` | code/utils/scraper.py:78-79 | appending a term that overlaps no kept keyword keeps the list free of substring pairs |
| `Keywords.GreedySelect` | code/utils/scraper.py:76-81 | the walk from the kept list over the remaining terms keeps everything already kept and adds at most one keyword per remaining term |
| `Keywords.GreedyExtends` | code/utils/scraper.py:76-81 | the walk only appends, and what it appends is a subsequence of the remaining terms |
| `Keywords.GreedyNoOverlap` | code/utils/scraper.py:77-79 | no kept keyword is a substring of another kept keyword |
| `Keywords.GreedyBound` | code/utils/scraper.py:80-81 | with a positive `top_n`, at most `top_n` keywords are kept |
| `Keywords.GreedyMaximal` | code/utils/scraper.py:77-81 | unless the walk stopped at `top_n`, every visited term is kept or overlaps a kept keyword |
| `Keywords.SelectKeywords` | code/utils/scraper.py:76-81 | the loop returns the greedy selection; its result has no substring pairs, at most `top_n` entries for `top_n >= 1`, and only terms of the input |
| `Keywords.KeywordList` | code/utils/scraper.py:73-81 | the kept keywords: the greedy walk, from an empty list and capped at `top_n`, over the candidates of the score-sorted pairs |
| `Keywords.ExtractedKeywords` | code/utils/scraper.py:67-86 | `""` when the vectorizer raises on the cleaned text, otherwise the kept keywords joined by `", "` |
| `Keywords.ExtractKeywords` | code/utils/scraper.py:67-86 | `top_n` is 10 by default; `""` when the vectorizer fails; otherwise the `", "`-join of the kept keywords, empty exactly when nothing (or only an empty term) is kept |
| `Keywords.KeywordListShape` | code/utils/scraper.py:73-81 | the kept keywords are pairwise non-overlapping, distinct, at most `top_n` for `top_n >= 1`, and a subsequence of the sorted filtered terms |
| `Keywords.KeywordOrigin` | code/utils/scraper.py:75-79 | each kept keyword is the normalised term of an input pair longer than two characters and not all digits |
| `Keywords.KeywordsLongAndNotNumeric` | code/utils/scraper.py:75-79 | for vectorizer terms without edge whitespace, every kept keyword is longer than two characters and not all digits |
| `Keywords.NonPositiveTopNKeepsAllDistinct` | code/utils/scraper.py:75-81 | with `top_n <= 0` the cap never fires: every candidate, and so every input term that passes the filter, is kept or overlaps a kept keyword |
| `Profile.StripAll` | code/utils/scraper.py:100 | each paragraph text stripped, one for one and in order |
| `Profile.BodyText` | code/utils/scraper.py:99-100 | the paragraph text is empty without paragraphs, the stripped paragraph when there is one, and contains each of the first ten paragraphs, stripped |
| `Profile.BodyTextAppend` | code/utils/scraper.py:100 | below ten paragraphs, one more paragraph adds a single space and that paragraph stripped at the end |
| `Profile.MetaText` | code/utils/scraper.py:102-105 | the meta description is stripped, or `""` when the tag or its content is missing |
| `Profile.PageContent` | code/utils/scraper.py:107 | the content is the stripped meta description when non-empty, else the paragraph text |
| `Profile.LaterParagraphsIgnored` | code/utils/scraper.py:99-100 | paragraphs after the tenth never change the content |
| `Profile.MetaDescriptionWins` | code/utils/scraper.py:102-107 | a non-blank meta description decides the content whatever the paragraphs are |
| `Profile.ScrapeWebsite` | code/utils/scraper.py:88-115 | no profile exactly when the fetch failed or the status is not 200; otherwise the URL, the company name of its netloc, the content and the keywords of the content with `top_n` 10 |

## Left out

- URL parsing (`urlparse`, code/utils/scraper.py:8, 14): a foreign library. The model takes the netloc and path as given strings.
- The HTTP request, its headers and its 10-second timeout (code/utils/scraper.py:90-93): network I/O. The outcome is an input, either a failure or a status code with the parsed page.
- HTML parsing with BeautifulSoup (code/utils/scraper.py:97-105): a foreign library. The paragraph texts and the meta description's `content` attribute are inputs. An exception raised while parsing is not distinguished from a failed fetch.
- The TF-IDF vectorizer (code/utils/scraper.py:70-72): tokenisation, bigrams, English stop words and the float scores are out. The vectorizer is a function parameter from the cleaned text to an optional sequence of (term, score) pairs, where `None` means it raised (for example on an empty vocabulary). Scores are `real`.
- The `print` calls in the exception handlers (code/utils/scraper.py:85, 118): output only.
- Strings.Lower, Strings.Capitalize: only ASCII letters change case. Python's Unicode case mapping of other letters, including mappings that change the length, is not modelled.
- Keywords.IsDigits: only ASCII digits count. Python's `isdigit()` also accepts other Unicode digits.
- Homepage.SearchResult: a title or snippet key that is present with a non-string value (which would raise in `.lower()`) is not modelled. A missing `url` key is not modelled either.
- Keywords.KeywordsLongAndNotNumeric: the length and all-digits guarantees are stated for terms without edge whitespace. `len(word) > 2` and `isdigit()` test the term before `strip()`, so a term with edge whitespace could lose them. The vectorizer's terms are runs of word characters, so they have no edge whitespace.
- `code/utils/embedding_similarity.py` (the similarity ranker): it rests on a global sentence-embedding model and float cosine similarity. Its own logic is a library sort and slice. It is not part of this model.
