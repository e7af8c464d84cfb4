# Page processing of a focused web crawler, in Dafny

This project models the core of `crawler.py`, the crawler of a web crawler limited to the
`.ics.uci.edu` domain. The core has three parts:

- **`is_valid`**, the URL filter. It accepts a URL only when its scheme is `http` or `https`, its host
  name contains `.ics.uci.edu`, and its lower-cased path does not end in a denied file extension.
  A missing host name raises `TypeError`, and the filter catches it and rejects the URL.
- **`get_decoded_content`**, which turns the fetched content into text. Empty content gives no
  text. Text is passed through. Bytes are decoded with the encoding that detection reports, or give
  no text when detection reports none.
- **`extract_next_links`**, which processes one fetched page. When the decoded text contains
  `html`, it does three things:
  - it resolves every anchor reference against the final URL (or the requested URL when there was
    no redirect), skipping references whose resolution raises `ValueError`;
  - it counts the page for the host of the requested URL in `subdomains`;
  - it offers the page to `max_out_links`, the record of the page with the most extracted links.

Modules:

- `wrappers.dfy` (`Wrappers`): the `Option` and `Result` types.
- `text.dfy` (`Text`): substring search, suffix test and ASCII lower-casing.
- `validator.dfy` (`Validator`): the URL filter on a parsed URL `(scheme, hostname?, path)`. The
  denylist pattern is written as six constants, one per string piece the source concatenates.
- `extractor.dfy` (`Extractor`): decoding, base-URL choice, reference resolution, and `Analyse`.
  `Analyse` is the specification of one page's outcome, exceptions included.
- `analytics.dfy` (`Analytics`): the host counter and the most-links record, each written as a
  fold over the pages processed so far.
- `crawler.dfy` (`Crawling`): the `Crawler` class.
  - Its fields `subdomains` and `maxOutLinks` are updated in place by `ExtractNextLinks`, whose loop
    builds the output list.
  - A ghost field `processed` records the processed pages.
  - `Valid()` states that both fields are the folds of `processed`.

The foreign calls are parameters, gathered in the `Extractor.Library` datatype. The calls are:

- `detectEncoding`: character-set detection. It does not raise; its `None` is the detector's own
  answer that it found no encoding, which `get_decoded_content` turns into "no text".
- `decode`: decoding bytes with a named encoding; `None` where decoding raises.
- `anchors`: HTML parsing followed by the `//a/@href` query, applied to the raw content; `None`
  where parsing raises.
- `urljoin`: reference resolution; `None` where it raises `ValueError`, the only exception the
  source catches there (crawler.py:59). On two strings `urljoin` raises nothing else.
- `netloc`: the network location of the requested URL; `None` where URL parsing raises.

An exception that `extract_next_links` does not catch becomes a `Fault`: `DecodeError`,
`ParseError` or `UrlError`. Every such exception happens before the first field update, so a
fault leaves the crawler unchanged.

Three consequences of the code as written:

- The scope test at crawler.py:105 is a substring test. Any host name that contains `.ics.uci.edu`
  anywhere passes, and the bare `ics.uci.edu` does not.
- A decode error at crawler.py:86 and an HTML parse error at crawler.py:52 are not caught. They
  escape `extract_next_links` instead of yielding an empty link list.
- The most-links record at crawler.py:70-71 counts every resolved link, whether or not it later
  passes `is_valid`.

## Model

| member | source | states |
|---|---|---|
| `Text.Contains` | crawler.py:105 | Python's `sub in s`: true exactly when `sub` occurs at some index of `s` |
| `Text.Lower` | crawler.py:110 | lower-casing keeps the length and maps each character: ASCII capitals to small letters, all else unchanged |
| `Text.LowerIdempotent` | crawler.py:110 | lower-casing a lower-cased path changes nothing |
| `Validator.MatchesAny` | crawler.py:106-110 | the denylist alternation matches exactly when the path ends with a dot and one of the alternatives |
| `Validator.IsDeniedPath` | crawler.py:106-110 | the pattern rejects a path exactly when its lower-cased form ends in `.` plus an extension of the denylist set |
| `Validator.IsValid` | crawler.py:101-114 | accepted iff the scheme is `http` or `https`, a host name is present and contains `.ics.uci.edu`, and the lower-cased path ends in no denied extension |
| `Validator.OtherSchemesRejected` | crawler.py:102-103 | every scheme other than exactly `http` or `https` is rejected, whatever the host and path |
| `Validator.MissingHostRejected` | crawler.py:104-105 | a URL without a host name is rejected (the `TypeError` becomes a rejection) |
| `Validator.ExtensionTestIgnoresCase` | crawler.py:106-110 | a path and its lower-cased form get the same verdict |
| `Validator.ScopeIsSubstringTest` | crawler.py:105 | the bare `ics.uci.edu` is rejected, `www.ics.uci.edu` is accepted, and so is a host that merely contains `.ics.uci.edu` |
| `Validator.DeniedExtensionsAreLowerAlphanumeric` | crawler.py:106-110 | every denied extension consists of small letters and digits only |
| `Validator.ExtensionOnlyInLastSegment` | crawler.py:106-110 | when no dot follows the last slash of the path, the extension test passes |
| `Validator.ExtensionMustEndThePath` | crawler.py:106-110 | `/A.PDF` is rejected, while `/a.pdf/b` passes the extension test |
| `Extractor.GetDecodedContent` | crawler.py:76-87 | no text exactly for absent or empty content or bytes with no detected encoding; non-empty text unchanged; bytes decoded with the detected encoding; a failing decode is an error |
| `Extractor.BaseUrl` | crawler.py:55 | the base is the final URL when it is non-empty, else the requested URL |
| `Extractor.Resolve` | crawler.py:56-60 | at most one link per reference, and every link is the successful resolution of some reference |
| `Extractor.ResolvedPositions` | crawler.py:56-60 | the positions of the references whose resolution succeeds, strictly increasing, and no such position is missing |
| `Extractor.ResolveFollowsPositions` | crawler.py:56-60 | the output has one link per successfully resolved reference, in reference order |
| `Extractor.ResolveAllSucceed` | crawler.py:56-60 | when no resolution raises, the output is the references resolved one by one |
| `Extractor.ResolveAppend` | crawler.py:56-60 | resolving a concatenation of reference lists concatenates the outputs |
| `Extractor.NonHtmlPageYieldsNothing` | crawler.py:47-51 | a page extracts nothing and raises nothing exactly when its content decodes without error to no text, empty text or text without `html`; this covers absent or empty content, bytes with no detected encoding, and text without `html` |
| `Extractor.ProcessedPage` | crawler.py:47-67 | a page is processed exactly when it decodes to text containing `html`, parses, and its requested URL parses; its links come from the base URL and its host from the requested URL |
| `Analytics.Tally` | crawler.py:63-67 | the host's count rises by exactly one (from 0 for a new host); all other hosts keep their counts |
| `Analytics.Offer` | crawler.py:70-71 | the record is replaced only for strictly more links; its count becomes the larger of the two, so ties keep the incumbent |
| `Analytics.HostCountsCountPages` | crawler.py:63-67 | after any run, a host has an entry exactly when some processed page had it, and its count is the number of those pages |
| `Analytics.BestPageIsFirstMaximum` | crawler.py:69-71 | after at least one page, the record holds the first page with the most links |
| `Analytics.BestPageEmpty` | crawler.py:19 | the record is `(None, -1)` exactly while no page has been processed |
| `Analytics.BestPageMonotone` | crawler.py:70-71 | processing more pages never lowers the record's count |
| `Crawling.Crawler.ValidMeans` | crawler.py:63-71 | under the invariant, each host's count is its number of processed pages, the record is `(None, -1)` exactly before the first page, and afterwards it is the first page with the most links |
| `Crawling.Crawler.constructor` | crawler.py:15-19 | a new crawler has no host counts, the record `(None, -1)`, and no processed pages |
| `Crawling.Crawler.ExtractNextLinks` | crawler.py:37-73 | on a fault or a non-HTML page: nothing changes (and the non-HTML result is empty); on a processed page: returns the resolved links, counts the page for its host and offers it to the record, keeping both fields the folds of the processed pages |
| `Crawling.TieKeepsFirstPage` | crawler.py:69-71 | of two processed pages where the second has no more links, the record holds the first; two pages of one host count 2 |

## Left out

- `start_crawling` (crawler.py:21-34) is the loop over the frontier and the corpus, with logging. The
  frontier and corpus are external services and are not part of this model. That loop adds to the
  frontier only the extracted links that pass `is_valid` and for which the corpus has a file name.
- `urlparse` is not modelled. `Validator.IsValid` receives its result: the scheme, the optional host
  name and the path. `urlparse` lower-cases the scheme and the host name itself. It raises
  `ValueError` on some malformed URLs (a bad bracketed IPv6 host). At crawler.py:101 that
  exception is outside the `try` and is not caught; that case is not modelled.
- `urljoin`, HTML parsing with the `//a/@href` query, character-set detection and byte decoding are
  foreign library calls. They are the function parameters of `Extractor.Library`.
- `Validator.IsDeniedPath` tests a plain suffix; it does not model two corner cases of the regular
  expression. In the expression `.` does not match a newline, and `$` also matches before a
  trailing newline. A path containing a newline can therefore get a different verdict.
- `Text.Lower` lower-cases ASCII only, whereas Python's `str.lower` also maps non-ASCII characters.
  One of those maps to an ASCII letter: the Kelvin sign U+212A becomes `k`. So a path ending in
  `.m` + U+212A + `v` is rejected by the source (as `.mkv`) and accepted by this model.
- The printed messages for a failed resolution and for a missing host name are not modelled.
- The content size in `url_data`, and the crawler's frontier and corpus fields, are not used by the
  core and are not modelled.
