/**
 * The crawler object and its per-page analytics update. The frontier and the corpus it holds are
 * not part of this model; only the two analytics fields are.
 */
module Crawling {
  import opened Wrappers
  import opened Extractor
  import opened Analytics

  class Crawler {
    /** Pages processed per host, keyed by the network location of the requested URL. */
    var subdomains: map<string, int>
    /** The page with the most extracted links so far, `(None, -1)` before the first page. */
    var maxOutLinks: OutLinkRecord
    /** The pages processed so far, in order. */
    ghost var processed: seq<PageStat>

    /** Both analytics fields are the folds of the processed pages. */
    ghost predicate Valid()
      reads this
    {
      subdomains == HostCounts(processed) && maxOutLinks == BestPage(processed)
    }

    /**
     * What the invariant means for the two fields: each host's count is the number of processed
     * pages of that host, the record is `(None, -1)` exactly while no page has been processed, and
     * afterwards it holds the first processed page with the most links.
     */
    lemma ValidMeans()
      requires Valid()
      ensures forall h :: CountOf(subdomains, h) == Occurrences(processed, h)
      ensures forall h :: h in subdomains <==> Occurrences(processed, h) > 0
      ensures maxOutLinks == NoRecord <==> processed == []
      ensures processed != [] ==>
        exists k :: (IsFirstMaximum(processed, k)
                     && maxOutLinks == OutLinkRecord(Some(processed[k].url), processed[k].outLinks))
    {
      forall h ensures CountOf(subdomains, h) == Occurrences(processed, h)
        && (h in subdomains <==> Occurrences(processed, h) > 0) {
        HostCountsCountPages(processed, h);
      }
      BestPageEmpty(processed);
      if processed != [] {
        BestPageIsFirstMaximum(processed);
      }
    }

    constructor ()
      ensures Valid() && processed == []
      ensures subdomains == map[] && maxOutLinks == NoRecord
    {
      subdomains := map[];
      maxOutLinks := NoRecord;
      processed := [];
    }

    /**
     * `extract_next_links`: for an HTML page, resolves its anchor references against the base URL,
     * counts the page for its host and offers it to the most-links record. A page that is not HTML
     * yields no links and changes nothing; an exception changes nothing and is returned as a fault.
     */
    method ExtractNextLinks(lib: Library, page: UrlData) returns (outcome: Result<seq<string>, Fault>)
      requires Valid()
      modifies this
      ensures Valid()
      ensures match Analyse(lib, page)
        case Failure(f) =>
          outcome == Failure(f) && processed == old(processed)
          && subdomains == old(subdomains) && maxOutLinks == old(maxOutLinks)
        case Success(NotHtml) =>
          outcome == Success([]) && processed == old(processed)
          && subdomains == old(subdomains) && maxOutLinks == old(maxOutLinks)
        case Success(Processed(links, host)) =>
          && outcome == Success(links)
          && processed == old(processed) + [PageStat(page.url, host, |links|)]
          && subdomains == Tally(old(subdomains), host)
          && maxOutLinks == Offer(old(maxOutLinks), page.url, |links|)
    {
      var decoded := GetDecodedContent(lib, page.content);
      if decoded.Failure? {
        return Failure(decoded.error);
      }
      var outputLinks: seq<string> := [];
      if IsHtml(decoded.value) {
        var anchors := lib.anchors(page.content);
        if anchors.None? {
          return Failure(ParseError);
        }
        var links := anchors.value;
        var base := BaseUrl(page);
        for i := 0 to |links|
          invariant outputLinks == Resolve(lib.urljoin, base, links[..i])
        {
          assert links[..i + 1][..i] == links[..i];
          var joined := lib.urljoin(base, links[i]);
          if joined.Some? {
            outputLinks := outputLinks + [joined.value];
          }
        }
        assert links[..|links|] == links;

        var domain := lib.netloc(page.url);
        if domain.None? {
          return Failure(UrlError);
        }
        var host := domain.value;
        if host !in subdomains {
          subdomains := subdomains[host := 1];
        } else {
          subdomains := subdomains[host := subdomains[host] + 1];
        }
        if |outputLinks| > maxOutLinks.count {
          maxOutLinks := OutLinkRecord(Some(page.url), |outputLinks|);
        }
        processed := processed + [PageStat(page.url, host, |outputLinks|)];
        assert processed[..|processed| - 1] == old(processed);
      }
      return Success(outputLinks);
    }
  }

  /**
   * Two pages processed in a row: the host counts count both, and the record keeps the first page
   * when the second has no more links than the first.
   */
  method TieKeepsFirstPage(lib: Library, first: UrlData, second: UrlData)
    returns (a: Result<seq<string>, Fault>, b: Result<seq<string>, Fault>, counts: map<string, int>, best: OutLinkRecord)
    requires Analyse(lib, first).Success? && Analyse(lib, first).value.Processed?
    requires Analyse(lib, second).Success? && Analyse(lib, second).value.Processed?
    requires |Analyse(lib, second).value.links| <= |Analyse(lib, first).value.links|
    ensures best == OutLinkRecord(Some(first.url), |Analyse(lib, first).value.links|)
    ensures Analyse(lib, first).value.host == Analyse(lib, second).value.host ==>
      counts == map[Analyse(lib, first).value.host := 2]
  {
    var crawler := new Crawler();
    a := crawler.ExtractNextLinks(lib, first);
    b := crawler.ExtractNextLinks(lib, second);
    counts, best := crawler.subdomains, crawler.maxOutLinks;
  }
}
