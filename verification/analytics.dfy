/**
 * The two crawl-wide records the crawler keeps: how many pages were processed per host, and the
 * page with the most outbound links. Each is a fold over the pages processed so far.
 */
module Analytics {
  import opened Wrappers

  /** The record of the page with the most outbound links: its URL, and its link count. */
  datatype OutLinkRecord = OutLinkRecord(url: Option<string>, count: int)

  /** The record before any page is processed. */
  const NoRecord: OutLinkRecord := OutLinkRecord(None, -1)

  /** One processed page: its requested URL, its host and the number of links extracted from it. */
  datatype PageStat = PageStat(url: string, host: string, outLinks: nat)

  /** The count stored for `host`, zero when it has none. */
  function CountOf(counts: map<string, int>, host: string): int
  {
    if host in counts then counts[host] else 0
  }

  /** Counts one more page for `host`, starting at 1 for a new host; every other host keeps its count. */
  function Tally(counts: map<string, int>, host: string): (r: map<string, int>)
    ensures r.Keys == counts.Keys + {host}
    ensures r[host] == CountOf(counts, host) + 1
    ensures forall h :: h in counts && h != host ==> r[h] == counts[h]
  {
    if host in counts then counts[host := counts[host] + 1] else counts[host := 1]
  }

  /**
   * Offers a page with `n` links to the record: it replaces the record only when `n` is strictly
   * greater, so the record's count becomes the larger of the two and ties keep the incumbent.
   */
  function Offer(rec: OutLinkRecord, url: string, n: int): (r: OutLinkRecord)
    ensures r.count >= rec.count && r.count >= n
    ensures r.count == rec.count || r.count == n
    ensures n > rec.count ==> r == OutLinkRecord(Some(url), n)
    ensures n <= rec.count ==> r == rec
  {
    if n > rec.count then OutLinkRecord(Some(url), n) else rec
  }

  /** The per-host counts after processing `pages` in order from no counts at all. */
  function HostCounts(pages: seq<PageStat>): map<string, int>
  {
    if pages == [] then map[] else Tally(HostCounts(pages[..|pages| - 1]), pages[|pages| - 1].host)
  }

  /** The record after offering `pages` in order to the initial record. */
  function BestPage(pages: seq<PageStat>): OutLinkRecord
  {
    if pages == [] then NoRecord
    else
      var last := pages[|pages| - 1];
      Offer(BestPage(pages[..|pages| - 1]), last.url, last.outLinks)
  }

  /** The number of pages in `pages` whose host is `host`. */
  function Occurrences(pages: seq<PageStat>, host: string): nat
  {
    if pages == [] then 0
    else Occurrences(pages[..|pages| - 1], host) + (if pages[|pages| - 1].host == host then 1 else 0)
  }

  /**
   * The per-host counts count pages: a host has an entry exactly when some processed page had that
   * host, and its entry is the number of such pages.
   */
  lemma {:induction false} HostCountsCountPages(pages: seq<PageStat>, host: string)
    ensures host in HostCounts(pages) <==> Occurrences(pages, host) > 0
    ensures CountOf(HostCounts(pages), host) == Occurrences(pages, host)
  {
    if pages != [] {
      HostCountsCountPages(pages[..|pages| - 1], host);
    }
  }

  /** Page `k` has the most links of all `pages`, and every page before it has strictly fewer. */
  ghost predicate IsFirstMaximum(pages: seq<PageStat>, k: int)
  {
    && 0 <= k < |pages|
    && (forall j :: 0 <= j < |pages| ==> pages[j].outLinks <= pages[k].outLinks)
    && (forall j :: 0 <= j < k ==> pages[j].outLinks < pages[k].outLinks)
  }

  /**
   * After at least one page, the record holds the first page with the most links: its count is the
   * maximum over all pages, and every earlier page had strictly fewer links.
   */
  lemma {:induction false} BestPageIsFirstMaximum(pages: seq<PageStat>)
    requires pages != []
    ensures exists k :: IsFirstMaximum(pages, k)
                        && BestPage(pages) == OutLinkRecord(Some(pages[k].url), pages[k].outLinks)
  {
    var init := pages[..|pages| - 1];
    var last := pages[|pages| - 1];
    if init == [] {
      assert BestPage(pages) == OutLinkRecord(Some(pages[0].url), pages[0].outLinks);
      assert IsFirstMaximum(pages, 0);
    } else {
      BestPageIsFirstMaximum(init);
      var k :| IsFirstMaximum(init, k) && BestPage(init) == OutLinkRecord(Some(init[k].url), init[k].outLinks);
      assert forall j :: 0 <= j < |init| ==> pages[j] == init[j];
      if last.outLinks > init[k].outLinks {
        var m := |pages| - 1;
        assert BestPage(pages) == OutLinkRecord(Some(pages[m].url), pages[m].outLinks);
        assert IsFirstMaximum(pages, m);
      } else {
        assert BestPage(pages) == OutLinkRecord(Some(pages[k].url), pages[k].outLinks);
        assert IsFirstMaximum(pages, k);
      }
    }
  }

  /** The record is the initial one exactly when no page has been processed. */
  lemma {:induction false} BestPageEmpty(pages: seq<PageStat>)
    ensures BestPage(pages) == NoRecord <==> pages == []
    ensures BestPage(pages).url.None? <==> pages == []
  {
    if pages != [] {
      var init := pages[..|pages| - 1];
      BestPageEmpty(init);
      BestPageCountAtLeast(init);
    }
  }

  /** The record's count never falls below -1, the initial count. */
  lemma {:induction false} BestPageCountAtLeast(pages: seq<PageStat>)
    ensures BestPage(pages).count >= -1
  {
    if pages != [] {
      BestPageCountAtLeast(pages[..|pages| - 1]);
    }
  }

  /** Processing more pages never lowers the record's count. */
  lemma {:induction false} BestPageMonotone(pages: seq<PageStat>, more: seq<PageStat>)
    ensures BestPage(pages + more).count >= BestPage(pages).count
    decreases |more|
  {
    if more == [] {
      assert pages + more == pages;
    } else {
      var more' := more[..|more| - 1];
      assert (pages + more)[..|pages + more| - 1] == pages + more';
      BestPageMonotone(pages, more');
    }
  }
}
