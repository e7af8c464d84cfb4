/**
 * The pure part of link extraction: decoding the fetched content, choosing the base URL and
 * resolving anchor references. The foreign calls the crawler makes (encoding detection, byte
 * decoding, HTML parsing, reference resolution, URL parsing) are given as a `Library` of functions.
 * Encoding detection answers `None` when it finds no encoding; each of the other four answers
 * `None` where the real call raises.
 */
module Extractor {
  import opened Wrappers
  import opened Text

  newtype byte = b: int | 0 <= b < 256

  /** The `content` of a fetched page: absent, already text, or raw bytes. */
  datatype Content = Missing | Str(text: string) | Bytes(bytes: seq<byte>)

  /** The exceptions that escape `extract_next_links`. */
  datatype Fault =
    | DecodeError   // `bytes.decode` with the detected encoding raised
    | ParseError    // the HTML parser raised on the raw content
    | UrlError      // parsing the requested URL raised

  /** The foreign calls the crawler makes. */
  datatype Library = Library(
    detectEncoding: seq<byte> -> Option<string>,    // the detected encoding; `None` when none is found
    decode: (seq<byte>, string) -> Option<string>,  // `None` where decoding raises
    anchors: Content -> Option<seq<string>>,        // the `href` of every anchor; `None` where parsing raises
    urljoin: (string, string) -> Option<string>,    // `None` where resolution raises `ValueError`
    netloc: string -> Option<string>)               // `None` where URL parsing raises

  /** What the corpus returns for one fetch: the requested URL, the URL after redirects if any, and the content. */
  datatype UrlData = UrlData(url: string, finalUrl: Option<string>, content: Content)

  /** Python's truth value of an optional string: present and non-empty. */
  predicate Truthy(s: Option<string>)
  {
    s.Some? && s.value != ""
  }

  /**
   * `get_decoded_content`: empty content gives no text, text passes through unchanged, bytes are
   * decoded with the detected encoding or give no text when detection finds none. A failing decode
   * is not caught and surfaces as `DecodeError`.
   */
  function GetDecodedContent(lib: Library, content: Content): (r: Result<Option<string>, Fault>)
    ensures r.Failure? <==>
      content.Bytes? && content.bytes != [] && Truthy(lib.detectEncoding(content.bytes))
      && lib.decode(content.bytes, lib.detectEncoding(content.bytes).value).None?
    ensures r.Failure? ==> r.error == DecodeError
    ensures r == Success(None) <==>
      || content.Missing?
      || content == Str("")
      || content == Bytes([])
      || (content.Bytes? && !Truthy(lib.detectEncoding(content.bytes)))
    ensures content.Str? && content.text != "" ==> r == Success(Some(content.text))
    ensures r.Success? && r.value.Some? && content.Bytes? ==>
      r.value == lib.decode(content.bytes, lib.detectEncoding(content.bytes).value)
  {
    match content
    case Missing => Success(None)
    case Str(t) => if t == "" then Success(None) else Success(Some(t))
    case Bytes(b) =>
      if b == [] then Success(None)
      else
        var encoding := lib.detectEncoding(b);
        if !Truthy(encoding) then Success(None)
        else
          match lib.decode(b, encoding.value)
          case None => Failure(DecodeError)
          case Some(t) => Success(Some(t))
  }

  /** The page is treated as HTML when its decoded text is non-empty and contains `html`. */
  predicate IsHtml(decoded: Option<string>)
  {
    Truthy(decoded) && Contains(decoded.value, "html")
  }

  /** The base for resolving references: the final URL when it is non-empty, else the requested URL. */
  function BaseUrl(page: UrlData): (base: string)
    ensures Truthy(page.finalUrl) ==> base == page.finalUrl.value
    ensures !Truthy(page.finalUrl) ==> base == page.url
  {
    if Truthy(page.finalUrl) then page.finalUrl.value else page.url
  }

  /**
   * The links resolved from `hrefs` against `base`, in order, with every reference whose
   * resolution raised left out.
   */
  function Resolve(join: (string, string) -> Option<string>, base: string, hrefs: seq<string>): (links: seq<string>)
    ensures |links| <= |hrefs|
    ensures forall l :: l in links ==> exists k :: 0 <= k < |hrefs| && join(base, hrefs[k]) == Some(l)
  {
    if hrefs == [] then []
    else
      var init := hrefs[..|hrefs| - 1];
      var earlier := Resolve(join, base, init);
      assert forall k :: 0 <= k < |init| ==> init[k] == hrefs[k];
      match join(base, hrefs[|hrefs| - 1])
      case None => earlier
      case Some(l) => earlier + [l]
  }

  /** The positions in `hrefs` whose resolution succeeds, in increasing order. */
  function ResolvedPositions(join: (string, string) -> Option<string>, base: string, hrefs: seq<string>): (ks: seq<nat>)
    ensures forall j :: 0 <= j < |ks| ==> ks[j] < |hrefs| && join(base, hrefs[ks[j]]).Some?
    ensures forall i, j :: 0 <= i < j < |ks| ==> ks[i] < ks[j]
    ensures forall k :: 0 <= k < |hrefs| && join(base, hrefs[k]).Some? ==> k in ks
  {
    if hrefs == [] then []
    else
      var init := hrefs[..|hrefs| - 1];
      var earlier := ResolvedPositions(join, base, init);
      assert forall k :: 0 <= k < |init| ==> init[k] == hrefs[k];
      if join(base, hrefs[|hrefs| - 1]).Some? then earlier + [|hrefs| - 1] else earlier
  }

  /**
   * The output has one entry per reference whose resolution succeeds, in reference order:
   * its j-th link is the resolution of the j-th such reference.
   */
  lemma {:induction false} ResolveFollowsPositions(join: (string, string) -> Option<string>, base: string, hrefs: seq<string>)
    ensures |Resolve(join, base, hrefs)| == |ResolvedPositions(join, base, hrefs)|
    ensures forall j :: 0 <= j < |Resolve(join, base, hrefs)| ==>
      Some(Resolve(join, base, hrefs)[j]) == join(base, hrefs[ResolvedPositions(join, base, hrefs)[j]])
  {
    if hrefs != [] {
      var init := hrefs[..|hrefs| - 1];
      ResolveFollowsPositions(join, base, init);
      var earlier, positions := Resolve(join, base, init), ResolvedPositions(join, base, init);
      var links, ks := Resolve(join, base, hrefs), ResolvedPositions(join, base, hrefs);
      var last := join(base, hrefs[|hrefs| - 1]);
      assert links == if last.Some? then earlier + [last.value] else earlier;
      assert ks == if last.Some? then positions + [|hrefs| - 1] else positions;
      forall j | 0 <= j < |links| ensures Some(links[j]) == join(base, hrefs[ks[j]]) {
        if j < |earlier| {
          assert links[j] == earlier[j] && ks[j] == positions[j];
          assert hrefs[ks[j]] == init[positions[j]];
        }
      }
    }
  }

  /** When every reference resolves, the output is the references resolved one by one. */
  lemma {:induction false} ResolveAllSucceed(join: (string, string) -> Option<string>, base: string, hrefs: seq<string>)
    requires forall k :: 0 <= k < |hrefs| ==> join(base, hrefs[k]).Some?
    ensures |Resolve(join, base, hrefs)| == |hrefs|
    ensures forall k :: 0 <= k < |hrefs| ==> Some(Resolve(join, base, hrefs)[k]) == join(base, hrefs[k])
  {
    if hrefs != [] {
      var init := hrefs[..|hrefs| - 1];
      assert forall k :: 0 <= k < |init| ==> init[k] == hrefs[k];
      ResolveAllSucceed(join, base, init);
      var earlier := Resolve(join, base, init);
      var last := join(base, hrefs[|hrefs| - 1]).value;
      assert Resolve(join, base, hrefs) == earlier + [last];
    }
  }

  /** Resolving a concatenation resolves each part. */
  lemma {:induction false} ResolveAppend(join: (string, string) -> Option<string>, base: string, xs: seq<string>, ys: seq<string>)
    ensures Resolve(join, base, xs + ys) == Resolve(join, base, xs) + Resolve(join, base, ys)
    decreases |ys|
  {
    if ys != [] {
      var ys' := ys[..|ys| - 1];
      assert (xs + ys)[..|xs + ys| - 1] == xs + ys';
      ResolveAppend(join, base, xs, ys');
    } else {
      assert xs + ys == xs;
    }
  }

  /** The outcome of one page: not HTML (nothing extracted), or its resolved links and its host. */
  datatype Visit = NotHtml | Processed(links: seq<string>, host: string)

  /**
   * What `extract_next_links` computes for one page, exceptions included. The host comes from
   * the requested URL, the base for resolution from the final URL when there is one.
   */
  function Analyse(lib: Library, page: UrlData): Result<Visit, Fault>
  {
    match GetDecodedContent(lib, page.content)
    case Failure(f) => Failure(f)
    case Success(decoded) =>
      if !IsHtml(decoded) then Success(NotHtml)
      else
        match lib.anchors(page.content)
        case None => Failure(ParseError)
        case Some(hrefs) =>
          var links := Resolve(lib.urljoin, BaseUrl(page), hrefs);
          match lib.netloc(page.url)
          case None => Failure(UrlError)
          case Some(host) => Success(Processed(links, host))
  }

  /**
   * A page extracts nothing and raises nothing exactly when its content decodes without error to no
   * text, to empty text or to text without `html`. In particular: absent or empty content, bytes
   * with no detected encoding, and text without `html`.
   */
  lemma NonHtmlPageYieldsNothing(lib: Library, page: UrlData)
    ensures Analyse(lib, page) == Success(NotHtml) <==>
      && GetDecodedContent(lib, page.content).Success?
      && !IsHtml(GetDecodedContent(lib, page.content).value)
    ensures GetDecodedContent(lib, page.content).Success? ==>
      (!IsHtml(GetDecodedContent(lib, page.content).value) <==>
         || GetDecodedContent(lib, page.content).value.None?
         || !Contains(GetDecodedContent(lib, page.content).value.value, "html"))
    ensures page.content.Missing? || page.content == Str("") || page.content == Bytes([])
            || (page.content.Bytes? && !Truthy(lib.detectEncoding(page.content.bytes)))
            || (page.content.Str? && !Contains(page.content.text, "html"))
            ==> Analyse(lib, page) == Success(NotHtml)
  {
  }

  /**
   * A processed page is exactly an HTML page that parses and whose requested URL parses; its links
   * are the references resolved against the base, and its host is that of the requested URL.
   */
  lemma ProcessedPage(lib: Library, page: UrlData, links: seq<string>, host: string)
    ensures Analyse(lib, page) == Success(Processed(links, host)) <==>
      && GetDecodedContent(lib, page.content).Success?
      && IsHtml(GetDecodedContent(lib, page.content).value)
      && lib.anchors(page.content).Some?
      && links == Resolve(lib.urljoin, BaseUrl(page), lib.anchors(page.content).value)
      && lib.netloc(page.url) == Some(host)
  {
  }
}
