/**
 * The URL filter `Crawler.is_valid`: a short-circuiting conjunction over a parsed URL.
 * Parsing itself (`urlparse`) is not part of this model; the filter receives its result.
 */
module Validator {
  import opened Wrappers
  import opened Text

  /** The fields of a parsed URL that the filter inspects; `hostname` is absent when the URL has no host. */
  datatype ParsedUrl = ParsedUrl(scheme: string, hostname: Option<string>, path: string)

  /** The schemes the crawler follows. */
  const AllowedSchemes: set<string> := {"http", "https"}

  /** The substring every in-scope host name must contain. */
  const Scope: string := ".ics.uci.edu"

  /*
   * The alternatives of the denylist pattern, one constant per string piece the pattern is
   * concatenated from, in the order it lists them; `jpe?g` and `tiff?` are expanded into two
   * entries each, and `pdf` is listed twice, as in the pattern.
   */
  const PatternPiece1: seq<string> := ["css", "js", "bmp", "gif", "jpg", "jpeg", "ico"]
  const PatternPiece2: seq<string> := ["png", "tif", "tiff", "mid", "mp2", "mp3", "mp4"]
  const PatternPiece3: seq<string> := ["wav", "avi", "mov", "mpeg", "ram", "m4v", "mkv", "ogg", "ogv", "pdf"]
  const PatternPiece4: seq<string> := [
    "ps", "eps", "tex", "ppt", "pptx", "doc", "docx", "xls", "xlsx", "names", "data", "dat", "exe",
    "bz2", "tar", "msi", "bin", "7z", "psd", "dmg", "iso", "epub", "dll", "cnf", "tgz", "sha1"]
  const PatternPiece5: seq<string> := ["thmx", "mso", "arff", "rtf", "jar", "csv"]
  const PatternPiece6: seq<string> := ["rm", "smil", "wmv", "swf", "wma", "zip", "rar", "gz", "pdf"]

  /** The whole denylist pattern, alternative by alternative. */
  const DeniedExtensions: seq<string> :=
    PatternPiece1 + PatternPiece2 + PatternPiece3 + PatternPiece4 + PatternPiece5 + PatternPiece6

  /** The denylist as a set of extensions. */
  const DeniedExtensionSet: set<string> := set k | 0 <= k < |DeniedExtensions| :: DeniedExtensions[k]

  /** `path` ends with a dot followed by `ext`. */
  predicate HasExtension(path: string, ext: string)
  {
    EndsWith(path, "." + ext)
  }

  /**
   * The denylist pattern tried alternative by alternative: it matches exactly when `path`
   * ends with a dot and one of `exts`.
   */
  function MatchesAny(path: string, exts: seq<string>): (b: bool)
    ensures b <==> exists k :: 0 <= k < |exts| && HasExtension(path, exts[k])
  {
    if exts == [] then false
    else HasExtension(path, exts[0]) || MatchesAny(path, exts[1..])
  }

  /** The pattern applied to the lower-cased path: true when the path names a denied resource type. */
  function IsDeniedPath(path: string): (b: bool)
    ensures b <==> exists e :: e in DeniedExtensionSet && HasExtension(Lower(path), e)
  {
    var lowered := Lower(path);
    var b := MatchesAny(lowered, DeniedExtensions);
    assert b ==> exists k :: 0 <= k < |DeniedExtensions| && DeniedExtensions[k] in DeniedExtensionSet
                                && HasExtension(lowered, DeniedExtensions[k]);
    b
  }

  /**
   * `is_valid` on a parsed URL. The scheme is checked first; a missing host name makes the
   * substring test raise `TypeError`, which the filter turns into a rejection.
   */
  function IsValid(u: ParsedUrl): (ok: bool)
    ensures ok <==>
      && u.scheme in AllowedSchemes
      && u.hostname.Some?
      && (exists i :: OccursAt(u.hostname.value, Scope, i))
      && !(exists e :: e in DeniedExtensionSet && HasExtension(Lower(u.path), e))
  {
    if u.scheme !in AllowedSchemes then false
    else
      match u.hostname
      case None => false
      case Some(host) => Contains(host, Scope) && !IsDeniedPath(u.path)
  }

  /** Every scheme other than exactly `http` or `https` is rejected, whatever the host and path. */
  lemma OtherSchemesRejected(u: ParsedUrl)
    requires u.scheme != "http" && u.scheme != "https"
    ensures !IsValid(u)
  {
  }

  /** A URL without a host name is rejected rather than raising. */
  lemma MissingHostRejected(u: ParsedUrl)
    requires u.hostname.None?
    ensures !IsValid(u)
  {
  }

  /** The extension test ignores case: a path and its lower-cased form get the same verdict. */
  lemma ExtensionTestIgnoresCase(u: ParsedUrl)
    ensures IsValid(u) == IsValid(u.(path := Lower(u.path)))
  {
  }

  /** The scope test is a substring test, not a suffix test: the bare domain fails, a subdomain passes. */
  lemma ScopeIsSubstringTest()
    ensures !IsValid(ParsedUrl("https", Some("ics.uci.edu"), "/"))
    ensures IsValid(ParsedUrl("https", Some("www.ics.uci.edu"), "/"))
    ensures IsValid(ParsedUrl("http", Some("www.ics.uci.edu.example.com"), "/"))
  {
    assert OccursAt("www.ics.uci.edu", Scope, 3);
    assert OccursAt("www.ics.uci.edu.example.com", Scope, 3);
    assert !IsDeniedPath("/");
  }

  predicate IsLowerAlphanumeric(c: char)
  {
    'a' <= c <= 'z' || '0' <= c <= '9'
  }

  /** Every character of every extension in `exts` is a small ASCII letter or a digit. */
  predicate AllLowerAlphanumeric(exts: seq<string>)
  {
    forall k, i :: 0 <= k < |exts| && 0 <= i < |exts[k]| ==> IsLowerAlphanumeric(exts[k][i])
  }

  /** The denylist is written in small letters and digits only, so it can only match a lower-cased path. */
  lemma DeniedExtensionsAreLowerAlphanumeric()
    ensures AllLowerAlphanumeric(DeniedExtensions)
  {
    assert AllLowerAlphanumeric(PatternPiece1);
    assert AllLowerAlphanumeric(PatternPiece2);
    assert AllLowerAlphanumeric(PatternPiece3);
    assert AllLowerAlphanumeric(PatternPiece4);
    assert AllLowerAlphanumeric(PatternPiece5);
    assert AllLowerAlphanumeric(PatternPiece6);
  }

  /** A suffix `"." + e` cannot reach back over a slash when no dot follows that slash. */
  lemma SuffixAfterLastSlash(p: string, e: string, j: int)
    requires 0 <= j < |p| && p[j] == '/'
    requires forall i :: j < i < |p| ==> p[i] != '.'
    requires '/' !in e
    ensures !HasExtension(p, e)
  {
    var d := "." + e;
    if |d| <= |p| {
      var m := |p| - |d|;
      var tail := p[m..];
      if m > j {
        assert tail[0] != d[0];
      } else {
        assert tail[j - m] == '/';
        assert d[j - m] != '/';
      }
    }
  }

  /**
   * Only the last path segment can carry a denied extension: when no dot follows the last slash,
   * the extension test passes.
   */
  lemma ExtensionOnlyInLastSegment(path: string, j: int)
    requires 0 <= j < |path| && path[j] == '/'
    requires forall i :: j < i < |path| ==> path[i] != '.'
    ensures !IsDeniedPath(path)
  {
    var lowered := Lower(path);
    DeniedExtensionsAreLowerAlphanumeric();
    forall e | e in DeniedExtensionSet ensures !HasExtension(lowered, e) {
      assert '/' !in e;
      SuffixAfterLastSlash(lowered, e, j);
    }
  }

  /** An upper-case denied extension is rejected; a denied extension that is not at the end is not. */
  lemma ExtensionMustEndThePath()
    ensures !IsValid(ParsedUrl("http", Some("www.ics.uci.edu"), "/A.PDF"))
    ensures IsValid(ParsedUrl("http", Some("www.ics.uci.edu"), "/a.pdf/b"))
  {
    assert OccursAt("www.ics.uci.edu", Scope, 3);
    assert Lower("/A.PDF") == "/a.pdf";
    assert DeniedExtensions[23] == PatternPiece3[9] == "pdf";
    assert HasExtension(Lower("/A.PDF"), DeniedExtensions[23]);
    ExtensionOnlyInLastSegment("/a.pdf/b", 6);
  }
}
