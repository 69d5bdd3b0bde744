// The URL scanner of modules/network/url.py: the extension filter, the
// `all_links` set that `extract_links` and the inline-script scan grow, and
// the normalisation of the typed URL and its domain in `run`. Fetching pages,
// HTML parsing and `urljoin` are outside the model: the attribute value, the
// URLs found in a script and the joining function are parameters.

module UrlScanner {
  import opened Wrappers
  import opened PyStrings

  /* ---------------------------------------------------------------------- */
  /* is_valid_extension                                                     */
  /* ---------------------------------------------------------------------- */

  /** `\w` on ASCII text. */
  predicate IsWordChar(ch: char) {
    'a' <= ch <= 'z' || 'A' <= ch <= 'Z' || '0' <= ch <= '9' || ch == '_'
  }

  /** How many word characters end `s`. */
  function TrailingWordLength(s: string): (n: nat)
    ensures n <= |s|
    decreases |s|
  {
    if s != [] && IsWordChar(s[|s| - 1]) then TrailingWordLength(s[..|s| - 1]) + 1 else 0
  }

  /** `re.search(r'\.\w+$', url)` succeeds: the word characters that end
      the URL are preceded by a dot. */
  predicate HasWordExtension(url: string) {
    var n := TrailingWordLength(url);
    n >= 1 && n < |url| && url[|url| - n - 1] == '.'
  }

  /** The pattern `\.\w+$` matches at `i`. */
  predicate ExtensionAt(url: string, i: int) {
    0 <= i < |url| - 1 && url[i] == '.' && forall k :: i < k < |url| ==> IsWordChar(url[k])
  }

  const Accepted: seq<string> := [".html", ".xhtml", ".php", ".js", ".css"]

  /** `is_valid_extension(url)`: a page or script extension, or no
      extension at all. */
  predicate IsValidExtension(url: string) {
    (exists e :: e in Accepted && EndsWith(url, e)) || !HasWordExtension(url)
  }

  lemma {:induction false} TrailingWordSpec(s: string)
    ensures forall k :: |s| - TrailingWordLength(s) <= k < |s| ==> IsWordChar(s[k])
    ensures TrailingWordLength(s) == |s| || !IsWordChar(s[|s| - TrailingWordLength(s) - 1])
    decreases |s|
  {
    if s != [] && IsWordChar(s[|s| - 1]) {
      TrailingWordSpec(s[..|s| - 1]);
    }
  }

  lemma {:induction false} TrailingWordAtLeast(s: string, j: nat)
    requires j <= |s|
    requires forall k :: j <= k < |s| ==> IsWordChar(s[k])
    ensures TrailingWordLength(s) >= |s| - j
    decreases |s|
  {
    if j < |s| {
      TrailingWordAtLeast(s[..|s| - 1], j);
    }
  }

  /** The search for `\.\w+$` succeeds exactly when the pattern matches at
      some position. */
  lemma HasWordExtensionIff(url: string)
    ensures HasWordExtension(url) <==> exists i :: ExtensionAt(url, i)
  {
    var n := TrailingWordLength(url);
    TrailingWordSpec(url);
    if HasWordExtension(url) {
      assert ExtensionAt(url, |url| - n - 1);
    }
    if exists i :: ExtensionAt(url, i) {
      var i :| ExtensionAt(url, i);
      TrailingWordAtLeast(url, i + 1);
      assert !IsWordChar(url[i]);
    }
  }

  /** Sample decisions of the filter: accepted extensions and paths
      without one pass. */
  lemma ValidExtensionExamples()
    ensures IsValidExtension("a/x.php")
    ensures IsValidExtension("a/x.min.js")
    ensures IsValidExtension("a/about")
  {
    assert EndsWith("a/x.php", ".php");
    assert EndsWith("a/x.min.js", ".js");
    assert TrailingWordLength("a/about") == 5 by {
      assert "a/about"[..6] == "a/abou";
      assert "a/abou"[..5] == "a/abo";
      assert "a/abo"[..4] == "a/ab";
      assert "a/ab"[..3] == "a/a";
      assert "a/a"[..2] == "a/";
    }
  }

  /** Other extensions are refused. */
  lemma InvalidExtensionExamples()
    ensures !IsValidExtension("a/x.png")
    ensures !IsValidExtension("a/x.tar_gz")
  {
    assert ExtensionAt("a/x.png", 3);
    HasWordExtensionIff("a/x.png");
    assert ExtensionAt("a/x.tar_gz", 3);
    HasWordExtensionIff("a/x.tar_gz");
  }

  /** The test both scans apply before keeping a URL. */
  predicate Admit(seen: set<string>, url: string, domain: string) {
    url !in seen && Contains(url, domain) && IsValidExtension(url)
  }

  /** The URLs the inline-script loop keeps, in order, starting from the
      set `seen`: each one is admitted against `seen` and the ones kept
      before it. */
  function Admitted(seen: set<string>, urls: seq<string>, domain: string): seq<string>
    decreases |urls|
  {
    if urls == [] then []
    else
      var before := Admitted(seen, urls[..|urls| - 1], domain);
      var url := urls[|urls| - 1];
      if Admit(seen + ToSet(before), url, domain) then before + [url] else before
  }

  function ToSet(s: seq<string>): set<string> {
    set x | x in s
  }

  /** What the script scan keeps: new URLs only, each once, each from the
      scanned list, on the domain and with an accepted extension; and every
      scanned URL that passes the filters ends up known. */
  lemma {:induction false} AdmittedSpec(seen: set<string>, urls: seq<string>, domain: string)
    ensures forall i, j :: 0 <= i < j < |Admitted(seen, urls, domain)| ==>
      Admitted(seen, urls, domain)[i] != Admitted(seen, urls, domain)[j]
    ensures forall u :: u in Admitted(seen, urls, domain) ==>
      u in urls && u !in seen && Contains(u, domain) && IsValidExtension(u)
    ensures forall u :: u in urls && Contains(u, domain) && IsValidExtension(u) ==>
      u in seen || u in Admitted(seen, urls, domain)
    decreases |urls|
  {
    if urls != [] {
      var pre := urls[..|urls| - 1];
      AdmittedSpec(seen, pre, domain);
      assert urls == pre + [urls[|urls| - 1]];
    }
  }

  /* ---------------------------------------------------------------------- */
  /* The scanner and its set of known links                                 */
  /* ---------------------------------------------------------------------- */

  class Scanner {
    /** `self.all_links`: every URL reported so far. */
    var allLinks: set<string>

    constructor ()
      ensures allLinks == {}
    {
      allLinks := {};
    }

    /** `extract_links(tag, attribute, base_url, domain)`, where `attrValue`
        is `tag.get(attribute)` and `urljoin` resolves it against the page.
        A missing or empty attribute gives nothing; otherwise the joined URL
        is reported and remembered if it is new, on the domain and has an
        accepted extension. */
    method ExtractLinks(attrValue: Option<string>, baseUrl: string, domain: string,
                        urljoin: (string, string) -> string) returns (links: seq<string>)
      modifies this
      ensures |links| <= 1
      ensures attrValue.None? || attrValue.value == [] ==> links == []
      ensures links != [] ==> attrValue.Some? && links[0] == urljoin(baseUrl, attrValue.value)
      ensures forall u :: u in links ==> Admit(old(allLinks), u, domain)
      ensures attrValue.Some? && attrValue.value != [] && Admit(old(allLinks), urljoin(baseUrl, attrValue.value), domain)
        ==> links != []
      ensures allLinks == old(allLinks) + ToSet(links)
    {
      links := [];
      if attrValue.Some? && attrValue.value != [] {
        var fullUrl := urljoin(baseUrl, attrValue.value);
        if fullUrl !in allLinks && Contains(fullUrl, domain) && IsValidExtension(fullUrl) {
          links := links + [fullUrl];
          allLinks := allLinks + {fullUrl};
        }
      }
    }

    /** The inline-script loop of `find_secret_urls` over the URLs found in
        one script: each admitted URL is collected and remembered at once,
        so a URL repeated in the script is kept only the first time. */
    method ScanScriptUrls(urls: seq<string>, domain: string) returns (found: seq<string>)
      modifies this
      ensures found == Admitted(old(allLinks), urls, domain)
      ensures allLinks == old(allLinks) + ToSet(found)
    {
      found := [];
      var k := 0;
      while k < |urls|
        invariant 0 <= k <= |urls|
        invariant found == Admitted(old(allLinks), urls[..k], domain)
        invariant allLinks == old(allLinks) + ToSet(found)
      {
        assert urls[..k + 1][..k] == urls[..k];
        var url := urls[k];
        if url !in allLinks && Contains(url, domain) && IsValidExtension(url) {
          found := found + [url];
          allLinks := allLinks + {url};
        }
        k := k + 1;
      }
      assert urls[..k] == urls;
    }

    /** The first steps of `run`: forget every known link, then read the
        URL and its domain. */
    method Start(typed: string) returns (websiteUrl: string, domain: string)
      modifies this
      ensures allLinks == {}
      ensures websiteUrl == NormalizeUrl(typed) && domain == DomainOf(websiteUrl)
    {
      allLinks := {};
      websiteUrl := Strip(typed);
      if !(StartsWith(websiteUrl, "https://") || StartsWith(websiteUrl, "http://")) {
        websiteUrl := "https://" + websiteUrl;
      }
      domain := Split(RemoveScheme(websiteUrl), '/')[0];
    }
  }

  /* ---------------------------------------------------------------------- */
  /* The typed URL and its domain                                           */
  /* ---------------------------------------------------------------------- */

  predicate HasScheme(url: string) {
    StartsWith(url, "https://") || StartsWith(url, "http://")
  }

  /** `input().strip()`, with "https://" put in front unless the URL already
      starts with "https://" or "http://". */
  function NormalizeUrl(typed: string): string {
    var url := Strip(typed);
    if HasScheme(url) then url else "https://" + url
  }

  /** `re.sub(r'^https?://', '', url)`. */
  function RemoveScheme(url: string): string {
    if StartsWith(url, "https://") then url[8..]
    else if StartsWith(url, "http://") then url[7..]
    else url
  }

  /** `re.sub(r'^https?://', '', url).split('/')[0]`. */
  function DomainOf(url: string): string {
    Split(RemoveScheme(url), '/')[0]
  }

  /** The normalised URL always has a scheme; a URL that had one is kept
      as typed, apart from the surrounding whitespace. */
  lemma NormalizeUrlScheme(typed: string)
    ensures HasScheme(NormalizeUrl(typed))
    ensures HasScheme(Strip(typed)) ==> NormalizeUrl(typed) == Strip(typed)
    ensures !HasScheme(Strip(typed)) ==> NormalizeUrl(typed) == "https://" + Strip(typed)
  {
  }

  /** Normalising twice changes nothing more. */
  lemma NormalizeUrlIdempotent(typed: string)
    ensures NormalizeUrl(NormalizeUrl(typed)) == NormalizeUrl(typed)
  {
    var url := NormalizeUrl(typed);
    var _ := StripResult(typed);
    assert url[0] == 'h';
    assert !IsSpace(url[|url| - 1]) by {
      if !HasScheme(Strip(typed)) && Strip(typed) != [] {
        assert url[|url| - 1] == Strip(typed)[|Strip(typed)| - 1];
      }
    }
    StripUnchanged(url);
  }

  /** The domain is the text between the scheme and the first `/`: the
      URL without its scheme starts with it, and it runs to the end or to
      a `/`. */
  lemma DomainOfSpec(url: string)
    ensures '/' !in DomainOf(url)
    ensures StartsWith(RemoveScheme(url), DomainOf(url))
    ensures DomainOf(url) == RemoveScheme(url) || RemoveScheme(url)[|DomainOf(url)|] == '/'
    ensures HasScheme(url) ==> (EndsWith(url, RemoveScheme(url))
      && (url[..|url| - |RemoveScheme(url)|] == "https://" || url[..|url| - |RemoveScheme(url)|] == "http://"))
  {
    SplitFirst(RemoveScheme(url), '/');
  }

  /** For a URL typed without a scheme, the domain is what was typed up to
      the first `/`. */
  lemma DomainOfTyped(typed: string)
    requires !HasScheme(Strip(typed))
    ensures DomainOf(NormalizeUrl(typed)) == Split(Strip(typed), '/')[0]
  {
    var url := "https://" + Strip(typed);
    assert StartsWith(url, "https://");
    assert url[8..] == Strip(typed);
  }
}
