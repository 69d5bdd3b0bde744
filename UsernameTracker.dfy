// The username lookup of modules/osint/username/tracker.py: the probe URL is
// a template with the lower-cased username filled in, each fetched page is
// lower-cased and scrubbed (the URL, "/username", every tag and a few
// site-specific strings removed) before the username is searched for, and
// the sites where it appears are collected in order. Reading sites.json,
// the HTTP requests and HTML parsing are outside the model: the site table
// and what fetching a URL gives are parameters.

module UsernameTracker {
  import opened Wrappers
  import opened PyStrings
  import opened PyDicts
  import opened PyExceptions

  /* ---------------------------------------------------------------------- */
  /* site_exception                                                         */
  /* ---------------------------------------------------------------------- */

  function PaypalSlugName(username: string): string { "slug_name=" + username }
  function PaypalSlug(username: string): string { "\"slug\":\"" + username + "\"" }
  function PaypalPath(username: string): string { "2F" + username + "&amp" }
  function TikTokHandle(username: string): string { "\\u002f@" + username + "\"" }

  /** `site_exception(username, site, page_content)`: strings that mention
      the username on every page of a site are removed before searching. */
  function SiteException(username: string, site: string, content: string): string {
    if site == "Paypal" then
      ReplaceAll(ReplaceAll(ReplaceAll(content, PaypalSlugName(username), []),
                            PaypalSlug(username), []),
                 PaypalPath(username), [])
    else if site == "TikTok" then ReplaceAll(content, TikTokHandle(username), [])
    else content
  }

  /** Every site but Paypal and TikTok keeps its page as it is. */
  lemma SiteExceptionOther(username: string, site: string, content: string)
    requires site != "Paypal" && site != "TikTok"
    ensures SiteException(username, site, content) == content
  {
  }

  /** On TikTok every non-overlapping `\u002f@username"` (a backslash,
      "u002f", "@", the username and a quote, as the page's JSON escapes
      the slash) goes, read left to
      right: the page shrinks by one pattern length per occurrence, and
      shrinks at all exactly when the pattern occurs. */
  lemma SiteExceptionTikTok(username: string, content: string)
    ensures |SiteException(username, "TikTok", content)|
      == |content| - CountOf(content, TikTokHandle(username)) * |TikTokHandle(username)|
    ensures |SiteException(username, "TikTok", content)| < |content| <==> Contains(content, TikTokHandle(username))
  {
    RemoveAllLength(content, TikTokHandle(username));
  }

  /** On Paypal the three patterns go one after the other, each removal
      counted on what the previous one left. */
  lemma SiteExceptionPaypal(username: string, content: string)
    ensures var a := ReplaceAll(content, PaypalSlugName(username), []);
      var b := ReplaceAll(a, PaypalSlug(username), []);
      && SiteException(username, "Paypal", content) == ReplaceAll(b, PaypalPath(username), [])
      && |a| == |content| - CountOf(content, PaypalSlugName(username)) * |PaypalSlugName(username)|
      && |b| == |a| - CountOf(a, PaypalSlug(username)) * |PaypalSlug(username)|
      && |SiteException(username, "Paypal", content)| == |b| - CountOf(b, PaypalPath(username)) * |PaypalPath(username)|
  {
    var a := ReplaceAll(content, PaypalSlugName(username), []);
    var b := ReplaceAll(a, PaypalSlug(username), []);
    RemoveAllLength(content, PaypalSlugName(username));
    RemoveAllLength(a, PaypalSlug(username));
    RemoveAllLength(b, PaypalPath(username));
  }

  /** Only removals: the page never grows, and no character appears that
      the page did not have. */
  lemma SiteExceptionShrinks(username: string, site: string, content: string, P: char -> bool)
    requires forall i :: 0 <= i < |content| ==> P(content[i])
    ensures |SiteException(username, site, content)| <= |content|
    ensures forall i :: 0 <= i < |SiteException(username, site, content)| ==> P(SiteException(username, site, content)[i])
  {
    if site == "Paypal" {
      PaypalShrinks(username, content, P);
    } else if site == "TikTok" {
      SiteExceptionTikTok(username, content);
      RemoveAllKeeps(content, TikTokHandle(username), P);
    }
  }

  lemma PaypalShrinks(username: string, content: string, P: char -> bool)
    requires forall i :: 0 <= i < |content| ==> P(content[i])
    ensures |SiteException(username, "Paypal", content)| <= |content|
    ensures forall i :: 0 <= i < |SiteException(username, "Paypal", content)| ==> P(SiteException(username, "Paypal", content)[i])
  {
    var a := ReplaceAll(content, PaypalSlugName(username), []);
    var b := ReplaceAll(a, PaypalSlug(username), []);
    var c := ReplaceAll(b, PaypalPath(username), []);
    assert SiteException(username, "Paypal", content) == c;
    RemoveShrinks(content, PaypalSlugName(username), P);
    RemoveShrinks(a, PaypalSlug(username), P);
    RemoveShrinks(b, PaypalPath(username), P);
  }

  /** One removal keeps a property of every character and never lengthens. */
  lemma RemoveShrinks(s: string, pat: string, P: char -> bool)
    requires pat != []
    requires forall i :: 0 <= i < |s| ==> P(s[i])
    ensures |ReplaceAll(s, pat, [])| <= |s|
    ensures forall i :: 0 <= i < |ReplaceAll(s, pat, [])| ==> P(ReplaceAll(s, pat, [])[i])
  {
    RemoveAllLength(s, pat);
    RemoveAllKeeps(s, pat, P);
  }

  /* ---------------------------------------------------------------------- */
  /* The probe URL                                                          */
  /* ---------------------------------------------------------------------- */

  /** `url_template.replace("{user}", username)`. */
  function ProbeUrl(template: string, username: string): string {
    ReplaceAll(template, "{user}", username)
  }

  /** Each placeholder gives way to the username, and a template without
      one is probed as it is. */
  lemma ProbeUrlSpec(template: string, username: string)
    ensures |ProbeUrl(template, username)| == |template| + CountOf(template, "{user}") * (|username| - 6)
    ensures !Contains(template, "{user}") ==> ProbeUrl(template, username) == template
  {
    ReplaceAllLength(template, "{user}", username);
    if !Contains(template, "{user}") {
      ReplaceAllAbsent(template, "{user}", username);
    }
  }

  /* ---------------------------------------------------------------------- */
  /* Tag stripping                                                          */
  /* ---------------------------------------------------------------------- */

  /** The index of the first `c` in `s`. */
  function IndexOf(s: string, c: char): (r: Option<nat>)
    ensures r.Some? ==> r.value < |s| && s[r.value] == c && c !in s[..r.value]
    ensures r.None? ==> c !in s
    decreases |s|
  {
    if s == [] then None
    else if s[0] == c then Some(0)
    else
      match IndexOf(s[1..], c)
      case None => None
      case Some(i) =>
        assert s[..i + 1] == [s[0]] + s[1..][..i];
        Some(i + 1)
  }

  /** `re.sub(r'<[^>]*>', '', s)`: from left to right, each `<` with a `>`
      somewhere after it is removed together with everything up to the
      first such `>`. */
  function StripTags(s: string): string
    decreases |s|
  {
    if s == [] then []
    else if s[0] == '<' then
      match IndexOf(s[1..], '>')
      case Some(j) => StripTags(s[j + 2..])
      case None => [s[0]] + StripTags(s[1..])
    else [s[0]] + StripTags(s[1..])
  }

  /** No `<` is followed, anywhere later, by a `>`: nothing the pattern
      could match. */
  predicate NoTag(s: string) {
    forall i, j :: 0 <= i < j < |s| && s[i] == '<' ==> s[j] != '>'
  }

  /** Stripping never adds a character and never lengthens the text. */
  lemma {:induction false} StripTagsKeeps(s: string)
    ensures |StripTags(s)| <= |s|
    ensures forall c :: c in StripTags(s) ==> c in s
    decreases |s|
  {
    if s != [] {
      if s[0] == '<' && IndexOf(s[1..], '>').Some? {
        var j := IndexOf(s[1..], '>').value;
        StripTagsKeeps(s[j + 2..]);
        assert forall c :: c in s[j + 2..] ==> c in s;
      } else {
        StripTagsKeeps(s[1..]);
        assert forall c :: c in s[1..] ==> c in s;
      }
    }
  }

  /** After stripping, no tag is left. */
  lemma {:induction false} StripTagsNoTag(s: string)
    ensures NoTag(StripTags(s))
    decreases |s|
  {
    if s != [] {
      if s[0] == '<' && IndexOf(s[1..], '>').Some? {
        StripTagsNoTag(s[IndexOf(s[1..], '>').value + 2..]);
      } else {
        var rest := StripTags(s[1..]);
        StripTagsNoTag(s[1..]);
        StripTagsKeeps(s[1..]);
        assert StripTags(s) == [s[0]] + rest;
        assert s[0] == '<' ==> '>' !in rest;
      }
    }
  }

  /** Text without tags is left alone; in particular stripping twice is
      stripping once. */
  lemma {:induction false} StripTagsUnchanged(s: string)
    requires NoTag(s)
    ensures StripTags(s) == s
    decreases |s|
  {
    if s != [] {
      assert NoTag(s[1..]) by {
        forall i, j | 0 <= i < j < |s[1..]| && s[1..][i] == '<' ensures s[1..][j] != '>' {
          assert s[i + 1] == '<';
        }
      }
      StripTagsUnchanged(s[1..]);
      if s[0] == '<' {
        assert forall k :: 0 <= k < |s[1..]| ==> s[1..][k] == s[k + 1];
      }
    }
  }

  lemma StripTagsIdempotent(s: string)
    ensures StripTags(StripTags(s)) == StripTags(s)
  {
    StripTagsNoTag(s);
    StripTagsUnchanged(StripTags(s));
  }

  /* ---------------------------------------------------------------------- */
  /* The page check                                                         */
  /* ---------------------------------------------------------------------- */

  /** `page_content` as searched: the page lower-cased, the probe URL and
      "/username" removed, tags stripped, and the site's own strings
      removed. */
  function PageContent(site: string, url: string, username: string, text: string): string {
    SiteException(username, site, StripTags(ReplaceAll(ReplaceAll(Lower(text), url, []), "/" + username, [])))
  }

  /** The searched content is no longer than the page and has no upper-case
      letter, so an upper-case letter in a username could never be found in
      it (the username is lower-cased first for that reason). */
  lemma PageContentLower(site: string, url: string, username: string, text: string)
    ensures |PageContent(site, url, username, text)| <= |text|
    ensures NoUpper(PageContent(site, url, username, text))
  {
    var P := (ch: char) => !IsUpper(ch);
    var a := Lower(text);
    LowerHasNoUpper(text);
    var b := ReplaceAll(a, url, []);
    RemoveAllKeeps(a, url, P);
    var c := ReplaceAll(b, "/" + username, []);
    RemoveAllKeeps(b, "/" + username, P);
    var d := StripTags(c);
    StripTagsKeeps(c);
    assert forall i :: 0 <= i < |d| ==> P(d[i]) by {
      forall i | 0 <= i < |d| ensures P(d[i]) {
        assert d[i] in c;
      }
    }
    SiteExceptionShrinks(username, site, d, P);
    assert |b| <= |a| && |c| <= |b| by {
      if url != [] { RemoveAllLength(a, url); } else { InterleaveEmpty(a); }
      RemoveAllLength(b, "/" + username);
    }
  }

  /** What a request for one probe URL gives: an exception, or a response
      with its status, body, the text BeautifulSoup extracts from it and the
      string of its `<title>` if it has one. An `Exception` is caught and
      printed by the loop; anything else leaves `run` (see `Escapes`). */
  datatype Fetch = RequestFailed(exc: Exc) | Response(status: int, text: string, pageText: string, title: Option<string>)

  /** The username was found on the fetched page: status 200, a title (its
      absence raises and is reported as an error), and the username in the
      lower-cased title, the scrubbed content or the page text without the
      URL. */
  predicate Found(site: string, url: string, username: string, fetch: Fetch) {
    && fetch.Response?
    && fetch.status == 200
    && fetch.title.Some?
    && (|| Contains(Lower(fetch.title.value), username)
        || Contains(PageContent(site, url, username, fetch.text), username)
        || Contains(ReplaceAll(Lower(fetch.pageText), url, []), username))
  }

  /** `founded_sites` after the loop has gone through the given sites. */
  function FoundSites(sites: Dict<string, string>, username: string, fetch: string -> Fetch): Dict<string, string>
    decreases |sites|
  {
    if sites == [] then []
    else
      var before := FoundSites(sites[..|sites| - 1], username, fetch);
      var (site, template) := sites[|sites| - 1];
      var url := ProbeUrl(template, username);
      if Found(site, url, username, fetch(url)) then Put(before, site, url) else before
  }

  /** The probe URLs of the given sites, in order. */
  function ProbeUrls(sites: Dict<string, string>, username: string): (urls: seq<string>)
    ensures |urls| == |sites|
    decreases |sites|
  {
    if sites == [] then []
    else ProbeUrls(sites[..|sites| - 1], username) + [ProbeUrl(sites[|sites| - 1].1, username)]
  }

  /** A site is in `founded_sites`, under its probe URL, exactly when the
      username was found there; no other key appears. */
  lemma {:induction false} FoundSitesSpec(sites: Dict<string, string>, username: string, fetch: string -> Fetch, i: nat)
    requires DistinctKeys(sites) && i < |sites|
    ensures var (site, template) := sites[i];
      var url := ProbeUrl(template, username);
      Get(FoundSites(sites, username, fetch), site) == if Found(site, url, username, fetch(url)) then Some(url) else None
    decreases |sites|
  {
    var n := |sites| - 1;
    var before := FoundSites(sites[..n], username, fetch);
    var (site, template) := sites[n];
    var url := ProbeUrl(template, username);
    PutGet(before, site, url);
    if i < n {
      assert DistinctKeys(sites[..n]);
      FoundSitesSpec(sites[..n], username, fetch, i);
      assert sites[..n][i] == sites[i];
    } else {
      NoKeyBefore(sites, username, fetch);
    }
  }

  /** Before the last site is visited, it is not a key of `founded_sites`. */
  lemma NoKeyBefore(sites: Dict<string, string>, username: string, fetch: string -> Fetch)
    requires DistinctKeys(sites) && sites != []
    ensures Get(FoundSites(sites[..|sites| - 1], username, fetch), sites[|sites| - 1].0) == None
  {
    var n := |sites| - 1;
    FoundKeys(sites[..n], username, fetch);
    GetSome(FoundSites(sites[..n], username, fetch), sites[n].0);
    assert sites[n].0 !in Keys(sites[..n]);
  }

  /** Every key of `founded_sites` is a site of the table. */
  lemma {:induction false} FoundKeys(sites: Dict<string, string>, username: string, fetch: string -> Fetch)
    ensures forall k :: k in Keys(FoundSites(sites, username, fetch)) ==> k in Keys(sites)
    decreases |sites|
  {
    if sites != [] {
      var n := |sites| - 1;
      var before := FoundSites(sites[..n], username, fetch);
      FoundKeys(sites[..n], username, fetch);
      PutKeys(before, sites[n].0, ProbeUrl(sites[n].1, username));
      assert forall k :: k in Keys(sites[..n]) ==> k in Keys(sites) by {
        forall k | k in Keys(sites[..n]) ensures k in Keys(sites) {
          var j :| 0 <= j < n && Keys(sites[..n])[j] == k;
          assert Keys(sites)[j] == k;
        }
      }
      assert Keys(sites)[n] == sites[n].0;
    }
  }

  /** A request that raises something `except Exception` does not catch
      (`KeyboardInterrupt`, `SystemExit`): it leaves `run` at once. */
  predicate Escapes(fetch: Fetch) {
    fetch.RequestFailed? && !IsException(fetch.exc.kind)
  }

  /** What the loop over the given sites ends with: `founded_sites`, or the
      exception of the first request that escapes the `try`. */
  function Tracked(sites: Dict<string, string>, username: string, fetch: string -> Fetch): Result<Dict<string, string>, Exc>
    decreases |sites|
  {
    if sites == [] then Success([])
    else
      match Tracked(sites[..|sites| - 1], username, fetch)
      case Failure(e) => Failure(e)
      case Success(before) =>
        var (site, template) := sites[|sites| - 1];
        var url := ProbeUrl(template, username);
        if Escapes(fetch(url)) then Failure(fetch(url).exc)
        else if Found(site, url, username, fetch(url)) then Success(Put(before, site, url))
        else Success(before)
  }

  /** The loop runs to the end exactly when no request escapes, and then
      yields `founded_sites`; otherwise it stops with the exception of the
      first escaping request. */
  lemma {:induction false} TrackedOutcome(sites: Dict<string, string>, username: string, fetch: string -> Fetch)
    ensures Tracked(sites, username, fetch).Success? ==>
      forall j :: 0 <= j < |sites| ==> !Escapes(fetch(ProbeUrls(sites, username)[j]))
    ensures (forall j :: 0 <= j < |sites| ==> !Escapes(fetch(ProbeUrls(sites, username)[j]))) ==>
      Tracked(sites, username, fetch).Success?
    ensures Tracked(sites, username, fetch).Success? ==>
      Tracked(sites, username, fetch).value == FoundSites(sites, username, fetch)
    ensures Tracked(sites, username, fetch).Failure? ==>
      exists i :: 0 <= i < |sites| && Escapes(fetch(ProbeUrls(sites, username)[i]))
        && Tracked(sites, username, fetch).error == fetch(ProbeUrls(sites, username)[i]).exc
        && forall j :: 0 <= j < i ==> !Escapes(fetch(ProbeUrls(sites, username)[j]))
    decreases |sites|
  {
    if sites != [] {
      var n := |sites| - 1;
      var pre := sites[..n];
      TrackedOutcome(pre, username, fetch);
      var urls := ProbeUrls(sites, username);
      ProbeUrlsAt(pre, username);
      assert urls == ProbeUrls(pre, username) + [ProbeUrl(sites[n].1, username)];
      assert forall j :: 0 <= j < n ==> urls[j] == ProbeUrls(pre, username)[j];
      if Tracked(pre, username, fetch).Failure? {
        var i :| 0 <= i < n && Escapes(fetch(ProbeUrls(pre, username)[i]))
          && Tracked(pre, username, fetch).error == fetch(ProbeUrls(pre, username)[i]).exc
          && forall j :: 0 <= j < i ==> !Escapes(fetch(ProbeUrls(pre, username)[j]));
        assert Tracked(sites, username, fetch) == Tracked(pre, username, fetch);
        assert Escapes(fetch(ProbeUrls(sites, username)[i]));
        assert !(forall j :: 0 <= j < |sites| ==> !Escapes(fetch(ProbeUrls(sites, username)[j])));
      } else if Escapes(fetch(urls[n])) {
        assert urls[n] == ProbeUrl(sites[n].1, username);
        assert Tracked(sites, username, fetch) == Failure(fetch(urls[n]).exc);
        assert !(forall j :: 0 <= j < |sites| ==> !Escapes(fetch(ProbeUrls(sites, username)[j])));
        assert forall j :: 0 <= j < n ==> !Escapes(fetch(urls[j]));
      } else {
        assert urls[n] == ProbeUrl(sites[n].1, username);
        assert forall j :: 0 <= j < |sites| ==> !Escapes(fetch(urls[j])) by {
          forall j | 0 <= j < |sites| ensures !Escapes(fetch(urls[j])) {
            if j < n {
              assert urls[j] == ProbeUrls(pre, username)[j];
            }
          }
        }
      }
    }
  }

  lemma {:induction false} ProbeUrlsAt(sites: Dict<string, string>, username: string)
    ensures forall j :: 0 <= j < |sites| ==> ProbeUrls(sites, username)[j] == ProbeUrl(sites[j].1, username)
    decreases |sites|
  {
    if sites != [] {
      var n := |sites| - 1;
      ProbeUrlsAt(sites[..n], username);
    }
  }

  /** Once the loop has stopped on an escaping request, the rest of the
      table makes no difference. */
  lemma {:induction false} TrackedPrefixFailure(sites: Dict<string, string>, username: string, fetch: string -> Fetch, k: nat)
    requires k <= |sites| && Tracked(sites[..k], username, fetch).Failure?
    ensures Tracked(sites, username, fetch) == Tracked(sites[..k], username, fetch)
    decreases |sites|
  {
    if k < |sites| {
      var n := |sites| - 1;
      assert sites[..n][..k] == sites[..k];
      TrackedPrefixFailure(sites[..n], username, fetch, k);
    } else {
      assert sites[..k] == sites;
    }
  }

  /** How `run` ends. */
  datatype RunResult = InvalidSites | Finished(founded: Dict<string, string>) | Raised(exc: Exc)

  /** `run` from the prompts on: the username is lower-cased, an empty site
      table (a missing file gives one) stops the run with "Invalid
      sites.json file path", and otherwise every site is probed in table
      order until a request raises an exception that is not an `Exception`,
      which leaves `run`. `requested` lists the URLs requested. */
  method Run(typedUsername: string, sites: Dict<string, string>, fetch: string -> Fetch)
    returns (result: RunResult, requested: seq<string>)
    ensures sites == [] <==> result == InvalidSites
    ensures sites == [] ==> requested == []
    ensures result.Finished? ==> (Tracked(sites, Lower(typedUsername), fetch) == Success(result.founded)
                                  && requested == ProbeUrls(sites, Lower(typedUsername)))
    ensures result.Raised? ==> (Tracked(sites, Lower(typedUsername), fetch) == Failure(result.exc)
                                && 0 < |requested| <= |sites|
                                && requested == ProbeUrls(sites[..|requested|], Lower(typedUsername))
                                && Escapes(fetch(requested[|requested| - 1]))
                                && result.exc == fetch(requested[|requested| - 1]).exc)
  {
    var username := Lower(typedUsername);
    requested := [];
    if sites == [] {
      return InvalidSites, requested;
    }
    var foundedSites: Dict<string, string> := [];
    var k := 0;
    while k < |sites|
      invariant 0 <= k <= |sites|
      invariant Tracked(sites[..k], username, fetch) == Success(foundedSites)
      invariant requested == ProbeUrls(sites[..k], username)
    {
      assert sites[..k + 1][..k] == sites[..k];
      var (site, urlTemplate) := sites[k];
      var url := ProbeUrl(urlTemplate, username);
      requested := requested + [url];
      var response := fetch(url);
      if response.RequestFailed? && !IsException(response.exc.kind) {
        TrackedPrefixFailure(sites, username, fetch, k + 1);
        return Raised(response.exc), requested;
      }
      if Found(site, url, username, response) {
        foundedSites := Put(foundedSites, site, url);
      }
      k := k + 1;
    }
    assert sites[..k] == sites;
    return Finished(foundedSites), requested;
  }
}
