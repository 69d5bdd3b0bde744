// `EmailLookup.get_email_info` of modules/osint/email/lookup.py: the address
// is cut into name, domain and top-level domain by fixed string rules, three
// DNS lookups add record lists, and the MX host names mark the mail provider.
// The resolver is a given function from a query (name, record type) to its
// outcome.

module EmailLookup {
  import opened Wrappers
  import opened PyStrings
  import opened PyDicts
  import opened PyExceptions

  /** A value of the `info` dictionary. */
  datatype Value = Text(s: string) | Texts(items: seq<string>) | Flag(b: bool)

  type Info = Dict<string, Value>

  /** What `dns.resolver.resolve(name, rdtype)` does: it answers with
      records (as their strings), raises one of the two exceptions the
      lookup ignores, or raises something else. */
  datatype Lookup = Answered(records: seq<string>) | NoAnswer | NxDomain | Raised(exc: Exc)

  /* ---------------------------------------------------------------------- */
  /* The address                                                            */
  /* ---------------------------------------------------------------------- */

  /** `email.split('@')[0]`. */
  function Name(email: string): string {
    Split(email, '@')[0]
  }

  /** The name is the text before the first `@`, or the whole address. */
  lemma NameField(email: string)
    ensures StartsWith(email, Name(email)) && '@' !in Name(email)
    ensures Name(email) == email || email[|Name(email)|] == '@'
  {
    SplitFirst(email, '@');
  }

  /** `f".{email.split('.')[-1]}"`. */
  function Tld(email: string): string {
    "." + LastPart(email, '.')
  }

  /** The top-level domain is a dot and the text after the last `.`, or a
      dot and the whole address when it has none. */
  lemma TldField(email: string)
    ensures Tld(email)[0] == '.' && EndsWith(email, Tld(email)[1..]) && '.' !in Tld(email)[1..]
    ensures '.' in email ==> email[|email| - |Tld(email)|] == '.'
    ensures '.' !in email ==> Tld(email) == "." + email
  {
    SplitLast(email, '.');
    SplitJoin(email, '.');
    var parts := Split(email, '.');
    assert Tld(email)[1..] == parts[|parts| - 1];
    if '.' !in email {
      SplitSingle(email, '.');
    }
  }

  /** A character `[^@.]` accepts. */
  predicate DomainChar(ch: char) {
    ch != '@' && ch != '.'
  }

  /** The pattern `@([^@.]+)\.` matches at `i` with group `d`. */
  predicate DomainAt(email: string, i: int, d: string) {
    && 0 <= i && i + |d| + 1 < |email|
    && email[i] == '@'
    && d != []
    && email[i + 1..i + 1 + |d|] == d
    && (forall k :: 0 <= k < |d| ==> DomainChar(d[k]))
    && email[i + 1 + |d|] == '.'
  }

  /** The longest run of `[^@.]` characters starting at `i`. */
  function RunFrom(s: string, i: nat): string
    requires i <= |s|
    decreases |s| - i
  {
    if i < |s| && DomainChar(s[i]) then [s[i]] + RunFrom(s, i + 1) else []
  }

  /** The search of `re.search` from position `i` onwards. */
  function SearchDomain(s: string, i: nat): Option<string>
    requires i <= |s|
    decreases |s| - i
  {
    if i == |s| then None
    else
      var d := RunFrom(s, i + 1);
      if s[i] == '@' && d != [] && i + 1 + |d| < |s| && s[i + 1 + |d|] == '.' then Some(d)
      else SearchDomain(s, i + 1)
  }

  /** `re.search(r"@([^@.]+)\.", email).group(1)`, if it matches. */
  function FindDomain(email: string): Option<string> {
    SearchDomain(email, 0)
  }

  lemma {:induction false} RunFromSpec(s: string, i: nat)
    requires i <= |s|
    ensures i + |RunFrom(s, i)| <= |s| && s[i..i + |RunFrom(s, i)|] == RunFrom(s, i)
    ensures forall k :: 0 <= k < |RunFrom(s, i)| ==> DomainChar(RunFrom(s, i)[k])
    ensures i + |RunFrom(s, i)| == |s| || !DomainChar(s[i + |RunFrom(s, i)|])
    decreases |s| - i
  {
    if i < |s| && DomainChar(s[i]) {
      RunFromSpec(s, i + 1);
    }
  }

  /** A run of `[^@.]` characters that something else ends is the
      longest run from its start. */
  lemma {:induction false} RunOfDelimited(s: string, j: nat, d: string)
    requires j + |d| < |s| && s[j..j + |d|] == d
    requires forall k :: 0 <= k < |d| ==> DomainChar(d[k])
    requires !DomainChar(s[j + |d|])
    ensures RunFrom(s, j) == d
    decreases |d|
  {
    if d != [] {
      assert s[j] == d[0];
      assert s[j + 1..j + 1 + |d[1..]|] == d[1..];
      RunOfDelimited(s, j + 1, d[1..]);
    }
  }

  /** At a given position the group is forced: the greedy run, which the
      `.` must follow. */
  lemma DomainAtRun(s: string, i: nat, d: string)
    requires DomainAt(s, i, d)
    ensures d == RunFrom(s, i + 1)
  {
    RunOfDelimited(s, i + 1, d);
  }

  lemma {:induction false} SearchDomainSpec(s: string, i: nat)
    requires i <= |s|
    ensures SearchDomain(s, i).None? ==> forall j, d :: i <= j && DomainAt(s, j, d) ==> false
    ensures SearchDomain(s, i).Some? ==> exists j :: (i <= j && DomainAt(s, j, SearchDomain(s, i).value)
      && forall j', d' :: i <= j' < j ==> !DomainAt(s, j', d'))
    decreases |s| - i
  {
    if i < |s| {
      var d := RunFrom(s, i + 1);
      RunFromSpec(s, i + 1);
      if s[i] == '@' && d != [] && i + 1 + |d| < |s| && s[i + 1 + |d|] == '.' {
        assert DomainAt(s, i, d);
      } else {
        SearchDomainSpec(s, i + 1);
        forall d' | DomainAt(s, i, d') ensures false {
          DomainAtRun(s, i, d');
        }
      }
    }
  }

  /** The domain is found exactly when the pattern matches somewhere; it is
      the group of the leftmost match: non-empty, free of `@` and `.`, right
      after an `@` and right before a `.`. */
  lemma FindDomainSpec(email: string)
    ensures FindDomain(email).Some? <==> exists i, d :: DomainAt(email, i, d)
    ensures FindDomain(email).Some? ==> exists i :: (DomainAt(email, i, FindDomain(email).value)
      && forall j, d :: 0 <= j < i ==> !DomainAt(email, j, d))
  {
    SearchDomainSpec(email, 0);
  }

  /** `f"{info.get('domain')}{info.get('tld')}"`: a missing domain is
      written as `None`. */
  function DomainAll(email: string): string {
    (match FindDomain(email) case Some(d) => d case None => "None") + Tld(email)
  }

  /** `str(info.get(key))` for the text values the lookup stores. */
  function Show(v: Option<Value>): string
    requires v.None? || v.value.Text?
  {
    if v.None? then "None" else v.value.s
  }

  /* ---------------------------------------------------------------------- */
  /* The lookups and the provider flags                                     */
  /* ---------------------------------------------------------------------- */

  /** One `try: ... except (NoAnswer, NXDOMAIN): pass` block. */
  function Record(info: Info, key: string, answer: Lookup): Result<Info, Exc> {
    match answer
    case Answered(rs) => Success(Put(info, key, Texts(rs)))
    case NoAnswer => Success(info)
    case NxDomain => Success(info)
    case Raised(e) => Failure(e)
  }

  const Google: string := "google_workspace"
  const Microsoft: string := "microsoft_365"

  /** The provider loop over the MX host names: a `google.com` host marks
      Google Workspace, otherwise an `outlook.com` host marks Microsoft 365. */
  function MarkProviders(info: Info, servers: seq<string>): Info
    decreases |servers|
  {
    if servers == [] then info
    else
      var before := MarkProviders(info, servers[..|servers| - 1]);
      var server := servers[|servers| - 1];
      if Contains(server, "google.com") then Put(before, Google, Flag(true))
      else if Contains(server, "outlook.com") then Put(before, Microsoft, Flag(true))
      else before
  }

  /** The host names the MX lookup answered with, if it did. */
  function Servers(answer: Lookup): seq<string> {
    if answer.Answered? then answer.records else []
  }

  /** `info.get("mx_servers")` as the provider loop reads it: the stored
      host names, or nothing to iterate over. */
  function MxHosts(info: Info): seq<string> {
    var stored := Get(info, "mx_servers");
    if stored.Some? && stored.value.Texts? then stored.value.items else []
  }

  /** `info` after the name and, when the pattern matches, the domain. */
  function NameAndDomain(email: string): Info {
    var named := Put([], "name", Text(Name(email)));
    match FindDomain(email) case Some(d) => Put(named, "domain", Text(d)) case None => named
  }

  /** `info` once the address fields are in: name, domain, tld, domain_all. */
  function AddressFields(email: string): Info {
    Put(Put(NameAndDomain(email), "tld", Text(Tld(email))), "domain_all", Text(DomainAll(email)))
  }

  /** The three DNS blocks, each recording its answer under its key. */
  function Lookups(base: Info, all: string, resolve: (string, string) -> Lookup): Result<Info, Exc> {
    var withMx :- Record(base, "mx_servers", resolve(all, "MX"));
    var withSpf :- Record(withMx, "spf_records", resolve(all, "SPF"));
    Record(withSpf, "dmarc_records", resolve("_dmarc." + all, "TXT"))
  }

  /** `get_email_info(email)`. */
  function EmailInfo(email: string, resolve: (string, string) -> Lookup): Result<Info, Exc> {
    var all := DomainAll(email);
    var info :- Lookups(AddressFields(email), all, resolve);
    Success(MarkProviders(info, MxHosts(info)))
  }

  /** The body of `get_email_info`: `info` is filled step by step, first
      with the address fields, then with the DNS answers, then with the
      provider flags. */
  method GetEmailInfo(email: string, resolve: (string, string) -> Lookup) returns (r: Result<Info, Exc>)
    ensures r == EmailInfo(email, resolve)
  {
    var info, domainAll := FillAddressFields(email);
    var looked := RunLookups(info, domainAll, resolve);
    if looked.Failure? {
      return Failure(looked.error);
    }
    info := looked.value;
    var mx := Get(info, "mx_servers");
    if mx.Some? && mx.value.Texts? {
      info := MarkProviderFlags(info, mx.value.items);
    }
    return Success(info);
  }

  /** The address part of `get_email_info`: name, domain, tld, domain_all. */
  method FillAddressFields(email: string) returns (info: Info, domainAll: string)
    ensures info == AddressFields(email) && domainAll == DomainAll(email)
  {
    info := [];
    var emailParts := Split(email, '@');
    info := Put(info, "name", Text(emailParts[0]));
    var domainMatcher := FindDomain(email);
    if domainMatcher.Some? {
      info := Put(info, "domain", Text(domainMatcher.value));
    }
    assert info == NameAndDomain(email);
    NameAndDomainGet(email);
    PutGet(info, "tld", Text(Tld(email)));
    info := Put(info, "tld", Text("." + LastPart(email, '.')));
    domainAll := Show(Get(info, "domain")) + Show(Get(info, "tld"));
    info := Put(info, "domain_all", Text(domainAll));
  }

  /** The three `try` blocks around the DNS queries. */
  method RunLookups(base: Info, domainAll: string, resolve: (string, string) -> Lookup) returns (r: Result<Info, Exc>)
    ensures r == Lookups(base, domainAll, resolve)
  {
    var info := base;
    var mx := resolve(domainAll, "MX");
    match mx {
      case Answered(records) => info := Put(info, "mx_servers", Texts(records));
      case Raised(e) => return Failure(e);
      case _ =>
    }
    assert Record(base, "mx_servers", mx) == Success(info);
    ghost var withMx := info;
    var spf := resolve(domainAll, "SPF");
    match spf {
      case Answered(records) => info := Put(info, "spf_records", Texts(records));
      case Raised(e) => return Failure(e);
      case _ =>
    }
    assert Record(withMx, "spf_records", spf) == Success(info);
    ghost var withSpf := info;
    var dmarc := resolve("_dmarc." + domainAll, "TXT");
    match dmarc {
      case Answered(records) => info := Put(info, "dmarc_records", Texts(records));
      case Raised(e) => return Failure(e);
      case _ =>
    }
    return Success(info);
  }

  /** The loop over the MX host names. */
  method MarkProviderFlags(base: Info, servers: seq<string>) returns (info: Info)
    ensures info == MarkProviders(base, servers)
  {
    info := base;
    var k := 0;
    while k < |servers|
      invariant 0 <= k <= |servers|
      invariant info == MarkProviders(base, servers[..k])
    {
      assert servers[..k + 1][..k] == servers[..k];
      var server := servers[k];
      if Contains(server, "google.com") {
        info := Put(info, Google, Flag(true));
      } else if Contains(server, "outlook.com") {
        info := Put(info, Microsoft, Flag(true));
      }
      k := k + 1;
    }
    assert servers[..k] == servers;
  }

  /* ---------------------------------------------------------------------- */
  /* What the dictionary holds                                              */
  /* ---------------------------------------------------------------------- */

  /** A lookup that does not raise leaves every other key alone. */
  lemma RecordOther(info: Info, key: string, answer: Lookup, k: string)
    requires Record(info, key, answer).Success? && k != key
    ensures Get(Record(info, key, answer).value, k) == Get(info, k)
  {
    if answer.Answered? {
      PutGet(info, key, Texts(answer.records));
    }
  }

  /** The provider loop touches no key but the two flags. */
  lemma {:induction false} MarkProvidersOther(info: Info, servers: seq<string>, k: string)
    requires k != Google && k != Microsoft
    ensures Get(MarkProviders(info, servers), k) == Get(info, k)
    decreases |servers|
  {
    if servers != [] {
      var before := MarkProviders(info, servers[..|servers| - 1]);
      MarkProvidersOther(info, servers[..|servers| - 1], k);
      PutGet(before, Google, Flag(true));
      PutGet(before, Microsoft, Flag(true));
    }
  }

  predicate GoogleHost(server: string) {
    Contains(server, "google.com")
  }

  predicate MicrosoftHost(server: string) {
    Contains(server, "outlook.com") && !Contains(server, "google.com")
  }

  /** Starting without flags, the loop sets a flag, always to True, exactly
      when some host name calls for it. */
  lemma {:induction false} MarkProvidersFlags(info: Info, servers: seq<string>)
    requires Get(info, Google) == None && Get(info, Microsoft) == None
    ensures Get(MarkProviders(info, servers), Google)
      == if exists s :: s in servers && GoogleHost(s) then Some(Flag(true)) else None
    ensures Get(MarkProviders(info, servers), Microsoft)
      == if exists s :: s in servers && MicrosoftHost(s) then Some(Flag(true)) else None
    decreases |servers|
  {
    if servers != [] {
      var pre := servers[..|servers| - 1];
      var last := servers[|servers| - 1];
      MarkProvidersFlags(info, pre);
      var before := MarkProviders(info, pre);
      PutGet(before, Google, Flag(true));
      PutGet(before, Microsoft, Flag(true));
      assert servers == pre + [last];
      assert forall s :: s in servers <==> s in pre || s == last;
      assert (exists s :: s in servers && GoogleHost(s)) <==> (exists s :: s in pre && GoogleHost(s)) || GoogleHost(last);
      assert (exists s :: s in servers && MicrosoftHost(s)) <==> (exists s :: s in pre && MicrosoftHost(s)) || MicrosoftHost(last);
    }
  }

  /** The lookup fails exactly when one of its three queries raises
      something other than `NoAnswer` or `NXDOMAIN`. */
  lemma EmailInfoFailure(email: string, resolve: (string, string) -> Lookup)
    ensures EmailInfo(email, resolve).Failure? <==>
      resolve(DomainAll(email), "MX").Raised? || resolve(DomainAll(email), "SPF").Raised?
      || resolve("_dmarc." + DomainAll(email), "TXT").Raised?
    ensures EmailInfo(email, resolve).Failure? && resolve(DomainAll(email), "MX").Raised? ==>
      EmailInfo(email, resolve).error == resolve(DomainAll(email), "MX").exc
  {
  }

  /** The name and, when the pattern matches, the domain. */
  lemma NameAndDomainGet(email: string)
    ensures Get(NameAndDomain(email), "name") == Some(Text(Name(email)))
    ensures Get(NameAndDomain(email), "domain") == (match FindDomain(email) case Some(d) => Some(Text(d)) case None => None)
    ensures Get(NameAndDomain(email), Google) == None && Get(NameAndDomain(email), Microsoft) == None
    ensures Get(NameAndDomain(email), "mx_servers") == None
  {
    var named := Put([], "name", Text(Name(email)));
    PutGet([], "name", Text(Name(email)));
    if FindDomain(email).Some? {
      PutGet(named, "domain", Text(FindDomain(email).value));
    }
  }

  /** The address fields as stored before any lookup. */
  lemma AddressFieldsGet(email: string)
    ensures Get(AddressFields(email), "name") == Some(Text(Name(email)))
    ensures Get(AddressFields(email), "domain") == (match FindDomain(email) case Some(d) => Some(Text(d)) case None => None)
    ensures Get(AddressFields(email), "tld") == Some(Text(Tld(email)))
    ensures Get(AddressFields(email), "domain_all") == Some(Text(DomainAll(email)))
    ensures Get(AddressFields(email), Google) == None && Get(AddressFields(email), Microsoft) == None
    ensures Get(AddressFields(email), "mx_servers") == None
  {
    var withTld := Put(NameAndDomain(email), "tld", Text(Tld(email)));
    NameAndDomainGet(email);
    PutGet(NameAndDomain(email), "tld", Text(Tld(email)));
    PutGet(withTld, "domain_all", Text(DomainAll(email)));
  }

  /** The lookups touch only their own three keys. */
  lemma LookupsOther(base: Info, all: string, resolve: (string, string) -> Lookup, k: string)
    requires Lookups(base, all, resolve).Success?
    requires k != "mx_servers" && k != "spf_records" && k != "dmarc_records"
    ensures Get(Lookups(base, all, resolve).value, k) == Get(base, k)
  {
    var withMx := Record(base, "mx_servers", resolve(all, "MX")).value;
    var withSpf := Record(withMx, "spf_records", resolve(all, "SPF")).value;
    RecordOther(base, "mx_servers", resolve(all, "MX"), k);
    RecordOther(withMx, "spf_records", resolve(all, "SPF"), k);
    RecordOther(withSpf, "dmarc_records", resolve("_dmarc." + all, "TXT"), k);
  }

  /** The host names the provider loop reads back are the ones the MX
      query answered with, when nothing was stored under that key before. */
  lemma MxHostsOfLookups(base: Info, all: string, resolve: (string, string) -> Lookup)
    requires Lookups(base, all, resolve).Success? && Get(base, "mx_servers") == None
    ensures MxHosts(Lookups(base, all, resolve).value) == Servers(resolve(all, "MX"))
  {
    var mx := resolve(all, "MX");
    var withMx := Record(base, "mx_servers", mx).value;
    var withSpf := Record(withMx, "spf_records", resolve(all, "SPF")).value;
    if mx.Answered? {
      PutGet(base, "mx_servers", Texts(mx.records));
    }
    RecordOther(withMx, "spf_records", resolve(all, "SPF"), "mx_servers");
    RecordOther(withSpf, "dmarc_records", resolve("_dmarc." + all, "TXT"), "mx_servers");
  }

  /** The dictionary before the provider loop keeps the address fields and
      has no flag. */
  lemma BeforeMarks(email: string, resolve: (string, string) -> Lookup) returns (info: Info)
    requires EmailInfo(email, resolve).Success?
    ensures EmailInfo(email, resolve).value == MarkProviders(info, Servers(resolve(DomainAll(email), "MX")))
    ensures Get(info, "name") == Some(Text(Name(email)))
    ensures Get(info, "domain") == (match FindDomain(email) case Some(d) => Some(Text(d)) case None => None)
    ensures Get(info, "tld") == Some(Text(Tld(email)))
    ensures Get(info, "domain_all") == Some(Text(DomainAll(email)))
    ensures Get(info, Google) == None && Get(info, Microsoft) == None
  {
    var base := AddressFields(email);
    var all := DomainAll(email);
    info := Lookups(base, all, resolve).value;
    AddressFieldsGet(email);
    LookupsOther(base, all, resolve, "name");
    LookupsOther(base, all, resolve, "domain");
    LookupsOther(base, all, resolve, "tld");
    LookupsOther(base, all, resolve, "domain_all");
    LookupsOther(base, all, resolve, Google);
    LookupsOther(base, all, resolve, Microsoft);
    MxHostsOfLookups(base, all, resolve);
  }

  /** Name, domain, top-level domain and `domain_all` are stored as the
      address rules give them; the domain key is absent when the pattern
      does not match, the others are always there. */
  lemma EmailInfoFields(email: string, resolve: (string, string) -> Lookup)
    requires EmailInfo(email, resolve).Success?
    ensures var info := EmailInfo(email, resolve).value;
      && Get(info, "name") == Some(Text(Name(email)))
      && Get(info, "domain") == (match FindDomain(email) case Some(d) => Some(Text(d)) case None => None)
      && Get(info, "tld") == Some(Text(Tld(email)))
      && Get(info, "domain_all") == Some(Text(DomainAll(email)))
  {
    var before := BeforeMarks(email, resolve);
    var servers := Servers(resolve(DomainAll(email), "MX"));
    MarkProvidersOther(before, servers, "name");
    MarkProvidersOther(before, servers, "domain");
    MarkProvidersOther(before, servers, "tld");
    MarkProvidersOther(before, servers, "domain_all");
  }

  /** `google_workspace` is present, and True, exactly when some MX host
      contains "google.com"; `microsoft_365` exactly when some MX host
      contains "outlook.com" but not "google.com". Neither is ever False,
      and without MX hosts neither exists. */
  lemma EmailInfoProviders(email: string, resolve: (string, string) -> Lookup)
    requires EmailInfo(email, resolve).Success?
    ensures var info := EmailInfo(email, resolve).value;
      var servers := Servers(resolve(DomainAll(email), "MX"));
      && Get(info, Google) == (if exists s :: s in servers && GoogleHost(s) then Some(Flag(true)) else None)
      && Get(info, Microsoft) == (if exists s :: s in servers && MicrosoftHost(s) then Some(Flag(true)) else None)
  {
    var before := BeforeMarks(email, resolve);
    MarkProvidersFlags(before, Servers(resolve(DomainAll(email), "MX")));
  }
}
