# neptune-osint plugin host, modelled in Dafny

neptune-osint is an interactive OSINT toolkit. At start-up it walks its
`modules` directory, loads every `.py` file, and calls each file's `load()`
factory. It groups the instances it gets by folder, numbers them 1, 2, 3, ...
in a menu, and runs the module the user picks inside a `with` block. This
project models that plugin host, together with the pure string and
arithmetic helpers the probes use:

- `LoadModules.dfy`: `load_module` and `collect_modules` of
  `utils/load_modules.py`. The directory walk is a sequence of
  `(folder, filenames)` entries. Executing a file is a given function `exec`
  from path to outcome: an exception, a module without `load`, or a module
  whose `load()` returns an instance or raises. `os.path.relpath` is a given
  function that may raise.
  - `CollectModules` and `ScanFolder` are the imperative loops. `ScanFolder`
    is proved equal to the functional specification `FolderModules` of one
    folder, and `CollectModules` to `Collection` of the whole pass.
  - `LoadModulesProperties` proves what a pass yields and why a failing pass
    yields nothing.
  - `LoadModulesScenarios` works through concrete passes.
- `ModuleBase.dfy`: the `name` keyword hook of `utils/abc/module.py`, and a
  `Module` class whose `now` field the context-manager methods set and clear.
- `MainMenu.dfy`: the numbering loop of `main.py`, resolution of the typed
  answer, dispatch inside `with`, and the "run again?" test.
- `Colorize.dfy`: `hex_to_rgb` (through the real `06x` formatting and base-16
  parsing), `colorize` and `log_colorize`. The clock reading is a parameter.
- `EmailLookup.dfy`: `get_email_info`. The address is split into name,
  domain and tld. The three DNS lookups are a given resolver function, and
  the MX host names set the provider flags.
- `UrlScanner.dfy`: the extension filter, the `all_links` set, and the URL
  and domain normalisation of `modules/network/url.py`.
- `UsernameTracker.dfy`: `site_exception`, the `{user}` template, the page
  scrubbing, and the `founded_sites` loop of
  `modules/osint/username/tracker.py`.
- Support modules: `Wrappers` (Option/Result), `PyStrings` (the `str`
  operations used, written out on `seq<char>`), `PyDicts` (an
  insertion-ordered `dict` as a sequence of pairs), and `PyExceptions`
  (exception classes and the subclass tests of `except`).

Where the intended design and the code disagree, the model follows the
code:

- A raising `load()` reaches the caller as a `DirectoryError`, not as a
  `ModuleLoadingError`. The generic `except Exception` of `collect_modules`
  rewraps it, keeping its message (`CollectionFailure`, `FactoryRaises`).
- A missing root does not raise. `os.walk` yields nothing and the grouping
  is empty (`MissingRoot`).
- A plugin class only needs a `name` keyword; an empty name is accepted.
  Leaving it out raises `ValueError`, and any other leftover keyword makes
  `object.__init_subclass__` raise `TypeError`.
- `except ValueError` in `main` also catches a `ValueError` raised by the
  chosen module's `run()`, or one of its subclasses such as the
  `json.JSONDecodeError` a malformed sites.json makes `json.load` raise in
  the username tracker, and prints "Please enter a valid number."
  (`AfterRun`; the `ValueError` kind of `PyExceptions` stands for the class
  and all its subclasses).

## Model

| member | source | states |
|---|---|---|
| `LoadModules.LoadModule` | utils/load_modules.py:25-39 | defines `load_module`: the module name from `splitext(basename(path))`, the loaded module with or without `load`, or the wrapped exception of the first matching handler (properties in `LoadModuleOutcome`) |
| `LoadModules.ModuleNameOfPyFile` | utils/load_modules.py:28 | the module name of a `.py` file is its basename with `.py` cut off (a dots-only stem such as `.py` keeps the extension, as `splitext` does) |
| `LoadModules.LoadModuleOutcome` | utils/load_modules.py:25-39 | loading fails exactly when executing the file raises; a loaded module carries the derived name; an `Exception` becomes a `ModuleLoadingError` naming the path and, except for a missing file, ending with the cause's message; a `BaseException` passes through unchanged |
| `LoadModules.LoadFailureShape` | utils/load_modules.py:32-39 | each of the four handlers yields a `ModuleLoadingError` with its own exact text: "File <path> not found." for a missing file, "Import error in module ..." for `ImportError` and its subclasses, "Syntax error in file ..." for `SyntaxError`, "Unknown error while loading module ..." for any other `Exception` (a `PermissionError` included), the last three ending with ": " and the original message |
| `LoadModules.ScanFolder` | utils/load_modules.py:47-59 | the inner loop returns exactly the folder's specified `module_list`, or the first failure |
| `LoadModules.Collection` | utils/load_modules.py:42-74 | defines `collect_modules`: the walk fills `modules_dict` folder by folder, keyed by the relative path, skipping empty lists; an escaping exception goes through the outer handlers in order (properties in `LoadModulesProperties`) |
| `LoadModules.CollectModules` | utils/load_modules.py:42-74 | the whole pass returns exactly the specified grouping or the rewrapped exception |
| `LoadModules.FileFailureEndsFolder` | utils/load_modules.py:52-59 | once a file fails after the earlier files succeeded, the folder's outcome is that file's failure |
| `LoadModules.WalkFailureAt` | utils/load_modules.py:45-59 | a failing folder after successful ones decides the outcome of the whole walk |
| `LoadModulesProperties.OnlyPyFilesLoaded` | utils/load_modules.py:49-50 | files not ending in ".py" are never loaded: executions that agree on the `.py` files give the same folder outcome |
| `LoadModulesProperties.FileSuccess` | utils/load_modules.py:54-57 | a successful file adds one instance (the one its `load()` returned) if it is a `.py` file with `load`, and none otherwise |
| `LoadModulesProperties.FolderSuccess` | utils/load_modules.py:49-57 | in a successful folder every file succeeded, and the list is exactly `Instances`: the values the `load()` of the `.py` files with `load` returned, one per such file, in the order the files are listed |
| `LoadModulesProperties.AbortOnFileFailure` | utils/load_modules.py:52-59 | one `.py` file that fails to load or whose `load()` raises makes the whole pass fail: no grouping is returned |
| `LoadModulesProperties.FolderFailureKind` | utils/load_modules.py:49-59 | a failure inside a folder is a `ModuleLoadingError` or a `BaseException` passing through |
| `LoadModulesProperties.WalkFailureKind` | utils/load_modules.py:45-63 | a failure inside the walk comes from a file (`ModuleLoadingError` or `BaseException`) or from `relpath` |
| `LoadModulesProperties.CollectionFailure` | utils/load_modules.py:65-72 | the caller sees only `DirectoryError` or a `BaseException`; when `relpath` does not raise, the `DirectoryError` comes from the generic handler and wraps the inner `ModuleLoadingError`'s message |
| `LoadModulesProperties.GroupingShape` | utils/load_modules.py:61-63 | the keys of a grouping are distinct and each holds a non-empty list |
| `LoadModulesProperties.GroupingKeys` | utils/load_modules.py:61-63 | a key is present exactly when some folder produced instances and its relative path is that key |
| `LoadModulesProperties.GroupingCount` | utils/load_modules.py:45-63 | the instances summed over all groups equal the number of `.py` files exposing `load` |
| `LoadModulesProperties.GroupingInWalkOrder` | utils/load_modules.py:45-63 | with distinct relative paths, the grouping is exactly `Recorded`: the folders that produced instances, in walk order, each under its relative path with its own `module_list` |
| `LoadModulesProperties.GroupingValues` | utils/load_modules.py:61-63 | with distinct relative paths, the list stored under a folder's relative path is that folder's `module_list` |
| `LoadModulesScenarios.DirectoryFailureOrder` | utils/load_modules.py:65-72 | handlers are tried in order (not found, permission, other OS error, other exception), each giving its own exact `DirectoryError` text naming the directory, the last two ending with the cause's message; a `BaseException` passes through |
| `LoadModulesScenarios.PluginHelperAndEmptyFolder` | utils/load_modules.py:45-63 | a folder with a plugin, a `.py` file without `load` and a non-`.py` file, then an empty folder, gives a grouping with the plugin folder's key alone, holding the one instance |
| `LoadModulesScenarios.FactoryRaisesInFolder` | utils/load_modules.py:56-72 | a `.py` file whose `load()` raises any `Exception`, an `OSError` included, makes the pass raise `DirectoryError("Unknown error ...: Error calling load() in module <file>: <message>")` |
| `LoadModulesScenarios.FactoryRaises` | utils/load_modules.py:56-72 | `load()` raising `RuntimeError("boom")` in `a.py` ends in a `DirectoryError` whose message names `a.py` and carries "boom" |
| `LoadModulesScenarios.MissingRoot` | utils/load_modules.py:46 | an empty walk (a missing root) gives an empty grouping, not an error |
| `ModuleBase.InitSubclass` | utils/abc/module.py:15-20 | defining a subclass succeeds exactly when the keywords are `name` alone, binding the class attribute to it; no `name` raises `ValueError`; extra keywords raise `TypeError` |
| `ModuleBase.InitSubclassOrder` | utils/abc/module.py:15-20 | the `name` check comes before the leftover-keyword check |
| `ModuleBase.Module.Enter` | utils/abc/module.py:22-24 | `__enter__` sets `now` and returns the same object |
| `ModuleBase.Module.Exit` | utils/abc/module.py:26-27 | `__exit__` clears `now` whatever the exception, and never suppresses it |
| `ModuleBase.WithBlock` | main.py:42-44 | after a `with` block the flag is down and the body's exception, if any, propagates unchanged |
| `MainMenu.Numbering` | main.py:22-30 | defines `module_mapping`: the instance at position k of the flattened grouping is stored under k + 1 (properties in `NumberingKeys`, `NumberingRoundTrip`) |
| `MainMenu.NumberingKeys` | main.py:22-30 | the selection keys are exactly 1..total, and key k maps to the k-th instance of the flattened grouping |
| `MainMenu.NumberingRoundTrip` | main.py:24-29 | reading the mapping back by number gives the flattened grouping |
| `MainMenu.NumberingInjective` | main.py:22-30 | different flattened groupings give different mappings |
| `MainMenu.BuildMapping` | main.py:22-30 | the loop builds exactly the numbering of the flattened grouping and leaves the counter at total + 1; it is a function of the grouping, so building twice gives the same mapping |
| `MainMenu.MenuOfCollection` | main.py:15-30 | the menu built from a successful collection uses exactly the numbers 1 to the count of `.py` files exposing `load` |
| `MainMenu.Resolve` | main.py:40-46 | defines the answer's fate: `int()` of the typed text (refused beyond 4300 digits, as `sys.get_int_max_str_digits()` sets by default), then a lookup in `module_mapping`; not a number, unknown number, or the selected instance (properties in `ResolveInRange`, `ResolveOutOfRange`, `ResolveNotANumber`, `ResolveTooLong`) |
| `MainMenu.ResolveInRange` | main.py:40-44 | a typed number in 1..total of at most 4300 digits (the sign not counted), with whitespace around it, selects the instance at that position |
| `MainMenu.ResolveOutOfRange` | main.py:41-46 | any other integer of at most 4300 digits (the sign not counted, as `int()` counts) selects nothing |
| `MainMenu.ResolveTooLong` | main.py:40-48 | an integer written with more than 4300 digits (leading zeros included) is refused by `int()` and reported as not a number, even when its value is in the table |
| `MainMenu.ResolveNotANumber` | main.py:40-48 | text `int()` refuses ("", "abc", "-", "1__0") is reported as not a number |
| `MainMenu.AfterRun` | main.py:42-48 | a `run()` that returns ends normally; a `ValueError` from it, or an instance of a subclass such as `json.JSONDecodeError`, prints the "valid number" message; any other exception propagates |
| `MainMenu.Dispatch` | main.py:38-48 | non-integer input prints "Please enter a valid number.", an unknown number prints "Invalid module number.", a known one runs inside `with` and leaves its flag down; no other module's flag changes |
| `MainMenu.RunAgain` | main.py:58 | defines the repeat test: the lower-cased answer is "yes" or "y" (characterised in `RunAgainAnswers`) |
| `MainMenu.RunAgainAnswers` | main.py:58 | the menu repeats exactly for "y" or "yes" in any mix of case |
| `Colorize.FormatChars` | utils/colorize.py:34 | the `06x` text has at least six characters, a minus sign first exactly for a negative colour, hex digits everywhere else |
| `Colorize.HexToRgb` | utils/colorize.py:33-35 | defines `hex_to_rgb`: the `06x` text of the colour cut into three two-character slices, each parsed in base 16 (properties in the `HexToRgb` lemmas) |
| `Colorize.HexToRgbBytes` | utils/colorize.py:34-35 | for 0..0xFFFFFF the components are the colour's three bytes, most significant first |
| `Colorize.HexToRgbExamples` | utils/colorize.py:26-31 | the three documented examples |
| `Colorize.HexToRgbBounds` | utils/colorize.py:34-35 | every component is in 0..255 for a non-negative colour; a negative colour makes only the first component negative, down to -15 |
| `Colorize.HexToRgbRoundTrip` | utils/colorize.py:34-35 | r·65536 + g·256 + b gives back the colour |
| `Colorize.RgbToHexRoundTrip` | utils/colorize.py:34-35 | any three bytes come back from the colour they make |
| `Colorize.Colorize` | utils/colorize.py:55-56 | defines `colorize`: the 24-bit foreground escape with the three components, the text, and the reset escape (properties in `UncolorizeColorize`, `ColorizeInjective`) |
| `Colorize.UncolorizeColorize` | utils/colorize.py:55-56 | a coloured string decodes to the colour's components and the unchanged text |
| `Colorize.ColorizeInjective` | utils/colorize.py:55-56 | equal coloured strings come from the same text and the same in-range colour |
| `Colorize.Payload` | utils/colorize.py:82 | " -> " is appended exactly when the prefix is "<" |
| `Colorize.LogColorize` | utils/colorize.py:78-83 | defines `log_colorize`: the coloured brackets around the time and the prefix, then the coloured payload (properties in `LogColorizeFields`) |
| `Colorize.LogColorizeFields` | utils/colorize.py:78-83 | the time and then the prefix each sit between a coloured "[" and a coloured "]", and the line ends with a colour sequence decoding to the payload |
| `EmailLookup.NameField` | modules/osint/email/lookup.py:15-17 | `name` is the text before the first '@', or the whole address |
| `EmailLookup.FindDomainSpec` | modules/osint/email/lookup.py:21-23 | a domain is found exactly when `@([^@.]+)\.` matches, and it is the group of the leftmost match |
| `EmailLookup.TldField` | modules/osint/email/lookup.py:26 | `tld` is "." and the text after the last '.', or "." and the whole address without one |
| `EmailLookup.FillAddressFields` | modules/osint/email/lookup.py:14-30 | the address part fills name, domain, tld and domain_all as specified, with "None" for a missing domain |
| `EmailLookup.RunLookups` | modules/osint/email/lookup.py:32-49 | the three DNS blocks record answered lists, skip `NoAnswer`/`NXDOMAIN`, and let other exceptions escape |
| `EmailLookup.MarkProviderFlags` | modules/osint/email/lookup.py:51-56 | the MX loop builds exactly the specified provider flags |
| `EmailLookup.EmailInfo` | modules/osint/email/lookup.py:13-58 | defines `get_email_info`: the address fields, the three DNS blocks, then the provider flags from the stored MX hosts (properties in `EmailInfoFailure`, `EmailInfoFields`, `EmailInfoProviders`) |
| `EmailLookup.GetEmailInfo` | modules/osint/email/lookup.py:13-58 | the method builds exactly the specified `info` dictionary or the escaping exception, with one query per record type; the provider loop reads the MX hosts back from `info["mx_servers"]` |
| `EmailLookup.MxHostsOfLookups` | modules/osint/email/lookup.py:32-36 | the hosts read back from `mx_servers` are the ones the single MX query answered with, or none |
| `EmailLookup.EmailInfoFailure` | modules/osint/email/lookup.py:32-49 | the lookup fails exactly when one of the three queries raises something other than `NoAnswer` or `NXDOMAIN` |
| `EmailLookup.LookupsOther` | modules/osint/email/lookup.py:32-49 | the DNS blocks touch only their own three keys |
| `EmailLookup.MarkProvidersOther` | modules/osint/email/lookup.py:51-56 | the MX loop touches no key but the two flags |
| `EmailLookup.MarkProvidersFlags` | modules/osint/email/lookup.py:51-56 | starting without flags, each flag is set, always to True, exactly when some host calls for it |
| `EmailLookup.EmailInfoFields` | modules/osint/email/lookup.py:14-30 | the final dictionary holds name, tld and domain_all always, and domain exactly when the pattern matched |
| `EmailLookup.EmailInfoProviders` | modules/osint/email/lookup.py:51-56 | `google_workspace` is present (True) iff some MX host contains "google.com"; `microsoft_365` iff some host contains "outlook.com" but not "google.com"; neither is ever False, and with no MX hosts neither exists |
| `UrlScanner.IsValidExtension` | modules/network/url.py:15-17 | defines `is_valid_extension`: one of the five accepted extensions ends the URL, or no `\.\w+$` extension does (properties in `HasWordExtensionIff` and the example lemmas) |
| `UrlScanner.HasWordExtensionIff` | modules/network/url.py:17 | the search for `\.\w+$` succeeds exactly when the pattern matches at some position |
| `UrlScanner.ValidExtensionExamples` | modules/network/url.py:17 | .php, .min.js and extension-less paths pass the filter |
| `UrlScanner.InvalidExtensionExamples` | modules/network/url.py:17 | .png and .tar_gz are refused |
| `UrlScanner.AdmittedSpec` | modules/network/url.py:44-50 | the script scan keeps distinct new URLs only, each on the domain with an accepted extension, and every scanned URL that passes the filters ends up known |
| `UrlScanner.Scanner.constructor` | modules/network/url.py:12-13 | a new scanner knows no links |
| `UrlScanner.Scanner.ExtractLinks` | modules/network/url.py:19-27 | a missing or empty attribute gives nothing; at most one link is returned, new to `all_links`, on the domain, with an accepted extension, and it is added; `all_links` only grows by what is returned |
| `UrlScanner.Scanner.ScanScriptUrls` | modules/network/url.py:44-50 | the inline-script loop keeps exactly the admitted URLs and adds them to `all_links` |
| `UrlScanner.Scanner.Start` | modules/network/url.py:75-83 | `run` clears `all_links`, then normalises the typed URL and takes its domain |
| `UrlScanner.NormalizeUrl` | modules/network/url.py:79-82 | defines the URL normalisation of `run`: strip, then prepend "https://" unless a scheme starts it (properties in `NormalizeUrlScheme`, `NormalizeUrlIdempotent`) |
| `UrlScanner.NormalizeUrlScheme` | modules/network/url.py:79-82 | the normalised URL always has a scheme; "https://" is prepended exactly when neither "https://" nor "http://" starts the stripped input |
| `UrlScanner.NormalizeUrlIdempotent` | modules/network/url.py:79-82 | normalising twice changes nothing more |
| `UrlScanner.DomainOf` | modules/network/url.py:83 | defines the domain of `run`: drop a leading `https?://`, keep the text before the first '/' (properties in `DomainOfSpec`, `DomainOfTyped`) |
| `UrlScanner.DomainOfSpec` | modules/network/url.py:83 | the domain is the URL without its leading scheme, cut at the first '/' |
| `UrlScanner.DomainOfTyped` | modules/network/url.py:81-83 | for input typed without a scheme, the domain is the stripped input up to the first '/' |
| `UsernameTracker.SiteException` | modules/osint/username/tracker.py:15-27 | defines `site_exception`: the three Paypal removals, the TikTok removal, or the content unchanged (properties in the `SiteException` lemmas) |
| `UsernameTracker.SiteExceptionOther` | modules/osint/username/tracker.py:15-27 | any site but "Paypal" and "TikTok" keeps its content |
| `UsernameTracker.SiteExceptionTikTok` | modules/osint/username/tracker.py:24-25 | every non-overlapping occurrence of the TikTok handle is removed; the content shrinks iff the handle occurs |
| `UsernameTracker.SiteExceptionPaypal` | modules/osint/username/tracker.py:16-22 | the three Paypal patterns are removed in order, each counted on what the previous removal left |
| `UsernameTracker.SiteExceptionShrinks` | modules/osint/username/tracker.py:15-27 | the content never grows and gains no character it did not have |
| `UsernameTracker.ProbeUrl` | modules/osint/username/tracker.py:53 | defines the probe URL: every "{user}" of the template replaced by the username |
| `UsernameTracker.ProbeUrlSpec` | modules/osint/username/tracker.py:53 | each "{user}" gives way to the username (length changes by that many substitutions); a template without one is used as is |
| `UsernameTracker.StripTags` | modules/osint/username/tracker.py:58-59 | defines `re.sub(r'<[^>]*>', '', s)`: each `<` with a `>` after it is removed through the first such `>` (properties in the `StripTags` lemmas) |
| `UsernameTracker.StripTagsKeeps` | modules/osint/username/tracker.py:58-64 | tag stripping never lengthens the text or adds a character |
| `UsernameTracker.StripTagsNoTag` | modules/osint/username/tracker.py:58-64 | after stripping no `<...>` run is left |
| `UsernameTracker.StripTagsUnchanged` | modules/osint/username/tracker.py:58-64 | text without tags is left alone |
| `UsernameTracker.StripTagsIdempotent` | modules/osint/username/tracker.py:58-64 | stripping twice is stripping once |
| `UsernameTracker.PageContent` | modules/osint/username/tracker.py:58-66 | defines `page_content`: lower-case the page, remove the URL and "/username", strip tags, apply `site_exception` |
| `UsernameTracker.PageContentLower` | modules/osint/username/tracker.py:58-66 | the searched content is no longer than the page and has no upper-case letter |
| `UsernameTracker.FoundSites` | modules/osint/username/tracker.py:52-75 | defines `founded_sites`: the sites taken in order, the site as key with its probe URL as the value when the username is found on its page (properties in `FoundSitesSpec`, `FoundKeys`) |
| `UsernameTracker.FoundSitesSpec` | modules/osint/username/tracker.py:52-75 | a site is a key of `founded_sites`, with its probe URL as the value, exactly when the username was found on its page |
| `UsernameTracker.FoundKeys` | modules/osint/username/tracker.py:52-75 | every key of `founded_sites` is a site of the table |
| `UsernameTracker.Tracked` | modules/osint/username/tracker.py:52-83 | defines the probe loop's end: `founded_sites`, or the exception of the first request raising something `except Exception` does not catch (properties in `TrackedOutcome`) |
| `UsernameTracker.TrackedOutcome` | modules/osint/username/tracker.py:52-83 | the loop finishes exactly when no request raises a `KeyboardInterrupt`/`SystemExit`-like exception, and then yields `FoundSites`; otherwise it stops with the exception of the first such request |
| `UsernameTracker.Run` | modules/osint/username/tracker.py:37-83 | an empty site table stops with "Invalid sites.json file path" before any request; otherwise the sites are probed in order with the lower-cased username: either all are requested and `founded_sites` is as specified, or the requests stop at the first one raising a non-`Exception`, which leaves `run` |

## Left out

- Real module loading (`SourceFileLoader` running a file's top-level code), `os.walk`, and `os.path.relpath` are not modelled. They become the parameters `exec`, `walk` and `relpath`; `os.path.join`, `basename` and `splitext` are written out for POSIX paths. Because `exec` depends on the path alone, the model does not capture that `SourceFileLoader(name, path).load_module()` reuses the `sys.modules` entry of a module name already seen: of two files with the same name (the two `tracker.py`), the second runs inside the first one's module object, so a second file without `load` would keep the first one's `load`.
- `LoadModulesProperties.GroupingCount`, `LoadModulesProperties.GroupingInWalkOrder`, `LoadModulesProperties.GroupingValues`: assume distinct folders have distinct relative paths, which `os.walk` guarantees but the abstract `relpath` does not.
- The OS-error branches of `collect_modules` are reachable in the model only through `relpath`, the one abstract call there that may raise.
- `gradient_colorize` is not modelled: it uses float division and divides by zero for one-character text.
- The clock of `log_colorize` is not modelled; the `%H:%M:%S` reading is a parameter.
- DNS resolution in `get_email_info` is not modelled; the resolver is a parameter. The printing loop of `EmailLookup.run` is left out.
- HTTP requests, BeautifulSoup parsing, `urljoin`, `get_sites` (reading sites.json) and the page title lookup are not modelled. What a request gives, the attribute value, the URLs found in a script, and the join function are parameters. A page without a `<title>` raises in the source, is caught and printed; the model counts it as not found.
- `find_all_secret_urls` (the crawl whose termination depends on the network) and the tag loop of `find_secret_urls` are not modelled; only the set updates they make through `extract_links` and the script scan are.
- Terminal I/O, the anytree menu rendering, the banners, and the `while True` loop of `main.py` are not modelled; only the decision to repeat is.
- The regex engine is not modelled; each pattern is written out as a string predicate. `\w` is taken as ASCII word characters, and `$` as the end of the string (Python's `$` also matches before a final newline). `str.lower()` and `str.isspace()` are taken on ASCII letters and the listed whitespace code points, and `int()` on ASCII digits (Python also accepts other Unicode decimal digits, such as the fullwidth "３").
- `UsernameTracker.ProbeUrlSpec`: states the length change and the placeholder-free case; the substitution itself is the `ReplaceAll` function it is about.
- `ModuleBase.Module`: the `now` attribute is absent in Python until the first `__enter__`; the model starts it at false.
- `modules/osint/email/tracker.py`, `modules/network/sqlmap.py`, `modules/image/exif.py`, `modules/network/_whois.py` and `__init__.py` are not part of this model: they are live HTTP exchanges or thin wrappers over third-party libraries.
- Concurrency: the host is single-threaded; the thread pools some probes use inside `run()` are not part of this model.
