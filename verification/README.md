# Email scraper core, modelled in Dafny

This project models the logic of `Main.py`, a script that looks for contact
e-mail addresses on a list of web sites. For each site it:

1. fetches the page without a browser and extracts addresses from it;
2. if that yields nothing, crawls the site breadth-first with a rendering
   browser, under a page budget, preferring links whose URL mentions a
   keyword such as `contact`;
3. builds a report with at most one row per site. A site with no address
   gets an `N/A` row. A site whose first listed address was already
   reported gets no row at all. No address is reported twice.

The model keeps the decisions the script makes and leaves the outside world
abstract. HTTP fetching, the browser and the HTML parser are function
parameters. A fetch is `string -> Option<Page>`. A `Page` is what the parser
and the regular-expression engine make of the markup:

- the anchor `href`s;
- the visible text;
- the matches of the three address patterns, each given by the parts its
  character classes matched.

URL resolution (`urljoin`) is a parameter `(string, string) -> Option<string>`.
In it, `None` stands for the `ValueError` it raises on a malformed URL.

Modules:

- `Strings`: the Python string operations the script uses, with their own
  laws (`split`/join round trip, `strip`, ASCII `lower`, left-to-right
  `replace`, substring `in`).
- `Extract`: `extract_emails`. It covers the `mailto:` branch, the plain,
  obfuscated (`[at]`/`[dot]`) and `&#64;` patterns, and the decodings.
- `Links`: `extract_links`. It covers the same-site substring filter, the
  keyword test and fragment removal.
- `Crawl`: `get_email_selenium`. It models the FIFO queue, the visited set,
  the budget and the enqueue rule, with the loop invariant.
- `Scanner`: `smart_email_scraper` and the batch loop that builds the report.

The model follows `Main.py` in these places:

- Links found during the crawl are resolved against, and filtered by, the
  site's start URL, not the URL of the page they were found on
  (`Main.py:84`).
- A failed `urljoin` raises inside `extract_links`. That loses every link
  of the page, not just the bad anchor. The page's addresses have already
  been merged by then (`Main.py:83-84`, `92-94`).
- A page whose fetch or parse fails still counts against the budget,
  because it is marked visited before the fetch (`Main.py:76-79`).
- A failed static fetch returns no addresses and starts no crawl
  (`Main.py:100-102`).
- A site whose first address was already reported gets no row at all, not
  an `N/A` row (`Main.py:135-141`).

## Model

| member | source | states |
|---|---|---|
| Strings.ContainsIff | Main.py:41-42 | The substring test `t in s` holds exactly when `t` occurs at some index of `s`. |
| Strings.Split | Main.py:20 | `s.split(c)` yields at least one piece, and no piece contains the separator. |
| Strings.SplitCount | Main.py:20 | A split has exactly one more piece than `s` has occurrences of the separator. |
| Strings.JoinSplit | Main.py:20 | Joining the pieces of a split with the separator gives back the original string. |
| Strings.SplitJoin | Main.py:20 | Splitting a join of separator-free pieces gives back exactly those pieces. |
| Strings.SplitHead | Main.py:43-44 | The first piece of a split is a prefix of the string, followed by the separator or by the end. |
| Strings.Strip | Main.py:20 | `strip()` returns a slice of the input that neither starts nor ends with whitespace, and everything cut away on either side is whitespace. |
| Strings.Lower | Main.py:20 | `lower()` keeps the length, changes only upper-case ASCII letters, and leaves no upper-case ASCII letter in its result. |
| Strings.LowerIdempotent | Main.py:20 | Lower-casing twice is the same as lower-casing once. |
| Strings.LowerFixed | Main.py:20 | Lower-casing leaves a string unchanged exactly when it holds no upper-case ASCII letter. |
| Strings.LowerKeepsCount | Main.py:29 | Lower-casing keeps the number of occurrences of every non-letter, `@` included. |
| Strings.ReplaceAbsent | Main.py:28 | `replace` leaves a string in which the pattern does not occur unchanged. |
| Strings.ReplaceUntouched | Main.py:28 | The special case of `ReplaceAbsent` used by the decodings: `replace` leaves a string unchanged when the pattern's first character does not occur in it. |
| Strings.ReplaceFirst | Main.py:28 | The leftmost occurrence is replaced: the text before it is copied, the occurrence becomes the replacement, and replacement continues after it. |
| Strings.ReplaceSkip | Main.py:28 | A prefix that cannot start an occurrence of the pattern is copied unchanged in front of the replaced rest. |
| Extract.MailtoTarget | Main.py:19-20 | For a `mailto:` href, `split(':')[1]` is the text right after the scheme, holds no colon, and ends at the next colon or at the end. |
| Extract.MailtoStopsAtColon | Main.py:20 | The mailto target is everything between `mailto:` and the next colon, a `?subject=` query included. Anything after a second colon is dropped. |
| Extract.MailtoAddress | Main.py:20 | The address a `mailto:` href gives holds no colon, no upper-case ASCII letter, and neither starts nor ends with whitespace. |
| Extract.MailtoAddressOf | Main.py:19-21 | A `mailto:` target with no colon and no whitespace is reported lower-cased and otherwise unchanged. |
| Extract.MailtoEmails | Main.py:17-21 | The mailto set holds exactly the addresses (`MailtoAddress`) of the page's hrefs that start with `mailto:` (`StartsWith`). |
| Extract.PlainEmails | Main.py:23-24 | Plain matches are added verbatim, one entry per distinct match text. |
| Extract.ObfuscatedEmails | Main.py:25-29 | The obfuscated matches contribute exactly their decodings. |
| Extract.EntityEmails | Main.py:30-33 | The `&#64;` matches contribute exactly their decodings. |
| Extract.ObfuscatedDecoding | Main.py:25-29 | Decoding (`DecodeObfuscated`) `local [at] domain [dot] tld` yields `local@domain.tld` lower-cased, with exactly one `@`. |
| Extract.EntityDecoding | Main.py:30-33 | Decoding (`DecodeEntity`) `local&#64;domain` yields `local@domain` lower-cased, with exactly one `@`. |
| Extract.ExtractEmails | Main.py:14-34 | An address is returned exactly when a mailto anchor, a plain match, an obfuscated match or an entity match produces it. |
| Extract.TextAddressShapes | Main.py:23-33 | On a well-formed page, every decoded form is returned, plain matches keep their case, and every address not from a mailto anchor has exactly one `@`. |
| Extract.SpellingsAgree | Main.py:14-34 | One address written as a mailto link, in `[at]`/`[dot]` form and with `&#64;` gives a single entry, its lower-case form. |
| Extract.PlainKeepsCase | Main.py:24-29 | A plain match with an upper-case letter differs from the lower-case entry the other spellings give, so both may be returned. |
| Links.StripFragment | Main.py:43-44 | `url.split('#')[0]` holds no `#`, is a prefix of the URL, and stops at the first `#` or at the end. |
| Links.Classify | Main.py:41-44 | Classifying one more resolved URL keeps the two invariants of the loop: priority links stay a subset of all links, and no link in the set of all links holds a `#`. |
| Links.ExtractLinks | Main.py:36-45 | Classification fails exactly when some href fails to resolve. Otherwise all links are exactly the fragment-free forms of the anchors' resolved URLs that contain the base URL (`SameSite`). Priority links are those whose resolved URL, lower-cased and before its fragment is cut, contains a keyword (`MentionsKeyword`). |
| Links.ClassificationShape | Main.py:41-44 | Priority links are a subset of all links, no link has a fragment, and each link comes from one of the page's anchors. |
| Links.KeywordInFragmentOnly | Main.py:42-43 | The keyword test sees the fragment: on site `s`, the anchor `#a` with keyword `a` gives priority link `s`, which itself mentions no keyword. |
| Crawl.ListOf | Main.py:45 | `list(set)` lists every element exactly once, in an order left open. |
| Crawl.Enqueued | Main.py:85-91 | The links a fetched page enqueues are unvisited same-site links of that page. They include every unvisited priority link, and every unvisited same-site link while nothing is found and budget remains. Otherwise they are priority links only. |
| Crawl.Visit | Main.py:79-91 | A fetched page adds its addresses. It appends, in this order, its unvisited priority links, then, while nothing is found and budget remains, all its unvisited same-site links, each block without repeats. A failed fetch or link extraction appends nothing. |
| Crawl.Step | Main.py:72-94 | An already visited head is dropped with nothing else changed. Otherwise it is visited, logged and fetched, the rest of the queue is kept in order, and the page's links are appended as `Visit` orders them. Visited pages and addresses only grow, the loop invariant is kept, and each pass makes progress. |
| Crawl.CrawlSite | Main.py:68-96 | No URL is fetched twice. At most `maxPages` URLs are fetched, the first being the start URL. The result is the union of the fetched pages' addresses. Every fetched URL was linked from an earlier page. If the budget was not exhausted, every priority link was followed, and, when nothing was found, every same-site link too. |
| Scanner.SmartScrape | Main.py:98-109 | A failed static fetch gives no addresses and no crawl. A static page with addresses gives exactly those, with no crawl. A static page without addresses gives a result with every guarantee of `Crawl.CrawlSite` for a crawl from the same URL. |
| Scanner.ScanSite | Main.py:133-134 | A site's list has no repeats and holds exactly the addresses of some outcome of `SmartScrape` for that site, with the default keywords and a budget of 20. |
| Scanner.Record | Main.py:135-141 | An empty list adds an `N/A` row. A new first address adds one row and is remembered. An already reported first address changes nothing. The report stays consistent. |
| Scanner.ReportAll | Main.py:129-141 | The report never has more rows than sites, never reports an address twice, and reports exactly the first addresses of the sites that had any. |
| Scanner.Batch | Main.py:129-141 | The batch scans every site once, in order. Each site's list is as `ScanSite` states, and the report is the fold of `Record` over the lists. |
| Scanner.SharedAddressDropsRow | Main.py:135-139 | Two sites whose first address is the same give one row: the second site gets neither a row nor an `N/A` row. |

## Left out

- HTTP fetching with `requests` (`Main.py:47-57`): a static fetch is a parameter, and its `None` covers every request error.
- The browser (`Main.py:59-66`, `79-81`, `95`): the rendering fetch is a parameter. A failure of `driver.get`, of the ten-second wait for the page body or of parsing happens inside the loop's `try` (`Main.py:78-94`), and it counts as a failed fetch of that page.
- Driver start-up (`Main.py:107`) and `driver.quit` (`Main.py:95`) are not modelled. Both run outside the loop's `try`, so an exception from either escapes `smart_email_scraper` and ends the whole batch before the report is written. The model assumes neither fails.
- HTML parsing and the regular-expression engine: a `Page` carries the anchors, text and pattern matches they would produce. The predicate `Extract.WellFormed` states what the patterns guarantee of each match.
- `urljoin` internals: resolution is a parameter.
- Extract.DecodeEntity: models `html.unescape` on the `&#64;` reference only, which is the only reference such a match can hold, because the local-part and domain character classes exclude `&`.
- Strings.Lower: lower-cases ASCII letters only. Python's full Unicode case mapping is not modelled. For the pattern matches this makes no difference, because their character classes admit only ASCII letters.
- Extract.MailtoAddress and Links.MentionsKeyword: `mailto:` targets (`Main.py:20`) and URLs (`Main.py:42`) are not constrained by any pattern. A non-ASCII upper-case letter in them stays upper case in the model, while Python lower-cases it. For example, `mailto:Émile@x.fr` gives `émile@x.fr` in Python but keeps `É` in the model.
- Crawl.ListOf: the order Python gives a set's elements is not modelled, so any order is allowed. The first address reported for a site is therefore any of its addresses.
- Scanner.SmartScrape: the `except` branch at `Main.py:110-113` is not modelled, because the static fetch catches every request error itself. That branch catches only `RequestException`, so it does not catch an exception from `create_driver` either.
- Logging with `print` (`Main.py:56`, `77`, `93`, `106`, `111`, `132`, `144`).
- The hard-coded site list (`Main.py:116-128`): sites are a parameter of `Scanner.Batch`.
- Writing the report with pandas as CSV (`Main.py:142-143`): the report is the `Scanner.Report` value.
