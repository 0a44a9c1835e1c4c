/** The per-site policy (`smart_email_scraper`, Main.py) and the batch loop
    that builds the report (the `__main__` block, Main.py): at most one row
    per site, an `N/A` row for a site with no address, and no row for a
    site whose first address was already reported. */
module Scanner {
  import opened Wrappers
  import opened Extract
  import opened Links
  import opened Crawl

  /** `keywords` default of `smart_email_scraper`. */
  const DefaultKeywords: seq<string> := ["contact", "about", "support", "footer"]

  /** `max_pages` of the batch loop. */
  const DefaultMaxPages: int := 20

  /** What the per-site policy promises: a failed static fetch gives no
      addresses and no crawl; a static page with addresses gives exactly
      those, with no crawl; a static page without addresses gives the
      outcome of a crawl from the same URL with the rendering fetch. */
  ghost predicate SmartOutcome(staticFetch: Fetcher, renderFetch: Fetcher, join: Resolver, seed: string,
                               keywords: seq<string>, maxPages: int, emails: set<string>, rendered: seq<string>) {
    && (staticFetch(seed).None? ==> emails == {} && rendered == [])
    && (staticFetch(seed).Some? && ExtractEmails(staticFetch(seed).value) != {} ==>
          emails == ExtractEmails(staticFetch(seed).value) && rendered == [])
    && (staticFetch(seed).Some? && ExtractEmails(staticFetch(seed).value) == {} ==>
          CrawlOutcome(Crawler(renderFetch, join, seed, keywords, maxPages), emails, rendered))
  }

  /** Static fetch first; a crawl with the rendering fetch only when the
      static page parses but yields no address. Returns the addresses and
      the rendering fetches made, in order. */
  method SmartScrape(staticFetch: Fetcher, renderFetch: Fetcher, join: Resolver, seed: string,
                     keywords: seq<string>, maxPages: int)
    returns (emails: set<string>, rendered: seq<string>)
    ensures SmartOutcome(staticFetch, renderFetch, join, seed, keywords, maxPages, emails, rendered)
    ensures emails != {} ==> staticFetch(seed).Some?
  {
    match staticFetch(seed) {
      case None =>
        emails, rendered := {}, [];
      case Some(page) =>
        emails := ExtractEmails(page);
        rendered := [];
        if emails == {} {
          var c := Crawler(renderFetch, join, seed, keywords, maxPages);
          emails, rendered := CrawlSite(c);
          assert CrawlOutcome(c, emails, rendered);
        }
    }
  }

  // ---------------------------------------------------------------------
  // the batch report

  /** One output row: a site with its reported address, or with `N/A`. */
  datatype Row = Found(website: string, email: string) | NotFound(website: string)

  /** The rows so far and `all_emails`, the addresses already reported. */
  datatype Report = Report(rows: seq<Row>, reported: set<string>)

  /** The report is consistent: `reported` holds exactly the addresses of
      the `Found` rows, and no address is reported twice. */
  ghost predicate Consistent(t: Report) {
    && (forall e :: e in t.reported <==> exists i :: 0 <= i < |t.rows| && t.rows[i].Found? && t.rows[i].email == e)
    && (forall i, j :: 0 <= i < j < |t.rows| && t.rows[i].Found? && t.rows[j].Found? ==>
          t.rows[i].email != t.rows[j].email)
  }

  /** One iteration of the batch loop for a site whose scan gave the list
      `emails`: an empty list adds an `N/A` row; otherwise its first address
      is reported unless it already was, in which case nothing changes. */
  function Record(t: Report, site: string, emails: seq<string>): (t': Report)
    ensures Consistent(t) ==> Consistent(t')
    ensures |t.rows| <= |t'.rows| <= |t.rows| + 1 && t'.rows[..|t.rows|] == t.rows
    ensures t.reported <= t'.reported
    ensures emails == [] ==> t'.rows == t.rows + [NotFound(site)] && t'.reported == t.reported
    ensures emails != [] && emails[0] in t.reported ==> t' == t
    ensures emails != [] && emails[0] !in t.reported ==>
      t'.rows == t.rows + [Found(site, emails[0])] && t'.reported == t.reported + {emails[0]}
  {
    if emails != [] then
      var email := emails[0];
      if email !in t.reported then
        var t' := Report(t.rows + [Found(site, email)], t.reported + {email});
        FoundKeepsConsistent(t, site, email, t');
        t'
      else t
    else
      var t' := Report(t.rows + [NotFound(site)], t.reported);
      assert forall i :: 0 <= i < |t.rows| ==> t'.rows[i] == t.rows[i];
      t'
  }

  /** Appending a row for an address not yet reported keeps the report
      consistent. */
  lemma FoundKeepsConsistent(t: Report, site: string, email: string, t': Report)
    requires email !in t.reported
    requires t' == Report(t.rows + [Found(site, email)], t.reported + {email})
    ensures Consistent(t) ==> Consistent(t')
  {
    var n := |t.rows|;
    assert forall i :: 0 <= i < n ==> t'.rows[i] == t.rows[i];
    assert t'.rows[n] == Found(site, email);
    if Consistent(t) {
      forall e | e in t'.reported
        ensures exists i :: 0 <= i < |t'.rows| && t'.rows[i].Found? && t'.rows[i].email == e
      {
        if e != email {
          var i :| 0 <= i < n && t.rows[i].Found? && t.rows[i].email == e;
          assert t'.rows[i] == t.rows[i];
        }
      }
      forall i, j | 0 <= i < j < |t'.rows| && t'.rows[i].Found? && t'.rows[j].Found?
        ensures t'.rows[i].email != t'.rows[j].email
      {
        if j == n {
          assert t.rows[i].email in t.reported;
        }
      }
    }
  }

  /** The batch loop over `sites`, where `found[i]` is the list of
      addresses the scan of `sites[i]` gave. */
  function ReportAll(sites: seq<string>, found: seq<seq<string>>): (t: Report)
    requires |sites| == |found|
    ensures Consistent(t)
    ensures |t.rows| <= |sites|
    ensures forall i :: 0 <= i < |sites| && found[i] != [] ==> found[i][0] in t.reported
    ensures forall e :: e in t.reported ==> exists i :: 0 <= i < |sites| && found[i] != [] && found[i][0] == e
    decreases |sites|
  {
    if |sites| == 0 then Report([], {})
    else
      var n := |sites| - 1;
      var before := ReportAll(sites[..n], found[..n]);
      var t := Record(before, sites[n], found[n]);
      assert forall i :: 0 <= i < n ==> found[..n][i] == found[i];
      t
  }

  /** `list` is `list(smart_email_scraper(site, max_pages=20))` for some
      outcome of the policy: it lists, each once, the addresses of that
      outcome. */
  ghost predicate ScanOutcome(staticFetch: Fetcher, renderFetch: Fetcher, join: Resolver, site: string, list: seq<string>) {
    && Distinct(list)
    && exists emails, rendered ::
      && SmartOutcome(staticFetch, renderFetch, join, site, DefaultKeywords, DefaultMaxPages, emails, rendered)
      && (forall e :: e in list <==> e in emails)
  }

  /** `list(smart_email_scraper(site, max_pages=20))`. */
  method ScanSite(staticFetch: Fetcher, renderFetch: Fetcher, join: Resolver, site: string)
    returns (list: seq<string>)
    ensures ScanOutcome(staticFetch, renderFetch, join, site, list)
  {
    var emails, rendered := SmartScrape(staticFetch, renderFetch, join, site, DefaultKeywords, DefaultMaxPages);
    list := ListOf(emails);
  }

  /** The batch: scan each site in order with the default keywords and
      budget, list its addresses in an order the model leaves open, and
      record the list's first address. `found[i]` is that list for
      `sites[i]`. */
  method Batch(staticFetch: Fetcher, renderFetch: Fetcher, join: Resolver, sites: seq<string>)
    returns (report: Report, found: seq<seq<string>>)
    ensures |found| == |sites|
    ensures report == ReportAll(sites, found)
    ensures forall i :: 0 <= i < |sites| ==> ScanOutcome(staticFetch, renderFetch, join, sites[i], found[i])
  {
    report := Report([], {});
    found := [];
    var k := 0;
    while k < |sites|
      invariant 0 <= k <= |sites| && |found| == k
      invariant report == ReportAll(sites[..k], found)
      invariant forall i :: 0 <= i < k ==> ScanOutcome(staticFetch, renderFetch, join, sites[i], found[i])
    {
      var list := ScanSite(staticFetch, renderFetch, join, sites[k]);
      ReportAllStep(sites, found, list);
      ScansExtend(staticFetch, renderFetch, join, sites, found, list);
      report := Record(report, sites[k], list);
      found := found + [list];
      k := k + 1;
    }
    assert sites[..k] == sites;
  }

  /** The report for one more site records that site on top of the report
      so far. */
  lemma ReportAllStep(sites: seq<string>, found: seq<seq<string>>, list: seq<string>)
    requires |found| < |sites|
    ensures ReportAll(sites[..|found| + 1], found + [list])
      == Record(ReportAll(sites[..|found|], found), sites[|found|], list)
  {
    var k := |found|;
    var s := sites[..k + 1];
    var f := found + [list];
    assert s[..k] == sites[..k];
    assert f[..k] == found;
    assert s[k] == sites[k] && f[k] == list;
  }

  /** The scans so far, extended by the next site's. */
  lemma ScansExtend(staticFetch: Fetcher, renderFetch: Fetcher, join: Resolver, sites: seq<string>,
                    found: seq<seq<string>>, list: seq<string>)
    requires |found| < |sites|
    requires forall i :: 0 <= i < |found| ==> ScanOutcome(staticFetch, renderFetch, join, sites[i], found[i])
    requires ScanOutcome(staticFetch, renderFetch, join, sites[|found|], list)
    ensures forall i :: 0 <= i < |found| + 1 ==>
      ScanOutcome(staticFetch, renderFetch, join, sites[i], (found + [list])[i])
  {
    forall i | 0 <= i < |found| + 1
      ensures ScanOutcome(staticFetch, renderFetch, join, sites[i], (found + [list])[i])
    {
      if i < |found| {
        assert (found + [list])[i] == found[i];
      } else {
        assert (found + [list])[i] == list;
      }
    }
  }

  /** Two sites whose scans both report `x@y.z` give a single row: the
      second site gets no row at all, not an `N/A` one. */
  lemma SharedAddressDropsRow()
    ensures ReportAll(["a", "b"], [["x@y.z"], ["x@y.z"]]).rows == [Found("a", "x@y.z")]
  {
    var sites, found := ["a", "b"], [["x@y.z"], ["x@y.z"]];
    assert sites[..1] == ["a"] && found[..1] == [["x@y.z"]];
    assert ["a"][..0] == [] && [["x@y.z"]][..0] == [];
  }
}
