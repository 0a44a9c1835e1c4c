/** The breadth-first crawl of one site under a page budget
    (`get_email_selenium`, Main.py). The browser is an abstract fetch
    function from a URL to the parsed page, or `None` when navigation,
    the wait for the page body or parsing fails. */
module Crawl {
  import opened Wrappers
  import opened Extract
  import opened Links

  /** The rendering fetch. */
  type Fetcher = string -> Option<Page>

  /** The fixed inputs of one crawl. Links are resolved against, and
      filtered by, the `seed` for every page, not the page's own URL. */
  datatype Crawler = Crawler(fetch: Fetcher, join: Resolver, seed: string, keywords: seq<string>, maxPages: int)

  /** The loop's variables: the FIFO `queue`, the `visited` set, the
      addresses found so far, and the fetches made in order. */
  datatype CrawlState = CrawlState(queue: seq<string>, visited: set<string>, emails: set<string>, trace: seq<string>)

  function Start(c: Crawler): CrawlState {
    CrawlState([c.seed], {}, {}, [])
  }

  /** The addresses a fetch of `u` contributes. */
  function EmailsAt(c: Crawler, u: string): set<string> {
    match c.fetch(u)
    case None => {}
    case Some(page) => ExtractEmails(page)
  }

  /** The link classification of page `u`, if it is fetched and every
      anchor resolves. */
  function LinksAt(c: Crawler, u: string): Option<Classified> {
    match c.fetch(u)
    case None => None
    case Some(page) => ExtractLinks(c.join, c.seed, page.anchors, c.keywords)
  }

  /** Page `v` links to `u` on the seed's site. */
  predicate LinkedFrom(c: Crawler, v: string, u: string) {
    LinksAt(c, v).Some? && u in LinksAt(c, v).value.all
  }

  /** Page `v` links to `u`, and the link is a priority one. */
  predicate PriorityFrom(c: Crawler, v: string, u: string) {
    LinksAt(c, v).Some? && u in LinksAt(c, v).value.priority
  }

  /** `u` is the seed, or a page among the first `j` fetched links to it. */
  predicate Reached(c: Crawler, trace: seq<string>, j: int, u: string) {
    u == c.seed || exists i :: 0 <= i < j && i < |trace| && LinkedFrom(c, trace[i], u)
  }

  predicate Distinct(s: seq<string>) {
    forall i, j :: 0 <= i < j < |s| ==> s[i] != s[j]
  }

  /** `r` lists the elements of `s`, each once, in some order. */
  ghost predicate Enumerates(r: seq<string>, s: set<string>) {
    Distinct(r) && forall x :: x in r <==> x in s
  }

  /** What one fetched page `u` appends to the queue, as a set: its
      unvisited priority links, and its other unvisited links while no
      address has been found and the budget is not used up. */
  function Enqueued(c: Crawler, u: string, visited: set<string>, emails: set<string>): (r: set<string>)
    ensures forall l :: l in r ==> l !in visited && LinkedFrom(c, u, l)
    ensures forall l :: PriorityFrom(c, u, l) && l !in visited ==> l in r
    ensures emails == {} && |visited| < c.maxPages ==>
      forall l :: LinkedFrom(c, u, l) && l !in visited ==> l in r
    ensures !(emails == {} && |visited| < c.maxPages) ==>
      forall l :: l in r ==> PriorityFrom(c, u, l)
  {
    match c.fetch(u)
    case None => {}
    case Some(page) =>
      match ExtractLinks(c.join, c.seed, page.anchors, c.keywords)
      case None => {}
      case Some(links) =>
        ClassificationShape(c.join, c.seed, page.anchors, c.keywords);
        (links.priority - visited) + (if emails == {} && |visited| < c.maxPages then links.all - visited else {})
  }

  /** The block one fetched page `u` appends to the queue, in order: its
      unvisited priority links, then, while no address has been found and
      the budget is not used up, all its unvisited links, which repeat the
      priority ones. Nothing when the fetch or the classification fails. */
  ghost predicate Appended(c: Crawler, u: string, visited: set<string>, emails: set<string>, added: seq<string>) {
    match LinksAt(c, u)
    case None => added == []
    case Some(links) =>
      exists p, o :: added == p + o && Enumerates(p, links.priority - visited) && OthersAppended(c, links, visited, emails, o)
  }

  /** The second part of the appended block. */
  ghost predicate OthersAppended(c: Crawler, links: Classified, visited: set<string>, emails: set<string>, o: seq<string>) {
    if emails == {} && |visited| < c.maxPages then Enumerates(o, links.all - visited) else o == []
  }

  // ---------------------------------------------------------------------
  // the loop invariant, in parts

  /** Each fetch is logged once, and `visited` is the set of fetches. */
  ghost predicate LogInv(s: CrawlState) {
    && Distinct(s.trace)
    && (forall u :: u in s.visited <==> u in s.trace)
    && |s.visited| == |s.trace|
  }

  /** The budget: never more than `maxPages` fetches. */
  ghost predicate BudgetInv(c: Crawler, s: CrawlState) {
    |s.visited| <= c.maxPages || s.visited == {}
  }

  /** Before the first fetch the queue holds just the seed; afterwards the
      seed was fetched first. */
  ghost predicate SeedInv(c: Crawler, s: CrawlState) {
    && (s.trace == [] ==> s.queue == [c.seed])
    && (s.trace != [] ==> s.trace[0] == c.seed)
  }

  /** The addresses are those of the visited pages. */
  ghost predicate EmailInv(c: Crawler, s: CrawlState) {
    forall e :: e in s.emails <==> exists u :: u in s.visited && e in EmailsAt(c, u)
  }

  /** Every queued and every fetched URL is the seed or was linked from an
      earlier fetched page. */
  ghost predicate ReachInv(c: Crawler, s: CrawlState) {
    && (forall u :: u in s.queue ==> Reached(c, s.trace, |s.trace|, u))
    && (forall j :: 0 <= j < |s.trace| ==> Reached(c, s.trace, j, s.trace[j]))
  }

  /** No priority link of a visited page is lost; nor, while nothing is
      found and budget remains, any other link. */
  ghost predicate FrontierInv(c: Crawler, s: CrawlState) {
    && (forall v, u :: v in s.visited && PriorityFrom(c, v, u) ==> u in s.visited || u in s.queue)
    && (s.emails == {} && |s.visited| < c.maxPages ==>
          forall v, u :: v in s.visited && LinkedFrom(c, v, u) ==> u in s.visited || u in s.queue)
  }

  ghost predicate Inv(c: Crawler, s: CrawlState) {
    && LogInv(s) && BudgetInv(c, s) && SeedInv(c, s) && EmailInv(c, s)
    && ReachInv(c, s) && FrontierInv(c, s)
  }

  // ---------------------------------------------------------------------
  // one iteration

  /** `list(s)`: the elements of a set in an order the model leaves open. */
  method ListOf(s: set<string>) returns (r: seq<string>)
    ensures Enumerates(r, s)
  {
    r := [];
    var rest := s;
    while rest != {}
      invariant rest <= s
      invariant forall x :: x in r <==> x in s && x !in rest
      invariant Distinct(r)
      decreases rest
    {
      var x :| x in rest;
      r := r + [x];
      rest := rest - {x};
    }
  }

  /** One pass of the loop body: pop the queue's head; skip it if visited;
      otherwise mark it visited, fetch it, merge its addresses and append
      its unvisited links. A failed fetch or classification appends
      nothing. */
  method Step(c: Crawler, s: CrawlState) returns (s': CrawlState)
    requires Inv(c, s)
    requires |s.queue| > 0 && |s.visited| < c.maxPages
    ensures Inv(c, s')
    ensures s.visited <= s'.visited && s.emails <= s'.emails
    ensures |s.trace| <= |s'.trace| && s'.trace[..|s.trace|] == s.trace
    ensures |s'.visited| == |s.visited| + 1 || (s'.visited == s.visited && |s'.queue| < |s.queue|)
    ensures s.queue[0] in s.visited ==> s' == s.(queue := s.queue[1..])
    ensures s.queue[0] !in s.visited ==>
      && s'.visited == s.visited + {s.queue[0]}
      && s'.trace == s.trace + [s.queue[0]]
      && s'.emails == s.emails + EmailsAt(c, s.queue[0])
      && |s.queue| - 1 <= |s'.queue| && s'.queue[..|s.queue| - 1] == s.queue[1..]
      && Appended(c, s.queue[0], s'.visited, s'.emails, s'.queue[|s.queue| - 1..])
  {
    var url := s.queue[0];
    var rest := s.queue[1..];
    if url in s.visited {
      s' := s.(queue := rest);
      SkipKeepsInv(c, s, s');
      return;
    }
    var visited := s.visited + {url};
    var trace := s.trace + [url];
    var emails, added := Visit(c, url, visited, s.emails);
    s' := CrawlState(rest + added, visited, emails, trace);
    assert s'.queue[|s.queue| - 1..] == added;
    FetchKeepsInv(c, s, added, s');
  }

  /** The work done for one fetched page `url`, with `visited` already
      holding it: fetch, merge the page's addresses, and list its
      unvisited priority links, then, while no address has been found and
      budget remains, its other unvisited links. */
  method Visit(c: Crawler, url: string, visited: set<string>, emails: set<string>)
    returns (emails': set<string>, added: seq<string>)
    ensures emails' == emails + EmailsAt(c, url)
    ensures Appended(c, url, visited, emails', added)
    ensures forall x :: x in added <==> x in Enqueued(c, url, visited, emails')
  {
    emails' := emails;
    added := [];
    match c.fetch(url) {
      case None =>
      case Some(page) =>
        emails' := emails' + ExtractEmails(page);
        match ExtractLinks(c.join, c.seed, page.anchors, c.keywords) {
          case None =>
          case Some(links) =>
            var priority := ListOf(links.priority - visited);
            var others: seq<string> := [];
            if emails' == {} && |visited| < c.maxPages {
              others := ListOf(links.all - visited);
            }
            added := priority + others;
            assert OthersAppended(c, links, visited, emails', others);
        }
    }
  }

  /** Popping a visited URL keeps the invariant. */
  lemma SkipKeepsInv(c: Crawler, s: CrawlState, s': CrawlState)
    requires Inv(c, s) && |s.queue| > 0 && s.queue[0] in s.visited
    requires s' == s.(queue := s.queue[1..])
    ensures Inv(c, s')
  {
    assert forall u :: u in s.queue ==> u == s.queue[0] || u in s'.queue;
  }

  /** Fetching the queue's unvisited head keeps the invariant. */
  lemma FetchKeepsInv(c: Crawler, s: CrawlState, added: seq<string>, s': CrawlState)
    requires Inv(c, s) && |s.queue| > 0 && s.queue[0] !in s.visited
    requires |s.visited| < c.maxPages
    requires s'.visited == s.visited + {s.queue[0]}
    requires s'.trace == s.trace + [s.queue[0]]
    requires s'.emails == s.emails + EmailsAt(c, s.queue[0])
    requires s'.queue == s.queue[1..] + added
    requires forall x :: x in added <==> x in Enqueued(c, s.queue[0], s'.visited, s'.emails)
    ensures Inv(c, s')
  {
    var url := s.queue[0];
    // log and budget
    assert url !in s.trace;
    assert LogInv(s');
    // emails
    forall e | e in s'.emails
      ensures exists u :: u in s'.visited && e in EmailsAt(c, u)
    {
      if e !in s.emails {
        assert e in EmailsAt(c, url);
      }
    }
    assert EmailInv(c, s');
    // reach
    ReachKept(c, s, added, s');
    // frontier
    FrontierKept(c, s, added, s');
  }

  /** Reachability survives a fetch: old entries keep their witnesses, and
      the new links are witnessed by the page just fetched. */
  lemma ReachKept(c: Crawler, s: CrawlState, added: seq<string>, s': CrawlState)
    requires Inv(c, s) && |s.queue| > 0 && s.queue[0] !in s.visited
    requires s'.visited == s.visited + {s.queue[0]}
    requires s'.trace == s.trace + [s.queue[0]]
    requires s'.queue == s.queue[1..] + added
    requires forall x :: x in added <==> x in Enqueued(c, s.queue[0], s'.visited, s'.emails)
    ensures ReachInv(c, s')
  {
    var url := s.queue[0];
    var n := |s.trace|;
    forall u, j | 0 <= j <= n && Reached(c, s.trace, j, u)
      ensures Reached(c, s'.trace, j, u)
    {
      if u != c.seed {
        var i :| 0 <= i < j && i < n && LinkedFrom(c, s.trace[i], u);
        assert s'.trace[i] == s.trace[i];
      }
    }
    forall u | u in s'.queue
      ensures Reached(c, s'.trace, |s'.trace|, u)
    {
      if u in added {
        var links := LinksAt(c, url).value;
        ClassificationShape(c.join, c.seed, c.fetch(url).value.anchors, c.keywords);
        assert u in links.all;
        assert s'.trace[n] == url;
        assert LinkedFrom(c, s'.trace[n], u);
      } else {
        assert u in s.queue;
        assert Reached(c, s.trace, n, u);
      }
    }
    forall j | 0 <= j < |s'.trace|
      ensures Reached(c, s'.trace, j, s'.trace[j])
    {
      if j < n {
        assert Reached(c, s.trace, j, s.trace[j]);
      } else {
        assert Reached(c, s.trace, n, url);
      }
    }
  }

  /** The frontier keeps every link the invariant promises: links of old
      pages stay queued or become visited, and the new page's links are
      appended. */
  lemma FrontierKept(c: Crawler, s: CrawlState, added: seq<string>, s': CrawlState)
    requires Inv(c, s) && |s.queue| > 0 && s.queue[0] !in s.visited
    requires s'.visited == s.visited + {s.queue[0]}
    requires s'.emails == s.emails + EmailsAt(c, s.queue[0])
    requires s'.queue == s.queue[1..] + added
    requires forall x :: x in added <==> x in Enqueued(c, s.queue[0], s'.visited, s'.emails)
    ensures FrontierInv(c, s')
  {
    var url := s.queue[0];
    assert forall u :: u in s.queue ==> u == url || u in s'.queue;
    forall v, u | v in s'.visited && PriorityFrom(c, v, u)
      ensures u in s'.visited || u in s'.queue
    {
      if v == url && u !in s'.visited {
        assert u in Enqueued(c, url, s'.visited, s'.emails);
      }
    }
    if s'.emails == {} && |s'.visited| < c.maxPages {
      forall v, u | v in s'.visited && LinkedFrom(c, v, u)
        ensures u in s'.visited || u in s'.queue
      {
        if v == url && u !in s'.visited {
          assert u in Enqueued(c, url, s'.visited, s'.emails);
        }
      }
    }
  }

  // ---------------------------------------------------------------------
  // the whole crawl

  /** The postcondition of `CrawlSite` as one predicate, for callers: no
      URL is fetched twice; at most `maxPages` are fetched, the seed first;
      the addresses are those of the fetched pages; every fetched URL is
      the seed or was linked from an earlier fetched page, and carries no
      fragment; and when the budget was not used up, every priority link
      of a fetched page was fetched, as was every same-site link when no
      address was found. */
  ghost predicate CrawlOutcome(c: Crawler, emails: set<string>, trace: seq<string>) {
    && Distinct(trace)
    && (|trace| <= c.maxPages || trace == [])
    && (c.maxPages > 0 ==> |trace| > 0 && trace[0] == c.seed)
    && (forall e :: e in emails <==> exists u :: u in trace && e in EmailsAt(c, u))
    && (forall j :: 0 <= j < |trace| ==> Reached(c, trace, j, trace[j]))
    && (forall u :: u in trace && u != c.seed ==> '#' !in u)
    && (|trace| < c.maxPages ==>
          forall v, u :: v in trace && PriorityFrom(c, v, u) ==> u in trace)
    && (|trace| < c.maxPages && emails == {} ==>
          forall v, u :: v in trace && LinkedFrom(c, v, u) ==> u in trace)
  }

  /** Crawls from the seed until the queue is empty or `maxPages` URLs have
      been visited. Returns the addresses found and the fetches made, in
      order. */
  method CrawlSite(c: Crawler) returns (emails: set<string>, trace: seq<string>)
    ensures Distinct(trace)
    ensures |trace| <= c.maxPages || trace == []
    ensures c.maxPages > 0 ==> |trace| > 0 && trace[0] == c.seed
    ensures forall e :: e in emails <==> exists u :: u in trace && e in EmailsAt(c, u)
    ensures forall j :: 0 <= j < |trace| ==> Reached(c, trace, j, trace[j])
    ensures forall u :: u in trace && u != c.seed ==> '#' !in u
    ensures |trace| < c.maxPages ==>
      forall v, u :: v in trace && PriorityFrom(c, v, u) ==> u in trace
    ensures |trace| < c.maxPages && emails == {} ==>
      forall v, u :: v in trace && LinkedFrom(c, v, u) ==> u in trace
  {
    var s := Start(c);
    while |s.queue| > 0 && |s.visited| < c.maxPages
      invariant Inv(c, s)
      decreases c.maxPages - |s.visited|, |s.queue|
    {
      s := Step(c, s);
    }
    emails, trace := s.emails, s.trace;
    forall u | u in trace && u != c.seed
      ensures '#' !in u
    {
      var j :| 0 <= j < |trace| && trace[j] == u;
      assert Reached(c, trace, j, u);
      var i :| 0 <= i < j && LinkedFrom(c, trace[i], u);
      var v := trace[i];
      ClassificationShape(c.join, c.seed, c.fetch(v).value.anchors, c.keywords);
    }
  }
}
