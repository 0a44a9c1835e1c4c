/** Link classification for one page (`extract_links`, Main.py). */
module Links {
  import opened Wrappers
  import opened Strings

  /** URL resolution (`urljoin(base, href)`), left abstract. `None` stands
      for the `ValueError` it raises on a malformed URL. */
  type Resolver = (string, string) -> Option<string>

  /** `url.split('#')[0]`: the URL with its fragment removed. */
  function StripFragment(url: string): (r: string)
    ensures '#' !in r
    ensures StartsWith(url, r)
    ensures |r| == |url| || url[|r|] == '#'
  {
    SplitHead(url, '#');
    Split(url, '#')[0]
  }

  /** `base_url in url`: the permissive same-site test. */
  predicate SameSite(base: string, url: string) {
    Contains(url, base)
  }

  /** `any(keyword in url.lower() for keyword in keywords)` */
  predicate MentionsKeyword(url: string, keywords: seq<string>) {
    exists k :: k in keywords && Contains(Lower(url), k)
  }

  /** The two results of one classification (`relevant_links` and
      `all_links`): priority links and all same-site links, each without
      fragments. */
  datatype Classified = Classified(priority: set<string>, all: set<string>)

  /** Anchor `href` leads, on the site of `base`, to link `l`. */
  predicate LinkOf(join: Resolver, base: string, href: string, l: string) {
    && join(base, href).Some?
    && SameSite(base, join(base, href).value)
    && l == StripFragment(join(base, href).value)
  }

  /** As `LinkOf`, and the resolved URL mentions a keyword. */
  predicate PriorityLinkOf(join: Resolver, base: string, keywords: seq<string>, href: string, l: string) {
    LinkOf(join, base, href, l) && MentionsKeyword(join(base, href).value, keywords)
  }

  /** Adds one resolved URL to the accumulated sets. */
  function Classify(base: string, keywords: seq<string>, url: string, acc: Classified): (r: Classified)
    ensures forall l :: l in r.all <==> l in acc.all || (SameSite(base, url) && l == StripFragment(url))
    ensures forall l :: l in r.priority <==>
      || l in acc.priority
      || (SameSite(base, url) && MentionsKeyword(url, keywords) && l == StripFragment(url))
    ensures acc.priority <= acc.all ==> r.priority <= r.all
    ensures (forall l :: l in acc.all ==> '#' !in l) ==> forall l :: l in r.all ==> '#' !in l
  {
    if SameSite(base, url) then
      var l := StripFragment(url);
      Classified(if MentionsKeyword(url, keywords) then acc.priority + {l} else acc.priority, acc.all + {l})
    else acc
  }

  /** Resolves every anchor against `base` and classifies it. The keyword
      test looks at the resolved URL before its fragment is removed. Any
      failed resolution aborts the whole classification. */
  function ExtractLinks(join: Resolver, base: string, hrefs: seq<string>, keywords: seq<string>): (r: Option<Classified>)
    ensures r.None? <==> exists h :: h in hrefs && join(base, h).None?
    ensures r.Some? ==> forall l :: l in r.value.all <==> exists h :: h in hrefs && LinkOf(join, base, h, l)
    ensures r.Some? ==> forall l :: l in r.value.priority <==>
      exists h :: h in hrefs && PriorityLinkOf(join, base, keywords, h, l)
    decreases |hrefs|
  {
    if |hrefs| == 0 then Some(Classified({}, {}))
    else
      assert forall h :: h in hrefs <==> h == hrefs[0] || h in hrefs[1..];
      var resolved := join(base, hrefs[0]);
      if resolved.None? then None
      else
        var rest := ExtractLinks(join, base, hrefs[1..], keywords);
        if rest.None? then None
        else
          var links := Classify(base, keywords, resolved.value, rest.value);
          ClassifyFirst(join, base, hrefs, keywords, rest.value, links);
          Some(links)
  }

  /** Classifying the first anchor on top of the rest's result extends the
      anchor-wise description to the whole list. */
  lemma ClassifyFirst(join: Resolver, base: string, hrefs: seq<string>, keywords: seq<string>, rest: Classified, links: Classified)
    requires |hrefs| > 0 && join(base, hrefs[0]).Some?
    requires forall l :: l in rest.all <==> exists h :: h in hrefs[1..] && LinkOf(join, base, h, l)
    requires forall l :: l in rest.priority <==>
      exists h :: h in hrefs[1..] && PriorityLinkOf(join, base, keywords, h, l)
    requires links == Classify(base, keywords, join(base, hrefs[0]).value, rest)
    ensures forall l :: l in links.all <==> exists h :: h in hrefs && LinkOf(join, base, h, l)
    ensures forall l :: l in links.priority <==>
      exists h :: h in hrefs && PriorityLinkOf(join, base, keywords, h, l)
  {
    var first := hrefs[0];
    assert forall h :: h in hrefs <==> h == first || h in hrefs[1..];
    forall l | exists h :: h in hrefs && LinkOf(join, base, h, l)
      ensures l in links.all
    {
      var h :| h in hrefs && LinkOf(join, base, h, l);
      if h != first {
        assert h in hrefs[1..];
      }
    }
    forall l | exists h :: h in hrefs && PriorityLinkOf(join, base, keywords, h, l)
      ensures l in links.priority
    {
      var h :| h in hrefs && PriorityLinkOf(join, base, keywords, h, l);
      if h != first {
        assert h in hrefs[1..];
      }
    }
    forall l | l in links.all
      ensures exists h :: h in hrefs && LinkOf(join, base, h, l)
    {
      if l !in rest.all {
        assert LinkOf(join, base, first, l);
      }
    }
    forall l | l in links.priority
      ensures exists h :: h in hrefs && PriorityLinkOf(join, base, keywords, h, l)
    {
      if l !in rest.priority {
        assert PriorityLinkOf(join, base, keywords, first, l);
      }
    }
  }

  /** Every priority link is also a same-site link, no link keeps a
      fragment, and every link is the fragment-free form of a resolved URL
      that contains `base`. */
  lemma ClassificationShape(join: Resolver, base: string, hrefs: seq<string>, keywords: seq<string>)
    requires ExtractLinks(join, base, hrefs, keywords).Some?
    ensures var links := ExtractLinks(join, base, hrefs, keywords).value;
      && links.priority <= links.all
      && (forall l :: l in links.all ==> '#' !in l)
      && (forall l :: l in links.all ==> exists h :: h in hrefs && LinkOf(join, base, h, l))
  {
  }

  /** A resolver that appends the href to the base, for examples. */
  function Append(base: string, href: string): Option<string> {
    Some(base + href)
  }

  /** The keyword test runs before the fragment is cut off: on site `s`,
      the anchor `#a` with keyword `a` gives the priority link `s`, which
      mentions no keyword. */
  lemma KeywordInFragmentOnly()
    ensures ExtractLinks(Append, "s", ["#a"], ["a"]) == Some(Classified({"s"}, {"s"}))
    ensures !MentionsKeyword("s", ["a"])
  {
    ExampleResolves();
    ExampleSets();
    assert Lower("s") == "s";
  }

  /** Both result sets of the example are `{"s"}`. */
  lemma ExampleSets()
    requires PriorityLinkOf(Append, "s", ["a"], "#a", "s")
    ensures ExtractLinks(Append, "s", ["#a"], ["a"]).Some?
    ensures ExtractLinks(Append, "s", ["#a"], ["a"]).value.all == {"s"}
    ensures ExtractLinks(Append, "s", ["#a"], ["a"]).value.priority == {"s"}
  {
    var r := ExtractLinks(Append, "s", ["#a"], ["a"]);
    forall l ensures l in r.value.all <==> l == "s" {
      assert l in r.value.all <==> LinkOf(Append, "s", "#a", l);
    }
    forall l ensures l in r.value.priority <==> l == "s" {
      assert l in r.value.priority <==> PriorityLinkOf(Append, "s", ["a"], "#a", l);
    }
  }

  /** `#a` resolves on `s` to a same-site URL that mentions `a` and whose
      fragment-free form is `s`. */
  lemma ExampleResolves()
    ensures PriorityLinkOf(Append, "s", ["a"], "#a", "s")
  {
    var url := "s#a";
    assert "s" + "#a" == url;
    assert url[..1] == "s";
    assert SameSite("s", url);
    assert url[1] == '#';
    assert StripFragment(url) == "s";
    assert Lower(url) == url;
    assert url[2..] == "a";
    assert url[1..][1..] == url[2..];
    assert StartsWith(url[2..], "a");
    assert Contains(url[1..], "a");
    assert Contains(Lower(url), "a");
  }
}
