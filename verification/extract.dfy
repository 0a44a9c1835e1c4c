/** Address extraction from one parsed page (`extract_emails`, Main.py).

    A page is what the HTML parser and the regular-expression engine make of
    the markup: the `href` of every anchor that has one, the visible text,
    and the matches of the three text patterns, each match given by the
    pieces its character classes matched. */
module Extract {
  import opened Strings

  // ---------------------------------------------------------------------
  // the character classes of the three patterns

  predicate IsAlnum(ch: char) { IsLetter(ch) || IsDigit(ch) }

  /** `[a-zA-Z0-9._%+-]` */
  predicate IsLocalChar(ch: char) {
    IsAlnum(ch) || ch == '.' || ch == '_' || ch == '%' || ch == '+' || ch == '-'
  }

  /** `[a-zA-Z0-9.-]` */
  predicate IsDomainChar(ch: char) {
    IsAlnum(ch) || ch == '.' || ch == '-'
  }

  /** One or more characters of the local-part class. */
  predicate IsLocalPart(s: string) {
    |s| >= 1 && forall i :: 0 <= i < |s| ==> IsLocalChar(s[i])
  }

  /** One or more characters of the domain class. */
  predicate IsDomainPart(s: string) {
    |s| >= 1 && forall i :: 0 <= i < |s| ==> IsDomainChar(s[i])
  }

  /** `[a-zA-Z]{2,}` */
  predicate IsTopLevel(s: string) {
    |s| >= 2 && forall i :: 0 <= i < |s| ==> IsLetter(s[i])
  }

  // ---------------------------------------------------------------------
  // matches and pages

  /** A match of `local@domain.tld`. */
  datatype PlainMatch = PlainMatch(local: string, domain: string, tld: string) {
    function Text(): string { local + "@" + domain + "." + tld }
    predicate Valid() { IsLocalPart(local) && IsDomainPart(domain) && IsTopLevel(tld) }
  }

  /** A match of `local [at] domain [dot] tld`. */
  datatype ObfuscatedMatch = ObfuscatedMatch(local: string, domain: string, tld: string) {
    function Text(): string { local + " [at] " + domain + " [dot] " + tld }
    predicate Valid() { IsLocalPart(local) && IsDomainPart(domain) && IsTopLevel(tld) }
  }

  /** A match of `local&#64;domain`. */
  datatype EntityMatch = EntityMatch(local: string, domain: string) {
    function Text(): string { local + "&#64;" + domain }
    predicate Valid() { IsLocalPart(local) && IsDomainPart(domain) }
  }

  /** One parsed page: anchor hrefs, visible text and the pattern matches
      found in that text. */
  datatype Page = Page(
    anchors: seq<string>,
    text: string,
    plain: seq<PlainMatch>,
    obfuscated: seq<ObfuscatedMatch>,
    entities: seq<EntityMatch>)

  /** What the regular-expression engine guarantees of its matches: each
      fits its pattern's character classes and occurs in the page text. */
  predicate WellFormed(p: Page) {
    && (forall m :: m in p.plain ==> m.Valid() && Contains(p.text, m.Text()))
    && (forall m :: m in p.obfuscated ==> m.Valid() && Contains(p.text, m.Text()))
    && (forall m :: m in p.entities ==> m.Valid() && Contains(p.text, m.Text()))
  }

  // ---------------------------------------------------------------------
  // mailto anchors

  const MailtoPrefix: string := "mailto:"

  predicate IsMailto(href: string) { StartsWith(href, MailtoPrefix) }

  /** `href.split(':')[1]` for a `mailto:` href: the text after the first
      colon, up to the second colon or the end. */
  function MailtoTarget(href: string): (seg: string)
    requires IsMailto(href)
    ensures 7 + |seg| <= |href| && href[7..7 + |seg|] == seg
    ensures ':' !in seg
    ensures 7 + |seg| == |href| || href[7 + |seg|] == ':'
  {
    MailtoSplit(href);
    SplitHead(href[7..], ':');
    Split(href, ':')[1]
  }

  /** The scheme holds the first colon of a `mailto:` href. */
  lemma MailtoSplit(href: string)
    requires IsMailto(href)
    ensures |Split(href, ':')| >= 2
    ensures Split(href, ':')[1] == Split(href[7..], ':')[0]
  {
    var scheme := "mailto";
    assert href[..7] == MailtoPrefix;
    assert href == href[..6] + [':'] + href[7..];
    assert href[..6] == scheme;
    SplitAfter(scheme, ':', href[7..]);
  }

  /** The address one `mailto:` anchor contributes. */
  function MailtoAddress(href: string): (r: string)
    requires IsMailto(href)
    ensures ':' !in r
    ensures forall i :: 0 <= i < |r| ==> !IsUpper(r[i])
    ensures |r| == 0 || (!IsSpace(r[0]) && !IsSpace(r[|r| - 1]))
  {
    var target := MailtoTarget(href);
    var stripped := Strip(target);
    assert ':' !in stripped by {
      var k :| StrippedAt(target, stripped, k);
      forall i | 0 <= i < |stripped| ensures stripped[i] != ':' {
        assert stripped[i] == target[k + i];
      }
    }
    Lower(stripped)
  }

  /** The `mailto` branch of the anchor loop. */
  function MailtoEmails(hrefs: seq<string>): (r: set<string>)
    ensures forall e :: e in r <==> exists h :: h in hrefs && IsMailto(h) && e == MailtoAddress(h)
    decreases |hrefs|
  {
    if |hrefs| == 0 then {}
    else
      var rest := MailtoEmails(hrefs[1..]);
      assert forall h :: h in hrefs <==> h == hrefs[0] || h in hrefs[1..];
      if IsMailto(hrefs[0]) then rest + {MailtoAddress(hrefs[0])} else rest
  }

  // ---------------------------------------------------------------------
  // text patterns

  /** `m.replace(' [at] ', '@').replace(' [dot] ', '.').lower()` */
  function DecodeObfuscated(m: ObfuscatedMatch): string {
    Lower(ReplaceAll(ReplaceAll(m.Text(), " [at] ", "@"), " [dot] ", "."))
  }

  /** `html.unescape(m).lower()`. The character classes exclude `&`, so the
      one character reference such a match holds is the `&#64;` between its
      two parts, which is the reference `html.unescape` turns into `@`. */
  function DecodeEntity(m: EntityMatch): string {
    Lower(ReplaceAll(m.Text(), "&#64;", "@"))
  }

  /** Plain matches, taken verbatim. */
  function PlainEmails(ms: seq<PlainMatch>): (r: set<string>)
    ensures forall e :: e in r <==> exists m :: m in ms && e == m.Text()
    decreases |ms|
  {
    if |ms| == 0 then {}
    else
      assert forall m :: m in ms <==> m == ms[0] || m in ms[1..];
      PlainEmails(ms[1..]) + {ms[0].Text()}
  }

  /** Obfuscated matches, decoded. */
  function ObfuscatedEmails(ms: seq<ObfuscatedMatch>): (r: set<string>)
    ensures forall e :: e in r <==> exists m :: m in ms && e == DecodeObfuscated(m)
    decreases |ms|
  {
    if |ms| == 0 then {}
    else
      assert forall m :: m in ms <==> m == ms[0] || m in ms[1..];
      ObfuscatedEmails(ms[1..]) + {DecodeObfuscated(ms[0])}
  }

  /** Entity-encoded matches, decoded. */
  function EntityEmails(ms: seq<EntityMatch>): (r: set<string>)
    ensures forall e :: e in r <==> exists m :: m in ms && e == DecodeEntity(m)
    decreases |ms|
  {
    if |ms| == 0 then {}
    else
      assert forall m :: m in ms <==> m == ms[0] || m in ms[1..];
      EntityEmails(ms[1..]) + {DecodeEntity(ms[0])}
  }

  /** Some `mailto:` anchor of the page contributes `e`. */
  predicate FromMailto(p: Page, e: string) {
    exists h :: h in p.anchors && IsMailto(h) && e == MailtoAddress(h)
  }

  /** Every address the page yields: the mailto set united with the text
      set, with no further normalisation. */
  function ExtractEmails(p: Page): (r: set<string>)
    ensures forall e :: e in r <==>
      || FromMailto(p, e)
      || (exists m :: m in p.plain && e == m.Text())
      || (exists m :: m in p.obfuscated && e == DecodeObfuscated(m))
      || (exists m :: m in p.entities && e == DecodeEntity(m))
  {
    MailtoEmails(p.anchors) + (PlainEmails(p.plain) + ObfuscatedEmails(p.obfuscated) + EntityEmails(p.entities))
  }

  // ---------------------------------------------------------------------
  // what decoding yields

  /** No character of a class-conforming part is a space, `[`, `&` or `@`. */
  lemma PartsAreClean(s: string)
    requires forall i :: 0 <= i < |s| ==> IsLocalChar(s[i])
    ensures ' ' !in s && '[' !in s && '&' !in s && '@' !in s
  {
    forall i | 0 <= i < |s|
      ensures s[i] != ' ' && s[i] != '[' && s[i] != '&' && s[i] != '@'
    {
      assert IsLocalChar(s[i]);
    }
  }

  /** The string ` [dot] ` followed by letters holds no ` [at] `. */
  lemma DotTailHasNoAt(tld: string)
    requires IsTopLevel(tld)
    ensures ReplaceAll(" [dot] " + tld, " [at] ", "@") == " [dot] " + tld
  {
    var pat := " [at] ";
    PartsAreClean(tld);
    var s := " [dot] " + tld;
    assert s[..6] != pat by { assert s[2] == 'd'; }
    assert s[1..] == "[dot]" + (" " + tld);
    ReplaceSkip("[dot]", " " + tld, pat, "@");
    var u := " " + tld;
    if |u| >= |pat| {
      assert u[..6][1] == tld[0];
      assert u[..6] != pat;
    }
    assert u[1..] == tld;
    ReplaceUntouched(tld, pat, "@");
  }

  /** The first replacement turns ` [at] ` into `@` and leaves the
      ` [dot] ` alone. */
  lemma {:induction false} ReplaceAtSign(m: ObfuscatedMatch)
    requires m.Valid()
    ensures ReplaceAll(m.Text(), " [at] ", "@") == m.local + "@" + m.domain + (" [dot] " + m.tld)
  {
    PartsAreClean(m.local);
    var at := " [at] ";
    var tail := m.domain + " [dot] " + m.tld;
    var dotted := m.domain + (" [dot] " + m.tld);
    assert tail == dotted;
    assert m.Text() == m.local + (at + tail);
    ReplaceSkip(m.local, at + tail, at, "@");
    assert ReplaceAll(m.Text(), at, "@") == m.local + ReplaceAll(at + tail, at, "@");
    ReplaceHere(at, tail, "@");
    assert ReplaceAll(at + tail, at, "@") == "@" + ReplaceAll(tail, at, "@");
    DomainTailHasNoAt(m.domain, m.tld);
    assert ReplaceAll(tail, at, "@") == dotted;
    assert ReplaceAll(m.Text(), at, "@") == m.local + ("@" + dotted);
    assert m.local + ("@" + dotted) == m.local + "@" + m.domain + (" [dot] " + m.tld);
  }

  /** `domain [dot] tld` holds no ` [at] `. */
  lemma DomainTailHasNoAt(domain: string, tld: string)
    requires IsDomainPart(domain) && IsTopLevel(tld)
    ensures ReplaceAll(domain + " [dot] " + tld, " [at] ", "@") == domain + (" [dot] " + tld)
  {
    PartsAreClean(domain);
    assert domain + " [dot] " + tld == domain + (" [dot] " + tld);
    ReplaceSkip(domain, " [dot] " + tld, " [at] ", "@");
    DotTailHasNoAt(tld);
  }

  /** The second replacement turns ` [dot] ` into `.`. */
  lemma {:induction false} ReplaceDot(m: ObfuscatedMatch)
    requires m.Valid()
    ensures ReplaceAll(m.local + "@" + m.domain + (" [dot] " + m.tld), " [dot] ", ".")
      == m.local + "@" + m.domain + "." + m.tld
  {
    PartsAreClean(m.local);
    PartsAreClean(m.domain);
    PartsAreClean(m.tld);
    var dot := " [dot] ";
    var head := m.local + "@" + m.domain;
    assert ' ' !in head;
    ReplaceSkip(head, dot + m.tld, dot, ".");
    ReplaceHere(dot, m.tld, ".");
    ReplaceUntouched(m.tld, dot, ".");
  }

  /** Decoding an obfuscated match yields `local@domain.tld`, lower-cased,
      which holds exactly one `@`. */
  lemma {:induction false} ObfuscatedDecoding(m: ObfuscatedMatch)
    requires m.Valid()
    ensures DecodeObfuscated(m) == Lower(m.local + "@" + m.domain + "." + m.tld)
    ensures multiset(DecodeObfuscated(m))['@'] == 1
  {
    ReplaceAtSign(m);
    ReplaceDot(m);
    var plain := m.local + "@" + m.domain + "." + m.tld;
    LowerKeepsCount(plain, '@');
    PartsAreClean(m.local);
    PartsAreClean(m.domain);
    PartsAreClean(m.tld);
  }

  /** Decoding an entity match yields `local@domain`, lower-cased, which
      holds exactly one `@`. */
  lemma {:induction false} EntityDecoding(m: EntityMatch)
    requires m.Valid()
    ensures DecodeEntity(m) == Lower(m.local + "@" + m.domain)
    ensures multiset(DecodeEntity(m))['@'] == 1
  {
    PartsAreClean(m.local);
    PartsAreClean(m.domain);
    var ref := "&#64;";
    assert m.Text() == m.local + (ref + m.domain);
    ReplaceSkip(m.local, ref + m.domain, ref, "@");
    ReplaceHere(ref, m.domain, "@");
    ReplaceUntouched(m.domain, ref, "@");
    assert ReplaceAll(m.Text(), ref, "@") == m.local + "@" + m.domain;
    LowerKeepsCount(m.local + "@" + m.domain, '@');
  }

  /** A plain match holds exactly one `@`, and keeps its letter case. */
  lemma PlainShape(m: PlainMatch)
    requires m.Valid()
    ensures multiset(m.Text())['@'] == 1
  {
    PartsAreClean(m.local);
    PartsAreClean(m.domain);
    PartsAreClean(m.tld);
  }

  /** On a well-formed page, every address found in the text has exactly one
      `@`; the obfuscated and entity forms come out lower-cased, the plain
      form as written. */
  lemma {:induction false} TextAddressShapes(p: Page)
    requires WellFormed(p)
    ensures forall m :: m in p.obfuscated ==>
      Lower(m.local + "@" + m.domain + "." + m.tld) in ExtractEmails(p)
    ensures forall m :: m in p.entities ==> Lower(m.local + "@" + m.domain) in ExtractEmails(p)
    ensures forall m :: m in p.plain ==> m.Text() in ExtractEmails(p)
    ensures forall e :: e in ExtractEmails(p) && !FromMailto(p, e) ==> multiset(e)['@'] == 1
  {
    forall m | m in p.obfuscated
      ensures Lower(m.local + "@" + m.domain + "." + m.tld) in ExtractEmails(p)
    {
      ObfuscatedDecoding(m);
    }
    forall m | m in p.entities
      ensures Lower(m.local + "@" + m.domain) in ExtractEmails(p)
    {
      EntityDecoding(m);
    }
    forall e | e in ExtractEmails(p) && !FromMailto(p, e)
      ensures multiset(e)['@'] == 1
    {
      if m :| m in p.plain && e == m.Text() {
        PlainShape(m);
      } else if m :| m in p.obfuscated && e == DecodeObfuscated(m) {
        ObfuscatedDecoding(m);
      } else {
        var m :| m in p.entities && e == DecodeEntity(m);
        EntityDecoding(m);
      }
    }
  }

  // ---------------------------------------------------------------------
  // one address in several spellings

  /** A string without whitespace is its own strip. */
  lemma StripNoSpace(s: string)
    requires forall i :: 0 <= i < |s| ==> !IsSpace(s[i])
    ensures Strip(s) == s
  {
    assert LeadingSpaces(s) == 0;
    assert TextEnd(s) == |s|;
  }

  /** The mailto branch keeps everything between the scheme and the next
      colon, a `?subject=` query included, and drops what follows that
      colon. */
  lemma MailtoStopsAtColon(a: string, b: string)
    requires ':' !in a
    ensures IsMailto(MailtoPrefix + a) && MailtoTarget(MailtoPrefix + a) == a
    ensures IsMailto(MailtoPrefix + a + [':'] + b) && MailtoTarget(MailtoPrefix + a + [':'] + b) == a
  {
    var h1 := MailtoPrefix + a;
    var h2 := MailtoPrefix + a + [':'] + b;
    assert h1[..7] == MailtoPrefix && h1[7..] == a;
    assert h2[..7] == MailtoPrefix && h2[7..] == a + [':'] + b;
    MailtoSplit(h1);
    MailtoSplit(h2);
    SplitWithout(a, ':');
    SplitAfter(a, ':', b);
  }

  /** A `mailto:` href whose target has no colon and no whitespace yields
      the target lower-cased. */
  lemma MailtoAddressOf(a: string)
    requires ':' !in a
    requires forall i :: 0 <= i < |a| ==> !IsSpace(a[i])
    ensures IsMailto(MailtoPrefix + a) && MailtoAddress(MailtoPrefix + a) == Lower(a)
  {
    MailtoStopsAtColon(a, "");
    StripNoSpace(a);
  }

  /** `local@domain.tld` holds no colon and no whitespace. */
  lemma AddressHasNoSpace(local: string, domain: string, tld: string)
    requires IsLocalPart(local) && IsDomainPart(domain) && IsTopLevel(tld)
    ensures var address := local + "@" + domain + "." + tld;
      ':' !in address && forall i :: 0 <= i < |address| ==> !IsSpace(address[i])
  {
    var address := local + "@" + domain + "." + tld;
    forall i | 0 <= i < |address|
      ensures address[i] != ':' && !IsSpace(address[i])
    {
      if i < |local| {
        assert address[i] == local[i] && IsLocalChar(local[i]);
      } else if i == |local| {
      } else if i < |local| + 1 + |domain| {
        assert address[i] == domain[i - |local| - 1] && IsDomainChar(domain[i - |local| - 1]);
      } else if i > |local| + 1 + |domain| {
        assert address[i] == tld[i - |local| - 2 - |domain|] && IsLetter(tld[i - |local| - 2 - |domain|]);
      }
    }
  }

  /** `domain.tld` fits the domain class of the entity pattern. */
  lemma DomainWithTopLevel(domain: string, tld: string)
    requires IsDomainPart(domain) && IsTopLevel(tld)
    ensures IsDomainPart(domain + "." + tld)
  {
    var d := domain + "." + tld;
    forall i | 0 <= i < |d| ensures IsDomainChar(d[i]) {
      if i > |domain| {
        assert d[i] == tld[i - |domain| - 1] && IsLetter(tld[i - |domain| - 1]);
      }
    }
  }

  /** The address `local@domain.tld` written as a `mailto:` link, in the
      obfuscated form and with the `&#64;` reference yields one and the same
      entry, its lower-case form. */
  lemma SpellingsAgree(local: string, domain: string, tld: string, address: string)
    requires IsLocalPart(local) && IsDomainPart(domain) && IsTopLevel(tld)
    requires address == local + "@" + domain + "." + tld
    ensures IsMailto(MailtoPrefix + address) && MailtoAddress(MailtoPrefix + address) == Lower(address)
    ensures DecodeObfuscated(ObfuscatedMatch(local, domain, tld)) == Lower(address)
    ensures DecodeEntity(EntityMatch(local, domain + "." + tld)) == Lower(address)
  {
    AddressHasNoSpace(local, domain, tld);
    MailtoAddressOf(address);
    ObfuscatedDecoding(ObfuscatedMatch(local, domain, tld));
    EntityAddress(local, domain, tld, address);
  }

  /** The entity spelling of `local@domain.tld` decodes to its lower case. */
  lemma EntityAddress(local: string, domain: string, tld: string, address: string)
    requires IsLocalPart(local) && IsDomainPart(domain) && IsTopLevel(tld)
    requires address == local + "@" + domain + "." + tld
    ensures DecodeEntity(EntityMatch(local, domain + "." + tld)) == Lower(address)
  {
    var d := domain + "." + tld;
    DomainWithTopLevel(domain, tld);
    EntityDecoding(EntityMatch(local, d));
    assert local + "@" + d == address;
  }

  /** A plain match with an upper-case letter differs from the lower-case
      entry the other spellings of the same address give, so a page may
      yield both. */
  lemma PlainKeepsCase(m: PlainMatch, i: int)
    requires m.Valid() && 0 <= i < |m.Text()| && IsUpper(m.Text()[i])
    ensures m.Text() != Lower(m.Text())
    ensures m.Text() != DecodeObfuscated(ObfuscatedMatch(m.local, m.domain, m.tld))
  {
    assert Lower(m.Text())[i] != m.Text()[i];
    ObfuscatedDecoding(ObfuscatedMatch(m.local, m.domain, m.tld));
  }
}
