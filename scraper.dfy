/**
  The link scanner of src/WikiScraper.java: `getURL` turns a page name
  into its address, and `scrapeHTML` collects the article names that
  appear in a page's HTML as `href="/wiki/NAME"`, skipping names with a
  ':' (special pages) or a '#' (anchors).
*/
module Scraper {
  import opened Wrappers

  /** The text the scanner cuts after (7 characters). */
  const QuoteWiki := "\"/wiki/"
  /** The text whose presence keeps the scanning loop going. */
  const HrefWiki := "href=" + QuoteWiki
  const Quote := "\""
  const WikiPrefix := "https://en.wikipedia.org/wiki/"

  /** `getURL`: the English Wikipedia address of a page. */
  function GetURL(link: string): (url: string)
    ensures |url| == |WikiPrefix| + |link|
    ensures url[..|WikiPrefix|] == WikiPrefix && url[|WikiPrefix|..] == link
  {
    WikiPrefix + link
  }

  /** The page an address names, if it is an English Wikipedia address. */
  function PageOf(url: string): (r: Option<string>)
    ensures r.Some? <==> |url| >= |WikiPrefix| && url[..|WikiPrefix|] == WikiPrefix
  {
    if |url| >= |WikiPrefix| && url[..|WikiPrefix|] == WikiPrefix then Some(url[|WikiPrefix|..]) else None
  }

  /** PageOf undoes GetURL. */
  lemma PageOfGetURL(link: string)
    ensures PageOf(GetURL(link)) == Some(link)
  {
    var url := GetURL(link);
    assert url[..|WikiPrefix|] == WikiPrefix;
  }

  /** GetURL undoes PageOf. */
  lemma GetURLPageOf(url: string)
    requires PageOf(url).Some?
    ensures GetURL(PageOf(url).value) == url
  {
    assert url == url[..|WikiPrefix|] + url[|WikiPrefix|..];
  }

  /** Different pages have different addresses. */
  lemma GetURLInjective(a: string, b: string)
    requires GetURL(a) == GetURL(b)
    ensures a == b
  {
    assert a == GetURL(a)[|WikiPrefix|..];
  }

  /** `pat` occurs in `s` starting at position p. */
  predicate OccursAt(s: string, pat: string, p: int)
  {
    0 <= p && p + |pat| <= |s| && s[p..p + |pat|] == pat
  }

  /** Java's String.indexOf: the first position of `pat` in `s`, or -1. */
  function IndexOf(s: string, pat: string): (r: int)
    ensures -1 <= r <= |s|
    ensures r >= 0 ==> OccursAt(s, pat, r) && forall p :: 0 <= p < r ==> !OccursAt(s, pat, p)
    ensures r == -1 ==> forall p :: !OccursAt(s, pat, p)
    decreases |s|
  {
    if |s| < |pat| then
      -1
    else if s[..|pat|] == pat then
      0
    else
      var r := IndexOf(s[1..], pat);
      ShiftOccurs(s, pat);
      if r < 0 then -1 else r + 1
  }

  /** An occurrence past the first position is an occurrence in the tail. */
  lemma ShiftOccurs(s: string, pat: string)
    requires |s| > 0
    ensures forall p :: 1 <= p ==> (OccursAt(s, pat, p) <==> OccursAt(s[1..], pat, p - 1))
  {
    forall p | 1 <= p
      ensures OccursAt(s, pat, p) <==> OccursAt(s[1..], pat, p - 1)
    {
      if p + |pat| <= |s| {
        var a, b := s[p..p + |pat|], s[1..][p - 1..p - 1 + |pat|];
        forall t | 0 <= t < |a|
          ensures a[t] == b[t]
        {
        }
      }
    }
  }

  /** Java's String.contains. */
  function Contains(s: string, pat: string): (r: bool)
    ensures r <==> exists p :: OccursAt(s, pat, p)
  {
    IndexOf(s, pat) >= 0
  }

  /** A one-character pattern occurs exactly when the character is there. */
  lemma ContainsChar(s: string, c: char)
    ensures Contains(s, [c]) <==> c in s
  {
    if c in s {
      var p :| 0 <= p < |s| && s[p] == c;
      assert OccursAt(s, [c], p);
    }
    if Contains(s, [c]) {
      var p :| OccursAt(s, [c], p);
      assert s[p..p + 1][0] == s[p];
    }
  }

  /** A link is kept when it names an article: no ':' and no '#'. */
  predicate Keep(link: string)
  {
    !Contains(link, ":") && !Contains(link, "#")
  }

  /** A one-character pattern occurs at p exactly when that character is at p. */
  lemma OccursChar(s: string, c: char, p: int)
    requires 0 <= p < |s|
    ensures OccursAt(s, [c], p) <==> s[p] == c
  {
    assert s[p..p + 1] == [s[p]];
  }

  /** The first `"/wiki/` comes no later than the one inside `href="/wiki/`. */
  lemma HrefHasQuoteWiki(line: string)
    requires Contains(line, HrefWiki)
    ensures 0 <= IndexOf(line, QuoteWiki) <= |line| - 7
  {
    var h :| OccursAt(line, HrefWiki, h);
    OccursSplit(line, "href=", QuoteWiki, h);
  }

  /** An occurrence of a + b holds an occurrence of b right after a. */
  lemma OccursSplit(s: string, a: string, b: string, p: int)
    requires OccursAt(s, a + b, p)
    ensures OccursAt(s, b, p + |a|)
  {
    assert s[p + |a|..p + |a| + |b|] == s[p..p + |a| + |b|][|a|..];
  }

  /** An occurrence in a suffix is an occurrence in the whole. */
  lemma OccursInSuffix(s: string, q: int, pat: string, p: int)
    requires 0 <= q <= |s| && OccursAt(s[q..], pat, p)
    ensures OccursAt(s, pat, q + p)
  {
    assert s[q + p..q + p + |pat|] == s[q..][p..p + |pat|];
  }

  /** Some `"/wiki/` in `s` has no `"` anywhere after it. */
  ghost predicate Unclosed(s: string)
  {
    exists p :: OccursAt(s, QuoteWiki, p) && '"' !in s[p + 7..]
  }

  lemma UnclosedAt(s: string, p: int)
    requires OccursAt(s, QuoteWiki, p) && '"' !in s[p + 7..]
    ensures Unclosed(s)
  {
  }

  /** One round of the loop: the link text and the rest of the line after it. */
  datatype Cut = Cut(link: string, rest: string)

  /**
    One round of the `scrapeHTML` loop on a line that still holds
    `href="/wiki/`: cut after the first `"/wiki/`, take the text up to
    the next `"` as the link, and keep the line from that `"` on.
    None when no `"` follows: there `substring(0, -1)` throws.
  */
  function NextCut(line: string): (r: Option<Cut>)
    requires Contains(line, HrefWiki)
    ensures r.Some? ==> |r.value.rest| + 7 <= |line| && '"' !in r.value.link
    ensures r.None? ==> Unclosed(line)
  {
    HrefHasQuoteWiki(line);
    var k := IndexOf(line, QuoteWiki);
    var tail := line[k + 7..];
    var j := IndexOf(tail, Quote);
    ContainsChar(tail, '"');
    if j < 0 then
      UnclosedAt(line, k);
      None
    else
      CutFacts(line, k, j);
      Some(Cut(tail[..j], tail[j..]))
  }

  /** What one cut at the `"/wiki/` at k and the `"` j characters later yields. */
  lemma CutFacts(line: string, k: int, j: int)
    requires OccursAt(line, QuoteWiki, k) && 0 <= j
    requires IndexOf(line[k + 7..], Quote) == j
    ensures var link := line[k + 7..][..j];
      && '"' !in link
      && OccursAt(line, QuoteWiki + link + Quote, k)
      && line[k + 7..][j..] == line[k + 7 + |link|..]
  {
    var tail := line[k + 7..];
    var link := tail[..j];
    forall t | 0 <= t < j
      ensures link[t] != '"'
    {
      OccursChar(tail, '"', t);
    }
    OccursChar(tail, '"', j);
    var w := QuoteWiki + link + Quote;
    assert line[k..k + |w|] == line[k..k + 7] + tail[..j] + [tail[j]];
  }

  /** Adds the links found so far to an outcome; a failure stays a failure. */
  function Combine(links: set<string>, r: Result<set<string>>): (c: Result<set<string>>)
    ensures c.Failure? <==> r.Failure?
    ensures c.Success? ==> c.value == links + r.value
  {
    if r.Failure? then r else Success(links + r.value)
  }

  /** NextCut is the source's two indexOf calls and two substrings. */
  lemma CutIs(line: string)
    requires Contains(line, HrefWiki)
    ensures 0 <= IndexOf(line, QuoteWiki) <= |line| - 7
    ensures var tail := line[IndexOf(line, QuoteWiki) + 7..];
      var j := IndexOf(tail, Quote);
      NextCut(line) == if j < 0 then None else Some(Cut(tail[..j], tail[j..]))
  {
    HrefHasQuoteWiki(line);
  }

  /** Where the `"/wiki/` of a successful round stands: the first one in the line. */
  lemma CutPos(line: string) returns (p: int)
    requires Contains(line, HrefWiki) && NextCut(line).Some?
    ensures var cut := NextCut(line).value;
      && OccursAt(line, QuoteWiki + cut.link + Quote, p)
      && 0 <= p && p + 7 + |cut.link| <= |line|
      && cut.rest == line[p + 7 + |cut.link|..]
  {
    CutIs(line);
    p := IndexOf(line, QuoteWiki);
    CutFacts(line, p, IndexOf(line[p + 7..], Quote));
  }

  /** One round of Scrape on a line whose round succeeds. */
  lemma ScrapeStep(line: string)
    requires Contains(line, HrefWiki) && NextCut(line).Some?
    ensures var cut := NextCut(line).value;
      Scrape(line) == Combine(if Keep(cut.link) then {cut.link} else {}, Scrape(cut.rest))
  {
  }

  lemma CombineNone(r: Result<set<string>>)
    ensures Combine({}, r) == r
  {
    if r.Success? {
      assert {} + r.value == r.value;
    }
  }

  lemma CombineAssoc(a: set<string>, b: set<string>, r: Result<set<string>>)
    ensures Combine(a, Combine(b, r)) == Combine(a + b, r)
  {
    if r.Success? {
      assert a + (b + r.value) == a + b + r.value;
    }
  }

  /**
    What `scrapeHTML` returns for a line: the kept links of every round,
    or a failure when a round finds no closing `"`.  The rounds end when
    `href="/wiki/` no longer occurs; each one shortens the line by at
    least 7 characters.
  */
  function Scrape(line: string): (r: Result<set<string>>)
    ensures r.Failure? ==> Contains(line, HrefWiki)
    ensures r.Success? ==> forall l :: l in r.value ==> Keep(l)
    decreases |line|
  {
    if !Contains(line, HrefWiki) then
      Success({})
    else
      match NextCut(line)
      case None => Failure("String index out of range: -1")
      case Some(cut) =>
        Combine(if Keep(cut.link) then {cut.link} else {}, Scrape(cut.rest))
  }

  /**
    `scrapeHTML`, as the source's loop: the result is the one Scrape
    describes.
  */
  method ScrapeHTML(html: string) returns (r: Result<set<string>>)
    ensures r == Scrape(html)
  {
    var links: set<string> := {};
    var line := html;
    assert Scrape(html).Success? ==> {} + Scrape(html).value == Scrape(html).value;
    while Contains(line, HrefWiki)
      invariant Scrape(html) == Combine(links, Scrape(line))
      decreases |line|
    {
      ghost var before, found := line, links;
      HrefHasQuoteWiki(line);
      line := line[IndexOf(line, QuoteWiki) + 7..];
      var end := IndexOf(line, Quote);
      CutIs(before);
      if end < 0 {
        return Failure("String index out of range: -1");
      }
      var link := line[..end];
      ghost var kept: set<string> := if Keep(link) then {link} else {};
      if !Contains(link, ":") && !Contains(link, "#") {
        links := links + {link};
      }
      line := line[IndexOf(line, Quote)..];
      assert Scrape(before) == Combine(kept, Scrape(line)) by {
        ScrapeStep(before);
      }
      if Keep(link) {
        CombineAssoc(found, kept, Scrape(line));
      } else {
        CombineNone(Scrape(line));
      }
    }
    return Success(links);
  }

  /** No link found contains ':', '#' or '"'. */
  lemma {:induction false} ScrapeClean(s: string)
    requires Scrape(s).Success?
    ensures forall l :: l in Scrape(s).value ==> ':' !in l && '#' !in l && '"' !in l
    decreases |s|
  {
    if Contains(s, HrefWiki) {
      var cut := NextCut(s).value;
      ScrapeClean(cut.rest);
      ContainsChar(cut.link, ':');
      ContainsChar(cut.link, '#');
    }
  }

  /** `link` stands in `s` between `"/wiki/` and `"`. */
  ghost predicate Quoted(s: string, link: string)
  {
    exists p :: OccursAt(s, QuoteWiki + link + Quote, p)
  }

  /** A link quoted in a suffix is quoted in the whole line. */
  lemma QuotedSuffix(s: string, r: int, rest: string, link: string)
    requires 0 <= r <= |s| && rest == s[r..] && Quoted(rest, link)
    ensures Quoted(s, link)
  {
    var p :| OccursAt(rest, QuoteWiki + link + Quote, p);
    OccursInSuffix(s, r, QuoteWiki + link + Quote, p);
  }

  /** Every link found stands in the input between `"/wiki/` and `"`. */
  lemma {:induction false} ScrapeFound(s: string)
    requires Scrape(s).Success?
    ensures forall l :: l in Scrape(s).value ==> Quoted(s, l)
    decreases |s|
  {
    if Contains(s, HrefWiki) {
      var cut := NextCut(s).value;
      var q := CutPos(s);
      ScrapeStep(s);
      ScrapeFound(cut.rest);
      forall l | l in Scrape(s).value
        ensures Quoted(s, l)
      {
        if l != cut.link {
          QuotedSuffix(s, q + 7 + |cut.link|, cut.rest, l);
        }
      }
    }
  }

  /** HTML without `href="/wiki/` has no links. */
  lemma ScrapeNoHref(s: string)
    requires !Contains(s, HrefWiki)
    ensures Scrape(s) == Success({})
  {
  }

  /** An unclosed `"/wiki/` in a suffix is one in the whole line. */
  lemma UnclosedSuffix(s: string, r: int, rest: string)
    requires 0 <= r <= |s| && rest == s[r..] && Unclosed(rest)
    ensures Unclosed(s)
  {
    var p :| OccursAt(s[r..], QuoteWiki, p) && '"' !in s[r..][p + 7..];
    OccursInSuffix(s, r, QuoteWiki, p);
    assert s[r + p + 7..] == s[r..][p + 7..];
  }

  /** Scraping fails only where some `"/wiki/` has no `"` anywhere after it. */
  lemma {:induction false} ScrapeFailure(s: string)
    requires Scrape(s).Failure?
    ensures Unclosed(s)
    decreases |s|
  {
    assert Contains(s, HrefWiki);
    if NextCut(s).Some? {
      var q := CutPos(s);
      var cut := NextCut(s).value;
      assert Scrape(cut.rest).Failure? by {
        ScrapeStep(s);
      }
      ScrapeFailure(cut.rest);
      UnclosedSuffix(s, q + 7 + |cut.link|, cut.rest);
    }
  }
}
