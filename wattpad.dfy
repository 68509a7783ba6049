/**
 * The Wattpad adapter: which URLs it claims, and the filter that turns the links of a story
 * page into its chapter listing (keep chapter links, make them absolute, drop repeats).
 */
module Wattpad {
  import opened Wrappers
  import opened Text

  const SiteRoot := "https://www.wattpad.com"
  const UntitledChapter := "Untitled Chapter"

  /** `WattpadSource.identify`. */
  predicate Identify(url: string) { Contains(url, "wattpad.com") }

  /** One anchor of the page: its `href` attribute (absent or empty possible) and its text. */
  datatype Link = Link(href: Option<string>, text: string)

  /** One entry of the chapter listing. */
  datatype LinkChapter = LinkChapter(title: string, url: string)

  /** Links that point somewhere on the site other than a bare chapter slug. */
  predicate SiteLink(h: string) {
    Contains(h, "/story/") || Contains(h, "/user/") || Contains(h, "/list/") || Contains(h, "/login")
    || Contains(h, "wattpad.com")
  }

  /** `re.search(r'wattpad\.com/(\d+)-', h)` finds a match at `k`. */
  predicate FullChapterAt(h: string, k: nat) {
    TagDigitAt(h, "wattpad.com/", k) && DigitRunEnd(h, k + 12) < |h| && h[DigitRunEnd(h, k + 12)] == '-'
  }

  /** `re.search(r'wattpad\.com/(\d+)-', h)` finds a match. */
  predicate FullChapterPattern(h: string) { exists k :: 0 <= k <= |h| && FullChapterAt(h, k) }

  /** `.+$` from the start of `rest`: at least one character and no newline, except one final newline. */
  predicate RestOfLine(rest: string) {
    (|rest| >= 1 && '\n' !in rest)
    || (|rest| >= 2 && rest[|rest| - 1] == '\n' && '\n' !in rest[..|rest| - 1])
  }

  /** `re.match(r'^/?(\d+)-.+$', h)` succeeds. */
  predicate SlugChapterPattern(h: string) {
    var i := if StartsWith(h, "/") then 1 else 0;
    i < |h| && IsDigit(h[i]) && DigitRunEnd(h, i) < |h| && h[DigitRunEnd(h, i)] == '-'
    && RestOfLine(h[DigitRunEnd(h, i) + 1..])
  }

  /** The link survives the filter. */
  predicate Accepted(l: Link) {
    l.href.Some? && l.href.value != []
    && (if SiteLink(l.href.value) then FullChapterPattern(l.href.value) else SlugChapterPattern(l.href.value))
  }

  /** The absolute chapter URL of a kept href. */
  function FullUrl(h: string): (u: string)
    ensures StartsWith(u, "http")
    ensures StartsWith(h, "http") ==> u == h
  {
    if StartsWith(h, "http") then h
    else
      var path := if StartsWith(h, "/") then h else "/" + h;
      assert SiteRoot[..4] == "http";
      assert (SiteRoot + path)[..4] == SiteRoot[..4];
      SiteRoot + path
  }

  /** A chapter URL built from a relative href is one the adapter claims. */
  lemma FullUrlIdentified(h: string)
    requires !StartsWith(h, "http")
    ensures Identify(FullUrl(h))
  {
    var u := FullUrl(h);
    assert u[..|SiteRoot|] == SiteRoot;
    assert SiteRoot[12..12 + 11] == "wattpad.com";
    assert u[12..12 + 11] == SiteRoot[12..12 + 11];
    assert OccursAt(u, "wattpad.com", 12);
  }

  /** The chapter title: the stripped text, or a fixed title when that is empty. */
  function TitleOf(text: string): (t: string)
    ensures t != []
    ensures Strip(text) != [] ==> t == Strip(text)
  {
    if Strip(text) != [] then Strip(text) else UntitledChapter
  }

  /** What one link contributes before repeats are dropped. */
  function Candidate(l: Link): (r: Option<LinkChapter>)
    ensures r.Some? <==> Accepted(l)
    ensures r.Some? ==> r.value == LinkChapter(TitleOf(l.text), FullUrl(l.href.value))
  {
    if Accepted(l) then Some(LinkChapter(TitleOf(l.text), FullUrl(l.href.value))) else None
  }

  function Candidates(links: seq<Link>): (r: seq<Option<LinkChapter>>)
    ensures |r| == |links| && forall i :: 0 <= i < |links| ==> r[i] == Candidate(links[i])
    decreases |links|
  {
    if links == [] then [] else Candidates(links[..|links| - 1]) + [Candidate(links[|links| - 1])]
  }

  function Urls(cs: seq<LinkChapter>): set<string> { set c | c in cs :: c.url }

  predicate DistinctUrls(cs: seq<LinkChapter>) { forall i, j :: 0 <= i < j < |cs| ==> cs[i].url != cs[j].url }

  lemma UrlsAppend(cs: seq<LinkChapter>, c: LinkChapter)
    ensures Urls(cs + [c]) == Urls(cs) + {c.url}
  {
  }

  /** The candidates in order, each kept only if no earlier kept one has its URL. */
  function FirstByUrl(cands: seq<Option<LinkChapter>>): seq<LinkChapter>
    decreases |cands|
  {
    if cands == [] then []
    else
      var prev := FirstByUrl(cands[..|cands| - 1]);
      var c := cands[|cands| - 1];
      if c.Some? && c.value.url !in Urls(prev) then prev + [c.value] else prev
  }

  /** The chapter listing `get_chapter_list` builds from the page's links. */
  function ChapterLinks(links: seq<Link>): seq<LinkChapter> { FirstByUrl(Candidates(links)) }

  /** The link filter of `get_chapter_list`. */
  method FilterChapterLinks(links: seq<Link>) returns (chapters: seq<LinkChapter>)
    ensures chapters == ChapterLinks(links)
  {
    chapters := [];
    var seen: set<string> := {};
    var i := 0;
    while i < |links|
      invariant 0 <= i <= |links|
      invariant chapters == FirstByUrl(Candidates(links[..i]))
      invariant seen == Urls(chapters)
    {
      assert links[..i + 1][..i] == links[..i];
      var candidate := Candidate(links[i]);
      if candidate.Some? && candidate.value.url !in seen {
        UrlsAppend(chapters, candidate.value);
        chapters := chapters + [candidate.value];
        seen := seen + {candidate.value.url};
      }
      i := i + 1;
    }
    assert links[..|links|] == links;
  }

  /** No URL is kept twice. */
  lemma {:induction false} FirstByUrlDistinct(cands: seq<Option<LinkChapter>>)
    ensures DistinctUrls(FirstByUrl(cands))
    decreases |cands|
  {
    if cands != [] {
      FirstByUrlDistinct(cands[..|cands| - 1]);
      var prev := FirstByUrl(cands[..|cands| - 1]);
      var c := cands[|cands| - 1];
      if c.Some? && c.value.url !in Urls(prev) {
        var cs := prev + [c.value];
        forall i, j | 0 <= i < j < |cs| ensures cs[i].url != cs[j].url {
          if j == |prev| {
            assert prev[i] in prev;
          }
        }
      }
    }
  }

  /** Every candidate's URL is kept, and only candidates are kept, each as the first candidate with its URL. */
  lemma {:induction false} FirstByUrlComplete(cands: seq<Option<LinkChapter>>)
    ensures forall i :: 0 <= i < |cands| && cands[i].Some? ==> cands[i].value.url in Urls(FirstByUrl(cands))
    ensures forall c :: c in FirstByUrl(cands) ==>
      exists i :: 0 <= i < |cands| && cands[i] == Some(c) && forall k :: 0 <= k < i && cands[k].Some? ==> cands[k].value.url != c.url
    decreases |cands|
  {
    if cands != [] {
      var n := |cands| - 1;
      var init := cands[..n];
      FirstByUrlComplete(init);
      var prev := FirstByUrl(init);
      assert Urls(prev) <= Urls(FirstByUrl(cands));
      forall i | 0 <= i < n && cands[i].Some?
        ensures cands[i].value.url in Urls(FirstByUrl(cands))
      {
        assert cands[i] == init[i];
      }
      forall c | c in FirstByUrl(cands)
        ensures exists i :: 0 <= i < |cands| && cands[i] == Some(c) && forall k :: 0 <= k < i && cands[k].Some? ==> cands[k].value.url != c.url
      {
        if c in prev {
          var i :| 0 <= i < n && init[i] == Some(c) && forall k :: 0 <= k < i && init[k].Some? ==> init[k].value.url != c.url;
          assert cands[i] == init[i];
          assert forall k :: 0 <= k < i ==> cands[k] == init[k];
        } else {
          assert cands[n] == Some(c) && c.url !in Urls(prev);
          forall k | 0 <= k < n && cands[k].Some?
            ensures cands[k].value.url != c.url
          {
            assert cands[k] == init[k];
          }
        }
      }
    }
  }

  /** `i` is the first candidate position that carries `url`. */
  predicate FirstCand(cands: seq<Option<LinkChapter>>, i: int, url: string) {
    && 0 <= i < |cands| && cands[i].Some? && cands[i].value.url == url
    && forall k :: 0 <= k < i && cands[k].Some? ==> cands[k].value.url != url
  }

  /** A URL has one first position. */
  lemma FirstCandUnique(cands: seq<Option<LinkChapter>>, i: int, j: int, url: string)
    requires FirstCand(cands, i, url) && FirstCand(cands, j, url)
    ensures i == j
  {
  }

  /** The entries of `r` come in the order of their URLs' first positions among `cands`. */
  ghost predicate OrderedByFirst(cands: seq<Option<LinkChapter>>, r: seq<LinkChapter>) {
    forall a, b, i, j :: 0 <= a < b < |r| && FirstCand(cands, i, r[a].url) && FirstCand(cands, j, r[b].url) ==> i < j
  }

  /** The kept entries come in the order of their URLs' first positions among the candidates. */
  lemma {:induction false} FirstByUrlOrdered(cands: seq<Option<LinkChapter>>)
    ensures OrderedByFirst(cands, FirstByUrl(cands))
    decreases |cands|
  {
    if cands != [] {
      var n := |cands| - 1;
      var init := cands[..n];
      var prev := FirstByUrl(init);
      var r := FirstByUrl(cands);
      FirstByUrlOrdered(init);
      FirstByUrlComplete(init);
      assert forall k :: 0 <= k < n ==> cands[k] == init[k];
      // a URL kept from the shorter list first occurs before position n, at the same place in both
      forall a, i | 0 <= a < |prev| && FirstCand(cands, i, prev[a].url)
        ensures i < n && FirstCand(init, i, prev[a].url)
      {
        assert prev[a] in prev;
        var i0 :| 0 <= i0 < n && init[i0] == Some(prev[a]) && forall k :: 0 <= k < i0 && init[k].Some? ==> init[k].value.url != prev[a].url;
        assert FirstCand(cands, i0, prev[a].url);
        FirstCandUnique(cands, i, i0, prev[a].url);
      }
      forall a, b, i, j | 0 <= a < b < |r| && FirstCand(cands, i, r[a].url) && FirstCand(cands, j, r[b].url)
        ensures i < j
      {
        assert a < |prev|;
        assert r[a] == prev[a];
        if b < |prev| {
          assert r[b] == prev[b];
          assert FirstCand(init, i, prev[a].url) && FirstCand(init, j, prev[b].url);
        } else {
          // the new entry is the last candidate, whose URL no earlier candidate carries
          var c := cands[n].value;
          assert r[b] == c && c.url !in Urls(prev);
          forall k | 0 <= k < n && cands[k].Some?
            ensures cands[k].value.url != c.url
          {
            assert init[k].Some?;
          }
          assert FirstCand(cands, n, c.url);
          FirstCandUnique(cands, j, n, c.url);
        }
      }
    }
  }

  /** `i` is the first accepted link whose absolute URL is `url`. */
  predicate FirstAccepted(links: seq<Link>, i: int, url: string) {
    && 0 <= i < |links| && Accepted(links[i]) && FullUrl(links[i].href.value) == url
    && forall k :: 0 <= k < i && Accepted(links[k]) ==> FullUrl(links[k].href.value) != url
  }

  /** The entries come in the order of their first accepted links on the page. */
  lemma ChapterLinksOrdered(links: seq<Link>)
    ensures var r := ChapterLinks(links);
      forall a, b, i, j :: 0 <= a < b < |r| && FirstAccepted(links, i, r[a].url) && FirstAccepted(links, j, r[b].url) ==> i < j
  {
    var cands := Candidates(links);
    FirstByUrlOrdered(cands);
    var r := ChapterLinks(links);
    forall a, b, i, j | 0 <= a < b < |r| && FirstAccepted(links, i, r[a].url) && FirstAccepted(links, j, r[b].url)
      ensures i < j
    {
      FirstAcceptedCand(links, i, r[a].url);
      FirstAcceptedCand(links, j, r[b].url);
    }
  }

  /** The first accepted link with a URL is the first candidate with it. */
  lemma FirstAcceptedCand(links: seq<Link>, i: int, url: string)
    requires FirstAccepted(links, i, url)
    ensures FirstCand(Candidates(links), i, url)
  {
  }

  /** The listing has no repeated URL; it holds the URL of every kept link; each entry is the
      title and absolute URL of the first kept link with that URL; and the entries come in the
      order of those first links on the page. */
  lemma ChapterLinksSpec(links: seq<Link>)
    ensures DistinctUrls(ChapterLinks(links))
    ensures forall i :: 0 <= i < |links| && Accepted(links[i]) ==> FullUrl(links[i].href.value) in Urls(ChapterLinks(links))
    ensures forall c :: c in ChapterLinks(links) ==>
      exists i :: 0 <= i < |links| && Accepted(links[i]) && c == LinkChapter(TitleOf(links[i].text), FullUrl(links[i].href.value))
        && forall k :: 0 <= k < i && Accepted(links[k]) ==> FullUrl(links[k].href.value) != c.url
    ensures var r := ChapterLinks(links);
      forall a, b, i, j :: 0 <= a < b < |r| && FirstAccepted(links, i, r[a].url) && FirstAccepted(links, j, r[b].url) ==> i < j
  {
    var cands := Candidates(links);
    FirstByUrlDistinct(cands);
    FirstByUrlComplete(cands);
    ChapterLinksOrdered(links);
    forall c | c in ChapterLinks(links)
      ensures exists i :: 0 <= i < |links| && Accepted(links[i]) && c == LinkChapter(TitleOf(links[i].text), FullUrl(links[i].href.value))
                && forall k :: 0 <= k < i && Accepted(links[k]) ==> FullUrl(links[k].href.value) != c.url
    {
      var i :| 0 <= i < |cands| && cands[i] == Some(c) && forall k :: 0 <= k < i && cands[k].Some? ==> cands[k].value.url != c.url;
      assert Accepted(links[i]);
    }
  }
}
