/**
 * The Archive of Our Own adapter: which URLs it claims, the publication status read from a
 * work page, the chapter listing built from the navigation page, and the cookie settings
 * taken from the stored configuration.
 */
module Ao3 {
  import opened Wrappers
  import opened Text

  const BaseUrl := "https://archiveofourown.org"
  const Unknown := "Unknown"
  const Ongoing := "Ongoing"
  const Completed := "Completed"
  /** The title `get_metadata` reports for a page without a title heading. Its dict always has a
      'title' key, so the "Chapter 1" default `get_chapter_list` reads it with never applies. */
  const UnknownTitle := "Unknown Title"

  /** `AO3Source.identify`. */
  predicate Identify(url: string) { Contains(url, "archiveofourown.org") }

  /** The part of a chapter count "X/Y" before the first '/'. */
  function CountBefore(t: string): string { t[..IndexOf(t, '/')] }

  /** The part of a chapter count "X/Y" after the first '/' (`split('/', 1)`). */
  function CountAfter(t: string): string
    requires '/' in t
  {
    t[IndexOf(t, '/') + 1..]
  }

  /** The status the chapter count alone gives: `chaptersText` is the text of the `dd.chapters`
      field when the page has one. */
  function StatusFromCount(chaptersText: Option<string>): string
  {
    match chaptersText
    case None => Unknown
    case Some(t) =>
      if '/' !in t then Unknown
      else if CountAfter(t) == "?" then Ongoing
      else if CountBefore(t) == CountAfter(t) then Completed
      else Ongoing
  }

  /** The `publication_status` of `get_metadata`: `statusText` is the text of the `dt.status`
      element when the page has one. */
  function PublicationStatus(chaptersText: Option<string>, statusText: Option<string>): (r: string)
    ensures r in {Unknown, Ongoing, Completed}
    ensures statusText.Some? && Contains(statusText.value, "Completed") ==> r == Completed
    ensures r == Unknown <==> (chaptersText.None? || '/' !in chaptersText.value)
                              && !(statusText.Some? && Contains(statusText.value, "Completed"))
  {
    if statusText.Some? && Contains(statusText.value, "Completed") then Completed
    else StatusFromCount(chaptersText)
  }

  /** A count "x/x" means the work is complete, "x/?" that it is ongoing, and "x/y" with
      different parts that it is ongoing, whatever `x` and `y` are (without '/'). */
  lemma CountStatus(x: string, y: string)
    requires '/' !in x
    ensures PublicationStatus(Some(x + "/" + y), None) ==
      (if y == "?" then Ongoing else if x == y then Completed else Ongoing)
  {
    var t := x + "/" + y;
    assert t[|x|] == '/';
    assert t[..|x|] == x;
    assert IndexOf(t, '/') == |x|;
    assert CountBefore(t) == x;
    assert CountAfter(t) == y;
  }

  /** `re.search(r'/works/(\d+)', url).group(1)`. */
  function WorkId(url: string): (r: Option<string>)
    ensures r.Some? <==> exists k :: 0 <= k <= |url| && TagDigitAt(url, "/works/", k)
    ensures r.Some? ==> |r.value| >= 1 && AllDigits(r.value) && Contains(url, "/works/" + r.value)
  {
    TaggedDigits(url, "/works/")
  }

  /** No "/w" inside the site root. */
  lemma NoWorksTagInBase()
    ensures forall j :: 0 <= j < |BaseUrl| - 1 ==> !(BaseUrl[j] == '/' && BaseUrl[j + 1] == 'w')
  {
  }

  /** Inside the site root of a URL under it, "/works/" does not start. */
  lemma NoTagBeforeWorks(s: string)
    requires StartsWith(s, BaseUrl + "/")
    ensures forall j :: 0 <= j < |BaseUrl| ==> !TagDigitAt(s, "/works/", j)
  {
    NoWorksTagInBase();
    var b := |BaseUrl|;
    assert b == 27 && BaseUrl[b - 1] == 'g';
    forall j | 0 <= j < b
      ensures !TagDigitAt(s, "/works/", j)
    {
      assert s[j] == (BaseUrl + "/")[j] == BaseUrl[j];
      if j + 1 < b {
        assert s[j + 1] == BaseUrl[j + 1];
      }
    }
  }

  /** The work id of a work page's URL (or of a URL under it, such as its navigation page) is
      the id it was built from. */
  lemma WorkIdOfWorkPage(id: string, rest: string)
    requires |id| >= 1 && AllDigits(id) && (rest == [] || !IsDigit(rest[0]))
    ensures WorkId(BaseUrl + "/works/" + id + rest) == Some(id)
  {
    var tag := "/works/";
    var s := BaseUrl + tag + id + rest;
    var b := |BaseUrl|;
    var e := b + |tag| + |id|;
    assert b == 27 && BaseUrl[b - 1] == 'g';
    assert s[b..b + |tag|] == tag;
    assert s[b + |tag|] == id[0];
    assert TagDigitAt(s, tag, b);
    assert s[..b + 1] == BaseUrl + "/";
    NoTagBeforeWorks(s);
    var f := FirstTagDigit(s, tag, 0);
    assert f == Some(b);
    forall k | b + |tag| <= k < e
      ensures IsDigit(s[k])
    {
      assert s[k] == id[k - b - |tag|];
    }
    if e < |s| {
      assert s[e] == rest[0];
    }
    DigitsUpTo(s, b + |tag|, e);
    assert s[b + |tag|..e] == id;
  }


  /** `urljoin(BASE_URL, href)` for the href shapes a navigation page uses: absolute http(s) ones
      are kept, scheme-relative ones take https, root-relative and plain relative ones hang off
      the site root. */
  function JoinToBase(href: string): (u: string)
    ensures StartsWith(href, "http://") || StartsWith(href, "https://") ==> u == href
    ensures StartsWith(href, "/") && !StartsWith(href, "//") ==> u == BaseUrl + href
  {
    assert StartsWith(href, "http://") ==> href[0] == "http://"[0];
    assert StartsWith(href, "https://") ==> href[0] == "https://"[0];
    if StartsWith(href, "http://") || StartsWith(href, "https://") then href
    else if StartsWith(href, "//") then "https:" + href
    else if StartsWith(href, "/") then BaseUrl + href
    else BaseUrl + "/" + href
  }

  /** A chapter anchor found in one `li` of the navigation list. */
  datatype NavLink = NavLink(title: string, href: string)

  /** One `li` of `ol.chapter.index`; it may hold no anchor with an href. */
  datatype NavEntry = NavEntry(link: Option<NavLink>)

  /** One entry of the chapter listing. */
  datatype ListedChapter = ListedChapter(title: string, url: string)

  /** The chapters named by the navigation entries, in order. */
  function NavChapters(entries: seq<NavEntry>): (r: seq<ListedChapter>)
    ensures |r| <= |entries|
    decreases |entries|
  {
    if entries == [] then []
    else
      var prev := NavChapters(entries[..|entries| - 1]);
      match entries[|entries| - 1].link
      case None => prev
      case Some(l) => prev + [ListedChapter(l.title, JoinToBase(l.href))]
  }

  /** Each anchored entry gives exactly one chapter: the number of chapters is the number of anchors. */
  lemma {:induction false} NavChaptersCount(entries: seq<NavEntry>)
    ensures |NavChapters(entries)| == |set i | 0 <= i < |entries| && entries[i].link.Some?|
    decreases |entries|
  {
    if entries != [] {
      var n := |entries| - 1;
      NavChaptersCount(entries[..n]);
      var before := set i | 0 <= i < n && entries[..n][i].link.Some?;
      var all := set i | 0 <= i < |entries| && entries[i].link.Some?;
      assert before == set i | 0 <= i < n && entries[i].link.Some?;
      if entries[n].link.Some? {
        assert all == before + {n};
      } else {
        assert all == before;
      }
    }
  }

  function NavigateUrl(workId: string): string { BaseUrl + "/works/" + workId + "/navigate" }
  function WorkUrl(workId: string): string { BaseUrl + "/works/" + workId }

  /** The adapter claims the navigation and work pages it builds, and reads back from them the
      work id they were built from. */
  lemma BuiltUrlsRoundTrip(id: string)
    requires |id| >= 1 && AllDigits(id)
    ensures Identify(NavigateUrl(id)) && WorkId(NavigateUrl(id)) == Some(id)
    ensures Identify(WorkUrl(id)) && WorkId(WorkUrl(id)) == Some(id)
  {
    SiteNamed(id, "/navigate");
    SiteNamed(id, "");
    WorkIdOfWorkPage(id, "/navigate");
    WorkIdOfWorkPage(id, "");
    assert WorkUrl(id) == BaseUrl + "/works/" + id + "";
  }

  /** Any URL under the site root names the site. */
  lemma SiteNamed(id: string, rest: string)
    ensures Identify(BaseUrl + "/works/" + id + rest)
  {
    var s := BaseUrl + "/works/" + id + rest;
    assert s[..|BaseUrl|] == BaseUrl;
    assert BaseUrl[8..8 + 19] == "archiveofourown.org";
    assert s[8..8 + 19] == BaseUrl[8..8 + 19];
    assert OccursAt(s, "archiveofourown.org", 8);
  }

  /** `get_chapter_list`: `navigate` stands for fetching and parsing the navigation page (it may
      raise), `workTitle` for `get_metadata` of the work page (its title heading, when the page has
      one; without one the metadata title is "Unknown Title"). */
  method GetChapterList(url: string, navigate: string -> Result<seq<NavEntry>>,
                        workTitle: string -> Result<Option<string>>)
      returns (r: Result<seq<ListedChapter>>)
    ensures WorkId(url).None? ==> r == Ok([])
    ensures WorkId(url).Some? ==>
      var id := WorkId(url).value;
      match navigate(NavigateUrl(id))
      case Err(e) => r == Err(e)
      case Ok(entries) =>
        if NavChapters(entries) != [] then r == Ok(NavChapters(entries))
        else match workTitle(WorkUrl(id))
          case Err(_) => r == Ok([])
          case Ok(t) => r == Ok([ListedChapter(if t.Some? then t.value else UnknownTitle, WorkUrl(id))])
  {
    var workId := WorkId(url);
    if workId.None? {
      return Ok([]);
    }
    var id := workId.value;
    var page := navigate(NavigateUrl(id));
    if page.Err? {
      return Err(page.message);
    }
    var entries := page.value;
    var chapters: seq<ListedChapter> := [];
    var i := 0;
    while i < |entries|
      invariant 0 <= i <= |entries|
      invariant chapters == NavChapters(entries[..i])
    {
      assert entries[..i + 1][..i] == entries[..i];
      var entry := entries[i];
      if entry.link.Some? {
        chapters := chapters + [ListedChapter(entry.link.value.title, JoinToBase(entry.link.value.href))];
      }
      i := i + 1;
    }
    assert entries[..|entries|] == entries;
    if chapters == [] {
      var meta := workTitle(WorkUrl(id));
      if meta.Ok? {
        var title := if meta.value.Some? then meta.value.value else UnknownTitle;
        chapters := [ListedChapter(title, WorkUrl(id))];
      }
    }
    return Ok(chapters);
  }

  /** The value stored under 'cookies' in the source's configuration. */
  datatype CookieSetting =
    | NoCookies                          // key missing, or None
    | CookieTable(table: map<string, string>)
    | CookieText(text: string)
    | OtherValue(truthy: bool)           // any other JSON value

  /** A '=' inside a string survives stripping the surrounding whitespace. */
  lemma StripKeeps(s: string, c: char)
    requires c in s && !IsSpace(c)
    ensures c in Strip(s)
  {
    var k :| 0 <= k < |s| && s[k] == c;
    StripKeepsAt(s, k);
  }

  /** The name of a "name=value" pair: the stripped pair up to its first '='. */
  function PairName(pair: string): string
    requires '=' in pair
  {
    var t := Strip(pair);
    t[..IndexOf(t, '=')]
  }

  /** The value of a "name=value" pair: the stripped pair after its first '='. */
  function PairValue(pair: string): string
    requires '=' in pair
  {
    StripKeeps(pair, '=');
    var t := Strip(pair);
    t[IndexOf(t, '=') + 1..]
  }

  /** The (name, value) a part gives, when it contains '='. */
  function PairOf(part: string): Option<(string, string)>
  {
    if '=' in part then Some((PairName(part), PairValue(part))) else None
  }

  function PairsOf(parts: seq<string>): (r: seq<Option<(string, string)>>)
    ensures |r| == |parts| && forall i :: 0 <= i < |parts| ==> r[i] == PairOf(parts[i])
    decreases |parts|
  {
    if parts == [] then [] else PairsOf(parts[..|parts| - 1]) + [PairOf(parts[|parts| - 1])]
  }

  /** The cookies the pairs give, read in order. */
  function CookiePairs(pairs: seq<Option<(string, string)>>): map<string, string>
    decreases |pairs|
  {
    if pairs == [] then map[]
    else
      var prev := CookiePairs(pairs[..|pairs| - 1]);
      match pairs[|pairs| - 1]
      case None => prev
      case Some(kv) => prev[kv.0 := kv.1]
  }

  /** The position of the last pair that names `name`, if any. */
  function LastPairFor(pairs: seq<Option<(string, string)>>, name: string): (r: Option<nat>)
    ensures r.Some? ==> r.value < |pairs| && pairs[r.value].Some? && pairs[r.value].value.0 == name
    ensures r.Some? ==> forall k :: r.value < k < |pairs| && pairs[k].Some? ==> pairs[k].value.0 != name
    ensures r.None? ==> forall k :: 0 <= k < |pairs| && pairs[k].Some? ==> pairs[k].value.0 != name
    decreases |pairs|
  {
    if pairs == [] then None
    else if pairs[|pairs| - 1].Some? && pairs[|pairs| - 1].value.0 == name then Some(|pairs| - 1)
    else LastPairFor(pairs[..|pairs| - 1], name)
  }

  /** A name is set exactly when some pair carries it, and it holds the value of the LAST such pair. */
  lemma {:induction false} CookiePairsLastWins(pairs: seq<Option<(string, string)>>, name: string)
    ensures name in CookiePairs(pairs) <==> LastPairFor(pairs, name).Some?
    ensures name in CookiePairs(pairs) ==> CookiePairs(pairs)[name] == pairs[LastPairFor(pairs, name).value].value.1
    decreases |pairs|
  {
    if pairs != [] {
      var n := |pairs| - 1;
      CookiePairsLastWins(pairs[..n], name);
      var l := LastPairFor(pairs[..n], name);
      if l.Some? {
        assert pairs[..n][l.value] == pairs[l.value];
      }
    }
  }

  /** Reading one more part sets its cookie, when it has '='. */
  lemma CookiePairsStep(parts: seq<string>, i: nat)
    requires i < |parts|
    ensures CookiePairs(PairsOf(parts[..i + 1]))
         == if '=' in parts[i] then CookiePairs(PairsOf(parts[..i]))[PairName(parts[i]) := PairValue(parts[i])]
            else CookiePairs(PairsOf(parts[..i]))
  {
    assert parts[..i + 1][..i] == parts[..i];
    assert PairsOf(parts[..i + 1])[..i] == PairsOf(parts[..i]);
  }

  /** The loop of `set_config` that reads a cookie text. */
  method ParseCookieText(text: string) returns (cookies: map<string, string>)
    ensures cookies == CookiePairs(PairsOf(Split(text, ';')))
  {
    var parts := Split(text, ';');
    cookies := map[];
    var i := 0;
    while i < |parts|
      invariant 0 <= i <= |parts|
      invariant cookies == CookiePairs(PairsOf(parts[..i]))
    {
      CookiePairsStep(parts, i);
      var pair := parts[i];
      if '=' in pair {
        cookies := cookies[PairName(pair) := PairValue(pair)];
      }
      i := i + 1;
    }
    assert parts[..|parts|] == parts;
  }

  /** `set_config`: the cookies handed to the requester, or None when `set_cookies` is not called.
      `configGiven` is the truthiness of the configuration dict itself. */
  method CookiesFromConfig(configGiven: bool, setting: CookieSetting) returns (r: Option<map<string, string>>)
    ensures !configGiven ==> r.None?
    ensures configGiven && setting.CookieTable? ==> r == (if setting.table == map[] then None else Some(setting.table))
    ensures configGiven && setting.CookieText? ==>
      r == (if setting.text == [] || CookiePairs(PairsOf(Split(setting.text, ';'))) == map[] then None
            else Some(CookiePairs(PairsOf(Split(setting.text, ';')))))
    ensures setting.NoCookies? || setting.OtherValue? ==> r.None?
  {
    if !configGiven {
      return None;
    }
    var cookies: map<string, string> := map[];
    match setting {
      case CookieTable(table) =>
        if table != map[] {
          cookies := table;
        }
      case CookieText(text) =>
        if text != [] {
          cookies := ParseCookieText(text);
        }
      case NoCookies =>
      case OtherValue(_) =>
    }
    if cookies != map[] {
      return Some(cookies);
    }
    return None;
  }
}
