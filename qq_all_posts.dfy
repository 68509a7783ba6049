/**
 * The "all posts" variant of the Questionable Questing adapter: every post the story's author
 * wrote in the thread becomes a chapter, and threadmarks only mark where a new section starts.
 * The walk over the posts keeps a cursor (section title and number, part counter, running
 * index) and can resume from the last chapter already stored.
 *
 * Fetching pages, following the next-page link, parsing posts and reading the threadmark list
 * are inputs: the threadmarks as (title, url) in list order, and the posts as the crawl meets
 * them, page after page, from the page it starts on.
 */
module QqAllPosts {
  import opened Wrappers
  import opened Text
  import opened ForumThreads

  /** An entry of the threadmark list. */
  datatype Threadmark = Threadmark(title: string, url: string)

  /** A post on a thread page: its `data-content` attribute, its author's name when the page
      shows one, and its timestamp. */
  datatype Post = Post(dataContent: string, author: Option<string>, date: Option<int>)

  /** The last stored chapter handed in to resume from (a non-empty dictionary). Keys that are
      missing or falsy read as `None`, "" or 0, which the walk treats alike. */
  datatype LastChapter = LastChapter(url: Option<string>, title: string, volumeTitle: Option<string>,
                                     volumeNumber: int, index: int)

  /** A chapter entry of the listing. */
  datatype Item = Item(title: string, url: string, date: Option<int>, volumeTitle: string,
                       volumeNumber: int, index: int)

  /** The walk's state: the current section's title and number, the part counter, the running
      index, and whether the sync point has been passed. */
  datatype Cursor = Cursor(volTitle: string, volNumber: int, part: int, index: int, synced: bool)

  const BaseUrl: string := "https://forum.questionablequesting.com"

  // ---------------------------------------------------------------------------------------
  // Threadmarks
  // ---------------------------------------------------------------------------------------

  /** The post id a threadmark's URL names, or "". */
  function MarkId(t: Threadmark): string
  {
    ExtractPostId(t.url)
  }

  /** The threadmark list as (post id, title) pairs. */
  function Marks(tms: seq<Threadmark>): (r: seq<(string, string)>)
    ensures |r| == |tms| && forall i :: 0 <= i < |tms| ==> r[i] == (MarkId(tms[i]), tms[i].title)
  {
    seq(|tms|, i requires 0 <= i < |tms| => (MarkId(tms[i]), tms[i].title))
  }

  /** The map built from (post id, title) pairs in order: a pair with an id sets that id to its
      title and 1-based position. */
  function MarkMap(ms: seq<(string, string)>): map<string, (string, int)>
    decreases |ms|
  {
    if ms == [] then map[]
    else
      var m := MarkMap(ms[..|ms| - 1]);
      var id := ms[|ms| - 1].0;
      if id != "" then m[id := (ms[|ms| - 1].1, |ms|)] else m
  }

  /** The threadmark map: each post id a threadmark URL names, to the threadmark's title and its
      1-based position; a later threadmark for the same post replaces an earlier one. */
  function ThreadmarkMap(tms: seq<Threadmark>): map<string, (string, int)>
  {
    MarkMap(Marks(tms))
  }

  /** An id is in the map exactly when some pair has it. */
  lemma {:induction false} MarkMapKeys(ms: seq<(string, string)>, k: string)
    ensures k in MarkMap(ms) <==> k != "" && exists i :: 0 <= i < |ms| && ms[i].0 == k
    decreases |ms|
  {
    if ms != [] {
      var init := ms[..|ms| - 1];
      MarkMapKeys(init, k);
      if k != "" && exists i :: 0 <= i < |ms| && ms[i].0 == k {
        var i :| 0 <= i < |ms| && ms[i].0 == k;
        if i < |ms| - 1 {
          assert init[i] == ms[i];
        }
      }
    }
  }

  /** An id maps to the title and position of the last pair that has it. */
  lemma {:induction false} MarkMapValue(ms: seq<(string, string)>, k: string, i: nat)
    requires i < |ms| && k != "" && ms[i].0 == k
    requires forall j :: i < j < |ms| ==> ms[j].0 != k
    ensures k in MarkMap(ms) && MarkMap(ms)[k] == (ms[i].1, i + 1)
    decreases |ms|
  {
    if i < |ms| - 1 {
      var init := ms[..|ms| - 1];
      assert init[i] == ms[i];
      assert forall j :: i < j < |init| ==> init[j] == ms[j];
      MarkMapValue(init, k, i);
    }
  }

  /** A post id is in the threadmark map exactly when some threadmark names it. */
  lemma ThreadmarkMapKeys(tms: seq<Threadmark>, k: string)
    ensures k in ThreadmarkMap(tms) <==> k != "" && exists i :: 0 <= i < |tms| && MarkId(tms[i]) == k
  {
    MarkMapKeys(Marks(tms), k);
    if k != "" && exists i :: 0 <= i < |tms| && MarkId(tms[i]) == k {
      var i :| 0 <= i < |tms| && MarkId(tms[i]) == k;
      assert Marks(tms)[i].0 == k;
    }
  }

  /** A post id maps to the title and position of the last threadmark that names it. */
  lemma ThreadmarkMapValue(tms: seq<Threadmark>, k: string, i: nat)
    requires i < |tms| && k != "" && MarkId(tms[i]) == k
    requires forall j :: i < j < |tms| ==> MarkId(tms[j]) != k
    ensures k in ThreadmarkMap(tms) && ThreadmarkMap(tms)[k] == (tms[i].title, i + 1)
  {
    MarkMapValue(Marks(tms), k, i);
  }

  /** Building the threadmark map from the list, in list order. */
  method BuildThreadmarkMap(tms: seq<Threadmark>) returns (m: map<string, (string, int)>)
    ensures m == ThreadmarkMap(tms)
  {
    m := map[];
    var i := 0;
    while i < |tms|
      invariant 0 <= i <= |tms|
      invariant m == MarkMap(Marks(tms)[..i])
    {
      assert Marks(tms)[..i + 1][..i] == Marks(tms)[..i];
      var id := MarkId(tms[i]);
      if id != "" {
        m := m[id := (tms[i].title, i + 1)];
      }
      i := i + 1;
    }
    assert Marks(tms)[..|tms|] == Marks(tms);
  }

  // ---------------------------------------------------------------------------------------
  // Posts
  // ---------------------------------------------------------------------------------------

  /** `s.replace(pat, "")`: every occurrence, leftmost first, removed. */
  function RemoveAll(s: string, pat: string): (r: string)
    requires pat != []
    ensures |r| <= |s|
    decreases |s|
  {
    if |s| < |pat| then s
    else if s[..|pat|] == pat then RemoveAll(s[|pat|..], pat)
    else [s[0]] + RemoveAll(s[1..], pat)
  }

  /** Text that does not contain the pattern comes back unchanged. */
  lemma {:induction false} RemoveAllAbsent(s: string, pat: string)
    requires pat != [] && forall k :: 0 <= k <= |s| ==> !OccursAt(s, pat, k)
    ensures RemoveAll(s, pat) == s
    decreases |s|
  {
    if |s| >= |pat| {
      assert !OccursAt(s, pat, 0);
      forall k | 0 <= k <= |s[1..]|
        ensures !OccursAt(s[1..], pat, k)
      {
        assert !OccursAt(s, pat, k + 1);
        if k + |pat| <= |s[1..]| {
          assert s[1..][k..k + |pat|] == s[k + 1..k + 1 + |pat|];
        }
      }
      RemoveAllAbsent(s[1..], pat);
    }
  }

  /** The post id of a post: its `data-content` with "post-" removed. */
  function PostId(p: Post): string
  {
    RemoveAll(p.dataContent, "post-")
  }

  /** The usual `data-content`, "post-" and digits, gives those digits. */
  lemma PostIdOfDigits(digits: string, author: Option<string>, date: Option<int>)
    requires AllDigits(digits)
    ensures PostId(Post("post-" + digits, author, date)) == digits
  {
    var s := "post-" + digits;
    assert s[..5] == "post-" && s[5..] == digits;
    forall k | 0 <= k <= |digits|
      ensures !OccursAt(digits, "post-", k)
    {
      if k + 5 <= |digits| {
        assert digits[k..k + 5][0] == digits[k];
      }
    }
    RemoveAllAbsent(digits, "post-");
  }

  /** The permalink of a post, `urljoin(BASE_URL, "posts/{id}/")`. */
  function PostUrl(id: string): string
  {
    BaseUrl + "/posts/" + id + "/"
  }

  /** A post that becomes a chapter: it has an id and the story's author wrote it. */
  predicate Eligible(p: Post, authorName: string)
  {
    PostId(p) != "" && p.author == Some(authorName)
  }

  /** The number of eligible posts. */
  function EligibleCount(posts: seq<Post>, authorName: string): nat
    decreases |posts|
  {
    if posts == [] then 0
    else EligibleCount(posts[..|posts| - 1], authorName) + (if Eligible(posts[|posts| - 1], authorName) then 1 else 0)
  }

  // ---------------------------------------------------------------------------------------
  // The cursor
  // ---------------------------------------------------------------------------------------

  /** The part number `re.search(rf"{vol} - Part (\d+)", title)` finds, if any. */
  function PartIn(title: string, vol: string): Option<int>
  {
    match TaggedDigits(title, vol + " - Part ")
    case None => None
    case Some(d) => Some(DigitsValue(d))
  }

  /** A title written as the walk writes part titles yields its part number back. */
  lemma PartInOfPartTitle(vol: string, n: nat)
    ensures PartIn(vol + " - Part " + NatToString(n), vol) == Some(n)
  {
    TaggedDigitsAtStart(vol + " - Part ", NatToString(n));
    NatToStringValue(n);
  }

  /** Digits right after the tag at the start of the text are the digits the search finds. */
  lemma TaggedDigitsAtStart(tag: string, digits: string)
    requires |digits| >= 1 && AllDigits(digits)
    ensures TaggedDigits(tag + digits, tag) == Some(digits)
  {
    var s := tag + digits;
    assert s[..|tag|] == tag;
    assert s[|tag|] == digits[0];
    assert TagDigitAt(s, tag, 0);
    assert forall k :: |tag| <= k < |s| ==> s[k] == digits[k - |tag|];
    DigitRunToEnd(s, |tag|);
    assert s[|tag|..|s|] == digits;
  }

  /** A run of digits up to the end of the text is taken whole. */
  lemma {:induction false} DigitRunToEnd(s: string, i: nat)
    requires i <= |s| && forall k :: i <= k < |s| ==> IsDigit(s[k])
    ensures DigitRunEnd(s, i) == |s|
    decreases |s| - i
  {
    if i < |s| {
      DigitRunToEnd(s, i + 1);
    }
  }

  /** The cursor the walk starts with. When the last chapter's URL led to a numbered page
      (`resumePage`), the section and part are read from the last chapter. The index starts at
      the last chapter's index when it has one, and the walk then waits for the sync point. */
  function StartCursor(lc: Option<LastChapter>, resumePage: bool): (c: Cursor)
    ensures lc.None? ==> c == Cursor("Prologue", 1, 0, 0, true)
    ensures c.synced <==> lc.None? || lc.value.index == 0
  {
    var base := Cursor("Prologue", 1, 0, 0, true);
    var c := if lc.Some? && Truthy(lc.value.url) && resumePage then
      var vol := if Truthy(lc.value.volumeTitle) then lc.value.volumeTitle.value else base.volTitle;
      var num := if lc.value.volumeNumber != 0 then lc.value.volumeNumber else base.volNumber;
      var part := match PartIn(lc.value.title, vol)
        case Some(n) => n
        case None => if lc.value.title == vol then 1 else base.part;
      Cursor(vol, num, part, 0, true)
    else base;
    if lc.Some? && lc.value.index != 0 then c.(index := lc.value.index, synced := false) else c
  }

  /** The cursor on meeting the sync post: section, number and index from the last chapter, and
      the part counter set so that the post regenerates the last chapter's part. */
  function SyncCursor(c: Cursor, lc: LastChapter): Cursor
  {
    var vol := if Truthy(lc.volumeTitle) then lc.volumeTitle.value else c.volTitle;
    var num := if lc.volumeNumber != 0 then lc.volumeNumber else c.volNumber;
    var index := if lc.index != 0 then lc.index else c.index;
    var part := if lc.title == vol then 1
                else match PartIn(lc.title, vol)
                  case Some(n) => n - 1
                  case None => c.part;
    Cursor(vol, num, part, index, true)
  }

  /** One post of the walk: the cursor afterwards and the chapter it yields, if any. A post
      without an id or by someone else, or one before the sync point, yields nothing and leaves
      the cursor alone. A threadmark post opens its section as part 1 and is titled by the
      threadmark; any other post is the next part of the current section. */
  function Step(m: map<string, (string, int)>, authorName: string, lc: Option<LastChapter>, c: Cursor, p: Post)
    : (r: (Cursor, Option<Item>))
    ensures r.1.None? ==> r.0 == c
    ensures r.1.Some? <==> Eligible(p, authorName) && (c.synced || (lc.Some? && lc.value.url == Some(PostUrl(PostId(p)))))
    ensures r.1.Some? ==> r.0.synced && r.1.value.url == PostUrl(PostId(p)) && r.1.value.date == p.date
                          && r.1.value.index == r.0.index && r.1.value.volumeTitle == r.0.volTitle
                          && r.1.value.volumeNumber == r.0.volNumber
    ensures r.1.Some? && c.synced ==> r.0.index == c.index + 1
    ensures r.1.Some? && PostId(p) in m ==>
      r.1.value.title == m[PostId(p)].0 && r.0.volTitle == m[PostId(p)].0 && r.0.volNumber == m[PostId(p)].1 && r.0.part == 1
    ensures r.1.Some? && PostId(p) !in m ==> r.1.value.title == r.0.volTitle + " - Part " + IntToString(r.0.part)
    ensures r.1.Some? && !c.synced ==> r.0.index == SyncCursor(c, lc.value).index
    ensures r.1.Some? && PostId(p) !in m ==> var c1 := if c.synced then c else SyncCursor(c, lc.value);
      r.0.volTitle == c1.volTitle && r.0.volNumber == c1.volNumber && r.0.part == (if c1.part == 0 then 1 else c1.part + 1)
  {
    var id := PostId(p);
    if id == "" || p.author != Some(authorName) then (c, None)
    else
      var url := PostUrl(id);
      var c1 :=
        if c.synced then c.(index := c.index + 1)
        else if lc.Some? && lc.value.url == Some(url) then SyncCursor(c, lc.value)
        else c;
      if !c1.synced then (c, None)
      else if id in m then
        var c2 := c1.(volTitle := m[id].0, volNumber := m[id].1, part := 1);
        (c2, Some(Item(m[id].0, url, p.date, c2.volTitle, c2.volNumber, c2.index)))
      else
        var c2 := c1.(part := if c1.part == 0 then 1 else c1.part + 1);
        (c2, Some(Item(c2.volTitle + " - Part " + IntToString(c2.part), url, p.date, c2.volTitle, c2.volNumber, c2.index)))
  }

  /** The walk over `posts` from cursor `c`: the final cursor and the chapters, in order. */
  function Walk(m: map<string, (string, int)>, authorName: string, lc: Option<LastChapter>, c: Cursor, posts: seq<Post>)
    : (r: (Cursor, seq<Item>))
    ensures |r.1| <= |posts|
    decreases |posts|
  {
    if posts == [] then (c, [])
    else
      var prev := Walk(m, authorName, lc, c, posts[..|posts| - 1]);
      var s := Step(m, authorName, lc, prev.0, posts[|posts| - 1]);
      (s.0, prev.1 + (if s.1.Some? then [s.1.value] else []))
  }

  /** The numbering loop of `get_chapter_list` for the "all posts" variant. */
  function ChapterList(tms: seq<Threadmark>, authorName: string, lc: Option<LastChapter>, resumePage: bool,
                       posts: seq<Post>): (r: seq<Item>)
    ensures |r| <= |posts|
    ensures forall it :: it in r ==> FromEligiblePost(it, posts, authorName)
  {
    ItemsFromAuthorPosts(ThreadmarkMap(tms), authorName, lc, StartCursor(lc, resumePage), posts);
    Walk(ThreadmarkMap(tms), authorName, lc, StartCursor(lc, resumePage), posts).1
  }

  /** The body of the post loop of `get_chapter_list`: one post, the cursor updated in turn. */
  method Visit(m: map<string, (string, int)>, authorName: string, lc: Option<LastChapter>, c0: Cursor, p: Post)
    returns (c: Cursor, item: Option<Item>)
    ensures (c, item) == Step(m, authorName, lc, c0, p)
  {
    c := c0;
    item := None;
    var id := PostId(p);
    if id == "" || p.author != Some(authorName) {
      return;
    }
    var url := PostUrl(id);
    var isSync := false;
    if !c.synced {
      if lc.Some? && lc.value.url == Some(url) {
        isSync := true;
      } else {
        return;
      }
    } else {
      c := c.(index := c.index + 1);
    }
    if isSync {
      c := SyncCursor(c, lc.value);
    }
    var title;
    if id in m {
      c := c.(volTitle := m[id].0, volNumber := m[id].1, part := 1);
      title := m[id].0;
    } else {
      c := c.(part := if c.part == 0 then 1 else c.part + 1);
      title := c.volTitle + " - Part " + IntToString(c.part);
    }
    item := Some(Item(title, url, p.date, c.volTitle, c.volNumber, c.index));
  }

  /** The walk over one more post is one more step. */
  lemma WalkSnoc(m: map<string, (string, int)>, authorName: string, lc: Option<LastChapter>, c: Cursor,
                 posts: seq<Post>, i: nat)
    requires i < |posts|
    ensures var prev := Walk(m, authorName, lc, c, posts[..i]);
      var st := Step(m, authorName, lc, prev.0, posts[i]);
      Walk(m, authorName, lc, c, posts[..i + 1]) == (st.0, prev.1 + (if st.1.Some? then [st.1.value] else []))
  {
    assert posts[..i + 1][..i] == posts[..i];
  }

  /** The numbering loop of `get_chapter_list`: builds the threadmark map, then walks the posts. */
  method GetChapterList(tms: seq<Threadmark>, authorName: string, lc: Option<LastChapter>, resumePage: bool,
                        posts: seq<Post>) returns (items: seq<Item>)
    ensures items == ChapterList(tms, authorName, lc, resumePage, posts)
  {
    var m := BuildThreadmarkMap(tms);
    var c := StartCursor(lc, resumePage);
    items := [];
    var i := 0;
    ghost var c0 := c;
    while i < |posts|
      invariant 0 <= i <= |posts|
      invariant c == Walk(m, authorName, lc, c0, posts[..i]).0
      invariant items == Walk(m, authorName, lc, c0, posts[..i]).1
    {
      WalkSnoc(m, authorName, lc, c0, posts, i);
      var item;
      c, item := Visit(m, authorName, lc, c, posts[i]);
      if item.Some? {
        items := items + [item.value];
      }
      i := i + 1;
    }
    assert posts[..|posts|] == posts;
  }

  // ---------------------------------------------------------------------------------------
  // What the walk promises
  // ---------------------------------------------------------------------------------------

  /** `it` is the permalink of an eligible post among `posts`. */
  predicate FromEligiblePost(it: Item, posts: seq<Post>, authorName: string)
  {
    exists j :: 0 <= j < |posts| && Eligible(posts[j], authorName) && it.url == PostUrl(PostId(posts[j]))
  }

  /** Every chapter is the permalink of an eligible post: posts without an id or by another
      author never yield one. */
  lemma {:induction false} ItemsFromAuthorPosts(m: map<string, (string, int)>, authorName: string,
                                                lc: Option<LastChapter>, c: Cursor, posts: seq<Post>)
    ensures forall it :: it in Walk(m, authorName, lc, c, posts).1 ==> FromEligiblePost(it, posts, authorName)
    decreases |posts|
  {
    if posts != [] {
      var init := posts[..|posts| - 1];
      var last := |posts| - 1;
      ItemsFromAuthorPosts(m, authorName, lc, c, init);
      var prev := Walk(m, authorName, lc, c, init);
      var st := Step(m, authorName, lc, prev.0, posts[last]);
      var items := Walk(m, authorName, lc, c, posts).1;
      assert items == prev.1 + (if st.1.Some? then [st.1.value] else []);
      forall it | it in items
        ensures FromEligiblePost(it, posts, authorName)
      {
        if it in prev.1 {
          var j :| 0 <= j < |init| && Eligible(init[j], authorName) && it.url == PostUrl(PostId(init[j]));
          assert init[j] == posts[j];
        } else {
          assert it == st.1.value;
          assert Eligible(posts[last], authorName) && it.url == PostUrl(PostId(posts[last]));
        }
      }
    }
  }

  /** Without a last chapter every eligible post yields a chapter, and the indices run 1, 2, 3, …
      in the order of the posts. */
  lemma {:induction false} FreshIndices(m: map<string, (string, int)>, authorName: string, c: Cursor, posts: seq<Post>)
    requires c.synced
    ensures var r := Walk(m, authorName, None, c, posts);
      |r.1| == EligibleCount(posts, authorName) && r.0.synced && r.0.index == c.index + |r.1|
      && forall i :: 0 <= i < |r.1| ==> r.1[i].index == c.index + i + 1
    decreases |posts|
  {
    if posts != [] {
      FreshIndices(m, authorName, c, posts[..|posts| - 1]);
    }
  }

  /** `get_chapter_list` without a last chapter numbers the author's posts 1, 2, 3, …. */
  lemma FreshListNumbered(tms: seq<Threadmark>, authorName: string, resumePage: bool, posts: seq<Post>)
    ensures var items := ChapterList(tms, authorName, None, resumePage, posts);
      |items| == EligibleCount(posts, authorName) && forall i :: 0 <= i < |items| ==> items[i].index == i + 1
  {
    FreshIndices(ThreadmarkMap(tms), authorName, StartCursor(None, resumePage), posts);
  }

  /** With a last chapter that has an index, nothing is listed before its post; the first chapter
      listed is that post, with the stored index, and later chapters follow on from it. */
  lemma {:induction false} ResumeIndices(m: map<string, (string, int)>, authorName: string, lc: LastChapter,
                                         c: Cursor, posts: seq<Post>)
    requires lc.index != 0 && !c.synced
    ensures var r := Walk(m, authorName, Some(lc), c, posts);
      (!r.0.synced ==> r.1 == [] && r.0 == c)
      && (r.0.synced ==> r.1 != [] && Some(r.1[0].url) == lc.url && r.0.index == lc.index + |r.1| - 1
                         && forall i :: 0 <= i < |r.1| ==> r.1[i].index == lc.index + i)
    decreases |posts|
  {
    if posts != [] {
      ResumeIndices(m, authorName, lc, c, posts[..|posts| - 1]);
    }
  }

  /** `get_chapter_list` resuming from a last chapter with an index starts at that chapter's post,
      keeps its index, and numbers on from there. */
  lemma ResumedListNumbered(tms: seq<Threadmark>, authorName: string, lc: LastChapter, resumePage: bool, posts: seq<Post>)
    requires lc.index != 0
    ensures var items := ChapterList(tms, authorName, Some(lc), resumePage, posts);
      items != [] ==> Some(items[0].url) == lc.url && forall i :: 0 <= i < |items| ==> items[i].index == lc.index + i
  {
    ResumeIndices(ThreadmarkMap(tms), authorName, lc, StartCursor(Some(lc), resumePage), posts);
  }

  /** Resuming on a post that is not a threadmark, with a stored part title "{vol} - Part N",
      gives that post the same title again. */
  lemma SyncPostKeepsTitle(m: map<string, (string, int)>, authorName: string, lc: LastChapter, c: Cursor, p: Post, n: nat)
    requires !c.synced && Eligible(p, authorName) && PostId(p) !in m
    requires lc.url == Some(PostUrl(PostId(p)))
    requires Truthy(lc.volumeTitle) && lc.title == lc.volumeTitle.value + " - Part " + NatToString(n)
    ensures var r := Step(m, authorName, Some(lc), c, p);
      r.1.Some? && r.1.value.title == lc.title && r.1.value.volumeTitle == lc.volumeTitle.value
  {
    var vol := lc.volumeTitle.value;
    PartInOfPartTitle(vol, n);
    assert lc.title != vol by {
      assert |lc.title| > |vol|;
    }
  }
}
