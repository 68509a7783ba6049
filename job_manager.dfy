/**
 * The job manager's two scheduled jobs: the update check over the monitored stories and the
 * download queue, which takes the oldest pending chapter again and again until none is left.
 * Chapter content and file writes are inputs: `fetch` answers a chapter URL with its content or
 * the error raised, `write` answers a file path and content with success or the error raised.
 */
module JobManager {
  import opened Wrappers
  import opened Text
  import opened Store
  import opened ChapterDiff
  import opened Registry
  import opened StoryManager

  /** The characters of `s` that are letters, digits or spaces, in order. */
  function WordChars(s: string): (r: string)
    ensures |r| <= |s|
    ensures forall i :: 0 <= i < |r| ==> IsAlnum(r[i]) || r[i] == ' '
    ensures (forall i :: 0 <= i < |s| ==> IsAlnum(s[i]) || s[i] == ' ') ==> r == s
    decreases |s|
  {
    if s == [] then []
    else
      var c := s[|s| - 1];
      var rest := WordChars(s[..|s| - 1]);
      assert s == s[..|s| - 1] + [c];
      if IsAlnum(c) || c == ' ' then rest + [c] else rest
  }

  /** The kept characters of all but the last character, then the last one if it is kept. */
  lemma WordCharsUnfold(s: string)
    requires s != []
    ensures WordChars(s) == WordChars(s[..|s| - 1]) + (if IsAlnum(s[|s| - 1]) || s[|s| - 1] == ' ' then [s[|s| - 1]] else [])
  {
  }

  /** Letters, digits and spaces are kept and everything else dropped, in order: the kept
      characters of a concatenation are those of its parts. */
  lemma {:induction false} WordCharsAppend(a: string, b: string)
    ensures WordChars(a + b) == WordChars(a) + WordChars(b)
    decreases |b|
  {
    if b == [] {
      assert a + b == a;
    } else {
      var n := |b| - 1;
      var ab := a + b;
      assert ab[..|ab| - 1] == a + b[..n] && ab[|ab| - 1] == b[n];
      WordCharsAppend(a, b[..n]);
      WordCharsUnfold(ab);
      WordCharsUnfold(b);
      var tail := if IsAlnum(b[n]) || b[n] == ' ' then [b[n]] else [];
      AppendAssoc(WordChars(a), WordChars(b[..n]), tail);
    }
  }

  /** One character is kept exactly when it is a letter, a digit or a space. */
  lemma WordCharsOne(c: char)
    ensures WordChars([c]) == if IsAlnum(c) || c == ' ' then [c] else []
  {
    assert [c][..0] == [];
  }

  /** `s.replace(' ', '_')`. */
  function Underscored(s: string): (r: string)
    ensures |r| == |s|
    ensures forall i :: 0 <= i < |s| ==> r[i] == (if s[i] == ' ' then '_' else s[i])
  {
    seq(|s|, i requires 0 <= i < |s| => if s[i] == ' ' then '_' else s[i])
  }

  /** The safe form of a title used in download paths: letters, digits and spaces kept,
      trailing spaces dropped, the remaining spaces turned into underscores. */
  function SafeName(title: string): (r: string)
    ensures forall i :: 0 <= i < |r| ==> IsAlnum(r[i]) || r[i] == '_'
    ensures r == [] || r[|r| - 1] != '_'
    ensures (forall i :: 0 <= i < |title| ==> IsAlnum(title[i])) ==> r == title
    ensures r == Underscored(RStrip(WordChars(title)))
  {
    var kept := WordChars(title);
    var trimmed := RStrip(kept);
    assert forall i :: 0 <= i < |trimmed| ==> trimmed[i] == kept[i];
    Underscored(trimmed)
  }

  /** `os.path.join(a, b)` on a POSIX system. */
  function PathJoin(a: string, b: string): (p: string)
    ensures b != [] && b[0] == '/' ==> p == b
    ensures (b == [] || b[0] != '/') ==> StartsWith(p, a) && EndsWith(p, b)
    ensures (b == [] || b[0] != '/') && a != [] && a[|a| - 1] != '/' ==> p == a + "/" + b
  {
    if b != [] && b[0] == '/' then b
    else if a == [] || a[|a| - 1] == '/' then a + b
    else a + "/" + b
  }

  /** The file name of a downloaded chapter: `{chapter.id}_{safe title}.html`. */
  function ChapterFile(c: Chapter): (name: string)
    ensures EndsWith(name, ".html") && name != [] && name[0] != '/'
    ensures name == NatToString(c.id) + "_" + SafeName(c.title) + ".html"
  {
    var id := NatToString(c.id);
    assert IsDigit(id[0]);
    id + "_" + SafeName(c.title) + ".html"
  }

  /** The name of a story's download folder: `{story.id}_{safe title}`. */
  function DirName(s: Story): (d: string)
    ensures d != [] && d[0] != '/' && d[|d| - 1] != '/'
    ensures d == NatToString(s.id) + "_" + SafeName(s.title)
  {
    var id := NatToString(s.id);
    var safe := SafeName(s.title);
    assert IsDigit(id[0]);
    var d := id + "_" + safe;
    assert d[|d| - 1] == if safe == [] then '_' else safe[|safe| - 1];
    d
  }

  /** A suffix of a suffix is a suffix. */
  lemma EndsWithTrans(p: string, f: string, x: string)
    requires EndsWith(p, f) && EndsWith(f, x)
    ensures EndsWith(p, x)
  {
    assert p[|p| - |x|..] == p[|p| - |f|..][|f| - |x|..];
  }

  /** Where a chapter's content is written: the chapter file in the story folder under `base`. */
  function FilePath(base: string, s: Story, c: Chapter): (p: string)
    ensures EndsWith(p, ".html") && EndsWith(p, ChapterFile(c))
    ensures base != [] && base[|base| - 1] != '/' ==> p == base + "/" + DirName(s) + "/" + ChapterFile(c)
  {
    var dir := PathJoin(base, DirName(s));
    var f := ChapterFile(c);
    assert dir != [] && dir[|dir| - 1] != '/' by {
      assert dir[|dir| - |DirName(s)|..] == DirName(s);
    }
    var p := PathJoin(dir, f);
    EndsWithTrans(p, f, ".html");
    p
  }

  /** The number of pending chapters, whatever their story. */
  function QueueSize(chs: seq<Chapter>): (n: nat)
    ensures n <= |chs|
    ensures n == 0 <==> forall i :: 0 <= i < |chs| ==> chs[i].status != Pending
    decreases |chs|
  {
    if chs == [] then 0
    else
      var rest := chs[..|chs| - 1];
      assert forall i :: 0 <= i < |rest| ==> rest[i] == chs[i];
      QueueSize(rest) + if chs[|chs| - 1].status == Pending then 1 else 0
  }

  /** Settling one pending chapter shortens the queue by one. */
  lemma {:induction false} QueueSizeSettle(chs: seq<Chapter>, k: nat, c: Chapter)
    requires k < |chs| && chs[k].status == Pending && c.status != Pending
    ensures QueueSize(chs[k := c]) == QueueSize(chs) - 1
    decreases |chs|
  {
    var n := |chs| - 1;
    if k < n {
      QueueSizeSettle(chs[..n], k, c);
      assert chs[k := c][..n] == chs[..n][k := c];
    } else {
      assert chs[k := c][..n] == chs[..n];
    }
  }

  /** The position of the pending chapter with the smallest id (`order_by(Chapter.id.asc()).first()`). */
  function PickPending(chs: seq<Chapter>): (r: Option<nat>)
    ensures r.Some? ==> r.value < |chs| && chs[r.value].status == Pending
    ensures r.Some? ==> forall j :: 0 <= j < |chs| && chs[j].status == Pending ==> chs[r.value].id <= chs[j].id
    ensures r.None? <==> QueueSize(chs) == 0
    decreases |chs|
  {
    if chs == [] then None
    else
      var n := |chs| - 1;
      var rest := PickPending(chs[..n]);
      assert forall j :: 0 <= j < n ==> chs[..n][j] == chs[j];
      if chs[n].status != Pending then rest
      else if rest.Some? && chs[rest.value].id <= chs[n].id then rest
      else Some(n)
  }

  /** With ids ascending along the table, the pick is the first pending chapter. */
  lemma PickIsFirstPending(chs: seq<Chapter>, next: nat)
    requires ChapterIdsOrdered(chs, next) && PickPending(chs).Some?
    ensures forall j :: 0 <= j < PickPending(chs).value ==> chs[j].status != Pending
  {
    var k := PickPending(chs).value;
    forall j | 0 <= j < k
      ensures chs[j].status != Pending
    {
      assert chs[j].id < chs[k].id;
    }
  }

  /** How one download attempt ended: the file written, or the error raised. */
  datatype Outcome = Saved(path: string, filename: string) | Error(message: string)

  /** One attempt on chapter `c` of story `s`: the provider found by the story URL among those the
      job manager's story manager registers (the Royal Road adapter alone), the content fetched,
      the file written. A story from any other site fails at the provider lookup. */
  function Download(base: string, s: Story, c: Chapter,
                    fetch: string -> Result<string>, write: (string, string) -> Result<()>): (o: Outcome)
    ensures o.Saved? <==> (Contains(s.sourceUrl, "royalroad.com") && fetch(c.sourceUrl).Ok?
                           && write(FilePath(base, s, c), fetch(c.sourceUrl).value).Ok?)
    ensures o.Saved? ==> o.path == FilePath(base, s, c) && o.filename == ChapterFile(c)
    ensures !Contains(s.sourceUrl, "royalroad.com") ==> o == Error("No provider found for story URL: " + s.sourceUrl)
  {
    RoyalRoadOnlyIdentifies(s.sourceUrl);
    if ProviderForUrl(RoyalRoadOnly, s.sourceUrl).None? then Error("No provider found for story URL: " + s.sourceUrl)
    else match fetch(c.sourceUrl)
      case Err(m) => Error(m)
      case Ok(content) =>
        var path := FilePath(base, s, c);
        match write(path, content)
        case Err(m) => Error(m)
        case Ok(_) => Saved(path, ChapterFile(c))
  }

  /** The chapter row after an attempt: downloaded with its path, or failed and otherwise as it was. */
  function Settled(c: Chapter, o: Outcome): (r: Chapter)
    ensures r.status != Pending
    ensures r.id == c.id && r.storyId == c.storyId && r.sourceUrl == c.sourceUrl
    ensures o.Saved? ==> r == c.(localPath := Some(o.path), isDownloaded := true, status := Downloaded)
    ensures o.Error? ==> r == c.(status := Failed)
  {
    match o
    case Saved(path, _) => c.(localPath := Some(path), isDownloaded := true, status := Downloaded)
    case Error(_) => c.(status := Failed)
  }

  /** The history row an attempt appends. */
  function Logged(c: Chapter, sid: nat, o: Outcome): (h: HistoryRow)
    ensures h.chapterId == c.id && h.storyId == sid && h.status == Settled(c, o).status
    ensures o.Saved? ==> h.details == "Downloaded successfully to " + o.filename
    ensures o.Error? ==> h.details == o.message
  {
    match o
    case Saved(_, filename) => HistoryRow(c.id, sid, Downloaded, "Downloaded successfully to " + filename)
    case Error(m) => HistoryRow(c.id, sid, Failed, m)
  }

  /** One round of the queue loop: `None` when it stops (no pending chapter, or the picked
      chapter's story row is missing and the session is rolled back); otherwise the store with the
      picked chapter settled and one history row appended. */
  function DrainStep(db: Db, base: string,
                     fetch: string -> Result<string>, write: (string, string) -> Result<()>): (r: Option<Db>)
    ensures r.None? <==> PickPending(db.chapters).None?
                         || StoryPos(db.stories, db.chapters[PickPending(db.chapters).value].storyId).None?
    ensures r.Some? ==> QueueSize(r.value.chapters) == QueueSize(db.chapters) - 1
    ensures r.Some? ==> r.value.stories == db.stories && r.value.notices == db.notices
                        && r.value.nextStoryId == db.nextStoryId && r.value.nextChapterId == db.nextChapterId
    ensures r.Some? ==> var k := PickPending(db.chapters).value;
      var s := db.stories[StoryPos(db.stories, db.chapters[k].storyId).value];
      var o := Download(base, s, db.chapters[k], fetch, write);
      r.value.chapters == db.chapters[k := Settled(db.chapters[k], o)]
      && r.value.history == db.history + [Logged(db.chapters[k], s.id, o)]
  {
    match PickPending(db.chapters)
    case None => None
    case Some(k) =>
      var c := db.chapters[k];
      match StoryPos(db.stories, c.storyId)
      case None => None
      case Some(p) =>
        var s := db.stories[p];
        var o := Download(base, s, c, fetch, write);
        QueueSizeSettle(db.chapters, k, Settled(c, o));
        Some(db.(chapters := db.chapters[k := Settled(c, o)], history := db.history + [Logged(c, s.id, o)]))
  }

  /** `process_download_queue`: rounds until the loop stops. It always stops, because every
      round settles one pending chapter. */
  function Drain(db: Db, base: string,
                 fetch: string -> Result<string>, write: (string, string) -> Result<()>): (r: Db)
    ensures DrainStep(r, base, fetch, write).None?
    ensures QueueSize(r.chapters) == 0
            || StoryPos(r.stories, r.chapters[PickPending(r.chapters).value].storyId).None?
    decreases QueueSize(db.chapters)
  {
    match DrainStep(db, base, fetch, write)
    case None => db
    case Some(next) => Drain(next, base, fetch, write)
  }

  /** `b` follows from `a` by settling pending chapters only: no chapter that was not pending
      changes, ids never change, and one history row is appended per chapter settled. */
  ghost predicate Framed(a: Db, b: Db)
  {
    && b.stories == a.stories && b.notices == a.notices && |b.chapters| == |a.chapters|
    && (forall i :: 0 <= i < |a.chapters| ==> b.chapters[i].id == a.chapters[i].id && b.chapters[i].storyId == a.chapters[i].storyId)
    && (forall i :: 0 <= i < |a.chapters| && a.chapters[i].status != Pending ==> b.chapters[i] == a.chapters[i])
    && a.history <= b.history
    && |b.history| - |a.history| == QueueSize(a.chapters) - QueueSize(b.chapters)
  }

  /** One round of the queue loop keeps the frame. */
  lemma StepFramed(db: Db, base: string,
                   fetch: string -> Result<string>, write: (string, string) -> Result<()>)
    requires DrainStep(db, base, fetch, write).Some?
    ensures Framed(db, DrainStep(db, base, fetch, write).value)
  {
    var k := PickPending(db.chapters).value;
    var next := DrainStep(db, base, fetch, write).value;
    assert db.chapters[k].status == Pending;
    assert db.history <= next.history;
  }

  /** The frame composes. */
  lemma FramedTrans(a: Db, b: Db, c: Db)
    requires Framed(a, b) && Framed(b, c)
    ensures Framed(a, c)
  {
    assert a.history <= c.history;
  }

  /** Draining touches no chapter that was not pending, never changes ids, only appends history,
      and appends exactly one row per chapter it settles. */
  lemma {:induction false} DrainFrame(db: Db, base: string,
                                      fetch: string -> Result<string>, write: (string, string) -> Result<()>)
    ensures var r := Drain(db, base, fetch, write);
      r.stories == db.stories && r.notices == db.notices && |r.chapters| == |db.chapters|
      && (forall i :: 0 <= i < |db.chapters| ==> r.chapters[i].id == db.chapters[i].id && r.chapters[i].storyId == db.chapters[i].storyId)
      && (forall i :: 0 <= i < |db.chapters| && db.chapters[i].status != Pending ==> r.chapters[i] == db.chapters[i])
      && db.history <= r.history
      && |r.history| - |db.history| == QueueSize(db.chapters) - QueueSize(r.chapters)
    decreases QueueSize(db.chapters)
  {
    var r := Drain(db, base, fetch, write);
    match DrainStep(db, base, fetch, write)
    case None =>
      assert r == db;
    case Some(next) =>
      DrainFrame(next, base, fetch, write);
      assert r == Drain(next, base, fetch, write);
      StepFramed(db, base, fetch, write);
      FramedTrans(db, next, r);
  }

  /** A round that goes ahead settles the picked chapter and logs it, and changes nothing else. */
  lemma StepSettles(db: Db, base: string,
                    fetch: string -> Result<string>, write: (string, string) -> Result<()>)
    requires PickPending(db.chapters).Some?
    requires StoryPos(db.stories, db.chapters[PickPending(db.chapters).value].storyId).Some?
    ensures var k := PickPending(db.chapters).value;
      var c := db.chapters[k];
      var s := db.stories[StoryPos(db.stories, c.storyId).value];
      var o := Download(base, s, c, fetch, write);
      DrainStep(db, base, fetch, write)
        == Some(db.(chapters := db.chapters[k := Settled(c, o)], history := db.history + [Logged(c, s.id, o)]))
  {
  }

  /** A round that goes ahead leaves the rest of the drain to the store it produces. */
  lemma DrainUnfold(db: Db, next: Db, base: string,
                    fetch: string -> Result<string>, write: (string, string) -> Result<()>)
    requires DrainStep(db, base, fetch, write) == Some(next)
    ensures Drain(db, base, fetch, write) == Drain(next, base, fetch, write)
    ensures QueueSize(next.chapters) < QueueSize(db.chapters)
  {
  }

  /** `process_download_queue` on the session's store. */
  method ProcessDownloadQueue(lib: Library, base: string,
                              fetch: string -> Result<string>, write: (string, string) -> Result<()>)
    modifies lib
    ensures lib.State() == Drain(old(lib.State()), base, fetch, write)
  {
    while true
      invariant Drain(lib.State(), base, fetch, write) == Drain(old(lib.State()), base, fetch, write)
      decreases QueueSize(lib.chapters)
    {
      var pick := PickPending(lib.chapters);
      if pick.None? {
        break;
      }
      var k := pick.value;
      var c := lib.chapters[k];
      var pos := StoryPos(lib.stories, c.storyId);
      if pos.None? {
        break;
      }
      var s := lib.stories[pos.value];
      var o := Download(base, s, c, fetch, write);
      ghost var before := lib.State();
      lib.chapters := lib.chapters[k := Settled(c, o)];
      lib.history := lib.history + [Logged(c, s.id, o)];
      StepSettles(before, base, fetch, write);
      DrainUnfold(before, lib.State(), base, fetch, write);
    }
  }

  /** The ids of the monitored stories, in table order. */
  function MonitoredIds(sts: seq<Story>): (ids: seq<nat>)
    ensures forall id :: id in ids <==> exists i :: 0 <= i < |sts| && sts[i].id == id && sts[i].isMonitored
    decreases |sts|
  {
    if sts == [] then []
    else
      var s := sts[|sts| - 1];
      var rest := MonitoredIds(sts[..|sts| - 1]);
      assert forall i :: 0 <= i < |sts| - 1 ==> sts[..|sts| - 1][i] == sts[i];
      if s.isMonitored then rest + [s.id] else rest
  }

  /** The ids come story by story, in table order: one id for a monitored story, none for
      another, and the ids of a longer table extend those of its prefix. */
  lemma {:induction false} MonitoredIdsAppend(a: seq<Story>, b: seq<Story>)
    ensures MonitoredIds(a + b) == MonitoredIds(a) + MonitoredIds(b)
    ensures |b| == 1 ==> MonitoredIds(b) == if b[0].isMonitored then [b[0].id] else []
    decreases |b|
  {
    if b == [] {
      assert a + b == a;
    } else {
      var n := |b| - 1;
      assert (a + b)[..|a + b| - 1] == a + b[..n];
      MonitoredIdsAppend(a, b[..n]);
      if |b| == 1 {
        assert b[..n] == [];
      }
    }
  }

  /** `check_for_updates`: `check_story_updates` on each monitored story in turn; a story whose
      check raises is left as it was and the sweep goes on. */
  function CheckForUpdatesSpec(db: Db, providers: seq<Provider>, metaOf: nat -> Result<Metadata>,
                               listingOf: nat -> Result<seq<ListingItem>>, now: int): (r: Db)
    ensures r.history == db.history && r.nextStoryId == db.nextStoryId && |r.stories| == |db.stories|
    ensures db.notices <= r.notices
  {
    UpdateLibrarySpec(db, providers, MonitoredIds(db.stories), metaOf, listingOf, now)
  }

  /** A sweep over `ids` leaves every story whose id is not among them as it was. */
  lemma {:induction false} SweepLeavesOthers(db: Db, providers: seq<Provider>, ids: seq<nat>, metaOf: nat -> Result<Metadata>,
                                             listingOf: nat -> Result<seq<ListingItem>>, now: int)
    ensures forall i :: 0 <= i < |db.stories| && db.stories[i].id !in ids ==>
      UpdateLibrarySpec(db, providers, ids, metaOf, listingOf, now).stories[i] == db.stories[i]
    decreases |ids|
  {
    if ids != [] {
      var init := ids[..|ids| - 1];
      var id := ids[|ids| - 1];
      SweepLeavesOthers(db, providers, init, metaOf, listingOf, now);
      var prev := UpdateLibrarySpec(db, providers, init, metaOf, listingOf, now);
      forall i | 0 <= i < |db.stories| && db.stories[i].id !in ids
        ensures UpdateLibrarySpec(db, providers, ids, metaOf, listingOf, now).stories[i] == db.stories[i]
      {
        assert db.stories[i].id !in init by {
          assert forall x :: x in init ==> x in ids;
        }
        assert prev.stories[i].id != id;
      }
    }
  }

  /** The update check never touches a story that is not monitored. */
  lemma CheckForUpdatesSkipsUnmonitored(db: Db, providers: seq<Provider>, metaOf: nat -> Result<Metadata>,
                                        listingOf: nat -> Result<seq<ListingItem>>, now: int)
    requires Valid(db)
    ensures forall i :: 0 <= i < |db.stories| && !db.stories[i].isMonitored ==>
      CheckForUpdatesSpec(db, providers, metaOf, listingOf, now).stories[i] == db.stories[i]
  {
    var ids := MonitoredIds(db.stories);
    SweepLeavesOthers(db, providers, ids, metaOf, listingOf, now);
    forall i | 0 <= i < |db.stories| && !db.stories[i].isMonitored
      ensures db.stories[i].id !in ids
    {
      assert forall j :: 0 <= j < |db.stories| && db.stories[j].id == db.stories[i].id ==> j == i;
    }
  }

  /** The call `check_for_updates` makes for one story, as written: the manager it holds is the
      first story manager, which has no `check_story_updates`, so the call raises. */
  function CheckStoryAsWritten(db: Db, storyId: nat): (Db, Result<nat>)
  {
    (db, Err("'StoryManager' object has no attribute 'check_story_updates'"))
  }

  /** The sweep of `check_for_updates` as written: each call raises, is logged, and the sweep goes
      on with the store as the failed call found it: the sweep changes nothing at all, whatever
      the stories and their providers. */
  function SweepAsWritten(db: Db, ids: seq<nat>): (r: Db)
    ensures r == db
    decreases |ids|
  {
    if ids == [] then db
    else
      var prev := SweepAsWritten(db, ids[..|ids| - 1]);
      var outcome := CheckStoryAsWritten(prev, ids[|ids| - 1]);
      if outcome.1.Err? then prev else outcome.0
  }

  /** Whenever the intended sweep would record anything (a new chapter, a check time), the sweep
      as written misses it. */
  lemma SweepAsWrittenMissesUpdates(db: Db, providers: seq<Provider>, metaOf: nat -> Result<Metadata>,
                                    listingOf: nat -> Result<seq<ListingItem>>, now: int)
    requires CheckForUpdatesSpec(db, providers, metaOf, listingOf, now) != db
    ensures SweepAsWritten(db, MonitoredIds(db.stories)) != CheckForUpdatesSpec(db, providers, metaOf, listingOf, now)
  {
  }

  /** `check_for_updates` on the session's store. */
  method CheckForUpdates(lib: Library, providers: seq<Provider>, metaOf: nat -> Result<Metadata>,
                         listingOf: nat -> Result<seq<ListingItem>>, now: int)
    modifies lib
    ensures lib.State() == CheckForUpdatesSpec(old(lib.State()), providers, metaOf, listingOf, now)
  {
    var ids := MonitoredIds(lib.stories);
    ghost var db0 := lib.State();
    var i := 0;
    while i < |ids|
      invariant 0 <= i <= |ids|
      invariant lib.State() == UpdateLibrarySpec(db0, providers, ids[..i], metaOf, listingOf, now)
    {
      var _ := CheckStoryUpdates(lib, providers, ids[i], metaOf(ids[i]), listingOf(ids[i]), now);
      UpdateLibraryStep(db0, providers, ids, i, metaOf, listingOf, now);
      i := i + 1;
    }
    assert ids[..|ids|] == ids;
  }
}
