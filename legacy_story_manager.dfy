/**
 * The first story manager, still used by the standalone scheduler: adding a story (which only
 * inserts unseen chapters, without numbering them) and downloading a story's missing chapters
 * into `saved_stories`. Its only registered provider is the Royal Road adapter.
 */
module LegacyStoryManager {
  import opened Wrappers
  import opened Text
  import opened Store
  import opened ChapterDiff
  import opened Registry
  import opened StoryManager
  import opened JobManager

  /** The story row created for a URL not stored yet. */
  function LegacyStory(id: nat, url: string, m: Metadata): Story
  {
    Story(id, ValueOr(m.title, "Unknown"), ValueOr(m.author, "Unknown"), url, GetOr(m.coverUrl, None), None, None,
          "Monitoring", None, None, true, true, None, None)
  }

  /** The story rows after `add_story` records `m` for `url`, and the row stored for it: a new
      row appended for an unseen URL, else the stored row with its title and author refreshed. */
  function UpsertLegacyStory(stories: seq<Story>, nextId: nat, url: string, m: Metadata): (r: (seq<Story>, Story))
    ensures StoryPosByUrl(stories, url).None? ==>
      r.1 == LegacyStory(nextId, url, m) && r.0 == stories + [r.1]
    ensures StoryPosByUrl(stories, url).Some? ==> var k := StoryPosByUrl(stories, url).value;
      r.1 == stories[k].(title := ValueOr(m.title, stories[k].title), author := ValueOr(m.author, stories[k].author))
      && r.0 == stories[k := r.1]
    ensures StoryPosByUrl(r.0, url).Some? && r.0[StoryPosByUrl(r.0, url).value] == r.1
    ensures forall i :: 0 <= i < |stories| && stories[i].sourceUrl != url ==> r.0[i] == stories[i]
  {
    var k := StoryPosByUrl(stories, url);
    if k.None? then
      var s := LegacyStory(nextId, url, m);
      StoryPosAfterAppend(stories, url, s);
      (stories + [s], s)
    else
      var s := stories[k.value].(title := ValueOr(m.title, stories[k.value].title),
                                 author := ValueOr(m.author, stories[k.value].author));
      StoryPosAfterPut(stories, url, k.value, s);
      (stories[k.value := s], s)
  }

  /** `add_story`: the database afterwards and the story id, or the error raised. */
  function LegacyAddSpec(db: Db, url: string, meta: Result<Metadata>, listing: Result<seq<ListingItem>>): (r: (Db, Result<nat>))
    ensures r.1.Err? ==> r.0 == db
    ensures r.1.Err? <==> ProviderForUrl(RoyalRoadOnly, url).None? || meta.Err? || listing.Err?
    ensures ProviderForUrl(RoyalRoadOnly, url).None? ==> r.1 == Err("No provider found for URL: " + url)
    ensures r.1.Ok? ==> r.0.history == db.history && r.0.notices == db.notices && db.chapters <= r.0.chapters
    ensures r.1.Ok? ==> |r.0.chapters| == |db.chapters| + |NewPositions(db.chapters, r.1.value, listing.value)|
    ensures r.1.Ok? ==> StoryPosByUrl(r.0.stories, url).Some? && r.0.stories[StoryPosByUrl(r.0.stories, url).value].id == r.1.value
    ensures r.1.Ok? ==> |db.stories| <= |r.0.stories| <= |db.stories| + 1
    ensures r.1.Ok? ==> forall i :: 0 <= i < |db.stories| && db.stories[i].sourceUrl != url ==> r.0.stories[i] == db.stories[i]
    ensures r.1.Ok? && StoryPosByUrl(db.stories, url).Some? ==> |r.0.stories| == |db.stories|
    ensures r.1.Ok? ==> var d := Diff(LegacyAdd, db.chapters, r.1.value, listing.value, db.nextChapterId);
      r.0.chapters == d.chapters && r.0.nextChapterId == d.nextId
    ensures r.1.Ok? ==> var k := StoryPosByUrl(db.stories, url); var s := r.0.stories[StoryPosByUrl(r.0.stories, url).value];
      r.1.value == (if k.None? then db.nextStoryId else db.stories[k.value].id)
      && s.title == ValueOr(meta.value.title, if k.None? then "Unknown" else db.stories[k.value].title)
      && s.author == ValueOr(meta.value.author, if k.None? then "Unknown" else db.stories[k.value].author)
    ensures r.1.Ok? && StoryPosByUrl(db.stories, url).None? ==>
      r.0.stories == db.stories + [LegacyStory(db.nextStoryId, url, meta.value)] && r.0.nextStoryId == db.nextStoryId + 1
    ensures r.1.Ok? && StoryPosByUrl(db.stories, url).Some? ==>
      var k := StoryPosByUrl(db.stories, url).value;
      r.0.stories == db.stories[k := db.stories[k].(title := ValueOr(meta.value.title, db.stories[k].title),
                                                     author := ValueOr(meta.value.author, db.stories[k].author))]
      && r.0.nextStoryId == db.nextStoryId
  {
    if ProviderForUrl(RoyalRoadOnly, url).None? then (db, Err("No provider found for URL: " + url))
    else if meta.Err? then (db, Err(meta.message))
    else if listing.Err? then (db, Err(listing.message))
    else
      var k := StoryPosByUrl(db.stories, url);
      var u := UpsertLegacyStory(db.stories, db.nextStoryId, url, meta.value);
      var d := Diff(LegacyAdd, db.chapters, u.1.id, listing.value, db.nextChapterId);
      DiffAppends(LegacyAdd, db.chapters, u.1.id, listing.value, db.nextChapterId);
      DiffKeepsStoredRows(LegacyAdd, db.chapters, u.1.id, listing.value, db.nextChapterId);
      assert db.chapters == d.chapters[..|db.chapters|];
      (db.(stories := u.0, nextStoryId := if k.None? then db.nextStoryId + 1 else db.nextStoryId,
           chapters := d.chapters, nextChapterId := d.nextId), Ok(u.1.id))
  }

  /** Adding the same listing twice: the second call inserts nothing and leaves the chapters as
      the first call left them. */
  lemma LegacyAddTwiceAddsNothing(db: Db, url: string, meta: Result<Metadata>, listing: Result<seq<ListingItem>>)
    requires LegacyAddSpec(db, url, meta, listing).1.Ok?
    ensures var first := LegacyAddSpec(db, url, meta, listing);
      var second := LegacyAddSpec(first.0, url, meta, listing);
      second.1 == first.1 && second.0.chapters == first.0.chapters
  {
    var first := LegacyAddSpec(db, url, meta, listing);
    var sid := first.1.value;
    var k := StoryPosByUrl(db.stories, url);
    var d := Diff(LegacyAdd, db.chapters, sid, listing.value, db.nextChapterId);
    assert first.0.chapters == d.chapters;
    DiffStoresListing(LegacyAdd, db.chapters, sid, listing.value, db.nextChapterId);
    NothingNew(d.chapters, sid, listing.value);
    var d2 := Diff(LegacyAdd, d.chapters, sid, listing.value, first.0.nextChapterId);
    DiffAppends(LegacyAdd, d.chapters, sid, listing.value, first.0.nextChapterId);
    DiffKeepsStoredRows(LegacyAdd, d.chapters, sid, listing.value, first.0.nextChapterId);
    assert d2.chapters == d.chapters;
  }

  /** `add_story` on the session's store. */
  method LegacyAddStory(lib: Library, url: string, meta: Result<Metadata>, listing: Result<seq<ListingItem>>)
    returns (r: Result<nat>)
    modifies lib
    ensures (lib.State(), r) == LegacyAddSpec(old(lib.State()), url, meta, listing)
  {
    if ProviderForUrl(RoyalRoadOnly, url).None? {
      return Err("No provider found for URL: " + url);
    }
    if meta.Err? {
      return Err(meta.message);
    }
    if listing.Err? {
      return Err(listing.message);
    }
    var k := StoryPosByUrl(lib.stories, url);
    if k.None? {
      var s := LegacyStory(lib.nextStoryId, url, meta.value);
      lib.stories := lib.stories + [s];
      lib.nextStoryId := lib.nextStoryId + 1;
      var _ := Reconcile(lib, LegacyAdd, s.id, listing.value);
      r := Ok(s.id);
    } else {
      var old_ := lib.stories[k.value];
      var s := old_.(title := ValueOr(meta.value.title, old_.title), author := ValueOr(meta.value.author, old_.author));
      lib.stories := lib.stories[k.value := s];
      var _ := Reconcile(lib, LegacyAdd, s.id, listing.value);
      r := Ok(s.id);
    }
  }

  /** One chapter attempted: on success its path recorded and the download flag set; on failure
      the row exactly as it was. The status is never touched. */
  function LegacyAttempt(c: Chapter, s: Story, fetch: string -> Result<string>,
                         write: (string, string) -> Result<()>): (r: Chapter)
    ensures r.status == c.status && r.id == c.id && r.storyId == c.storyId
    ensures r == c || r == c.(localPath := Some(FilePath("saved_stories", s, c)), isDownloaded := true)
    ensures r != c ==> fetch(c.sourceUrl).Ok? && write(FilePath("saved_stories", s, c), fetch(c.sourceUrl).value).Ok?
    ensures !c.isDownloaded ==>
      (r.isDownloaded <==> (fetch(c.sourceUrl).Ok? && write(FilePath("saved_stories", s, c), fetch(c.sourceUrl).value).Ok?))
  {
    match fetch(c.sourceUrl)
    case Err(_) => c
    case Ok(content) =>
      var path := FilePath("saved_stories", s, c);
      if write(path, content).Err? then c else c.(localPath := Some(path), isDownloaded := true)
  }

  /** Every missing chapter of the story attempted, the others untouched. */
  function LegacyAttemptMissing(chs: seq<Chapter>, s: Story, fetch: string -> Result<string>,
                                write: (string, string) -> Result<()>): (r: seq<Chapter>)
    ensures |r| == |chs|
    ensures forall i :: 0 <= i < |chs| && !StoryManager.Missing(chs[i], s.id) ==> r[i] == chs[i]
    ensures forall i :: 0 <= i < |chs| && StoryManager.Missing(chs[i], s.id) ==> r[i] == LegacyAttempt(chs[i], s, fetch, write)
    decreases |chs|
  {
    if chs == [] then []
    else
      var c := chs[|chs| - 1];
      assert forall i :: 0 <= i < |chs| - 1 ==> chs[..|chs| - 1][i] == chs[i];
      LegacyAttemptMissing(chs[..|chs| - 1], s, fetch, write) + [if StoryManager.Missing(c, s.id) then LegacyAttempt(c, s, fetch, write) else c]
  }

  /** Attempting the first i + 1 chapters is attempting the first i, then chapter i. */
  lemma AttemptMissingStep(chs: seq<Chapter>, i: nat, s: Story, fetch: string -> Result<string>,
                           write: (string, string) -> Result<()>)
    requires i < |chs|
    ensures LegacyAttemptMissing(chs[..i + 1], s, fetch, write)
      == LegacyAttemptMissing(chs[..i], s, fetch, write)
         + [if StoryManager.Missing(chs[i], s.id) then LegacyAttempt(chs[i], s, fetch, write) else chs[i]]
  {
    assert chs[..i + 1][..i] == chs[..i];
  }

  /** `download_missing_chapters`: the database afterwards, or the error raised before any
      chapter is attempted. */
  function LegacyDownloadSpec(db: Db, storyId: nat, fetch: string -> Result<string>,
                              write: (string, string) -> Result<()>): (r: (Db, Result<()>))
    ensures r.1.Err? ==> r.0 == db
    ensures StoryPos(db.stories, storyId).None? ==> r.1 == Err("Story with ID " + NatToString(storyId) + " not found.")
    ensures r.1.Ok? <==> StoryPos(db.stories, storyId).Some?
                         && ProviderForUrl(RoyalRoadOnly, db.stories[StoryPos(db.stories, storyId).value].sourceUrl).Some?
    ensures StoryPos(db.stories, storyId).Some? ==> var s := db.stories[StoryPos(db.stories, storyId).value];
      ProviderForUrl(RoyalRoadOnly, s.sourceUrl).None? ==> r.1 == Err("Provider not found for story URL: " + s.sourceUrl)
    ensures r.1.Ok? ==> r.0.chapters == LegacyAttemptMissing(db.chapters, db.stories[StoryPos(db.stories, storyId).value], fetch, write)
    ensures r.0.stories == db.stories && r.0.history == db.history && r.0.notices == db.notices
    ensures |r.0.chapters| == |db.chapters|
  {
    match StoryPos(db.stories, storyId)
    case None => (db, Err("Story with ID " + NatToString(storyId) + " not found."))
    case Some(k) =>
      var s := db.stories[k];
      if ProviderForUrl(RoyalRoadOnly, s.sourceUrl).None? then (db, Err("Provider not found for story URL: " + s.sourceUrl))
      else (db.(chapters := LegacyAttemptMissing(db.chapters, s, fetch, write)), Ok(()))
  }

  /** The download never changes a status, touches only missing chapters of the story, and
      changes nothing at all when the story has no missing chapter. */
  lemma LegacyDownloadOnlyMarks(db: Db, storyId: nat, fetch: string -> Result<string>, write: (string, string) -> Result<()>)
    ensures var r := LegacyDownloadSpec(db, storyId, fetch, write).0;
      (forall i :: 0 <= i < |db.chapters| ==> r.chapters[i].status == db.chapters[i].status)
      && (forall i :: 0 <= i < |db.chapters| && r.chapters[i] != db.chapters[i] ==>
            StoryManager.Missing(db.chapters[i], storyId) && r.chapters[i].isDownloaded && r.chapters[i].localPath.Some?)
      && ((forall i :: 0 <= i < |db.chapters| ==> !StoryManager.Missing(db.chapters[i], storyId)) ==> r == db)
  {
    var r := LegacyDownloadSpec(db, storyId, fetch, write);
    if r.1.Ok? {
      var s := db.stories[StoryPos(db.stories, storyId).value];
      assert s.id == storyId;
      assert r.0.chapters == LegacyAttemptMissing(db.chapters, s, fetch, write);
      if forall i :: 0 <= i < |db.chapters| ==> !StoryManager.Missing(db.chapters[i], storyId) {
        assert r.0.chapters == db.chapters;
      }
    }
  }

  /** The body of the download loop for one chapter: fetch, write, record the path. */
  method DownloadOne(c: Chapter, s: Story, fetch: string -> Result<string>, write: (string, string) -> Result<()>)
    returns (updated: Chapter)
    ensures updated == LegacyAttempt(c, s, fetch, write)
  {
    updated := c;
    var content := fetch(c.sourceUrl);
    if content.Ok? {
      var path := FilePath("saved_stories", s, c);
      var written := write(path, content.value);
      if written.Ok? {
        updated := c.(localPath := Some(path), isDownloaded := true);
      }
    }
  }

  /** `download_missing_chapters` on the session's store, committing one chapter at a time. */
  method LegacyDownloadMissingChapters(lib: Library, storyId: nat, fetch: string -> Result<string>,
                                       write: (string, string) -> Result<()>) returns (r: Result<()>)
    modifies lib
    ensures (lib.State(), r) == LegacyDownloadSpec(old(lib.State()), storyId, fetch, write)
  {
    var pos := StoryPos(lib.stories, storyId);
    if pos.None? {
      return Err("Story with ID " + NatToString(storyId) + " not found.");
    }
    var s := lib.stories[pos.value];
    if ProviderForUrl(RoyalRoadOnly, s.sourceUrl).None? {
      return Err("Provider not found for story URL: " + s.sourceUrl);
    }
    var chapters: seq<Chapter> := [];
    var i := 0;
    while i < |lib.chapters|
      invariant 0 <= i <= |lib.chapters|
      invariant chapters == LegacyAttemptMissing(lib.chapters[..i], s, fetch, write)
      invariant unchanged(lib)
    {
      var c := lib.chapters[i];
      var updated := c;
      if StoryManager.Missing(c, storyId) {
        updated := DownloadOne(c, s, fetch, write);
      }
      AttemptMissingStep(lib.chapters, i, s, fetch, write);
      chapters := chapters + [updated];
      i := i + 1;
    }
    assert lib.chapters[..|lib.chapters|] == lib.chapters;
    lib.chapters := chapters;
    r := Ok(());
  }
}
