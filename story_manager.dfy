/**
 * The story manager of the `scrollarr` package: adding a story from its URL, checking one or
 * every story for new chapters, re-queueing failed chapters and the last-chapter hint given to
 * providers. Provider answers (metadata, chapter listing) are inputs.
 */
module StoryManager {
  import opened Wrappers
  import opened Text
  import opened Store
  import opened ChapterDiff
  import opened Registry
  import opened LibraryPaths

  /** The metadata dict a provider returns. The providers always send a string `title` and `author`,
      so `None` there marks a key the dict does not have; the other keys may also be present with
      the value `None` (a page without a cover), which is what `Entry` tells apart. */
  datatype Metadata = Metadata(
    title: Option<string>,
    author: Option<string>,
    coverUrl: Entry<string>,
    description: Entry<string>,
    publicationStatus: Entry<string>)

  /** A stored story refreshed with `metadata.get(key, story.<field>)` for each field. */
  function Refreshed(s: Story, m: Metadata): Story
  {
    s.(title := ValueOr(m.title, s.title),
       author := ValueOr(m.author, s.author),
       coverPath := GetOr(m.coverUrl, s.coverPath),
       description := GetOr(m.description, s.description),
       publicationStatus := GetOr(m.publicationStatus, s.publicationStatus))
  }

  /** The story row `add_story` creates for a URL it does not know yet. */
  function CreatedStory(id: nat, url: string, m: Metadata, profileId: Option<int>, providerKey: Option<string>): Story
  {
    Story(id, ValueOr(m.title, "Unknown"), ValueOr(m.author, "Unknown"), url, GetOr(m.coverUrl, None),
          GetOr(m.description, None), GetOr(m.publicationStatus, Some("Unknown")), "Monitoring",
          Some(if profileId.Some? && profileId.value != 0 then profileId.value else 1),
          providerKey, true, true, None, None)
  }

  /** The timestamps a check leaves: always checked now, updated now when chapters were added. */
  function Stamped(s: Story, now: int, added: nat): Story
  {
    s.(lastChecked := Some(now), lastUpdated := if added > 0 then Some(now) else s.lastUpdated)
  }

  /** `add_story`: the database afterwards and the story id, or the error raised. */
  function AddStorySpec(db: Db, providers: seq<Provider>, url: string, profileId: Option<int>, providerKey: Option<string>,
                        meta: Result<Metadata>, listing: Result<seq<ListingItem>>, now: int): (r: (Db, Result<nat>))
    ensures r.1.Err? ==> r.0 == db
    ensures r.1.Err? <==> ResolveProvider(providers, providerKey, url).None? || meta.Err? || listing.Err?
    ensures ResolveProvider(providers, providerKey, url).None? ==> r.1 == Err("No provider found for URL: " + url)
    ensures r.1.Ok? ==> r.0.history == db.history && r.0.notices == db.notices
    ensures r.1.Ok? ==> exists k :: 0 <= k < |r.0.stories| && r.0.stories[k].id == r.1.value
                                 && r.0.stories[k].sourceUrl == url && r.0.stories[k].lastChecked == Some(now)
    ensures r.1.Ok? && StoryPosByUrl(db.stories, url).None? ==>
      r.0.stories == db.stories + [Stamped(CreatedStory(db.nextStoryId, url, meta.value, profileId, providerKey), now,
                                           Diff(Current(true), db.chapters, db.nextStoryId, listing.value, db.nextChapterId).added)]
    ensures r.1.Ok? && StoryPosByUrl(db.stories, url).None? ==> r.1.value == db.nextStoryId && r.0.nextStoryId == db.nextStoryId + 1
    ensures r.1.Ok? && StoryPosByUrl(db.stories, url).Some? ==> var k := StoryPosByUrl(db.stories, url).value;
      r.1.value == db.stories[k].id && r.0.nextStoryId == db.nextStoryId
      && r.0.stories == db.stories[k := Stamped(Refreshed(db.stories[k], meta.value), now,
                                                Diff(Current(true), db.chapters, db.stories[k].id, listing.value, db.nextChapterId).added)]
    ensures r.1.Ok? ==> var d := Diff(Current(true), db.chapters, r.1.value, listing.value, db.nextChapterId);
      r.0.chapters == d.chapters && r.0.nextChapterId == d.nextId
  {
    if ResolveProvider(providers, providerKey, url).None? then (db, Err("No provider found for URL: " + url))
    else if meta.Err? then (db, Err(meta.message))
    else if listing.Err? then (db, Err(listing.message))
    else
      match StoryPosByUrl(db.stories, url)
      case None =>
        var s := CreatedStory(db.nextStoryId, url, meta.value, profileId, providerKey);
        var d := Diff(Current(true), db.chapters, s.id, listing.value, db.nextChapterId);
        var s' := Stamped(s, now, d.added);
        assert (db.stories + [s'])[|db.stories|] == s';
        (db.(stories := db.stories + [s'], chapters := d.chapters, nextChapterId := d.nextId, nextStoryId := db.nextStoryId + 1),
         Ok(s.id))
      case Some(k) =>
        var s := Refreshed(db.stories[k], meta.value);
        var d := Diff(Current(true), db.chapters, s.id, listing.value, db.nextChapterId);
        var s' := Stamped(s, now, d.added);
        assert s'.sourceUrl == url && db.stories[k := s'][k] == s';
        (db.(stories := db.stories[k := s'], chapters := d.chapters, nextChapterId := d.nextId), Ok(s.id))
  }

  /** The hint `_get_last_chapter_info` passes to a provider. */
  datatype LastChapter = LastChapter(url: string, title: string, volumeTitle: Option<string>,
                                     volumeNumber: Option<int>, index: Option<int>)

  /** Every row carries an index. */
  predicate AllIndexed(rows: seq<Chapter>) { forall i :: 0 <= i < |rows| ==> rows[i].index.Some? }

  /** The position of the first row with the largest index: what a stable sort by index in
      reverse order puts first. */
  function FirstMaxIndex(rows: seq<Chapter>): (k: nat)
    requires |rows| >= 1 && AllIndexed(rows)
    ensures k < |rows|
    ensures forall i :: 0 <= i < |rows| ==> rows[i].index.value <= rows[k].index.value
    ensures forall i :: 0 <= i < k ==> rows[i].index.value < rows[k].index.value
    decreases |rows|
  {
    if |rows| == 1 then 0
    else
      var k := FirstMaxIndex(rows[..|rows| - 1]);
      if rows[|rows| - 1].index.value > rows[k].index.value then |rows| - 1 else k
  }

  /** `info` describes row `k`, and row `k` is the first with the largest index (when there is
      more than one row, so that indices are compared at all). */
  predicate IsLastChapter(rows: seq<Chapter>, k: int, info: LastChapter)
    requires 0 <= k < |rows|
  {
    info == LastChapter(rows[k].sourceUrl, rows[k].title, rows[k].volumeTitle, rows[k].volumeNumber, rows[k].index)
    && (|rows| >= 2 ==>
          (AllIndexed(rows)
           && (forall i :: 0 <= i < |rows| ==> rows[i].index.value <= rows[k].index.value)
           && (forall i :: 0 <= i < k ==> rows[i].index.value < rows[k].index.value)))
  }

  /** `_get_last_chapter_info`: nothing for a story without chapters; the row with the largest
      index otherwise. Sorting two or more rows when one has no index compares `None` and raises. */
  function LastChapterInfo(rows: seq<Chapter>): (r: Result<Option<LastChapter>>)
    ensures rows == [] <==> r == Ok(None)
    ensures r.Err? <==> |rows| >= 2 && !AllIndexed(rows)
    ensures r.Ok? && r.value.Some? ==> exists k :: 0 <= k < |rows| && IsLastChapter(rows, k, r.value.value)
  {
    if rows == [] then Ok(None)
    else if |rows| >= 2 && !AllIndexed(rows) then Err("'<' not supported between instances")
    else
      var k := if |rows| == 1 then 0 else FirstMaxIndex(rows);
      var c := rows[k];
      var info := LastChapter(c.sourceUrl, c.title, c.volumeTitle, c.volumeNumber, c.index);
      assert IsLastChapter(rows, k, info);
      Ok(Some(info))
  }

  /** `check_story_updates`: the database afterwards and the number of new chapters, or the
      error raised. Everything the call changed is rolled back when it raises. */
  function CheckStoryUpdatesSpec(db: Db, providers: seq<Provider>, storyId: nat, meta: Result<Metadata>,
                                 listing: Result<seq<ListingItem>>, now: int): (r: (Db, Result<nat>))
    ensures r.1.Err? ==> r.0 == db
    ensures StoryPos(db.stories, storyId).None? ==> r.1 == Err("Story with ID " + NatToString(storyId) + " not found")
    ensures StoryPos(db.stories, storyId).Some? ==> var s := db.stories[StoryPos(db.stories, storyId).value];
      ResolveProvider(providers, s.providerName, s.sourceUrl).None? ==> r.1 == Err("No provider found for story: " + s.title)
    ensures r.1.Ok? <==> (StoryPos(db.stories, storyId).Some?
                           && ResolveProvider(providers, db.stories[StoryPos(db.stories, storyId).value].providerName,
                                              db.stories[StoryPos(db.stories, storyId).value].sourceUrl).Some?
                           && LastChapterInfo(ChaptersOf(db.chapters, storyId)).Ok? && listing.Ok?)
    ensures r.1.Ok? ==> r.1.value == |NewPositions(db.chapters, storyId, listing.value)|
    ensures r.1.Ok? ==> |r.0.stories| == |db.stories| && r.0.history == db.history && r.0.nextStoryId == db.nextStoryId
    ensures r.1.Ok? ==> r.0.notices == db.notices + (if r.1.value > 0 then
      [Notice("on_new_chapters", r.0.stories[StoryPos(db.stories, storyId).value].title, r.1.value, storyId)] else [])
    ensures r.1.Ok? ==> r.0.chapters == Diff(Current(false), db.chapters, storyId, listing.value, db.nextChapterId).chapters
    ensures r.1.Ok? ==> forall i :: 0 <= i < |db.stories| && i != StoryPos(db.stories, storyId).value ==> r.0.stories[i] == db.stories[i]
    ensures r.1.Ok? ==> var s := r.0.stories[StoryPos(db.stories, storyId).value];
      s.id == storyId && s.sourceUrl == db.stories[StoryPos(db.stories, storyId).value].sourceUrl
      && s.lastChecked == Some(now) && (r.1.value > 0 ==> s.lastUpdated == Some(now))
      && (r.1.value == 0 ==> s.lastUpdated == db.stories[StoryPos(db.stories, storyId).value].lastUpdated)
    ensures r.1.Ok? ==> var k := StoryPos(db.stories, storyId).value;
      r.0.stories[k] == Stamped(if meta.Ok? then Refreshed(db.stories[k], meta.value) else db.stories[k], now, r.1.value)
  {
    match StoryPos(db.stories, storyId)
    case None => (db, Err("Story with ID " + NatToString(storyId) + " not found"))
    case Some(k) =>
      var s := db.stories[k];
      if ResolveProvider(providers, s.providerName, s.sourceUrl).None? then (db, Err("No provider found for story: " + s.title))
      else if LastChapterInfo(ChaptersOf(db.chapters, storyId)).Err? then (db, Err(LastChapterInfo(ChaptersOf(db.chapters, storyId)).message))
      else if listing.Err? then (db, Err(listing.message))
      else
        var s1 := if meta.Ok? then Refreshed(s, meta.value) else s;
        var d := Diff(Current(false), db.chapters, storyId, listing.value, db.nextChapterId);
        DiffAppends(Current(false), db.chapters, storyId, listing.value, db.nextChapterId);
        var s2 := Stamped(s1, now, d.added);
        var notices := if d.added > 0 then db.notices + [Notice("on_new_chapters", s2.title, d.added, storyId)] else db.notices;
        (db.(stories := db.stories[k := s2], chapters := d.chapters, nextChapterId := d.nextId, notices := notices), Ok(d.added))
  }

  /** `add_story` on the session's store. */
  method AddStory(lib: Library, providers: seq<Provider>, url: string, profileId: Option<int>, providerKey: Option<string>,
                  meta: Result<Metadata>, listing: Result<seq<ListingItem>>, now: int) returns (r: Result<nat>)
    modifies lib
    ensures (lib.State(), r) == AddStorySpec(old(lib.State()), providers, url, profileId, providerKey, meta, listing, now)
  {
    if ResolveProvider(providers, providerKey, url).None? {
      return Err("No provider found for URL: " + url);
    }
    if meta.Err? {
      return Err(meta.message);
    }
    if listing.Err? {
      return Err(listing.message);
    }
    match StoryPosByUrl(lib.stories, url)
    case None =>
      var s := CreatedStory(lib.nextStoryId, url, meta.value, profileId, providerKey);
      var added := Reconcile(lib, Current(true), s.id, listing.value);
      lib.stories := lib.stories + [Stamped(s, now, added)];
      lib.nextStoryId := lib.nextStoryId + 1;
      r := Ok(s.id);
    case Some(k) =>
      var s := Refreshed(lib.stories[k], meta.value);
      var added := Reconcile(lib, Current(true), s.id, listing.value);
      lib.stories := lib.stories[k := Stamped(s, now, added)];
      r := Ok(s.id);
  }

  /** `check_story_updates` on the session's store. */
  method CheckStoryUpdates(lib: Library, providers: seq<Provider>, storyId: nat, meta: Result<Metadata>,
                           listing: Result<seq<ListingItem>>, now: int) returns (r: Result<nat>)
    modifies lib
    ensures (lib.State(), r) == CheckStoryUpdatesSpec(old(lib.State()), providers, storyId, meta, listing, now)
  {
    var pos := StoryPos(lib.stories, storyId);
    if pos.None? {
      return Err("Story with ID " + NatToString(storyId) + " not found");
    }
    var k := pos.value;
    var s := lib.stories[k];
    if ResolveProvider(providers, s.providerName, s.sourceUrl).None? {
      return Err("No provider found for story: " + s.title);
    }
    var last := LastChapterInfo(ChaptersOf(lib.chapters, storyId));
    if last.Err? {
      return Err(last.message);
    }
    if listing.Err? {
      return Err(listing.message);
    }
    var s1 := if meta.Ok? then Refreshed(s, meta.value) else s;
    var added := Reconcile(lib, Current(false), storyId, listing.value);
    var s2 := Stamped(s1, now, added);
    lib.stories := lib.stories[k := s2];
    if added > 0 {
      lib.notices := lib.notices + [Notice("on_new_chapters", s2.title, added, storyId)];
    }
    r := Ok(added);
  }

  /** Rows that keep every story's id and source URL keep the story table well formed. */
  lemma SameKeysWellFormed(a: seq<Story>, b: seq<Story>, next: nat)
    requires StoriesWellFormed(a, next) && |b| == |a|
    requires forall i :: 0 <= i < |a| ==> b[i].id == a[i].id && b[i].sourceUrl == a[i].sourceUrl
    ensures StoriesWellFormed(b, next)
  {
  }

  /** A story with the next id and a new source URL keeps the story table well formed. */
  lemma AppendWellFormed(a: seq<Story>, s: Story, next: nat)
    requires StoriesWellFormed(a, next) && s.id == next
    requires forall i :: 0 <= i < |a| ==> a[i].sourceUrl != s.sourceUrl
    ensures StoriesWellFormed(a + [s], next + 1)
  {
    var b := a + [s];
    assert b[|a|] == s;
    assert forall i :: 0 <= i < |a| ==> b[i] == a[i];
  }

  /** Adding a story keeps the store's keys and references well formed. */
  lemma AddStoryKeepsValid(db: Db, providers: seq<Provider>, url: string, profileId: Option<int>, providerKey: Option<string>,
                           meta: Result<Metadata>, listing: Result<seq<ListingItem>>, now: int)
    requires Valid(db)
    ensures Valid(AddStorySpec(db, providers, url, profileId, providerKey, meta, listing, now).0)
  {
    var r := AddStorySpec(db, providers, url, profileId, providerKey, meta, listing, now);
    if r.1.Ok? {
      match StoryPosByUrl(db.stories, url)
      case None =>
        var sid := db.nextStoryId;
        var d := Diff(Current(true), db.chapters, sid, listing.value, db.nextChapterId);
        DiffKeepsIdsOrdered(Current(true), db.chapters, sid, listing.value, db.nextChapterId);
        DiffKeepsOwners(Current(true), db.chapters, sid, listing.value, db.nextChapterId, sid + 1);
        var s := Stamped(CreatedStory(sid, url, meta.value, profileId, providerKey), now, d.added);
        assert r.0.stories == db.stories + [s];
        AppendWellFormed(db.stories, s, sid);
        assert r.0.chapters == d.chapters && r.0.nextChapterId == d.nextId && r.0.nextStoryId == sid + 1;
      case Some(k) =>
        var sid := db.stories[k].id;
        var d := Diff(Current(true), db.chapters, sid, listing.value, db.nextChapterId);
        DiffKeepsIdsOrdered(Current(true), db.chapters, sid, listing.value, db.nextChapterId);
        DiffKeepsOwners(Current(true), db.chapters, sid, listing.value, db.nextChapterId, db.nextStoryId);
        var s := Stamped(Refreshed(db.stories[k], meta.value), now, d.added);
        assert r.0.stories == db.stories[k := s];
        SameKeysWellFormed(db.stories, r.0.stories, db.nextStoryId);
        assert r.0.chapters == d.chapters && r.0.nextChapterId == d.nextId && r.0.nextStoryId == db.nextStoryId;
    }
  }

  /** Checking a story keeps the store's keys and references well formed. */
  lemma CheckStoryUpdatesKeepsValid(db: Db, providers: seq<Provider>, storyId: nat, meta: Result<Metadata>,
                                    listing: Result<seq<ListingItem>>, now: int)
    requires Valid(db)
    ensures Valid(CheckStoryUpdatesSpec(db, providers, storyId, meta, listing, now).0)
  {
    var r := CheckStoryUpdatesSpec(db, providers, storyId, meta, listing, now);
    if r.1.Ok? {
      var d := Diff(Current(false), db.chapters, storyId, listing.value, db.nextChapterId);
      DiffKeepsIdsOrdered(Current(false), db.chapters, storyId, listing.value, db.nextChapterId);
      DiffKeepsOwners(Current(false), db.chapters, storyId, listing.value, db.nextChapterId, db.nextStoryId);
      SameKeysWellFormed(db.stories, r.0.stories, db.nextStoryId);
      assert r.0.nextChapterId == d.nextId;
    }
  }

  /** Checking a story twice against the same listing inserts nothing the second time and
      dispatches no second notification. */
  lemma CheckTwiceAddsNothing(db: Db, providers: seq<Provider>, storyId: nat, meta: Result<Metadata>,
                              listing: Result<seq<ListingItem>>, now: int, later: int)
    ensures var first := CheckStoryUpdatesSpec(db, providers, storyId, meta, listing, now);
      var second := CheckStoryUpdatesSpec(first.0, providers, storyId, meta, listing, later);
      first.1.Ok? && second.1.Ok? ==> second.1.value == 0 && second.0.notices == first.0.notices
  {
    var first := CheckStoryUpdatesSpec(db, providers, storyId, meta, listing, now);
    if first.1.Ok? {
      DiffIdempotent(Current(false), db.chapters, storyId, listing.value, db.nextChapterId);
      var st := Diff(Current(false), db.chapters, storyId, listing.value, db.nextChapterId);
      DiffAppends(Current(false), st.chapters, storyId, listing.value, st.nextId);
    }
  }

  /** Adding the same story twice with the same answers: the second call returns the same id,
      inserts no chapter, and leaves the story's `last_updated` as the first call set it. */
  lemma AddStoryTwiceAddsNothing(db: Db, providers: seq<Provider>, url: string, profileId: Option<int>, providerKey: Option<string>,
                                 meta: Result<Metadata>, listing: Result<seq<ListingItem>>, now: int, later: int)
    requires AddStorySpec(db, providers, url, profileId, providerKey, meta, listing, now).1.Ok?
    ensures var first := AddStorySpec(db, providers, url, profileId, providerKey, meta, listing, now);
      var second := AddStorySpec(first.0, providers, url, profileId, providerKey, meta, listing, later);
      var k := StoryPosByUrl(first.0.stories, url);
      second.1 == first.1 && |second.0.chapters| == |first.0.chapters| && |second.0.stories| == |first.0.stories|
      && k.Some? && second.0.stories[k.value].lastUpdated == first.0.stories[k.value].lastUpdated
  {
    var first := AddStorySpec(db, providers, url, profileId, providerKey, meta, listing, now);
    var sid := first.1.value;
    DiffIdempotent(Current(true), db.chapters, sid, listing.value, db.nextChapterId);
    var k0 := StoryPosByUrl(db.stories, url);
    var k: nat := if k0.None? then |db.stories| else k0.value;
    assert first.0.stories[k].sourceUrl == url && first.0.stories[k].id == sid;
    assert forall j :: 0 <= j < k ==> first.0.stories[j] == db.stories[j];
    assert StoryPosByUrl(first.0.stories, url) == Some(k);
  }

  /** The ids of the stories, in table order. */
  function StoryIds(sts: seq<Story>): (ids: seq<nat>)
    ensures |ids| == |sts| && forall i :: 0 <= i < |sts| ==> ids[i] == sts[i].id
  {
    if sts == [] then [] else StoryIds(sts[..|sts| - 1]) + [sts[|sts| - 1].id]
  }

  /** `update_library`: every story in `ids` checked in turn, each against the metadata and
      listing its provider gives; a story whose check fails is rolled back and skipped. */
  function UpdateLibrarySpec(db: Db, providers: seq<Provider>, ids: seq<nat>, metaOf: nat -> Result<Metadata>,
                             listingOf: nat -> Result<seq<ListingItem>>, now: int): (r: Db)
    ensures r.history == db.history && r.nextStoryId == db.nextStoryId && |r.stories| == |db.stories|
    ensures forall i :: 0 <= i < |db.stories| ==> r.stories[i].id == db.stories[i].id && r.stories[i].sourceUrl == db.stories[i].sourceUrl
    ensures db.notices <= r.notices
    ensures forall i :: |db.notices| <= i < |r.notices| ==> r.notices[i].event == "on_new_chapters" && r.notices[i].newChapters > 0
    decreases |ids|
  {
    if ids == [] then db
    else
      var prev := UpdateLibrarySpec(db, providers, ids[..|ids| - 1], metaOf, listingOf, now);
      var id := ids[|ids| - 1];
      CheckKeepsKeys(prev, providers, id, metaOf(id), listingOf(id), now);
      CheckStoryUpdatesSpec(prev, providers, id, metaOf(id), listingOf(id), now).0
  }

  /** A check keeps every story's id and source URL and the history, and only appends
      new-chapter notices. */
  lemma CheckKeepsKeys(db: Db, providers: seq<Provider>, storyId: nat, meta: Result<Metadata>,
                       listing: Result<seq<ListingItem>>, now: int)
    ensures var r := CheckStoryUpdatesSpec(db, providers, storyId, meta, listing, now).0;
      && r.history == db.history && r.nextStoryId == db.nextStoryId && |r.stories| == |db.stories|
      && (forall i :: 0 <= i < |db.stories| ==> r.stories[i].id == db.stories[i].id && r.stories[i].sourceUrl == db.stories[i].sourceUrl)
      && db.notices <= r.notices
      && (forall i :: |db.notices| <= i < |r.notices| ==> r.notices[i].event == "on_new_chapters" && r.notices[i].newChapters > 0)
  {
    var r := CheckStoryUpdatesSpec(db, providers, storyId, meta, listing, now);
    if r.1.Ok? {
      var k := StoryPos(db.stories, storyId).value;
      forall i | 0 <= i < |db.stories|
        ensures r.0.stories[i].id == db.stories[i].id && r.0.stories[i].sourceUrl == db.stories[i].sourceUrl
      {
        if i != k {
          assert r.0.stories[i] == db.stories[i];
        }
      }
    }
  }

  /** A library update keeps the store's keys and references well formed. */
  lemma {:induction false} UpdateLibraryKeepsValid(db: Db, providers: seq<Provider>, ids: seq<nat>, metaOf: nat -> Result<Metadata>,
                                                   listingOf: nat -> Result<seq<ListingItem>>, now: int)
    requires Valid(db)
    ensures Valid(UpdateLibrarySpec(db, providers, ids, metaOf, listingOf, now))
    decreases |ids|
  {
    if ids != [] {
      var prev := UpdateLibrarySpec(db, providers, ids[..|ids| - 1], metaOf, listingOf, now);
      UpdateLibraryKeepsValid(db, providers, ids[..|ids| - 1], metaOf, listingOf, now);
      var id := ids[|ids| - 1];
      CheckStoryUpdatesKeepsValid(prev, providers, id, metaOf(id), listingOf(id), now);
    }
  }

  /** One more story checked: the update over `ids[..i + 1]` is the check of `ids[i]` after the
      update over `ids[..i]`. */
  lemma UpdateLibraryStep(db: Db, providers: seq<Provider>, ids: seq<nat>, i: nat, metaOf: nat -> Result<Metadata>,
                          listingOf: nat -> Result<seq<ListingItem>>, now: int)
    requires i < |ids|
    ensures UpdateLibrarySpec(db, providers, ids[..i + 1], metaOf, listingOf, now)
      == CheckStoryUpdatesSpec(UpdateLibrarySpec(db, providers, ids[..i], metaOf, listingOf, now),
                               providers, ids[i], metaOf(ids[i]), listingOf(ids[i]), now).0
  {
    assert ids[..i + 1][..i] == ids[..i];
  }

  /** `update_library` on the session's store: every story present at the start is checked. */
  method UpdateLibrary(lib: Library, providers: seq<Provider>, metaOf: nat -> Result<Metadata>,
                       listingOf: nat -> Result<seq<ListingItem>>, now: int)
    modifies lib
    ensures lib.State() == UpdateLibrarySpec(old(lib.State()), providers, StoryIds(old(lib.stories)), metaOf, listingOf, now)
  {
    var ids := StoryIds(lib.stories);
    ghost var db0 := lib.State();
    var i := 0;
    while i < |ids|
      invariant 0 <= i <= |ids|
      invariant lib.State() == UpdateLibrarySpec(db0, providers, ids[..i], metaOf, listingOf, now)
    {
      var _ := CheckStoryUpdates(lib, providers, ids[i], metaOf(ids[i]), listingOf(ids[i]), now);
      UpdateLibraryStep(db0, providers, ids, i, metaOf, listingOf, now);
      i := i + 1;
    }
    assert ids[..|ids|] == ids;
  }

  /** A failed chapter of story `sid` queued again; every other row as it is. */
  function Requeued(c: Chapter, sid: nat): Chapter
  {
    if c.storyId == sid && c.status == Failed then c.(status := Pending) else c
  }

  /** The chapters after `retry_failed_chapters(sid)`. */
  function Retried(chs: seq<Chapter>, sid: nat): (r: seq<Chapter>)
    ensures |r| == |chs|
    ensures forall i :: 0 <= i < |chs| ==> r[i] == Requeued(chs[i], sid)
  {
    seq(|chs|, i requires 0 <= i < |chs| => Requeued(chs[i], sid))
  }

  /** The number of failed chapters of story `sid`. */
  function FailedCount(chs: seq<Chapter>, sid: nat): (n: nat)
    ensures n <= |chs|
    decreases |chs|
  {
    if chs == [] then 0
    else
      var c := chs[|chs| - 1];
      FailedCount(chs[..|chs| - 1], sid) + if c.storyId == sid && c.status == Failed then 1 else 0
  }

  /** The count is zero exactly when the story has no failed chapter. */
  lemma {:induction false} FailedCountZero(chs: seq<Chapter>, sid: nat)
    ensures FailedCount(chs, sid) == 0 <==> forall i :: 0 <= i < |chs| ==> !(chs[i].storyId == sid && chs[i].status == Failed)
    decreases |chs|
  {
    if chs != [] {
      var init := chs[..|chs| - 1];
      FailedCountZero(init, sid);
      assert forall i :: 0 <= i < |init| ==> init[i] == chs[i];
    }
  }

  /** `retry_failed_chapters`: the database afterwards and the number of chapters queued again. */
  function RetryFailedSpec(db: Db, storyId: nat): (r: (Db, Result<nat>))
    ensures StoryPos(db.stories, storyId).None? <==> r.1.Err?
    ensures r.1.Err? ==> r.0 == db && r.1 == Err("Story with ID " + NatToString(storyId) + " not found")
    ensures r.1.Ok? ==> r.0 == db.(chapters := Retried(db.chapters, storyId)) && r.1.value == FailedCount(db.chapters, storyId)
  {
    if StoryPos(db.stories, storyId).None? then (db, Err("Story with ID " + NatToString(storyId) + " not found"))
    else (db.(chapters := Retried(db.chapters, storyId)), Ok(FailedCount(db.chapters, storyId)))
  }

  /** After a retry no chapter of the story is failed, the ones that were are pending, and as
      many as were counted. */
  lemma {:induction false} RetryRequeuesAllFailed(chs: seq<Chapter>, sid: nat)
    ensures FailedCount(Retried(chs, sid), sid) == 0
    ensures forall i :: 0 <= i < |chs| && chs[i].storyId == sid && chs[i].status == Failed ==> Retried(chs, sid)[i].status == Pending
    ensures FailedCount(chs, sid) == PendingCount(Retried(chs, sid), sid) - PendingCount(chs, sid)
    decreases |chs|
  {
    if chs != [] {
      var init := chs[..|chs| - 1];
      RetryRequeuesAllFailed(init, sid);
      assert Retried(chs, sid)[..|chs| - 1] == Retried(init, sid);
    }
  }

  /** The number of pending chapters of story `sid`. */
  function PendingCount(chs: seq<Chapter>, sid: nat): (n: nat)
    ensures n <= |chs|
    decreases |chs|
  {
    if chs == [] then 0
    else
      var c := chs[|chs| - 1];
      PendingCount(chs[..|chs| - 1], sid) + if c.storyId == sid && c.status == Pending then 1 else 0
  }

  /** The loop of `retry_failed_chapters` over the rows read: each failed chapter of the story
      set back to pending, and counted. */
  method RequeueFailed(chs: seq<Chapter>, storyId: nat) returns (out: seq<Chapter>, count: nat)
    ensures out == Retried(chs, storyId)
    ensures count == FailedCount(chs, storyId)
  {
    out := chs;
    count := 0;
    var i := 0;
    while i < |chs|
      invariant 0 <= i <= |chs| == |out|
      invariant forall k :: 0 <= k < i ==> out[k] == Requeued(chs[k], storyId)
      invariant forall k :: i <= k < |chs| ==> out[k] == chs[k]
      invariant count == FailedCount(chs[..i], storyId)
    {
      assert chs[..i + 1][..i] == chs[..i] && chs[..i + 1][i] == chs[i];
      assert FailedCount(chs[..i + 1], storyId)
        == FailedCount(chs[..i], storyId) + if chs[i].storyId == storyId && chs[i].status == Failed then 1 else 0;
      if out[i].storyId == storyId && out[i].status == Failed {
        out := out[i := out[i].(status := Pending)];
        count := count + 1;
      }
      i := i + 1;
    }
    assert chs[..i] == chs;
  }

  /** `retry_failed_chapters` on the session's store. */
  method RetryFailedChapters(lib: Library, storyId: nat) returns (r: Result<nat>)
    modifies lib
    ensures (lib.State(), r) == RetryFailedSpec(old(lib.State()), storyId)
  {
    if StoryPos(lib.stories, storyId).None? {
      return Err("Story with ID " + NatToString(storyId) + " not found");
    }
    var chapters, count := RequeueFailed(lib.chapters, storyId);
    lib.chapters := chapters;
    r := Ok(count);
  }

  /** A download attempt on one chapter of story `s`: the content is fetched, the chapter path
      computed and the file written; any failure marks the chapter failed and nothing else. */
  function Attempt(c: Chapter, s: Story, cfg: Config, root: string,
                   fetch: string -> Result<string>, write: (string, string) -> bool): (r: Chapter)
    ensures r.id == c.id && r.storyId == c.storyId && r.sourceUrl == c.sourceUrl && r.index == c.index
    ensures r.status == Downloaded || r == c.(status := Failed)
    ensures r.status == Downloaded <==>
      fetch(c.sourceUrl).Ok? && ChapterAbsolutePath(cfg, root, s, c).Ok?
      && write(ChapterAbsolutePath(cfg, root, s, c).value, fetch(c.sourceUrl).value)
    ensures r.status == Downloaded ==>
      r == c.(localPath := Some(ChapterAbsolutePath(cfg, root, s, c).value), isDownloaded := true, status := Downloaded)
  {
    var content := fetch(c.sourceUrl);
    if content.Err? then c.(status := Failed)
    else
      var path := ChapterAbsolutePath(cfg, root, s, c);
      if path.Err? || !write(path.value, content.value) then c.(status := Failed)
      else c.(localPath := Some(path.value), isDownloaded := true, status := Downloaded)
  }

  /** A chapter `download_missing_chapters(s.id)` picks up. */
  predicate Missing(c: Chapter, sid: nat) { c.storyId == sid && !c.isDownloaded }

  /** Every missing chapter of the story attempted, the others untouched. */
  function AttemptMissing(chs: seq<Chapter>, s: Story, cfg: Config, root: string,
                          fetch: string -> Result<string>, write: (string, string) -> bool): (r: seq<Chapter>)
    ensures |r| == |chs|
    ensures forall i :: 0 <= i < |chs| && !Missing(chs[i], s.id) ==> r[i] == chs[i]
    ensures forall i :: 0 <= i < |chs| && Missing(chs[i], s.id) ==>
      r[i] == Attempt(chs[i], s, cfg, root, fetch, write)
  {
    seq(|chs|, i requires 0 <= i < |chs| =>
      if Missing(chs[i], s.id) then Attempt(chs[i], s, cfg, root, fetch, write) else chs[i])
  }

  /** `download_missing_chapters` (the library-manager version): the database afterwards, or the
      error raised before any chapter is attempted. */
  function DownloadMissingSpec(db: Db, providers: seq<Provider>, storyId: nat, cfg: Config, root: string,
                               fetch: string -> Result<string>, write: (string, string) -> bool): (r: (Db, Result<()>))
    ensures r.1.Err? ==> r.0 == db
    ensures StoryPos(db.stories, storyId).None? ==> r.1 == Err("Story with ID " + NatToString(storyId) + " not found.")
    ensures r.1.Ok? <==> StoryPos(db.stories, storyId).Some?
                         && ProviderForUrl(providers, db.stories[StoryPos(db.stories, storyId).value].sourceUrl).Some?
    ensures r.1.Ok? ==> r.0 == db.(chapters := AttemptMissing(db.chapters, db.stories[StoryPos(db.stories, storyId).value],
                                                             cfg, root, fetch, write))
  {
    match StoryPos(db.stories, storyId)
    case None => (db, Err("Story with ID " + NatToString(storyId) + " not found."))
    case Some(k) =>
      var s := db.stories[k];
      if ProviderForUrl(providers, s.sourceUrl).None? then (db, Err("Provider not found for story URL: " + s.sourceUrl))
      else (db.(chapters := AttemptMissing(db.chapters, s, cfg, root, fetch, write)), Ok(()))
  }

  /** `download_missing_chapters` on the session's store, one chapter at a time. */
  method DownloadMissingChapters(lib: Library, providers: seq<Provider>, storyId: nat, cfg: Config, root: string,
                                 fetch: string -> Result<string>, write: (string, string) -> bool) returns (r: Result<()>)
    modifies lib
    ensures (lib.State(), r) == DownloadMissingSpec(old(lib.State()), providers, storyId, cfg, root, fetch, write)
  {
    var pos := StoryPos(lib.stories, storyId);
    if pos.None? {
      return Err("Story with ID " + NatToString(storyId) + " not found.");
    }
    var s := lib.stories[pos.value];
    if ProviderForUrl(providers, s.sourceUrl).None? {
      return Err("Provider not found for story URL: " + s.sourceUrl);
    }
    var orig := lib.chapters;
    var chapters := orig;
    var i := 0;
    while i < |orig|
      invariant 0 <= i <= |orig| == |chapters|
      invariant forall k :: 0 <= k < i && Missing(orig[k], storyId) ==> chapters[k] == Attempt(orig[k], s, cfg, root, fetch, write)
      invariant forall k :: 0 <= k < i && !Missing(orig[k], storyId) ==> chapters[k] == orig[k]
      invariant forall k :: i <= k < |orig| ==> chapters[k] == orig[k]
    {
      if Missing(chapters[i], storyId) {
        chapters := chapters[i := Attempt(chapters[i], s, cfg, root, fetch, write)];
      }
      i := i + 1;
    }
    assert chapters == AttemptMissing(orig, s, cfg, root, fetch, write);
    lib.chapters := chapters;
    r := Ok(());
  }
}
