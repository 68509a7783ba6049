/**
 * The database module's `sync_story`: fetch a Royal Road story's metadata and chapter listing
 * and bring the stored story up to date, numbering new chapters by listing position and
 * renumbering stored ones.
 */
module LegacyDatabase {
  import opened Wrappers
  import opened Text
  import opened Store
  import opened ChapterDiff
  import opened Registry
  import opened StoryManager
  import opened LegacyStoryManager

  /** The story row `sync_story` creates for a URL not stored yet. */
  function SyncedStory(id: nat, url: string, m: Metadata): Story
  {
    Story(id, ValueOr(m.title, "Unknown"), ValueOr(m.author, "Unknown"), url, None, None, None,
          "Monitoring", None, None, true, true, None, None)
  }

  /** The id of the story a sync of `url` writes to: the stored one, or the next id. */
  function SyncTarget(db: Db, url: string): nat
  {
    match StoryPosByUrl(db.stories, url)
    case None => db.nextStoryId
    case Some(k) => db.stories[k].id
  }

  /** The `last_updated` of the story before the sync: none for a story not stored yet. */
  function PreviousUpdate(db: Db, url: string): Option<int>
  {
    match StoryPosByUrl(db.stories, url)
    case None => None
    case Some(k) => db.stories[k].lastUpdated
  }

  /** `sync_story`: the database afterwards, or the error raised (nothing written then). */
  function SyncStorySpec(db: Db, url: string, meta: Result<Metadata>, listing: Result<seq<ListingItem>>, now: int): (r: (Db, Result<()>))
    ensures r.1.Err? ==> r.0 == db
    ensures r.1.Err? <==> ProviderForUrl(RoyalRoadOnly, url).None? || meta.Err? || listing.Err?
    ensures ProviderForUrl(RoyalRoadOnly, url).None? ==> r.1 == Err("No provider found for URL: " + url)
    ensures r.1.Ok? ==> r.0.history == db.history && r.0.notices == db.notices
    ensures r.1.Ok? ==> r.0.chapters == Diff(LegacySync, db.chapters, SyncTarget(db, url), listing.value, db.nextChapterId).chapters
    ensures r.1.Ok? ==> |r.0.chapters| == |db.chapters| + |NewPositions(db.chapters, SyncTarget(db, url), listing.value)|
    ensures r.1.Ok? ==> var p := StoryPosByUrl(r.0.stories, url);
      p.Some? && r.0.stories[p.value].id == SyncTarget(db, url)
      && r.0.stories[p.value].lastUpdated
         == (if |NewPositions(db.chapters, SyncTarget(db, url), listing.value)| > 0 then Some(now) else PreviousUpdate(db, url))
    ensures r.1.Ok? ==> r.0.nextChapterId == Diff(LegacySync, db.chapters, SyncTarget(db, url), listing.value, db.nextChapterId).nextId
    ensures r.1.Ok? && StoryPosByUrl(db.stories, url).None? ==>
      r.0.nextStoryId == db.nextStoryId + 1 && |r.0.stories| == |db.stories| + 1 && r.0.stories[..|db.stories|] == db.stories
      && r.0.stories[|db.stories|].(lastUpdated := None) == SyncedStory(db.nextStoryId, url, meta.value)
    ensures r.1.Ok? && StoryPosByUrl(db.stories, url).Some? ==> var k := StoryPosByUrl(db.stories, url).value;
      r.0.nextStoryId == db.nextStoryId && |r.0.stories| == |db.stories|
      && (forall i :: 0 <= i < |db.stories| && i != k ==> r.0.stories[i] == db.stories[i])
      && r.0.stories[k].(lastUpdated := db.stories[k].lastUpdated)
         == db.stories[k].(title := ValueOr(meta.value.title, db.stories[k].title),
                           author := ValueOr(meta.value.author, db.stories[k].author))
  {
    if ProviderForUrl(RoyalRoadOnly, url).None? then (db, Err("No provider found for URL: " + url))
    else if meta.Err? then (db, Err(meta.message))
    else if listing.Err? then (db, Err(listing.message))
    else
      var k := StoryPosByUrl(db.stories, url);
      var s := if k.None? then SyncedStory(db.nextStoryId, url, meta.value)
               else db.stories[k.value].(title := ValueOr(meta.value.title, db.stories[k.value].title),
                                         author := ValueOr(meta.value.author, db.stories[k.value].author));
      var d := Diff(LegacySync, db.chapters, s.id, listing.value, db.nextChapterId);
      DiffAppends(LegacySync, db.chapters, s.id, listing.value, db.nextChapterId);
      var s2 := if d.added > 0 then s.(lastUpdated := Some(now)) else s;
      if k.None? then
        var stories := db.stories + [s2];
        StoryPosAfterAppend(db.stories, url, s2);
        (db.(stories := stories, nextStoryId := db.nextStoryId + 1, chapters := d.chapters, nextChapterId := d.nextId), Ok(()))
      else
        var stories := db.stories[k.value := s2];
        StoryPosAfterPut(db.stories, url, k.value, s2);
        (db.(stories := stories, chapters := d.chapters, nextChapterId := d.nextId), Ok(()))
  }

  /** After a sync every listed URL is stored, no stored row changed anything but its index, and
      each stored row some listing item names carries that item's position as its index. */
  lemma SyncStoresListing(db: Db, url: string, meta: Result<Metadata>, listing: Result<seq<ListingItem>>, now: int)
    requires SyncStorySpec(db, url, meta, listing, now).1.Ok?
    ensures var r := SyncStorySpec(db, url, meta, listing, now).0;
      var sid := SyncTarget(db, url);
      (forall p :: 0 <= p < |listing.value| ==> Stored(r.chapters, sid, listing.value[p].url))
      && (forall k :: 0 <= k < |db.chapters| ==> r.chapters[k] == db.chapters[k].(index := r.chapters[k].index))
  {
    var sid := SyncTarget(db, url);
    DiffStoresListing(LegacySync, db.chapters, sid, listing.value, db.nextChapterId);
    ReindexOnly(db.chapters, sid, listing.value, db.nextChapterId);
  }

  /** The index-only reconciliation of the sync changes nothing of a stored row but its index. */
  lemma {:induction false} ReindexOnly(orig: seq<Chapter>, sid: nat, items: seq<ListingItem>, next: nat)
    ensures forall k :: 0 <= k < |orig| ==>
      Diff(LegacySync, orig, sid, items, next).chapters[k] == orig[k].(index := Diff(LegacySync, orig, sid, items, next).chapters[k].index)
    decreases |items|
  {
    if items != [] {
      var pos := |items| - 1;
      ReindexOnly(orig, sid, items[..pos], next);
    }
  }

  /** A stored row that a second sync reconciles last at position `p` was reconciled last at
      `p` by the first sync too: the first sync kept every stored row's story and URL. */
  lemma StoredLastTouch(orig: seq<Chapter>, rows: seq<Chapter>, sid: nat, items: seq<ListingItem>, k: nat, p: nat)
    requires k < |orig| <= |rows|
    requires forall j :: 0 <= j < |orig| ==> Kept(orig[j], rows[j])
    requires LastTouch(LegacySync, rows, sid, items, k, p)
    ensures LastTouch(LegacySync, orig, sid, items, k, p)
  {
    var url := items[p].url;
    assert Owns(orig[k], sid, url);
    forall j | k < j < |orig|
      ensures !Owns(orig[j], sid, url)
    {
      assert Kept(orig[j], rows[j]) && !Owns(rows[j], sid, url);
    }
    assert LastRow(orig, sid, url) == Some(k);
    forall q | p < q < |items|
      ensures MatchRow(LegacySync, orig, sid, items[q].url) == Some(k) ==> items[q].url == url
    {
    }
  }

  /** `rows` holds the stored rows `orig` followed by one row per position of `u`: the positions
      of the listing items not stored before, in increasing order, each row belonging to the
      story, with the item's URL and the position plus one as index. */
  predicate InsertedAt(orig: seq<Chapter>, rows: seq<Chapter>, sid: nat, items: seq<ListingItem>, u: seq<nat>) {
    && (forall m :: 0 <= m < |u| ==> u[m] < |items| && !Stored(orig, sid, items[u[m]].url))
    && (forall q :: 0 <= q < |items| && !Stored(orig, sid, items[q].url) ==> q in u)
    && (forall m, n :: 0 <= m < n < |u| ==> u[m] < u[n])
    && |rows| == |orig| + |u|
    && (forall m :: 0 <= m < |u| ==> Owns(rows[|orig| + m], sid, items[u[m]].url) && rows[|orig| + m].index == Some(u[m] + 1))
  }

  /** The sync's inserted rows have that shape. */
  lemma InsertedRowsShape(orig: seq<Chapter>, sid: nat, items: seq<ListingItem>, next: nat)
    ensures InsertedAt(orig, Diff(LegacySync, orig, sid, items, next).chapters, sid, items, NewPositions(orig, sid, items))
  {
    DiffAppends(LegacySync, orig, sid, items, next);
  }

  /** A row the first sync inserted, and that a second sync reconciles last at position `p`,
      was inserted for position `p`. */
  lemma InsertedLastTouch(orig: seq<Chapter>, rows: seq<Chapter>, sid: nat, items: seq<ListingItem>, u: seq<nat>, k: nat, p: nat)
    requires InsertedAt(orig, rows, sid, items, u) && |orig| <= k < |rows|
    requires LastTouch(LegacySync, rows, sid, items, k, p)
    ensures rows[k].index == Some(p + 1)
  {
    var m := k - |orig|;
    var q := u[m];
    var url := items[p].url;
    assert Owns(rows[k], sid, items[q].url) && rows[k].index == Some(q + 1);
    assert Owns(rows[k], sid, url) by {
      assert LastRow(rows, sid, url) == Some(k);
    }
    assert q <= p by {
      assert MatchRow(LegacySync, rows, sid, items[q].url) == Some(k);
    }
    assert p <= q by {
      assert !Stored(orig, sid, items[q].url);
      assert p in u;
      var m' :| 0 <= m' < |u| && u[m'] == p;
      assert Owns(rows[|orig| + m'], sid, url);
      assert m' <= m;
    }
  }

  /** A row a second sync reconciles last at position `p` already carries index p + 1. */
  lemma IndexAtLastTouch(orig: seq<Chapter>, sid: nat, items: seq<ListingItem>, next: nat, k: nat, p: nat)
    requires LastTouch(LegacySync, Diff(LegacySync, orig, sid, items, next).chapters, sid, items, k, p)
    ensures k < |Diff(LegacySync, orig, sid, items, next).chapters|
    ensures Diff(LegacySync, orig, sid, items, next).chapters[k].index == Some(p + 1)
  {
    var rows := Diff(LegacySync, orig, sid, items, next).chapters;
    if k < |orig| {
      DiffKeepsStoredRows(LegacySync, orig, sid, items, next);
      StoredLastTouch(orig, rows, sid, items, k, p);
      DiffReindexes(LegacySync, orig, sid, items, next);
    } else {
      InsertedRowsShape(orig, sid, items, next);
      InsertedLastTouch(orig, rows, sid, items, NewPositions(orig, sid, items), k, p);
    }
  }

  /** A second sync with the same listing leaves the chapter table exactly as the first left it. */
  lemma SyncReconcileIdempotent(orig: seq<Chapter>, sid: nat, items: seq<ListingItem>, next: nat)
    ensures var st := Diff(LegacySync, orig, sid, items, next);
      Diff(LegacySync, st.chapters, sid, items, st.nextId).chapters == st.chapters
  {
    var st := Diff(LegacySync, orig, sid, items, next);
    var rows := st.chapters;
    var st2 := Diff(LegacySync, rows, sid, items, st.nextId);
    DiffIdempotent(LegacySync, orig, sid, items, next);
    ReindexOnly(rows, sid, items, st.nextId);
    DiffKeepsStoredRows(LegacySync, rows, sid, items, st.nextId);
    DiffReindexes(LegacySync, rows, sid, items, st.nextId);
    forall k | 0 <= k < |rows|
      ensures st2.chapters[k] == rows[k]
    {
      if Touched(LegacySync, rows, sid, items, k) {
        var p0 :| 0 <= p0 < |items| && MatchRow(LegacySync, rows, sid, items[p0].url) == Some(k);
        LastTouchExists(LegacySync, rows, sid, items, k, p0);
        var p :| LastTouch(LegacySync, rows, sid, items, k, p);
        IndexAtLastTouch(orig, sid, items, next, k, p);
      }
    }
  }

  /** Syncing twice with the same answers: the second sync leaves the chapter table exactly as
      the first left it (it inserts nothing and re-gives every index its value) and leaves the
      story's `last_updated` as the first sync set it. */
  lemma SyncTwiceAddsNothing(db: Db, url: string, meta: Result<Metadata>, listing: Result<seq<ListingItem>>, now: int, later: int)
    requires SyncStorySpec(db, url, meta, listing, now).1.Ok?
    ensures var first := SyncStorySpec(db, url, meta, listing, now).0;
      var second := SyncStorySpec(first, url, meta, listing, later);
      var p := StoryPosByUrl(second.0.stories, url).value;
      second.1.Ok? && second.0.chapters == first.chapters && second.0.nextChapterId == first.nextChapterId
      && second.0.stories[p].lastUpdated == first.stories[StoryPosByUrl(first.stories, url).value].lastUpdated
  {
    var first := SyncStorySpec(db, url, meta, listing, now).0;
    var sid := SyncTarget(db, url);
    assert SyncTarget(first, url) == sid;
    DiffStoresListing(LegacySync, db.chapters, sid, listing.value, db.nextChapterId);
    NothingNew(first.chapters, sid, listing.value);
    SyncReconcileIdempotent(db.chapters, sid, listing.value, db.nextChapterId);
    DiffAppends(LegacySync, first.chapters, sid, listing.value, first.nextChapterId);
  }

  /** `sync_story` on the session's store. */
  method SyncStory(lib: Library, url: string, meta: Result<Metadata>, listing: Result<seq<ListingItem>>, now: int)
    returns (r: Result<()>)
    modifies lib
    ensures (lib.State(), r) == SyncStorySpec(old(lib.State()), url, meta, listing, now)
  {
    if ProviderForUrl(RoyalRoadOnly, url).None? {
      return Err("No provider found for URL: " + url);
    }
    if meta.Err? {
      return Err(meta.message);
    }
    if listing.Err? {
      return Err(listing.message);
    }
    var k := StoryPosByUrl(lib.stories, url);
    if k.None? {
      var s := SyncedStory(lib.nextStoryId, url, meta.value);
      var added := Reconcile(lib, LegacySync, s.id, listing.value);
      lib.stories := lib.stories + [if added > 0 then s.(lastUpdated := Some(now)) else s];
      lib.nextStoryId := lib.nextStoryId + 1;
    } else {
      var old_ := lib.stories[k.value];
      var s := old_.(title := ValueOr(meta.value.title, old_.title), author := ValueOr(meta.value.author, old_.author));
      var added := Reconcile(lib, LegacySync, s.id, listing.value);
      lib.stories := lib.stories[k.value := if added > 0 then s.(lastUpdated := Some(now)) else s];
    }
    DiffAppends(LegacySync, old(lib.chapters), SyncTarget(old(lib.State()), url), listing.value, old(lib.nextChapterId));
    r := Ok(());
  }
}
