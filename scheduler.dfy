/**
 * The standalone update check: for every monitored story, compare the number of chapters the
 * provider lists with the number stored, and re-add the story through the first story manager
 * when the provider lists more. Provider answers are inputs keyed by story URL.
 */
module Scheduler {
  import opened Wrappers
  import opened Text
  import opened Store
  import opened ChapterDiff
  import opened Registry
  import opened StoryManager
  import opened LegacyStoryManager

  /** The monitored stories, in table order, as the check reads them when it starts. */
  function MonitoredStories(sts: seq<Story>): (r: seq<Story>)
    ensures forall s :: s in r <==> s in sts && s.isMonitored
    decreases |sts|
  {
    if sts == [] then []
    else
      var rest := MonitoredStories(sts[..|sts| - 1]);
      var s := sts[|sts| - 1];
      assert sts == sts[..|sts| - 1] + [s];
      if s.isMonitored then rest + [s] else rest
  }

  /** The monitored stories of all but the last row, then the last row if it is monitored. */
  lemma MonitoredStoriesUnfold(sts: seq<Story>)
    requires sts != []
    ensures MonitoredStories(sts) == MonitoredStories(sts[..|sts| - 1]) + (if sts[|sts| - 1].isMonitored then [sts[|sts| - 1]] else [])
  {
  }

  /** The stories come in table order, each monitored one once: a longer table's list extends
      that of its prefix. */
  lemma {:induction false} MonitoredStoriesAppend(a: seq<Story>, b: seq<Story>)
    ensures MonitoredStories(a + b) == MonitoredStories(a) + MonitoredStories(b)
    ensures |b| == 1 ==> MonitoredStories(b) == if b[0].isMonitored then b else []
    decreases |b|
  {
    if b == [] {
      assert a + b == a;
    } else {
      var n := |b| - 1;
      var ab := a + b;
      assert ab[..|ab| - 1] == a + b[..n] && ab[|ab| - 1] == b[n];
      MonitoredStoriesAppend(a, b[..n]);
      MonitoredStoriesUnfold(ab);
      MonitoredStoriesUnfold(b);
      var tail := if b[n].isMonitored then [b[n]] else [];
      AppendAssoc(MonitoredStories(a), MonitoredStories(b[..n]), tail);
      if |b| == 1 {
        assert b[..n] == [];
        assert b == [b[0]];
      }
    }
  }

  /** The check of one story `s`: a story without provider, whose listing fails, or with no more
      listed chapters than stored ones is left alone; otherwise `add_story(s.source_url)` runs
      and, should it raise, is rolled back. */
  function CheckOne(db: Db, s: Story, metaOf: string -> Result<Metadata>,
                    listingOf: string -> Result<seq<ListingItem>>): (r: Db)
    ensures r != db ==> ProviderForUrl(RoyalRoadOnly, s.sourceUrl).Some? && listingOf(s.sourceUrl).Ok?
                        && |listingOf(s.sourceUrl).value| > |ChaptersOf(db.chapters, s.id)|
    ensures ProviderForUrl(RoyalRoadOnly, s.sourceUrl).Some? && listingOf(s.sourceUrl).Ok?
            && |listingOf(s.sourceUrl).value| > |ChaptersOf(db.chapters, s.id)| ==>
              r == LegacyAddSpec(db, s.sourceUrl, metaOf(s.sourceUrl), listingOf(s.sourceUrl)).0
    ensures r.history == db.history && r.notices == db.notices && db.chapters <= r.chapters
    ensures |db.stories| <= |r.stories|
    ensures forall i :: 0 <= i < |db.stories| && db.stories[i].sourceUrl != s.sourceUrl ==> r.stories[i] == db.stories[i]
  {
    if ProviderForUrl(RoyalRoadOnly, s.sourceUrl).None? then db
    else match listingOf(s.sourceUrl)
      case Err(_) => db
      case Ok(remote) =>
        if |remote| > |ChaptersOf(db.chapters, s.id)| then LegacyAddSpec(db, s.sourceUrl, metaOf(s.sourceUrl), listingOf(s.sourceUrl)).0
        else db
  }

  /** The stories `sts` checked in turn. */
  function CheckAll(db: Db, sts: seq<Story>, metaOf: string -> Result<Metadata>,
                    listingOf: string -> Result<seq<ListingItem>>): (r: Db)
    ensures r.history == db.history && r.notices == db.notices && db.chapters <= r.chapters
    ensures |db.stories| <= |r.stories|
    decreases |sts|
  {
    if sts == [] then db
    else CheckOne(CheckAll(db, sts[..|sts| - 1], metaOf, listingOf), sts[|sts| - 1], metaOf, listingOf)
  }

  /** A story whose URL none of the checked stories has is left as it was. */
  lemma {:induction false} CheckAllLeavesOthers(db: Db, sts: seq<Story>, metaOf: string -> Result<Metadata>,
                                                listingOf: string -> Result<seq<ListingItem>>, i: nat)
    requires i < |db.stories| && forall s :: s in sts ==> s.sourceUrl != db.stories[i].sourceUrl
    ensures CheckAll(db, sts, metaOf, listingOf).stories[i] == db.stories[i]
    decreases |sts|
  {
    if sts != [] {
      var init := sts[..|sts| - 1];
      assert forall s :: s in init ==> s in sts;
      CheckAllLeavesOthers(db, init, metaOf, listingOf, i);
      assert sts[|sts| - 1] in sts;
    }
  }

  /** `check_for_updates`: the monitored stories checked in table order. */
  function CheckForUpdatesSpec(db: Db, metaOf: string -> Result<Metadata>, listingOf: string -> Result<seq<ListingItem>>): (r: Db)
    ensures r.history == db.history && r.notices == db.notices && db.chapters <= r.chapters
  {
    CheckAll(db, MonitoredStories(db.stories), metaOf, listingOf)
  }

  /** Only monitored stories are examined: with source URLs unique, an unmonitored story's row
      is left as it was. */
  lemma SkipsUnmonitored(db: Db, metaOf: string -> Result<Metadata>, listingOf: string -> Result<seq<ListingItem>>, i: nat)
    requires Valid(db) && i < |db.stories| && !db.stories[i].isMonitored
    ensures CheckForUpdatesSpec(db, metaOf, listingOf).stories[i] == db.stories[i]
  {
    var sts := MonitoredStories(db.stories);
    forall s | s in sts
      ensures s.sourceUrl != db.stories[i].sourceUrl
    {
      var j :| 0 <= j < |db.stories| && db.stories[j] == s;
      assert j != i;
    }
    CheckAllLeavesOthers(db, sts, metaOf, listingOf, i);
  }

  /** The check of one story on the session's store. */
  method CheckStory(lib: Library, s: Story, metaOf: string -> Result<Metadata>, listingOf: string -> Result<seq<ListingItem>>)
    modifies lib
    ensures lib.State() == CheckOne(old(lib.State()), s, metaOf, listingOf)
  {
    if ProviderForUrl(RoyalRoadOnly, s.sourceUrl).Some? {
      var remote := listingOf(s.sourceUrl);
      if remote.Ok? && |remote.value| > |ChaptersOf(lib.chapters, s.id)| {
        var _ := LegacyAddStory(lib, s.sourceUrl, metaOf(s.sourceUrl), listingOf(s.sourceUrl));
      }
    }
  }

  /** `check_for_updates` on the session's store. */
  method CheckForUpdates(lib: Library, metaOf: string -> Result<Metadata>, listingOf: string -> Result<seq<ListingItem>>)
    modifies lib
    ensures lib.State() == CheckForUpdatesSpec(old(lib.State()), metaOf, listingOf)
  {
    var sts := MonitoredStories(lib.stories);
    ghost var db0 := lib.State();
    var i := 0;
    while i < |sts|
      invariant 0 <= i <= |sts|
      invariant lib.State() == CheckAll(db0, sts[..i], metaOf, listingOf)
    {
      assert sts[..i + 1][..i] == sts[..i];
      CheckStory(lib, sts[i], metaOf, listingOf);
      i := i + 1;
    }
    assert sts[..|sts|] == sts;
  }
}
