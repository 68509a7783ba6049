/**
 * The library's stored rows (stories, chapters, download history) and the notifications the
 * story manager dispatches, held in memory in place of the database tables.
 */
module Store {
  import opened Wrappers

  /** The `status` column of a chapter. */
  datatype ChapterStatus = Pending | Downloaded | Failed

  /** A row of the `chapters` table. */
  datatype Chapter = Chapter(
    id: nat,
    storyId: nat,
    title: string,
    sourceUrl: string,
    index: Option<int>,
    status: ChapterStatus,
    localPath: Option<string>,
    isDownloaded: bool,
    publishedDate: Option<int>,
    volumeTitle: Option<string>,
    volumeNumber: Option<int>)

  /** A row of the `stories` table (tags, rating and language are not modelled). */
  datatype Story = Story(
    id: nat,
    title: string,
    author: string,
    sourceUrl: string,
    coverPath: Option<string>,
    description: Option<string>,
    publicationStatus: Option<string>,
    status: string,
    profileId: Option<int>,
    providerName: Option<string>,
    isMonitored: bool,
    notifyOnNewChapter: bool,
    lastChecked: Option<int>,
    lastUpdated: Option<int>)

  /** A row of the `download_history` table. */
  datatype HistoryRow = HistoryRow(chapterId: nat, storyId: nat, status: ChapterStatus, details: string)

  /** One call of the notification dispatcher: the event and its context. */
  datatype Notice = Notice(event: string, storyTitle: string, newChapters: nat, storyId: nat)

  /** The whole store. `nextStoryId` and `nextChapterId` are the ids the database would assign next. */
  datatype Db = Db(
    stories: seq<Story>,
    chapters: seq<Chapter>,
    history: seq<HistoryRow>,
    notices: seq<Notice>,
    nextStoryId: nat,
    nextChapterId: nat)

  /** Chapter ids increase along the table and stay below the next id to assign. */
  predicate ChapterIdsOrdered(chs: seq<Chapter>, next: nat) {
    (forall i, j :: 0 <= i < j < |chs| ==> chs[i].id < chs[j].id)
    && forall i :: 0 <= i < |chs| ==> chs[i].id < next
  }

  /** Story ids increase along the table and stay below the next id to assign; source URLs are unique. */
  predicate StoriesWellFormed(sts: seq<Story>, next: nat) {
    (forall i, j :: 0 <= i < j < |sts| ==> sts[i].id < sts[j].id && sts[i].sourceUrl != sts[j].sourceUrl)
    && forall i :: 0 <= i < |sts| ==> sts[i].id < next
  }

  /** Every chapter refers to a story id already handed out. */
  predicate ChapterOwnersIssued(chs: seq<Chapter>, nextStory: nat) {
    forall i :: 0 <= i < |chs| ==> chs[i].storyId < nextStory
  }

  /** The primary-key, unique and foreign-key constraints of the tables. */
  predicate Valid(db: Db) {
    ChapterIdsOrdered(db.chapters, db.nextChapterId) && StoriesWellFormed(db.stories, db.nextStoryId)
    && ChapterOwnersIssued(db.chapters, db.nextStoryId)
  }

  /** The position of the story with id `id`. */
  function StoryPos(sts: seq<Story>, id: nat): (r: Option<nat>)
    ensures r.Some? ==> r.value < |sts| && sts[r.value].id == id
    ensures r.Some? ==> forall j :: 0 <= j < r.value ==> sts[j].id != id
    ensures r.None? <==> forall j :: 0 <= j < |sts| ==> sts[j].id != id
  {
    if sts == [] then None
    else if sts[0].id == id then Some(0)
    else
      match StoryPos(sts[1..], id)
      case None => None
      case Some(k) => Some(k + 1)
  }

  /** The position of the story whose source URL is `url`. */
  function StoryPosByUrl(sts: seq<Story>, url: string): (r: Option<nat>)
    ensures r.Some? ==> r.value < |sts| && sts[r.value].sourceUrl == url
    ensures r.Some? ==> forall j :: 0 <= j < r.value ==> sts[j].sourceUrl != url
    ensures r.None? <==> forall j :: 0 <= j < |sts| ==> sts[j].sourceUrl != url
  {
    if sts == [] then None
    else if sts[0].sourceUrl == url then Some(0)
    else
      match StoryPosByUrl(sts[1..], url)
      case None => None
      case Some(k) => Some(k + 1)
  }

  /** A story replaced by one with the same source URL is still the one found for that URL. */
  lemma StoryPosAfterPut(sts: seq<Story>, url: string, k: nat, s: Story)
    requires StoryPosByUrl(sts, url) == Some(k) && s.sourceUrl == url
    ensures StoryPosByUrl(sts[k := s], url) == Some(k)
  {
    var t := sts[k := s];
    var r := StoryPosByUrl(t, url);
    assert t[k].sourceUrl == url;
    assert r.Some? && r.value <= k;
  }

  /** A story appended for a URL no story has is the one found for it. */
  lemma StoryPosAfterAppend(sts: seq<Story>, url: string, s: Story)
    requires StoryPosByUrl(sts, url).None? && s.sourceUrl == url
    ensures StoryPosByUrl(sts + [s], url) == Some(|sts|)
  {
    var t := sts + [s];
    var r := StoryPosByUrl(t, url);
    assert t[|sts|].sourceUrl == url;
    assert r.Some? && r.value <= |sts|;
  }

  /** The chapters of story `sid`, in table order (`story.chapters`). */
  function ChaptersOf(chs: seq<Chapter>, sid: nat): (r: seq<Chapter>)
    ensures |r| <= |chs|
    ensures forall c :: c in r <==> c in chs && c.storyId == sid
    decreases |chs|
  {
    if chs == [] then []
    else
      var rest := ChaptersOf(chs[..|chs| - 1], sid);
      var c := chs[|chs| - 1];
      if c.storyId == sid then rest + [c] else rest
  }

  /** The session's view of the database: every operation reads and rewrites these fields. */
  class Library {
    var stories: seq<Story>
    var chapters: seq<Chapter>
    var history: seq<HistoryRow>
    var notices: seq<Notice>
    var nextStoryId: nat
    var nextChapterId: nat

    /** An empty database whose first ids are 1, as an autoincrement key starts. */
    constructor()
      ensures State() == Db([], [], [], [], 1, 1)
      ensures Valid(State())
    {
      stories := [];
      chapters := [];
      history := [];
      notices := [];
      nextStoryId := 1;
      nextChapterId := 1;
    }

    function State(): Db
      reads this
    {
      Db(stories, chapters, history, notices, nextStoryId, nextChapterId)
    }
  }
}
