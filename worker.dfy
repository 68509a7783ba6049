/**
 * One round of the standalone download worker: take the oldest pending chapter, download it
 * with the Royal Road adapter into `saved_stories`, and mark it downloaded or failed. The
 * endless loop and its random sleep around the round are not part of this model.
 */
module Worker {
  import opened Wrappers
  import opened Store
  import opened JobManager

  /** The worker's attempt on chapter `c` of story `s`: fetch, then write; no provider lookup. */
  function WorkerAttempt(s: Story, c: Chapter, fetch: string -> Result<string>,
                         write: (string, string) -> Result<()>): (o: Outcome)
    ensures o.Saved? <==> (fetch(c.sourceUrl).Ok? && write(FilePath("saved_stories", s, c), fetch(c.sourceUrl).value).Ok?)
    ensures o.Saved? ==> o.path == FilePath("saved_stories", s, c)
  {
    match fetch(c.sourceUrl)
    case Err(m) => Error(m)
    case Ok(content) =>
      var path := FilePath("saved_stories", s, c);
      match write(path, content)
      case Err(m) => Error(m)
      case Ok(_) => Saved(path, ChapterFile(c))
  }

  /** One round of `worker`: the store afterwards. Nothing changes when no chapter is pending or
      when the picked chapter's story row is missing (the session is rolled back). */
  function WorkerStep(db: Db, fetch: string -> Result<string>, write: (string, string) -> Result<()>): (r: Db)
    ensures r.stories == db.stories && r.history == db.history && r.notices == db.notices
    ensures r.nextStoryId == db.nextStoryId && r.nextChapterId == db.nextChapterId
    ensures |r.chapters| == |db.chapters|
    ensures QueueSize(db.chapters) == 0 ==> r == db
    ensures forall i :: 0 <= i < |db.chapters| && r.chapters[i] != db.chapters[i] ==> PickPending(db.chapters) == Some(i)
    ensures PickPending(db.chapters).Some? && StoryPos(db.stories, db.chapters[PickPending(db.chapters).value].storyId).None? ==> r == db
    ensures PickPending(db.chapters).Some? && StoryPos(db.stories, db.chapters[PickPending(db.chapters).value].storyId).Some? ==>
      var k := PickPending(db.chapters).value;
      var s := db.stories[StoryPos(db.stories, db.chapters[k].storyId).value];
      r.chapters[k] == Settled(db.chapters[k], WorkerAttempt(s, db.chapters[k], fetch, write))
      && QueueSize(r.chapters) == QueueSize(db.chapters) - 1
  {
    match PickPending(db.chapters)
    case None => db
    case Some(k) =>
      var c := db.chapters[k];
      match StoryPos(db.stories, c.storyId)
      case None => db
      case Some(p) =>
        var settled := Settled(c, WorkerAttempt(db.stories[p], c, fetch, write));
        QueueSizeSettle(db.chapters, k, settled);
        db.(chapters := db.chapters[k := settled])
  }

  /** A failed round changes the picked chapter's status to failed and nothing else. */
  lemma WorkerFailureOnlyMarks(db: Db, fetch: string -> Result<string>, write: (string, string) -> Result<()>)
    requires PickPending(db.chapters).Some?
    requires var c := db.chapters[PickPending(db.chapters).value];
      StoryPos(db.stories, c.storyId).Some? && WorkerAttempt(db.stories[StoryPos(db.stories, c.storyId).value], c, fetch, write).Error?
    ensures var k := PickPending(db.chapters).value;
      WorkerStep(db, fetch, write) == db.(chapters := db.chapters[k := db.chapters[k].(status := Failed)])
  {
  }

  /** One round of `worker` on the session's store. */
  method WorkerRound(lib: Library, fetch: string -> Result<string>, write: (string, string) -> Result<()>)
    modifies lib
    ensures lib.State() == WorkerStep(old(lib.State()), fetch, write)
  {
    var pick := PickPending(lib.chapters);
    if pick.None? {
      return;
    }
    var k := pick.value;
    var c := lib.chapters[k];
    var pos := StoryPos(lib.stories, c.storyId);
    if pos.None? {
      return;
    }
    var s := lib.stories[pos.value];
    var content := fetch(c.sourceUrl);
    if content.Err? {
      lib.chapters := lib.chapters[k := c.(status := Failed)];
      return;
    }
    var path := FilePath("saved_stories", s, c);
    var written := write(path, content.value);
    if written.Err? {
      lib.chapters := lib.chapters[k := c.(status := Failed)];
    } else {
      lib.chapters := lib.chapters[k := c.(localPath := Some(path), isDownloaded := true, status := Downloaded)];
    }
  }
}
