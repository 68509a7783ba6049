# Scrollarr bookkeeping core, in Dafny

Scrollarr keeps a library of serial web stories in step with the sites they come from. It finds
the source adapter ("provider") for a story URL. It reconciles the chapter listing the provider
returns with the chapters already stored. It drains the queue of pending chapters, writing each
to disk. It predicts when the next chapter will appear. It notifies e-mail and webhook targets,
and it names the files and folders of the library and of the compiled e-books.

This project models that bookkeeping and proves what the code promises about it:

- The database tables (stories, chapters, download history) are in-memory sequences.
  - Pure specification functions over a `Store.Db` value say what each operation leaves.
  - `Store.Library` holds the same tables as fields. The operations on it are methods whose
    `ensures` tie the new state to those functions.
- Every answer from the outside world is a parameter:
  - a provider's metadata and chapter listing;
  - a chapter fetch, a file write, whether a file exists and what it holds;
  - the SMTP outcome of an attempt, and the current time.
- Timestamps are whole seconds. Averages are kept exactly, as a numerator over a denominator.

The modules follow the source files:

- `Store`: the tables.
- `ChapterDiff`: the chapter-list reconciliation shared by all the story managers.
- `StoryManager`: the `scrollarr` story manager.
- `LegacyStoryManager`: the top-level story manager.
- `LegacyDatabase`: `sync_story`.
- `JobManager`, `Worker`, `Scheduler`: the download queue and the update sweeps.
- `Registry`: the provider dispatcher and its reload and search.
- `Prediction`: the release schedule and the calendar.
- `Notifications`, `LibraryPaths`, `Ebook`: notifications, file naming, and the e-book builder.
- `ForumThreads`, `QqAllPosts`, `Wattpad`, `Ao3`: the source adapters.
- `Text` and `Wrappers` hold the string helpers and `Option`/`Result`.

## Model

| member | source | states |
|---|---|---|
| ChapterDiff.FirstRow | scrollarr/story_manager.py:588-599 | the stored row a URL reconciles in `check_story_updates`/`update_library` is the first row of the story with that URL, and there is none exactly when no row has it |
| ChapterDiff.LastRow | scrollarr/story_manager.py:167 | in `add_story` the row a URL reconciles is the last row with that URL, since a dict keyed by URL keeps the last one |
| ChapterDiff.MatchRow | scrollarr/story_manager.py:176 | a listing item matches a stored row exactly when the story already has a row with its URL |
| ChapterDiff.Diff | scrollarr/story_manager.py:170-201 | the reconciliation adds exactly one row per inserted item and advances the id counter by that many |
| ChapterDiff.NewPositions | scrollarr/story_manager.py:176 | the unseen listing positions are exactly those whose URL the story has no row for, in increasing order |
| ChapterDiff.DiffAppends | scrollarr/story_manager.py:176-188 | the number inserted is the number of unseen items, and the m-th new row is the one made for the m-th unseen item, with id next+m |
| ChapterDiff.NewRowIsInserted | scrollarr/story_manager.py:177-186 | an unseen item at position p becomes a pending, not-downloaded row of the story with index p+1, its title, URL, date and volume title, and volume number 1 when the item has none |
| ChapterDiff.NewRowAt | scrollarr/story_manager.py:177-188 | every row past the stored ones is such an inserted row, with a consecutive fresh id |
| ChapterDiff.NewRowsArePending | scrollarr/story_manager.py:177-188 | all rows past the stored ones are inserted pending rows with consecutive fresh ids |
| ChapterDiff.DiffKeepsStoredRows | scrollarr/story_manager.py:189-201 | a stored row keeps its id, story, title, URL, status, local path and download flag, and a row no item reconciles is unchanged |
| ChapterDiff.DiffReindexes | scrollarr/story_manager.py:192-193 | a reconciled row ends with index = (last position that reconciled it) + 1 |
| ChapterDiff.LastTouchExists | scrollarr/story_manager.py:183-193 | a row some listing item reconciles has a last position that reconciles it |
| ChapterDiff.DiffVolumeTitles | scrollarr/story_manager.py:198-199 | a stored row's volume title is what it was, or the truthy title of an item that reconciled it |
| ChapterDiff.DiffVolumeNumbers | scrollarr/story_manager.py:200-201 | a stored row's volume number is what it was, or the truthy number of an item that reconciled it |
| ChapterDiff.DiffStoresListing | scrollarr/story_manager.py:170-201 | afterwards every listed URL has a row of the story |
| ChapterDiff.DiffIdempotent | scrollarr/story_manager.py:170-205 | a second reconciliation against the same listing inserts nothing |
| ChapterDiff.NothingNew | scrollarr/story_manager.py:176 | when every listed URL is stored there is no unseen position |
| ChapterDiff.Reconcile | scrollarr/story_manager.py:170-201 | the loop on the library's chapter table leaves exactly the rows, next id and count of the reconciliation, and no other table changes |
| ChapterDiff.DiffKeepsIdsOrdered | scrollarr/story_manager.py:177-187 | chapter ids stay strictly ascending along the table and below the next id |
| ChapterDiff.DiffKeepsOwners | scrollarr/story_manager.py:180 | new rows belong to the story being reconciled, so every chapter still names an issued story |
| StoryManager.AddStorySpec | scrollarr/story_manager.py:112-216 | `add_story`: no provider by key or URL raises "No provider found for URL: ..." and writes nothing; a new URL appends the created story under the next id; a known URL keeps the story count, returns that story's id and replaces only that story, refreshed from the metadata and stamped; the chapters and the next chapter id are those of the last-match reconciliation for the returned id |
| StoryManager.AddStory | scrollarr/story_manager.py:112-216 | the method leaves the library and result of `AddStorySpec` |
| StoryManager.AddStoryTwiceAddsNothing | scrollarr/story_manager.py:169-205 | adding the same story again with the same answers returns the same id, inserts no chapter and leaves `last_updated` as the first call set it |
| StoryManager.AddStoryKeepsValid | scrollarr/story_manager.py:137-205 | adding a story keeps ids unique and ascending and every chapter attached to a stored story |
| StoryManager.FirstMaxIndex | scrollarr/story_manager.py:238-240 | the chosen row has the largest index, and no earlier row has that index (what a stable descending sort puts first) |
| StoryManager.LastChapterInfo | scrollarr/story_manager.py:233-248 | `_get_last_chapter_info`: None for a story without chapters, otherwise url/title/volume/index of the row with the largest index; sorting fails (TypeError) exactly when two or more rows and one has no index |
| StoryManager.CheckStoryUpdatesSpec | scrollarr/story_manager.py:534-623 | a missing story raises "Story with ID n not found" and a story without provider raises "No provider found for story: <title>", both writing nothing; the check succeeds exactly when the story, its provider, the last-chapter hint and the listing are all there; the result is then the number of unseen listing URLs, the chapters are the reconciliation's, the checked story is refreshed from the metadata when that fetch succeeded (kept otherwise) and stamped with `now` and the count, other stories are unchanged, and one `on_new_chapters` notice is added iff the count is positive |
| StoryManager.CheckStoryUpdates | scrollarr/story_manager.py:534-623 | the method leaves the library and result of `CheckStoryUpdatesSpec` |
| StoryManager.CheckStoryUpdatesKeepsValid | scrollarr/story_manager.py:562-616 | a check keeps the store well formed |
| StoryManager.CheckTwiceAddsNothing | scrollarr/story_manager.py:562-616 | checking twice against the same listing reports 0 new chapters and adds no notice the second time |
| StoryManager.StoryIds | scrollarr/story_manager.py:321 | the stories `update_library` iterates, in table order |
| StoryManager.UpdateLibrarySpec | scrollarr/story_manager.py:310-427 | every story is checked in turn; ids, URLs and history are kept, and notices are only appended, each an `on_new_chapters` with a positive count |
| StoryManager.UpdateLibraryKeepsValid | scrollarr/story_manager.py:323-420 | a whole library update keeps the store well formed |
| StoryManager.UpdateLibrary | scrollarr/story_manager.py:310-427 | the method checks every story present when it starts |
| StoryManager.FailedCountZero | scrollarr/story_manager.py:635-643 | the count of failed chapters is zero exactly when the story has no failed chapter |
| StoryManager.RequeueFailed | scrollarr/story_manager.py:635-643 | the loop sets each failed chapter of the story back to pending, leaves every other row as it was, and returns how many it requeued |
| StoryManager.RetryFailedSpec | scrollarr/story_manager.py:625-653 | a missing story raises "Story with ID n not found" and writes nothing; otherwise only the chapters change and the result is the number of failed chapters |
| StoryManager.RetryRequeuesAllFailed | scrollarr/story_manager.py:635-647 | afterwards the story has no failed chapter, each one that was failed is pending, and the pending count grew by the returned count |
| StoryManager.RetryFailedChapters | scrollarr/story_manager.py:625-653 | the method leaves the library and result of `RetryFailedSpec` |
| StoryManager.Attempt | scrollarr/story_manager.py:455-477 | a chapter ends downloaded with its library path exactly when the fetch and path succeed, else it is the same row marked failed |
| StoryManager.AttemptMissing | scrollarr/story_manager.py:449-477 | every not-downloaded chapter of the story is attempted, every other row is untouched |
| StoryManager.DownloadMissingSpec | scrollarr/story_manager.py:429-480 | a missing story raises "Story with ID n not found." and a missing provider raises too, both writing nothing; otherwise the chapters are the attempted ones |
| StoryManager.DownloadMissingChapters | scrollarr/story_manager.py:429-480 | the loop, one chapter at a time, leaves the library and result of `DownloadMissingSpec` |
| Registry.IndexForUrl | core_logic.py:51-55 | the first provider that identifies the URL; none exactly when no provider does |
| Registry.IndexByKey | core_logic.py:57-61 | the first provider with the key; none exactly when no provider has it |
| Registry.AllPostsNeverByUrl | scrollarr/sources/questionablequesting.py:37-39 | the "all posts" adapter is never the provider found for a URL |
| Registry.ResolveProvider | scrollarr/story_manager.py:120-128 | a truthy key that is registered decides the provider, otherwise the URL does; none exactly when neither resolves |
| Registry.RegisterKeepsEarlierMatches | core_logic.py:45-55 | registering one more provider never changes the answer for a URL an earlier provider claims |
| Registry.RegisterKeepsEarlierKeys | core_logic.py:45-61 | likewise for lookups by key |
| Registry.LastRecordFor | scrollarr/story_manager.py:47 | the record a dict keyed by source key keeps is the last one with that key |
| Registry.ReloadedKeys | scrollarr/story_manager.py:50-79 | after a reload each of the four built-in keys finds its own adapter, enabled as its record says (true when it has none) |
| Registry.ReloadedUrls | scrollarr/story_manager.py:37-87 | after a reload a URL finds a provider exactly when Royal Road, AO3 or Questionable Questing identifies it; a failed reload leaves none |
| Registry.Search | scrollarr/story_manager.py:88-110 | the results are exactly those of the enabled providers whose key matches the requested one, and a failing provider contributes nothing |
| Registry.SearchConcat | scrollarr/story_manager.py:92-108 | searching two provider lists gives the first list's results followed by the second's |
| Registry.SearchInOrder | scrollarr/story_manager.py:92-108 | each provider's results appear whole, with their multiplicity, between those of the providers registered before and after it; a skipped or failing provider adds nothing |
| Registry.SourceManager.constructor | core_logic.py:42-43 | the dispatcher starts with no providers |
| Registry.SourceManager.RegisterProvider | core_logic.py:45-46 | the provider is appended, keeping registration order |
| Registry.SourceManager.ClearProviders | core_logic.py:48-49 | the list is empty, and no URL or key finds a provider afterwards |
| Registry.SourceManager.GetProviderForUrl | core_logic.py:51-55 | the scan returns the first provider that identifies the URL, None iff none does, and changes nothing |
| Registry.SourceManager.GetProviderByKey | core_logic.py:57-61 | the scan returns the first provider with the key, None iff none has it, and changes nothing |
| Registry.SourceManager.ReloadProviders | scrollarr/story_manager.py:37-87 | the list is cleared and then holds the built-in adapters in order, or nothing when the records cannot be read |
| Registry.RoyalRoadOnlyIdentifies | story_manager.py:22-23 | with the Royal Road adapter alone registered, a URL finds a provider exactly when it names Royal Road |
| LegacyStoryManager.LegacyAddSpec | story_manager.py:26-85 | no provider raises "No provider found for URL: ..." and writes nothing, nor does a failed metadata or listing fetch; otherwise the chapters are the first-match reconciliation (unseen URLs appended without index); an unseen URL appends one new story row (title and author from the metadata or "Unknown", the cover URL from the metadata) with the next story id, which advances; a stored URL rewrites only that row's title and author (each from the metadata when given, else kept) and the story id counter stays; the id returned is that row's |
| LegacyStoryManager.UpsertLegacyStory | story_manager.py:43-59 | an unseen URL gets a new row appended, a stored URL gets its row's title and author refreshed; the URL then finds that row and rows of other URLs are unchanged |
| LegacyStoryManager.LegacyAddTwiceAddsNothing | story_manager.py:62-74 | adding the same listing again inserts nothing |
| LegacyStoryManager.LegacyAddStory | story_manager.py:26-85 | the method leaves the library and result of `LegacyAddSpec` |
| LegacyStoryManager.LegacyAttempt | story_manager.py:121-140 | the status never changes; the row gets its path and download flag exactly when fetch and write succeed, else it is left as it was |
| LegacyStoryManager.LegacyAttemptMissing | story_manager.py:104-140 | each not-downloaded chapter of the story is attempted, the others are untouched |
| LegacyStoryManager.LegacyDownloadSpec | story_manager.py:87-142 | a missing story raises "Story with ID n not found." and a story whose URL no provider takes raises "Provider not found for story URL: ...", both writing nothing; otherwise every missing chapter of the story is attempted as `LegacyAttemptMissing` says; stories and history never change |
| LegacyStoryManager.LegacyDownloadOnlyMarks | story_manager.py:121-140 | no status changes and only missing chapters of the story gain a path |
| LegacyStoryManager.DownloadOne | story_manager.py:123-140 | the loop body gives the attempted row |
| LegacyStoryManager.LegacyDownloadMissingChapters | story_manager.py:87-142 | the loop leaves the library and result of `LegacyDownloadSpec` |
| LegacyDatabase.SyncStorySpec | database.py:125-203 | no provider raises "No provider found for URL: ..." and writes nothing; otherwise the chapters and next chapter id are those of the index-reconciling diff, growing by the number of unseen URLs; a new URL appends the story built from the metadata under the next story id; a known URL keeps every other story and gives its story the metadata's title and author where present |
| LegacyDatabase.SyncStoresListing | database.py:169-191 | after a sync every listed URL is stored and stored rows change only their index |
| LegacyDatabase.ReindexOnly | database.py:187-191 | the sync's reconciliation changes nothing of a stored row but its index |
| LegacyDatabase.StoredLastTouch | database.py:170-191 | a stored row a second sync reconciles last at position p was reconciled last at p by the first sync |
| LegacyDatabase.InsertedLastTouch | database.py:170-191 | a row the first sync inserted and a second sync reconciles last at position p was inserted for position p, so it already carries index p + 1 |
| LegacyDatabase.InsertedRowsShape | database.py:174-186 | each row the sync inserts belongs to the story, carries its listing item's URL and that item's position plus one as index |
| LegacyDatabase.IndexAtLastTouch | database.py:170-191 | a row a second sync reconciles last at position p already carries index p + 1 |
| LegacyDatabase.SyncReconcileIdempotent | database.py:169-191 | re-running the sync's reconciliation with the same listing leaves the chapter table unchanged |
| LegacyDatabase.SyncTwiceAddsNothing | database.py:169-194 | a second sync with the same answers leaves the chapter table and next chapter id exactly as the first left them and keeps `last_updated` |
| LegacyDatabase.SyncStory | database.py:125-203 | the method leaves the library and result of `SyncStorySpec` |
| JobManager.WordChars | job_manager.py:141 | only letters, digits and spaces remain, and a title made only of them is kept whole |
| JobManager.WordCharsAppend | job_manager.py:141 | the kept characters of a concatenation are those of its parts, in order |
| JobManager.WordCharsOne | job_manager.py:141 | one character is kept exactly when it is a letter, a digit or a space |
| JobManager.Underscored | job_manager.py:141 | spaces become '_' and nothing else changes |
| JobManager.SafeName | job_manager.py:141 | the kept letters, digits and spaces, right-trimmed, with spaces turned into '_'; so only letters, digits and '_', never a final '_', and an all-alphanumeric title as is |
| JobManager.PathJoin | job_manager.py:142 | POSIX `os.path.join`: an absolute second part replaces the first, otherwise they are joined with one '/' |
| JobManager.ChapterFile | job_manager.py:146-147 | the chapter file name is "{chapter.id}_{safe title}.html": relative, ending in ".html" |
| JobManager.DirName | job_manager.py:141-144 | the story folder is "{story.id}_{safe title}", relative and without a trailing '/' |
| JobManager.FilePath | job_manager.py:140-148 | the path always ends in the chapter file name; under a base without a trailing '/' it is base/"{story.id}_{safe title}"/"{chapter.id}_{safe title}.html" |
| JobManager.QueueSize | job_manager.py:122 | the number of pending chapters is zero exactly when none is pending |
| JobManager.QueueSizeSettle | job_manager.py:155-173 | settling a pending chapter shortens the queue by exactly one |
| JobManager.PickPending | job_manager.py:122-127 | the pick is a pending chapter with the smallest id; there is none exactly when the queue is empty |
| JobManager.PickIsFirstPending | job_manager.py:122 | with ids ascending, no chapter before the pick is pending |
| JobManager.Download | job_manager.py:132-152 | with the job manager's provider list (Royal Road alone) the attempt saves the file exactly when the story URL names Royal Road and the fetch and write succeed; any other story URL gives "No provider found for story URL: ..." |
| JobManager.Settled | job_manager.py:155-173 | a picked chapter leaves the queue: downloaded with path and flag, or failed and otherwise as it was |
| JobManager.Logged | job_manager.py:159-181 | one history row per attempt, with the chapter's new status and "Downloaded successfully to ..." or the error text |
| JobManager.DrainStep | job_manager.py:117-189 | a round stops exactly when nothing is pending (or the picked chapter's story is gone); otherwise the queue shrinks by one, only the picked chapter changes and one history row is appended; downloads go through the Royal Road adapter alone |
| JobManager.Drain | job_manager.py:111-193 | the loop ends, and it ends with nothing pending or at a chapter whose story is gone |
| JobManager.DrainFrame | job_manager.py:117-189 | draining never touches a chapter that was not pending, never changes ids or stories, and only appends history |
| JobManager.ProcessDownloadQueue | job_manager.py:111-193 | the loop leaves the library as `Drain` does, with the Royal Road adapter as the only provider |
| JobManager.MonitoredIds | job_manager.py:98 | the ids read are exactly those of the monitored stories |
| JobManager.MonitoredIdsAppend | job_manager.py:98 | the ids come in table order, one per monitored story and none for another |
| JobManager.CheckForUpdatesSpec | job_manager.py:88-109 | `check_story_updates` on each monitored story in turn; a failing story is skipped; history and ids are kept and notices only appended |
| JobManager.SweepLeavesOthers | job_manager.py:105-109 | a story whose id is not swept is unchanged |
| JobManager.CheckForUpdatesSkipsUnmonitored | job_manager.py:98-109 | an unmonitored story is never touched |
| JobManager.CheckForUpdates | job_manager.py:88-109 | the method leaves the library as `CheckForUpdatesSpec` does |
| JobManager.SweepAsWritten | job_manager.py:105-109 | as written, every `check_story_updates` call raises and is skipped, so the sweep leaves the store exactly as it was |
| JobManager.SweepAsWrittenMissesUpdates | job_manager.py:105-109 | whenever the intended sweep changes the store, the sweep as written differs from it |
| Worker.WorkerAttempt | worker.py:39-57 | the round saves the file at saved_stories/... exactly when the fetch and the write succeed |
| Worker.WorkerStep | worker.py:25-79 | nothing changes with no pending chapter; only the smallest-id pending chapter can change; on success it gets path, flag and status downloaded |
| Worker.WorkerFailureOnlyMarks | worker.py:66-70 | a failed round sets the picked chapter's status to failed and changes nothing else |
| Worker.WorkerRound | worker.py:21-79 | one iteration of the loop leaves the library as `WorkerStep` does |
| Scheduler.MonitoredStories | scheduler.py:25 | exactly the monitored stories are examined |
| Scheduler.MonitoredStoriesAppend | scheduler.py:25 | the stories come in table order, each monitored one once |
| Scheduler.CheckOne | scheduler.py:29-56 | a story changes the store only when it has a provider and the remote listing is longer than its stored chapter count, and then the store is what `add_story` of its URL leaves; chapters only grow and other stories are untouched |
| Scheduler.CheckAll | scheduler.py:29-56 | the sweep only grows the chapters and keeps history |
| Scheduler.CheckAllLeavesOthers | scheduler.py:29-56 | a story whose URL no checked story has is left as it was |
| Scheduler.CheckForUpdatesSpec | scheduler.py:9-62 | history and notices are kept and chapters only grow |
| Scheduler.SkipsUnmonitored | scheduler.py:25-29 | with unique URLs an unmonitored story is left as it was |
| Scheduler.CheckStory | scheduler.py:30-56 | checking one story on the store leaves it as `CheckOne` does |
| Scheduler.CheckForUpdates | scheduler.py:9-62 | the method leaves the library as `CheckForUpdatesSpec` does |
| Prediction.DatesOf | scrollarr/story_manager.py:664-667 | the dates are exactly the published dates of the story's chapters |
| Prediction.DatesOfAppend | scrollarr/story_manager.py:664-667 | the dates of a concatenation are the dates of each part in order; one chapter gives its date when it belongs to the story and is dated, else nothing |
| Prediction.Insert | scrollarr/story_manager.py:782 | the result holds the list's elements plus the new one, and starts with the new one or the old head |
| Prediction.InsertSorted | scrollarr/story_manager.py:782 | inserting into a sorted list keeps it sorted |
| Prediction.SortDates | scrollarr/story_manager.py:782 | the dates in ascending order, a permutation of the input |
| Prediction.Intervals | scrollarr/story_manager.py:678-681 | the gaps between consecutive dates |
| Prediction.Telescoping | scrollarr/story_manager.py:678-683 | the gaps add up to last − first |
| Prediction.AverageInterval | scrollarr/story_manager.py:683 | the average has the number of gaps as its denominator |
| Prediction.AverageIsSpan | scrollarr/story_manager.py:683 | the average interval is (last − first)/(n − 1), never negative for sorted dates |
| Prediction.StorySchedule | scrollarr/story_manager.py:654-695 | None for a missing story; otherwise the story's title, and a prediction exactly when the story has two or more dated chapters, whose history count is the number of dated chapters and whose average interval in days is the average of the sorted dates' gaps divided by 86400 |
| Prediction.SchedulePrediction | scrollarr/story_manager.py:685-692 | the predicted date is the last date plus the average |
| Prediction.RollForwardHangs | scrollarr/story_manager.py:801-802 | with a zero average and a first estimate in the past the loop never ends |
| Prediction.EqualDatesHang | scrollarr/story_manager.py:782-802 | two chapters dated at the same second, before now, give a zero average and a loop that never ends |
| Prediction.RollForwardAsWritten | scrollarr/story_manager.py:801-802 | when the loop as written stops it is at or after now, at the start or one step past a slot before now |
| Prediction.Steps | scrollarr/story_manager.py:801-802 | the least number of steps that reaches now |
| Prediction.FirstSlot | scrollarr/story_manager.py:796-802 | the first cadence slot at or after now; none exactly when the start is in the past and the step is not positive |
| Prediction.FirstSlotShift | scrollarr/story_manager.py:801-802 | one step before now leads to the same first slot |
| Prediction.AsWrittenFindsFirstSlot | scrollarr/story_manager.py:796-802 | wherever the loop as written stops, it stops at the first slot |
| Prediction.NoProgress | scrollarr/story_manager.py:801-802 | a step that is not positive never reaches now |
| Prediction.RollForward | scrollarr/story_manager.py:796-802 | the loop without the hang returns the first slot |
| Prediction.Cadence | scrollarr/story_manager.py:804-812 | count slots, the first at the start, each one step after the previous |
| Prediction.Predictions | scrollarr/story_manager.py:782-812 | no predictions with fewer than two dates, otherwise exactly five, all at or after now and spaced by the average; none exactly when the last date plus the average is before now and the average is not positive; the first is the first slot at or after now |
| Prediction.PastEvents | scrollarr/story_manager.py:762-768 | the blue events of dated chapters, not all-day |
| Prediction.PastEvent | scrollarr/story_manager.py:763-768 | a dated chapter's event is titled "<story> - <chapter>", starts at the publication date, is blue, links to "/story/<id>" and is not all-day |
| Prediction.PastEventsAppend | scrollarr/story_manager.py:762-768 | the past events of a concatenation are each part's in order; one chapter gives exactly its `PastEvent` when it belongs to the story and is dated, else nothing |
| Prediction.PredictedEvents | scrollarr/story_manager.py:804-811 | one green all-day event per prediction, at its instant |
| Prediction.CalendarEvents | scrollarr/story_manager.py:746-816 | every predicted event in the calendar is at or after now |
| Prediction.StoryEvents | scrollarr/story_manager.py:755-812 | a story's events are its past events followed by one predicted event per prediction from its sorted dates, and every prediction is at or after now |
| Prediction.CalendarEventsAppend | scrollarr/story_manager.py:746-814 | the calendar of a concatenation of stories is each part's calendar in order; one story contributes exactly its `StoryEvents` when monitored and nothing otherwise |
| Notifications.Matched | scrollarr/notifications.py:29-36 | the matched settings are exactly the enabled rows with a non-empty event list that contains the event |
| Notifications.MatchedAppend | scrollarr/notifications.py:29-36 | the matched settings come in table order: the matches of a concatenation are those of its parts |
| Notifications.MatchedOne | scrollarr/notifications.py:30-35 | one row is matched, once, exactly when it is subscribed |
| Notifications.EnabledFor | scrollarr/notifications.py:20-41 | a failing settings query gives no targets; otherwise exactly the subscribed rows |
| Notifications.SubscribedNameIsClean | scrollarr/notifications.py:33-34 | an event name that can be subscribed to has no ',' and no surrounding whitespace |
| Notifications.EventNamesOfJoin | scrollarr/notifications.py:33 | a comma-joined list of clean names reads back as exactly those names |
| Notifications.ContextStory | scrollarr/notifications.py:130 | the story looked up has the context's integer id |
| Notifications.Subject | scrollarr/notifications.py:146-162 | the exact subject by event kind: "Downloaded: <story> - <chapter>", "Failed: <story> - <chapter>", "New Chapters: <story>" or "Notification: <event>", with "Unknown Story" as the default title |
| Notifications.Body | scrollarr/notifications.py:146-162 | each event has its exact message: "Successfully downloaded: <story>\nChapter: <chapter>" for on_download, the failure message with its tail for on_failure, "Found <count> new chapters for <story>." (count "0" when absent) for on_new_chapters, and "Event <event> occurred for <story>." otherwise; every message names the story |
| Notifications.FailureBody | scrollarr/notifications.py:152-155 | a failure message opens with "Download failed for: " and ends with the error or "Unknown Error" |
| Notifications.NewChaptersBody | scrollarr/notifications.py:156-159 | a new-chapters message carries the count, 0 when absent |
| Notifications.Sanitize | scrollarr/notifications.py:104-108 | str/int/float/bool/None values pass through, any other value becomes its text |
| Notifications.Sanitized | scrollarr/notifications.py:103-108 | the webhook context has the same keys, every value JSON-safe and with the same text |
| Notifications.DeliveryFor | scrollarr/notifications.py:164-172 | email and webhook settings get a delivery, other kinds none; an email carries the attachment only if attach_file is set and the context has 'file_path' |
| Notifications.Deliveries | scrollarr/notifications.py:164-172 | every delivery is that of a matched setting, and every matched email or webhook setting gets its delivery |
| Notifications.DeliveriesAppend | scrollarr/notifications.py:164-172 | deliveries follow the settings' order: those of a concatenation are those of its parts |
| Notifications.DeliveriesOne | scrollarr/notifications.py:164-172 | one setting gives exactly its one delivery, or none for a kind other than email or webhook |
| Notifications.Dispatch | scrollarr/notifications.py:124-172 | an opted-out story silences the event; otherwise every delivery goes to a subscribed target with the event's subject and message |
| Notifications.GateFailsOpen | scrollarr/notifications.py:127-135 | the gate never silences other events, and a story lookup that raises does not silence anything |
| Notifications.NoticeContext | scrollarr/story_manager.py:607-611 | the context holds story_title, new_chapters_count and story_id |
| Notifications.OptedOutNoticeSilenced | scrollarr/notifications.py:126-133 | a new-chapters notice for a stored story with notify_on_new_chapter false reaches no target |
| Notifications.NoticeDelivered | scrollarr/notifications.py:139-172 | a new-chapters notice for a story that did not opt out goes to every subscribed target with subject "New Chapters: title" |
| Notifications.RetryFrom | scrollarr/notifications.py:77-99 | the trace from attempt a starts with that attempt |
| Notifications.RetryShape | scrollarr/notifications.py:77-99 | attempts and pauses alternate, attempt k is followed by a pause of 5·(k+1) s only when it failed and is not the last, and the trace ends with an attempt |
| Notifications.EmailTrace | scrollarr/notifications.py:43-99 | no step at all without an SMTP host |
| Notifications.EmailSchedule | scrollarr/notifications.py:74-99 | with a host: at most three attempts, the first is attempt 0, pauses of 5 then 10 s, stopping at the first success |
| Notifications.SendEmail | scrollarr/notifications.py:43-99 | the loop takes the steps of `EmailTrace` and reports delivery iff its last attempt succeeded |
| Notifications.SendWebhook | scrollarr/notifications.py:101-122 | one payload with the message as content and text and the sanitised context as data |
| LibraryPaths.KeepSafe | scrollarr/library_manager.py:25 | only alphanumerics, space, '-', '_' and '.' remain, and an all-safe name is kept whole |
| LibraryPaths.KeepSafeAppend | scrollarr/library_manager.py:25 | the kept characters of a concatenation are those of its parts, in order |
| LibraryPaths.KeepSafeOne | scrollarr/library_manager.py:25 | one character is kept exactly when it is safe |
| LibraryPaths.Sanitize | scrollarr/library_manager.py:20-26 | empty gives "unknown"; otherwise only safe characters, no surrounding whitespace |
| LibraryPaths.StripKeepsSafe | scrollarr/library_manager.py:25 | stripping keeps a safe name safe |
| LibraryPaths.SanitizeIdempotent | scrollarr/library_manager.py:20-26 | sanitising a non-empty sanitised name changes nothing |
| LibraryPaths.SafeContext | scrollarr/library_manager.py:30 | every context value is sanitised, keys kept |
| LibraryPaths.FormatString | scrollarr/library_manager.py:28-35 | a template that formats gives the template filled with the sanitised values; a template naming a missing key comes back unchanged; it raises exactly when `str.format` finds a malformed field (a field that is all digits or empty, or holds a conversion, format spec, attribute, index or brace); a name such as "2nd" is a keyword |
| LibraryPaths.FormattedChars | scrollarr/library_manager.py:28-32 | every character of a formatted name comes from the template or a sanitised value |
| LibraryPaths.FormatPlain | scrollarr/library_manager.py:32 | a template without braces formats to itself |
| LibraryPaths.FormatField | scrollarr/library_manager.py:28-35 | a lone placeholder gives the sanitised value, or the template when the key is absent |
| LibraryPaths.SanitizeDigits | scrollarr/library_manager.py:20-26 | a non-empty string of digits (a story id) sanitises to itself |
| LibraryPaths.StoryContextSafe | scrollarr/library_manager.py:37-41 | the sanitised context of a story maps Title and Id to the sanitised title and id |
| LibraryPaths.StoryPath | scrollarr/library_manager.py:37-41 | the story folder is the formatted folder template joined under the root; it raises exactly when the template is malformed, and a template naming an unknown key is used verbatim under the root |
| LibraryPaths.Join | scrollarr/library_manager.py:41 | joining a plain name (no '/', not "" or ".") adds "/name"; joining "." adds nothing |
| LibraryPaths.JoinSplits | scrollarr/library_manager.py:41 | joining "a/b" is joining "a" and then "b", for relative names |
| LibraryPaths.DefaultStoryFolder | scrollarr/library_manager.py:37-41 | by default the story folder is "<title> (<id>)" directly under the library root, both sanitised |
| LibraryPaths.ChapterDir | scrollarr/library_manager.py:43-53 | a story folder that raises makes the chapter folder raise; without a volume number the folder is `<story>/chapters`; with one it is `<story>/chapters/<volume folder>`, raising exactly when the volume folder name does |
| LibraryPaths.VolumeName | scrollarr/library_manager.py:48-50 | the volume folder is the volume template (default "Volume {Volume}") filled with the number and the title (or ""); a template naming a missing key is used verbatim; it raises exactly when the template is malformed; unconfigured it is "Volume <n>" |
| LibraryPaths.DefaultVolumeFolder | scrollarr/library_manager.py:43-53 | with the default volume template, volume n goes to "<story>/chapters/Volume n", whatever its title |
| LibraryPaths.ChapterFilename | scrollarr/library_manager.py:55-65 | the name is the configured chapter template (default "{Index} - {Title}") formatted with the chapter context, plus ".html"; it raises exactly when formatting does |
| LibraryPaths.ChapterContext | scrollarr/library_manager.py:58-64 | the chapter context holds exactly Index, Title, Volume, StoryTitle and Id, with Volume 1 when the chapter has no volume (or volume 0) |
| LibraryPaths.VolumeOrOne | scrollarr/library_manager.py:61 | `volume_number or 1`: a non-zero volume stays, a missing or zero one becomes 1 |
| LibraryPaths.DefaultChapterFilename | scrollarr/library_manager.py:55-65 | with no chapter template configured the name is "<index> - <title>.html", each part sanitised |
| LibraryPaths.ChapterAbsolutePath | scrollarr/library_manager.py:67-71 | the chapter file inside its chapter directory |
| LibraryPaths.ChapterPlaceholders | scrollarr/library_manager.py:93-119 | '?' placeholders without chapters; otherwise Start/End from the first/last chapter |
| LibraryPaths.WithExtension | scrollarr/library_manager.py:145-146 | ".ext" is appended unless the name already ends with it, ignoring case |
| LibraryPaths.WithExtensionEnds | scrollarr/library_manager.py:145-146 | the result always ends with ".ext", up to case |
| LibraryPaths.WithExtensionIdempotent | scrollarr/library_manager.py:145-146 | appending a lower-case extension twice appends it once |
| LibraryPaths.CompiledTemplate | scrollarr/library_manager.py:80-91 | each file type selects its own setting: single chapter, volume, full story, range and filtered, each with its own default |
| LibraryPaths.CompiledFilename | scrollarr/library_manager.py:77-147 | the name is the file type's template formatted with the compiled context, with ".ext" ensured; it raises exactly when formatting does |
| LibraryPaths.DefaultFullStoryName | scrollarr/library_manager.py:85-147 | with the default full-story template the name is "<title> - Full story to <last chapter index>", sanitised, with the extension ensured |
| LibraryPaths.QuestionMarkVanishes | scrollarr/library_manager.py:94-98 | a '?' placeholder sanitises to "" |
| LibraryPaths.CompiledAbsolutePath | scrollarr/library_manager.py:149-153 | the path is "<story folder>/compiled/<compiled name>", present exactly when both parts are; for an extension without '/' it ends with ".ext" |
| ForumThreads.NormalizeThreadUrl | scrollarr/sources/questionablequesting.py:17-27 | no match gives the URL unchanged; a match gives the leftmost "http(s)://host/threads/<slug>.<digits>" plus '/' |
| ForumThreads.FirstMatchLeftmost | scrollarr/sources/questionablequesting.py:25 | the search finds the leftmost match, and finds none only when the pattern matches at no position |
| ForumThreads.NormalizeIdempotent | scrollarr/sources/spacebattles.py:10-20 | a normalised thread URL normalises to itself |
| ForumThreads.NormalizeShape | scrollarr/sources/sufficientvelocity.py:12-22 | the result is the URL unchanged, or starts with the site's scheme and host and ends in '/' |
| ForumThreads.ExtractPostId | scrollarr/sources/questionablequesting.py:41-49 | the digits after "post-", else after "posts/", else ""; non-empty exactly when either occurs with a digit |
| ForumThreads.NormalizeKeepsIdentified | scrollarr/sources/questionablequesting.py:14-27 | each forum adapter still claims the thread URL its normaliser gives for a URL it claims |
| ForumThreads.NormalizeKeepsSite | scrollarr/sources/spacebattles.py:7-20 | normalising with a host that ends with a site name keeps "<site>/threads/" in the URL |
| QqAllPosts.Marks | scrollarr/sources/questionablequesting.py:62-63 | each threadmark as its post id and title |
| QqAllPosts.MarkMapKeys | scrollarr/sources/questionablequesting.py:61-65 | an id is in the map exactly when it is non-empty and some pair has it |
| QqAllPosts.MarkMapValue | scrollarr/sources/questionablequesting.py:61-65 | an id maps to the title and 1-based position of the last pair that has it |
| QqAllPosts.ThreadmarkMapKeys | scrollarr/sources/questionablequesting.py:61-65 | a post id is in the threadmark map exactly when some threadmark URL names it |
| QqAllPosts.ThreadmarkMapValue | scrollarr/sources/questionablequesting.py:61-65 | it maps to the title and position of the last threadmark naming it |
| QqAllPosts.BuildThreadmarkMap | scrollarr/sources/questionablequesting.py:61-65 | the loop builds the threadmark map |
| QqAllPosts.RemoveAll | scrollarr/sources/questionablequesting.py:152 | `replace(pat, "")` never lengthens the text |
| QqAllPosts.RemoveAllAbsent | scrollarr/sources/questionablequesting.py:152 | text without the pattern comes back unchanged |
| QqAllPosts.PostIdOfDigits | scrollarr/sources/questionablequesting.py:151-152 | "post-" and digits gives those digits |
| QqAllPosts.PartInOfPartTitle | scrollarr/sources/questionablequesting.py:111-113 | a title "{vol} - Part N" yields N back |
| QqAllPosts.StartCursor | scrollarr/sources/questionablequesting.py:76-134 | without a last chapter the walk starts in "Prologue", volume 1, part 0, index 0, synced; it starts unsynced exactly when the last chapter has an index |
| QqAllPosts.Step | scrollarr/sources/questionablequesting.py:148-248 | a post yields a chapter exactly when it has an id and the author wrote it and the walk is synced or it is the sync post; a threadmark post sets volume/number, part 1 and the threadmark title; another post is titled "{vol} - Part {n}"; indices go up by one; any other post is the next part (1 after part 0) of the current section, or of the section the sync post restores; the sync post takes the last chapter's index |
| QqAllPosts.Walk | scrollarr/sources/questionablequesting.py:148-248 | at most one chapter per post |
| QqAllPosts.Visit | scrollarr/sources/questionablequesting.py:148-248 | the loop body does one `Step` |
| QqAllPosts.WalkSnoc | scrollarr/sources/questionablequesting.py:148-248 | the walk over one more post is one more step |
| QqAllPosts.GetChapterList | scrollarr/sources/questionablequesting.py:51-248 | the loop builds the map, then walks the posts, giving `ChapterList` |
| QqAllPosts.ItemsFromAuthorPosts | scrollarr/sources/questionablequesting.py:151-173 | every chapter is the permalink BASE_URL/posts/{id}/ of a post by the author with an id |
| QqAllPosts.ChapterList | scrollarr/sources/questionablequesting.py:151-173 | at most one chapter per post, and every chapter is the permalink of a post by the author with an id |
| QqAllPosts.FreshIndices | scrollarr/sources/questionablequesting.py:184-186 | a synced walk lists every eligible post and advances the index by the number listed |
| QqAllPosts.FreshListNumbered | scrollarr/sources/questionablequesting.py:127-134 | without a last chapter the chapters are numbered 1, 2, 3, … and there is one per author post |
| QqAllPosts.ResumeIndices | scrollarr/sources/questionablequesting.py:175-196 | before the sync post nothing is listed and the cursor is unchanged |
| QqAllPosts.ResumedListNumbered | scrollarr/sources/questionablequesting.py:127-207 | resuming, the first chapter is the last chapter's post and the indices run index, index+1, … |
| QqAllPosts.SyncPostKeepsTitle | scrollarr/sources/questionablequesting.py:198-226 | a non-threadmark sync post titled "{vol} - Part N" regenerates that title |
| Wattpad.FullUrl | scrollarr/sources/wattpad.py:152-156 | http hrefs are kept verbatim, others are put under "https://www.wattpad.com" with a leading '/' |
| Wattpad.FullUrlIdentified | scrollarr/sources/wattpad.py:14-15 | a chapter URL built from a relative href is one the adapter claims |
| Wattpad.TitleOf | scrollarr/sources/wattpad.py:160 | the stripped text, or "Untitled Chapter" |
| Wattpad.Candidate | scrollarr/sources/wattpad.py:135-156 | a link gives a chapter exactly when it passes the href filter |
| Wattpad.FilterChapterLinks | scrollarr/sources/wattpad.py:129-165 | the loop gives `ChapterLinks` |
| Wattpad.FirstByUrlDistinct | scrollarr/sources/wattpad.py:158-163 | no URL is kept twice |
| Wattpad.FirstByUrlComplete | scrollarr/sources/wattpad.py:158-163 | every candidate URL is kept, each as its first candidate |
| Wattpad.ChapterLinksSpec | scrollarr/sources/wattpad.py:129-165 | the listing has pairwise distinct URLs, holds the URL of every accepted link, each entry is the first accepted link with its URL, and the entries follow the order of those first links |
| Wattpad.FirstByUrlOrdered | scrollarr/sources/wattpad.py:158-163 | kept entries follow the order of their URLs' first candidates |
| Wattpad.ChapterLinksOrdered | scrollarr/sources/wattpad.py:158-163 | the listing follows the page order of each URL's first accepted link |
| Ao3.PublicationStatus | ao3.py:65-83 | one of Unknown/Ongoing/Completed; a status text containing "Completed" forces Completed; Unknown exactly when there is no count with '/' and no such status |
| Ao3.CountStatus | ao3.py:71-78 | "x/?" is Ongoing, "x/x" Completed, other "x/y" Ongoing |
| Ao3.WorkId | ao3.py:98 | a work id exactly when "/works/" is followed by a digit; it is a non-empty run of digits that follows "/works/" in the URL |
| Ao3.WorkIdOfWorkPage | ao3.py:98-103 | the work id of "<site>/works/<id>" followed by a non-digit is the id |
| Ao3.BuiltUrlsRoundTrip | ao3.py:15-16 | the adapter claims the navigation and work URLs it builds and reads back the id from them |
| Ao3.JoinToBase | ao3.py:121 | absolute hrefs are kept, root-relative ones go under the site |
| Ao3.NavChapters | ao3.py:114-126 | at most one chapter per navigation entry |
| Ao3.NavChaptersCount | ao3.py:116-126 | exactly one chapter per entry with an anchor |
| Ao3.GetChapterList | ao3.py:96-152 | no work id gives []; otherwise the navigation chapters, or a single chapter at the work URL titled by the metadata title (the page's title heading, else "Unknown Title"), or [] when that fetch fails |
| Ao3.PairsOf | ao3.py:201-204 | each ';'-part as its name/value pair, if it has '=' |
| Ao3.LastPairFor | ao3.py:201-204 | the last pair with a name |
| Ao3.CookiePairsLastWins | ao3.py:201-204 | a cookie is set exactly when some pair names it, with the value of the last such pair |
| Ao3.ParseCookieText | ao3.py:199-206 | the loop builds the cookies of the pairs |
| Ao3.CookiesFromConfig | ao3.py:187-209 | empty config does nothing; a dict is used as is; a string is parsed; cookies are set only when non-empty |
| Ebook.Collapse | scrollarr/ebook_builder.py:312 | collapsing keeps emptiness and the first character (the lemmas below give the rest) |
| Ebook.BreaksOfRun | scrollarr/ebook_builder.py:312 | `(<br/>\s*)` repeated greedily counts every break of a run and stops where the run ends |
| Ebook.CollapseRun | scrollarr/ebook_builder.py:312 | a run of three or more breaks, with the whitespace after each, becomes exactly two breaks, wherever it stands |
| Ebook.CollapseShortRun | scrollarr/ebook_builder.py:312 | a run of one or two breaks is copied with its whitespace |
| Ebook.CollapseTag | scrollarr/ebook_builder.py:312 | a tag other than `<br/>` is copied |
| Ebook.CollapsePlain | scrollarr/ebook_builder.py:312 | text without '<' is copied |
| Ebook.CollapseLead | scrollarr/ebook_builder.py:312 | a run of three or more breaks at the front becomes two, a shorter one is kept |
| Ebook.CollapseLeavesAtMostTwo | scrollarr/ebook_builder.py:312 | after collapsing no run of more than two breaks is left |
| Ebook.CollapseFixes | scrollarr/ebook_builder.py:312 | text with no long run is left as it is |
| Ebook.CollapseIdempotent | scrollarr/ebook_builder.py:312 | collapsing twice is collapsing once |
| Ebook.BreakTagLen | scrollarr/ebook_builder.py:307 | the `<br\s*/?>` tag at the front, case-insensitively, or none exactly when no prefix is one |
| Ebook.NormalizeBreaks | scrollarr/ebook_builder.py:307 | normalising keeps emptiness and the first character (the lemmas below give the rest) |
| Ebook.NormalizeAtBreakTag | scrollarr/ebook_builder.py:307 | a break tag in any spelling becomes `<br/>`, whatever follows it |
| Ebook.NormalizePlain | scrollarr/ebook_builder.py:307 | text without '<' is copied |
| Ebook.NormalizeOtherTag | scrollarr/ebook_builder.py:307 | a tag that is not a break tag is copied |
| Ebook.NormalizeRun | scrollarr/ebook_builder.py:307 | a run of break tags becomes a run of `<br/>` with the same whitespace |
| Ebook.NormalizeFixes | scrollarr/ebook_builder.py:307 | a text whose break tags are all `<br/>` is left as it is |
| Ebook.NormalizeIdempotent | scrollarr/ebook_builder.py:307 | normalising twice is normalising once |
| Ebook.NormalizeCanonical | scrollarr/ebook_builder.py:307 | after normalising every break tag is `<br/>` |
| Ebook.CleanBreaks | scrollarr/ebook_builder.py:306-314 | normalised and collapsed content has no run of more than two breaks, and text without tags is kept |
| Ebook.CleanBreaksPlain | scrollarr/ebook_builder.py:306-314 | text without '<' passes the break stage unchanged |
| Ebook.CleanBreaksTag | scrollarr/ebook_builder.py:306-314 | a tag that is not a break tag passes unchanged |
| Ebook.CleanBreaksRun | scrollarr/ebook_builder.py:306-314 | a maximal run of break tags in any spelling gives one `<br/>` per tag (keeping the whitespace) when there are one or two, and exactly two `<br/>` when there are three or more |
| Ebook.CleanContent | scrollarr/ebook_builder.py:246-318 | on a failure the input comes back; otherwise the break stage of the rewritten document, with no run of more than two breaks |
| Ebook.CleanForPdf | scrollarr/ebook_builder.py:204-244 | the cleaned paragraph is the filtered HTML without its surrounding whitespace: the piece after the leading whitespace, followed only by whitespace, and neither starting nor ending with whitespace |
| Ebook.TextsOfAppend | scrollarr/ebook_builder.py:211-243 | texts and tag counts of pieces add up over concatenation |
| Ebook.DropLeadingKeepsText | scrollarr/ebook_builder.py:211 | the text is kept; a leading non-empty tag is removed (one tag fewer), otherwise nothing changes |
| Ebook.DropTrailingKeepsText | scrollarr/ebook_builder.py:212 | the text is kept; a closing tag at the end is removed, or one before a final newline (which stays), leaving exactly the other pieces (one tag fewer, one piece shorter); otherwise nothing changes |
| Ebook.DropWrapperKeepsText | scrollarr/ebook_builder.py:211-212 | the trailing removal applies to what the leading removal leaves: the pieces after a leading tag, or all of them; the text is kept and exactly one tag goes for each end that matches; with neither end matching nothing changes |
| Ebook.StripAttrs | scrollarr/ebook_builder.py:222 | an opening tag is cut back to its `[a-z][a-z0-9]*` name; other tags are unchanged |
| Ebook.TagName | scrollarr/ebook_builder.py:240 | the lower-case name `</?([a-z]+)` finds; none exactly when there is none |
| Ebook.PdfTag | scrollarr/ebook_builder.py:222-240 | a tag that is kept is b, i, u, strike, super, sub or `<br/>`; a tag is deleted exactly when its name is not allowed |
| Ebook.FilterTags | scrollarr/ebook_builder.py:222-240 | the text between tags is kept and every remaining tag is allowed |
| Ebook.FilterTagsAppend | scrollarr/ebook_builder.py:222-240 | the filter works piece by piece: on a concatenation it filters each part; a text piece stays and a tag is deleted or replaced by what `PdfTag` leaves of it |
| Ebook.PdfPieces | scrollarr/ebook_builder.py:211-240 | after the whole filter the text is kept and every tag is allowed |
| Ebook.PdfPiecesOfWrapped | scrollarr/ebook_builder.py:211-240 | a paragraph wrapped as `<p>...</p>` loses both wrapper tags and only its body is filtered |
| Ebook.StrongRenamed | scrollarr/ebook_builder.py:225 | `<strong ...>` becomes `<b>` |
| Ebook.EmRenamed | scrollarr/ebook_builder.py:226 | `<em ...>` becomes `<i>` |
| Ebook.ClosingRenamed | scrollarr/ebook_builder.py:225-226 | `</strong>`/`</em>` become `</b>`/`</i>` |
| Ebook.OtherTagsDeleted | scrollarr/ebook_builder.py:236-238 | any other named tag, opening or closing, is deleted |
| Ebook.Contents | scrollarr/ebook_builder.py:432-443 | no content exactly when no chapter has an existing, readable file |
| Ebook.ContentsAppend | scrollarr/ebook_builder.py:433-443 | the content of two runs of chapters is the content of each, in order |
| Ebook.ReadContents | scrollarr/ebook_builder.py:432-443 | the loop gives `Contents` |
| Ebook.CompileSpec | scrollarr/ebook_builder.py:427-472 | no content raises "No content found for {suffix}."; the title is "{title} - {suffix}"; PDF exactly for format "pdf", with the profile page size or A4; for a format without '/' the path ends with the format |
| Ebook.Assemble | scrollarr/ebook_builder.py:444-472 | no content raises "No content found for {suffix}."; otherwise it succeeds exactly when the compiled path does, with title "{title} - {suffix}", the story author, the chapters, the cover and that path; PDF exactly for format "pdf", with the profile page size |
| Ebook.CompileChapters | scrollarr/ebook_builder.py:427-472 | the method gives `CompileSpec` |
| Ebook.VolumeSuffix | scrollarr/ebook_builder.py:344-345 | the first chapter's truthy volume title, else "Vol {n}" |
| Ebook.CompileVolumeSpec | scrollarr/ebook_builder.py:320-350 | a missing story or an empty volume raise their errors; otherwise the volume is compiled with its suffix |
| Ebook.CompileFullSpec | scrollarr/ebook_builder.py:352-374 | a missing story or no chapters raise their errors; otherwise the whole story is compiled as "Full" |
| Ebook.VolumeNeedsContent | scrollarr/ebook_builder.py:340-347 | a volume compiles only when it has chapters and one of them has content |

## Left out

- Network, HTML parsing and browsers are left out. They become parameters: a provider's
  metadata and listing, chapter fetches, file writes, file existence and reads, SMTP attempts.
  The parsed records (links, posts, navigation entries, tag/text pieces) are inputs.
- The database engine is left out: sessions, commit and rollback, and row locks. A commit that
  fails after the changes are made is not modelled. Failing operations leave the store as it was.
- Query ordering is an input. Compile rows arrive in their `order_by`, and forum posts in page order.
- Page crawling, next-page links, date parsing and `get_metadata` of the forum adapters are left
  out. The all-posts walk takes the posts of every page in order. `resumePage` says whether the
  last chapter's URL led to a numbered page.
- QqAllPosts.PostUrl: `urljoin` is modelled only for the ids the walk meets.
- QqAllPosts.LastChapter: falsy keys are modelled with `None` and 0. A `None` title is not modelled.
- StoryManager.LastChapterInfo: the hint it builds is used only by the provider, which is an input.
- Floats and the clock are left out. Dates are whole seconds, averages are exact fractions, and
  `now` is a parameter. Float rounding is not modelled.
- Path resolution (`Path.resolve`), `ensure_directories` and `os.makedirs` are left out. So are
  ebook rendering (`make_epub`, `make_pdf`, CSS) and the BeautifulSoup paragraph rewriting of
  `_clean_html_content`. That rewriting's output is the `parsed` input of `Ebook.CleanContent`,
  and `None` there stands for the exception fallback.
- LibraryPaths.Join: the directory side is taken as already normal, since the library root is
  resolved first. A name starting with exactly two slashes is joined as if it had one, where
  pathlib keeps the leading "//". A directory that is exactly "/" gives "//name" where pathlib
  gives "/name"; the library root is never the filesystem root.
- StoryManager.Refreshed, LegacyStoryManager.LegacyAddSpec, LegacyDatabase.SyncStorySpec: a
  title or author key present with the value None is not modelled, so a None title stored as it
  is cannot be expressed; the adapters always report strings for these two keys. The cover, description and status
  keys distinguish missing, None and a string.
- Scheduler.CheckOne: the provider's chapter list is fetched twice in the source, once for the
  length compared (scheduler.py:40) and again inside `add_story` (scheduler.py:51); the model
  feeds one listing to both, so a listing that changes between the two fetches is not modelled.
- StoryManager.Refreshed, StoryManager.CreatedStory: the tags, rating and language fields
  (scrollarr/story_manager.py:146-148, 161-163, 345-347, 492-494) are not carried by the model's
  Story. They are descriptive only and no rule of the core reads them.
- `compile_custom_range` and `compile_filtered` are not part of this model. Only the volume and
  full-story entry points are.
- Ebook.PdfPieces: the HTML is taken as already split into text and tags, with no stray '<'
  or '>' in text, no empty text piece and no two text pieces side by side. A split that breaks
  this, such as `[Tag("/p"), Text("\n"), Text("")]`, ends in an empty piece, so the model keeps
  the closing tag where the source's pattern strips it. Tags whose name starts upper-case pass
  the lower-case patterns unchanged, as in the source.
- Text.Lower: only ASCII letters are case-folded.
- The infinite `worker()` loop and its random 30–60 s sleep are not modelled. `Worker.WorkerRound`
  is one iteration.
- Notifications.ContextStory: only an integer `story_id` can match a story row. Other objects
  count as truthy in the gate, but they are not looked up.
- Notifications.SendEmail: the message building and the attachment read are left out. So are the
  sleeps themselves; they appear as `Sleep` steps in the trace.
- Text.IsSpace, Text.IsDigit, Text.IsAlpha, Text.IsAlnum: only ASCII characters are classified.
  Python's `str.isspace`, `str.isalnum`, `\s`, `\w` and `\d` are Unicode-aware. Non-ASCII letters,
  digits and spaces (such as "é" or U+00A0) are therefore treated as other characters.
- Text.Strip: with the ASCII whitespace above, a leading or trailing U+00A0 or U+3000 is kept.
- LibraryPaths.KeepSafe: a non-ASCII letter or digit is dropped, where Python keeps it.
- LibraryPaths.Sanitize: the same restriction, through KeepSafe and Strip.
- JobManager.WordChars: a non-ASCII letter or digit is dropped, where Python keeps it.
- JobManager.SafeName: the same restriction, through WordChars.
- JobManager.FilePath: the same restriction, through SafeName; Worker.WorkerAttempt and the legacy
  download write to these paths.
- Notifications.StripAll: event names are stripped of ASCII whitespace only.
- Wattpad.TitleOf: a title made only of non-ASCII whitespace counts as non-empty.
- Ao3.PairName: names and values are stripped of ASCII whitespace only.
- Ebook.SkipSpaces: only ASCII whitespace is skipped between breaks.
- Ebook.Collapse: `\s` between `<br>` tags matches only ASCII whitespace. Its own contract gives
  only emptiness and the first character; what the substitution produces is stated by
  Ebook.BreaksOfRun, Ebook.CollapseRun, Ebook.CollapseShortRun, Ebook.CollapseTag and
  Ebook.CollapsePlain.
- Ebook.NormalizeBreaks: its own contract gives only emptiness and the first character; what the
  substitution produces is stated by Ebook.NormalizeAtBreakTag, Ebook.NormalizePlain,
  Ebook.NormalizeOtherTag, Ebook.NormalizeRun, Ebook.NormalizeFixes and Ebook.NormalizeIdempotent.
- Ebook.NormalizeCanonical: states only that no other break spelling remains; the rest of the
  normalisation is stated by the lemmas named in the line above.
- Ebook.CleanBreaks: its own contract gives the bound on breaks and the tagless case; runs and
  other tags are stated by Ebook.CleanBreaksRun and Ebook.CleanBreaksTag.
- Ebook.BreakTagLen: `\s` inside a `<br>` tag matches only ASCII whitespace.
- LibraryPaths.FormatString: replacement fields with a conversion, a format spec, an attribute
  or an index (`{Title!s}`, `{Title:>10}`, `{Title.upper}`, `{Title[0]}`) are treated as
  malformed, so the model raises where Python formats them. Only plain `{Name}` fields and
  doubled braces are modelled.
- Ao3.JoinToBase: `urljoin` is modelled only for absolute http(s), scheme-relative,
  root-relative and plain relative hrefs. Other schemes, `..` segments, and query-only or
  fragment-only hrefs are not resolved as `urljoin` would.
- Registry.Search: the query is not passed to providers. Each provider's result is an input.
- Registry.ReloadProviders: a record's JSON config goes through `set_config`, which is modelled
  separately as Ao3.CookiesFromConfig.
- ScribbleHub, Kemono and Royal Road scraping, app routes, CLI, configuration loading and
  migrations are not part of this model.

## Findings

| source | as written | input that shows it | evidently intended | confidence | as-written member | corrected member |
|---|---|---|---|---|---|---|
| scrollarr/story_manager.py:796-802 | `while next_prediction < now: next_prediction += avg` never ends when the average interval is 0 | a monitored story with two chapters published at the same second, both before now | the calendar returns; a story whose cadence cannot reach now gets no predictions | not executed | Prediction.EqualDatesHang | Prediction.RollForward |
| job_manager.py:105-109 | `self.story_manager.check_story_updates(story_id)` on the first story manager, which has no such method; the `AttributeError` is logged and swallowed | any monitored story whose provider lists a chapter not stored yet: the sweep records nothing | each monitored story is checked by the package story manager's `check_story_updates` | not executed | JobManager.SweepAsWritten | JobManager.CheckForUpdates |
