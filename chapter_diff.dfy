/**
 * Reconciling a fetched chapter listing against a story's stored chapters: unseen URLs become
 * new pending rows, stored URLs have their position and dates reconciled. Three variants of
 * the same loop exist in the system and are one function here, told apart by a `Flavor`.
 */
module ChapterDiff {
  import opened Wrappers
  import opened Text
  import opened Store

  /** One entry of a provider's chapter listing (`chapter_data`). */
  datatype ListingItem = ListingItem(
    title: string,
    url: string,
    publishedDate: Option<int>,
    volumeTitle: Option<string>,
    volumeNumber: Entry<int>)

  /** Which copy of the reconciliation loop runs.
      `Current(lastWins)`: the story manager's; `lastWins` when stored rows are found through
      a dict keyed by URL (`add_story`), first match when found by a scan with `break`
      (`update_library`, `check_story_updates`).
      `LegacyAdd`: the first story manager's `add_story`, which only inserts, without indices.
      `LegacySync`: the database module's `sync_story`, which inserts with indices and
      reconciles only the index of stored rows (found through a dict). */
  datatype Flavor = Current(lastWins: bool) | LegacyAdd | LegacySync

  /** The row belongs to story `sid` and has URL `url`. */
  predicate Owns(c: Chapter, sid: nat, url: string) { c.storyId == sid && c.sourceUrl == url }

  /** The first stored row of the story with URL `url`. */
  function FirstRow(rows: seq<Chapter>, sid: nat, url: string): (r: Option<nat>)
    ensures r.Some? ==> r.value < |rows| && Owns(rows[r.value], sid, url)
    ensures r.Some? ==> forall j :: 0 <= j < r.value ==> !Owns(rows[j], sid, url)
    ensures r.None? <==> forall j :: 0 <= j < |rows| ==> !Owns(rows[j], sid, url)
  {
    if rows == [] then None
    else if Owns(rows[0], sid, url) then Some(0)
    else
      match FirstRow(rows[1..], sid, url)
      case None => None
      case Some(k) => Some(k + 1)
  }

  /** The last stored row of the story with URL `url` (the one a dict keyed by URL keeps). */
  function LastRow(rows: seq<Chapter>, sid: nat, url: string): (r: Option<nat>)
    ensures r.Some? ==> r.value < |rows| && Owns(rows[r.value], sid, url)
    ensures r.Some? ==> forall j :: r.value < j < |rows| ==> !Owns(rows[j], sid, url)
    ensures r.None? <==> forall j :: 0 <= j < |rows| ==> !Owns(rows[j], sid, url)
    decreases |rows|
  {
    if rows == [] then None
    else if Owns(rows[|rows| - 1], sid, url) then Some(|rows| - 1)
    else LastRow(rows[..|rows| - 1], sid, url)
  }

  /** The story already has a row with this URL. */
  predicate Stored(rows: seq<Chapter>, sid: nat, url: string) {
    exists j :: 0 <= j < |rows| && Owns(rows[j], sid, url)
  }

  /** The stored row a listing item with URL `url` reconciles. */
  function MatchRow(f: Flavor, rows: seq<Chapter>, sid: nat, url: string): (r: Option<nat>)
    ensures r.Some? <==> Stored(rows, sid, url)
    ensures r.Some? ==> r.value < |rows| && Owns(rows[r.value], sid, url)
  {
    if f == Current(true) || f == LegacySync then LastRow(rows, sid, url) else FirstRow(rows, sid, url)
  }

  /** The row inserted for an unseen listing item at position `pos`. */
  function NewRow(f: Flavor, sid: nat, id: nat, item: ListingItem, pos: nat): Chapter
  {
    match f
    case Current(_) =>
      Chapter(id, sid, item.title, item.url, Some(pos + 1), Pending, None, false,
              item.publishedDate, item.volumeTitle, GetOr(item.volumeNumber, Some(1)))
    case LegacyAdd =>
      Chapter(id, sid, item.title, item.url, None, Pending, None, false, None, None, Some(1))
    case LegacySync =>
      Chapter(id, sid, item.title, item.url, Some(pos + 1), Pending, None, false, None, None, Some(1))
  }

  /** A volume number used as a Python condition: present and non-zero. */
  predicate TruthyNumber(n: Option<int>) { n.Some? && n.value != 0 }

  /** A stored row reconciled with the listing item at position `pos`. */
  function UpdateRow(f: Flavor, c: Chapter, item: ListingItem, pos: nat): Chapter
  {
    match f
    case Current(_) =>
      var vn := GetOr(item.volumeNumber, Some(1));
      c.(index := Some(pos + 1),
         publishedDate := if c.publishedDate.None? && item.publishedDate.Some? then item.publishedDate else c.publishedDate,
         volumeTitle := if Truthy(item.volumeTitle) then item.volumeTitle else c.volumeTitle,
         volumeNumber := if TruthyNumber(vn) then vn else c.volumeNumber)
    case LegacyAdd => c
    case LegacySync => c.(index := Some(pos + 1))
  }

  /** The chapter table after a reconciliation, the next id, and how many rows were inserted. */
  datatype DiffState = DiffState(chapters: seq<Chapter>, nextId: nat, added: nat)

  /** The reconciliation loop over `items`, against the rows `orig` held before it started.
      Stored rows are looked up among `orig` only, so a URL listed twice and not stored before
      is inserted twice, as the loop over a set or dict fixed in advance does. */
  function Diff(f: Flavor, orig: seq<Chapter>, sid: nat, items: seq<ListingItem>, next: nat): (st: DiffState)
    ensures |st.chapters| == |orig| + st.added && st.nextId == next + st.added
    decreases |items|
  {
    if items == [] then DiffState(orig, next, 0)
    else
      var pos := |items| - 1;
      var prev := Diff(f, orig, sid, items[..pos], next);
      var item := items[pos];
      match MatchRow(f, orig, sid, item.url)
      case None => DiffState(prev.chapters + [NewRow(f, sid, prev.nextId, item, pos)], prev.nextId + 1, prev.added + 1)
      case Some(k) => DiffState(prev.chapters[k := UpdateRow(f, prev.chapters[k], item, pos)], prev.nextId, prev.added)
  }

  /** The positions of the listing items whose URL the story has no row for, in order. */
  function NewPositions(orig: seq<Chapter>, sid: nat, items: seq<ListingItem>): (u: seq<nat>)
    ensures forall m :: 0 <= m < |u| ==> u[m] < |items| && !Stored(orig, sid, items[u[m]].url)
    ensures forall p :: 0 <= p < |items| && !Stored(orig, sid, items[p].url) ==> p in u
    ensures forall m, n :: 0 <= m < n < |u| ==> u[m] < u[n]
    decreases |items|
  {
    if items == [] then []
    else
      var pos := |items| - 1;
      var prev := NewPositions(orig, sid, items[..pos]);
      if Stored(orig, sid, items[pos].url) then prev else prev + [pos]
  }

  /** One new row per unseen listing item, in listing order, with consecutive fresh ids after
      the rows `orig` held. */
  ghost predicate AppendsUnseen(f: Flavor, orig: seq<Chapter>, sid: nat, items: seq<ListingItem>, next: nat)
  {
    var st := Diff(f, orig, sid, items, next);
    var u := NewPositions(orig, sid, items);
    && st.added == |u|
    && forall m :: 0 <= m < |u| ==> st.chapters[|orig| + m] == NewRow(f, sid, next + m, items[u[m]], u[m])
  }

  /** Reconciling one more listing item keeps the inserted rows in that shape. */
  lemma DiffAppendsStep(f: Flavor, orig: seq<Chapter>, sid: nat, items: seq<ListingItem>, next: nat)
    requires items != [] && AppendsUnseen(f, orig, sid, items[..|items| - 1], next)
    ensures AppendsUnseen(f, orig, sid, items, next)
  {
    if !Stored(orig, sid, items[|items| - 1].url) {
      DiffAppendsUnseenItem(f, orig, sid, items, next);
    } else {
      DiffAppendsStoredItem(f, orig, sid, items, next);
    }
  }

  /** An unseen last item adds its new row after those of the earlier items. */
  lemma DiffAppendsUnseenItem(f: Flavor, orig: seq<Chapter>, sid: nat, items: seq<ListingItem>, next: nat)
    requires items != [] && AppendsUnseen(f, orig, sid, items[..|items| - 1], next)
    requires !Stored(orig, sid, items[|items| - 1].url)
    ensures AppendsUnseen(f, orig, sid, items, next)
  {
    var pos := |items| - 1;
    var init := items[..pos];
    var prev := Diff(f, orig, sid, init, next);
    var u0 := NewPositions(orig, sid, init);
    var u := NewPositions(orig, sid, items);
    var st := Diff(f, orig, sid, items, next);
    forall m | 0 <= m < |u0|
      ensures items[u0[m]] == init[u0[m]]
    {
    }
    assert u == u0 + [pos];
    var row := NewRow(f, sid, prev.nextId, items[pos], pos);
    assert st.chapters == prev.chapters + [row];
    forall m | 0 <= m < |u|
      ensures st.chapters[|orig| + m] == NewRow(f, sid, next + m, items[u[m]], u[m])
    {
      if m < |u0| {
        assert u[m] == u0[m];
        assert st.chapters[|orig| + m] == prev.chapters[|orig| + m];
      } else {
        assert st.chapters[|orig| + m] == row;
      }
    }
  }

  /** A stored last item updates a stored row and leaves the new rows alone. */
  lemma DiffAppendsStoredItem(f: Flavor, orig: seq<Chapter>, sid: nat, items: seq<ListingItem>, next: nat)
    requires items != [] && AppendsUnseen(f, orig, sid, items[..|items| - 1], next)
    requires Stored(orig, sid, items[|items| - 1].url)
    ensures AppendsUnseen(f, orig, sid, items, next)
  {
    var pos := |items| - 1;
    var init := items[..pos];
    var prev := Diff(f, orig, sid, init, next);
    var u0 := NewPositions(orig, sid, init);
    var u := NewPositions(orig, sid, items);
    var st := Diff(f, orig, sid, items, next);
    forall m | 0 <= m < |u0|
      ensures items[u0[m]] == init[u0[m]]
    {
    }
    assert u == u0;
    var k := MatchRow(f, orig, sid, items[pos].url).value;
    assert st.chapters == prev.chapters[k := UpdateRow(f, prev.chapters[k], items[pos], pos)];
    forall m | 0 <= m < |u|
      ensures st.chapters[|orig| + m] == NewRow(f, sid, next + m, items[u[m]], u[m])
    {
      assert st.chapters[|orig| + m] == prev.chapters[|orig| + m];
    }
  }

  /** Exactly one new row per unseen listing item, in listing order, with consecutive fresh ids;
      the rows already stored stay in place. */
  lemma {:induction false} DiffAppends(f: Flavor, orig: seq<Chapter>, sid: nat, items: seq<ListingItem>, next: nat)
    ensures Diff(f, orig, sid, items, next).added == |NewPositions(orig, sid, items)|
    ensures forall m :: 0 <= m < |NewPositions(orig, sid, items)| ==>
      Diff(f, orig, sid, items, next).chapters[|orig| + m]
        == NewRow(f, sid, next + m, items[NewPositions(orig, sid, items)[m]], NewPositions(orig, sid, items)[m])
    decreases |items|
  {
    if items != [] {
      DiffAppends(f, orig, sid, items[..|items| - 1], next);
      DiffAppendsStep(f, orig, sid, items, next);
    }
  }

  /** `c` is the row inserted with id `id` for an unseen listing item: a pending, not downloaded
      chapter of the story, numbered by its listing position (except in the legacy `add_story`,
      which numbers nothing), with volume number 1 unless the item gives one. */
  predicate InsertedFor(f: Flavor, orig: seq<Chapter>, sid: nat, items: seq<ListingItem>, c: Chapter, id: nat) {
    && c.status == Pending && !c.isDownloaded && c.localPath.None? && c.storyId == sid && c.id == id
    && exists p :: 0 <= p < |items| && !Stored(orig, sid, items[p].url)
         && c.sourceUrl == items[p].url && c.title == items[p].title
         && c.index == (if f.LegacyAdd? then None else Some(p + 1))
         && c.volumeNumber == (if f.Current? then GetOr(items[p].volumeNumber, Some(1)) else Some(1))
  }

  lemma NewRowIsInserted(f: Flavor, orig: seq<Chapter>, sid: nat, items: seq<ListingItem>, p: nat, id: nat)
    requires p < |items| && !Stored(orig, sid, items[p].url)
    ensures InsertedFor(f, orig, sid, items, NewRow(f, sid, id, items[p], p), id)
  {
  }

  lemma NewRowAt(f: Flavor, orig: seq<Chapter>, sid: nat, items: seq<ListingItem>, next: nat, j: nat)
    requires |orig| <= j < |Diff(f, orig, sid, items, next).chapters|
    ensures InsertedFor(f, orig, sid, items, Diff(f, orig, sid, items, next).chapters[j], next + (j - |orig|))
  {
    var u := NewPositions(orig, sid, items);
    var st := Diff(f, orig, sid, items, next);
    DiffAppends(f, orig, sid, items, next);
    var m := j - |orig|;
    assert m < |u|;
    var p := u[m];
    assert st.chapters[j] == NewRow(f, sid, next + m, items[p], p);
    NewRowIsInserted(f, orig, sid, items, p, next + m);
  }

  /** Every row after the stored ones is an inserted row, with consecutive fresh ids. */
  lemma NewRowsArePending(f: Flavor, orig: seq<Chapter>, sid: nat, items: seq<ListingItem>, next: nat)
    ensures forall j :: |orig| <= j < |Diff(f, orig, sid, items, next).chapters| ==>
      InsertedFor(f, orig, sid, items, Diff(f, orig, sid, items, next).chapters[j], next + (j - |orig|))
  {
    forall j | |orig| <= j < |Diff(f, orig, sid, items, next).chapters|
      ensures InsertedFor(f, orig, sid, items, Diff(f, orig, sid, items, next).chapters[j], next + (j - |orig|))
    {
      NewRowAt(f, orig, sid, items, next, j);
    }
  }

  /** The fields a reconciliation never writes: id, story, title, URL, status, local path and
      download flag; and a published date once set. */
  predicate Kept(a: Chapter, b: Chapter) {
    b.id == a.id && b.storyId == a.storyId && b.title == a.title && b.sourceUrl == a.sourceUrl
    && b.status == a.status && b.localPath == a.localPath && b.isDownloaded == a.isDownloaded
    && (a.publishedDate.Some? ==> b.publishedDate == a.publishedDate)
  }

  /** Some listing item reconciles the stored row at position `k`. */
  predicate Touched(f: Flavor, orig: seq<Chapter>, sid: nat, items: seq<ListingItem>, k: int) {
    exists p :: 0 <= p < |items| && MatchRow(f, orig, sid, items[p].url) == Some(k)
  }

  /** Stored rows keep their status, local path, download flag and any published date; a row no
      listing item reconciles (and, in the legacy `add_story`, every stored row) is unchanged. */
  lemma {:induction false} DiffKeepsStoredRows(f: Flavor, orig: seq<Chapter>, sid: nat, items: seq<ListingItem>, next: nat)
    ensures forall k :: 0 <= k < |orig| ==> Kept(orig[k], Diff(f, orig, sid, items, next).chapters[k])
    ensures forall k :: 0 <= k < |orig| && (f.LegacyAdd? || !Touched(f, orig, sid, items, k)) ==>
      Diff(f, orig, sid, items, next).chapters[k] == orig[k]
    decreases |items|
  {
    if items != [] {
      var pos := |items| - 1;
      var init := items[..pos];
      DiffKeepsStoredRows(f, orig, sid, init, next);
      var prev := Diff(f, orig, sid, init, next);
      var st := Diff(f, orig, sid, items, next);
      forall k | 0 <= k < |orig|
        ensures Kept(orig[k], st.chapters[k])
        ensures (f.LegacyAdd? || !Touched(f, orig, sid, items, k)) ==> st.chapters[k] == orig[k]
      {
        if !f.LegacyAdd? && !Touched(f, orig, sid, items, k) {
          assert !Touched(f, orig, sid, init, k) by {
            forall p | 0 <= p < |init|
              ensures MatchRow(f, orig, sid, init[p].url) != Some(k)
            {
              assert init[p] == items[p];
            }
          }
        }
      }
    }
  }

  /** The last listing position whose item reconciles the stored row `k`. */
  predicate LastTouch(f: Flavor, orig: seq<Chapter>, sid: nat, items: seq<ListingItem>, k: int, p: int) {
    0 <= p < |items| && MatchRow(f, orig, sid, items[p].url) == Some(k)
    && forall q :: p < q < |items| ==> MatchRow(f, orig, sid, items[q].url) != Some(k)
  }

  /** A row some listing item reconciles has a last such position. */
  lemma {:induction false} LastTouchExists(f: Flavor, orig: seq<Chapter>, sid: nat, items: seq<ListingItem>, k: int, p0: nat)
    requires p0 < |items| && MatchRow(f, orig, sid, items[p0].url) == Some(k)
    ensures exists p :: LastTouch(f, orig, sid, items, k, p)
    decreases |items| - p0
  {
    if !LastTouch(f, orig, sid, items, k, p0) {
      var q :| p0 < q < |items| && MatchRow(f, orig, sid, items[q].url) == Some(k);
      LastTouchExists(f, orig, sid, items, k, q);
    }
  }

  /** Outside the legacy `add_story`, a reconciled row ends with index = (last listing position
      of its URL) + 1. */
  lemma {:induction false} DiffReindexes(f: Flavor, orig: seq<Chapter>, sid: nat, items: seq<ListingItem>, next: nat)
    requires !f.LegacyAdd?
    ensures forall k, p :: 0 <= k < |orig| && LastTouch(f, orig, sid, items, k, p) ==>
      Diff(f, orig, sid, items, next).chapters[k].index == Some(p + 1)
    decreases |items|
  {
    if items != [] {
      var pos := |items| - 1;
      var init := items[..pos];
      DiffReindexes(f, orig, sid, init, next);
      var prev := Diff(f, orig, sid, init, next);
      var st := Diff(f, orig, sid, items, next);
      forall k, p | 0 <= k < |orig| && LastTouch(f, orig, sid, items, k, p)
        ensures st.chapters[k].index == Some(p + 1)
      {
        if p < pos {
          assert MatchRow(f, orig, sid, items[pos].url) != Some(k);
          assert LastTouch(f, orig, sid, init, k, p) by {
            assert init[p] == items[p];
            forall q | p < q < |init|
              ensures MatchRow(f, orig, sid, init[q].url) != Some(k)
            {
              assert init[q] == items[q];
            }
          }
        }
      }
    }
  }

  /** Some listing item that reconciles row `k` carries the truthy volume title `v`. */
  predicate TitleGiven(orig: seq<Chapter>, sid: nat, items: seq<ListingItem>, lastWins: bool, k: int, v: Option<string>) {
    exists p :: 0 <= p < |items| && MatchRow(Current(lastWins), orig, sid, items[p].url) == Some(k)
      && Truthy(items[p].volumeTitle) && v == items[p].volumeTitle
  }

  /** Some listing item that reconciles row `k` carries the truthy volume number `v`. */
  predicate NumberGiven(orig: seq<Chapter>, sid: nat, items: seq<ListingItem>, lastWins: bool, k: int, v: Option<int>) {
    exists p :: 0 <= p < |items| && MatchRow(Current(lastWins), orig, sid, items[p].url) == Some(k)
      && TruthyNumber(GetOr(items[p].volumeNumber, Some(1))) && v == GetOr(items[p].volumeNumber, Some(1))
  }

  /** In the current variant a stored row's volume title is what was stored or the truthy title
      of a listing item that reconciles it. */
  lemma {:induction false} DiffVolumeTitles(orig: seq<Chapter>, sid: nat, items: seq<ListingItem>, next: nat, lastWins: bool)
    ensures forall k :: 0 <= k < |orig| ==>
      var v := Diff(Current(lastWins), orig, sid, items, next).chapters[k].volumeTitle;
      v == orig[k].volumeTitle || TitleGiven(orig, sid, items, lastWins, k, v)
    decreases |items|
  {
    var f := Current(lastWins);
    if items != [] {
      var pos := |items| - 1;
      var init := items[..pos];
      DiffVolumeTitles(orig, sid, init, next, lastWins);
      var prev := Diff(f, orig, sid, init, next);
      var st := Diff(f, orig, sid, items, next);
      forall k | 0 <= k < |orig|
        ensures st.chapters[k].volumeTitle == orig[k].volumeTitle || TitleGiven(orig, sid, items, lastWins, k, st.chapters[k].volumeTitle)
      {
        var v := st.chapters[k].volumeTitle;
        if MatchRow(f, orig, sid, items[pos].url) == Some(k) && Truthy(items[pos].volumeTitle) {
          assert TitleGiven(orig, sid, items, lastWins, k, v);
        } else if v != orig[k].volumeTitle {
          assert v == prev.chapters[k].volumeTitle;
          var p :| 0 <= p < |init| && MatchRow(f, orig, sid, init[p].url) == Some(k)
            && Truthy(init[p].volumeTitle) && v == init[p].volumeTitle;
          assert items[p] == init[p];
        }
      }
    }
  }

  /** In the current variant a stored row's volume number is what was stored or the truthy
      number of a listing item that reconciles it. */
  lemma {:induction false} DiffVolumeNumbers(orig: seq<Chapter>, sid: nat, items: seq<ListingItem>, next: nat, lastWins: bool)
    ensures forall k :: 0 <= k < |orig| ==>
      var v := Diff(Current(lastWins), orig, sid, items, next).chapters[k].volumeNumber;
      v == orig[k].volumeNumber || NumberGiven(orig, sid, items, lastWins, k, v)
    decreases |items|
  {
    var f := Current(lastWins);
    if items != [] {
      var pos := |items| - 1;
      var init := items[..pos];
      DiffVolumeNumbers(orig, sid, init, next, lastWins);
      var prev := Diff(f, orig, sid, init, next);
      var st := Diff(f, orig, sid, items, next);
      forall k | 0 <= k < |orig|
        ensures st.chapters[k].volumeNumber == orig[k].volumeNumber || NumberGiven(orig, sid, items, lastWins, k, st.chapters[k].volumeNumber)
      {
        var v := st.chapters[k].volumeNumber;
        if MatchRow(f, orig, sid, items[pos].url) == Some(k) && TruthyNumber(GetOr(items[pos].volumeNumber, Some(1))) {
          assert NumberGiven(orig, sid, items, lastWins, k, v);
        } else if v != orig[k].volumeNumber {
          assert v == prev.chapters[k].volumeNumber;
          var p :| 0 <= p < |init| && MatchRow(f, orig, sid, init[p].url) == Some(k)
            && TruthyNumber(GetOr(init[p].volumeNumber, Some(1))) && v == GetOr(init[p].volumeNumber, Some(1));
          assert items[p] == init[p];
        }
      }
    }
  }

  /** After a reconciliation every listed URL is stored for the story. */
  lemma DiffStoresListing(f: Flavor, orig: seq<Chapter>, sid: nat, items: seq<ListingItem>, next: nat)
    ensures forall p :: 0 <= p < |items| ==> Stored(Diff(f, orig, sid, items, next).chapters, sid, items[p].url)
  {
    var st := Diff(f, orig, sid, items, next);
    var u := NewPositions(orig, sid, items);
    DiffAppends(f, orig, sid, items, next);
    DiffKeepsStoredRows(f, orig, sid, items, next);
    forall p | 0 <= p < |items|
      ensures Stored(st.chapters, sid, items[p].url)
    {
      if Stored(orig, sid, items[p].url) {
        var j :| 0 <= j < |orig| && Owns(orig[j], sid, items[p].url);
        assert Kept(orig[j], st.chapters[j]);
        assert Owns(st.chapters[j], sid, items[p].url);
      } else {
        var m :| 0 <= m < |u| && u[m] == p;
        assert st.chapters[|orig| + m] == NewRow(f, sid, next + m, items[p], p);
        assert Owns(st.chapters[|orig| + m], sid, items[p].url);
      }
    }
  }

  /** Running the reconciliation again on an unchanged listing inserts nothing. */
  lemma DiffIdempotent(f: Flavor, orig: seq<Chapter>, sid: nat, items: seq<ListingItem>, next: nat)
    ensures var st := Diff(f, orig, sid, items, next);
      Diff(f, st.chapters, sid, items, st.nextId).added == 0
  {
    var st := Diff(f, orig, sid, items, next);
    DiffStoresListing(f, orig, sid, items, next);
    DiffAppends(f, st.chapters, sid, items, st.nextId);
    NothingNew(st.chapters, sid, items);
  }

  lemma {:induction false} NothingNew(rows: seq<Chapter>, sid: nat, items: seq<ListingItem>)
    requires forall p :: 0 <= p < |items| ==> Stored(rows, sid, items[p].url)
    ensures NewPositions(rows, sid, items) == []
    decreases |items|
  {
    if items != [] {
      var pos := |items| - 1;
      assert Stored(rows, sid, items[pos].url);
      forall p | 0 <= p < pos
        ensures Stored(rows, sid, items[..pos][p].url)
      {
        assert items[..pos][p] == items[p];
      }
      NothingNew(rows, sid, items[..pos]);
    }
  }

  /** The reconciliation loop, run on the library's chapter table. */
  method Reconcile(lib: Library, f: Flavor, sid: nat, items: seq<ListingItem>) returns (added: nat)
    modifies lib
    ensures lib.chapters == Diff(f, old(lib.chapters), sid, items, old(lib.nextChapterId)).chapters
    ensures lib.nextChapterId == Diff(f, old(lib.chapters), sid, items, old(lib.nextChapterId)).nextId
    ensures added == Diff(f, old(lib.chapters), sid, items, old(lib.nextChapterId)).added
    ensures lib.stories == old(lib.stories) && lib.history == old(lib.history) && lib.notices == old(lib.notices)
    ensures lib.nextStoryId == old(lib.nextStoryId)
  {
    var orig := lib.chapters;
    var next := lib.nextChapterId;
    var chapters := orig;
    var nextId := next;
    added := 0;
    var i := 0;
    while i < |items|
      invariant 0 <= i <= |items|
      invariant Diff(f, orig, sid, items[..i], next) == DiffState(chapters, nextId, added)
    {
      assert items[..i + 1][..i] == items[..i];
      var item := items[i];
      var found := MatchRow(f, orig, sid, item.url);
      if found.None? {
        chapters := chapters + [NewRow(f, sid, nextId, item, i)];
        nextId := nextId + 1;
        added := added + 1;
      } else {
        var k := found.value;
        chapters := chapters[k := UpdateRow(f, chapters[k], item, i)];
      }
      i := i + 1;
    }
    assert items[..|items|] == items;
    lib.chapters := chapters;
    lib.nextChapterId := nextId;
  }

  /** A reconciliation keeps the chapter ids ordered. */
  lemma DiffKeepsIdsOrdered(f: Flavor, orig: seq<Chapter>, sid: nat, items: seq<ListingItem>, next: nat)
    requires ChapterIdsOrdered(orig, next)
    ensures var st := Diff(f, orig, sid, items, next); ChapterIdsOrdered(st.chapters, st.nextId)
  {
    var st := Diff(f, orig, sid, items, next);
    DiffAppends(f, orig, sid, items, next);
    DiffKeepsStoredRows(f, orig, sid, items, next);
    NewRowsArePending(f, orig, sid, items, next);
    forall i | 0 <= i < |st.chapters|
      ensures st.chapters[i].id == (if i < |orig| then orig[i].id else next + (i - |orig|))
    {
      if i < |orig| {
        assert Kept(orig[i], st.chapters[i]);
      }
    }
  }

  /** A reconciliation for an issued story id only adds chapters of issued stories. */
  lemma DiffKeepsOwners(f: Flavor, orig: seq<Chapter>, sid: nat, items: seq<ListingItem>, next: nat, bound: nat)
    requires ChapterOwnersIssued(orig, bound) && sid < bound
    ensures ChapterOwnersIssued(Diff(f, orig, sid, items, next).chapters, bound)
  {
    var st := Diff(f, orig, sid, items, next);
    DiffKeepsStoredRows(f, orig, sid, items, next);
    NewRowsArePending(f, orig, sid, items, next);
    forall i | 0 <= i < |st.chapters|
      ensures st.chapters[i].storyId < bound
    {
      if i < |orig| {
        assert Kept(orig[i], st.chapters[i]);
      }
    }
  }
}
