/**
 * The notification manager: which configured targets an event reaches, the per-story opt-out
 * gate, the subject and message chosen for each event, the attempts and pauses of the email
 * retry schedule, and the JSON-safe copy of the context a webhook carries. The SMTP and HTTP
 * exchanges themselves are inputs: whether an attempt succeeds is an oracle.
 */
module Notifications {
  import opened Wrappers
  import opened Text
  import opened Store

  /** A row of the `notification_settings` table. */
  datatype Setting = Setting(kind: string, target: string, events: Option<string>, enabled: bool, attachFile: bool)

  /** A value of a dispatch context, by the Python type it has. `Other` is any other object,
      carried with the text `str()` gives for it. */
  datatype Value = Str(s: string) | Int(i: int) | Float(repr: string) | Bool(b: bool) | NoneValue | Other(repr: string)

  /** The text an f-string or `str()` makes of a value. */
  function Describe(v: Value): string
  {
    match v
    case Str(s) => s
    case Int(i) => IntToString(i)
    case Float(r) => r
    case Bool(b) => if b then "True" else "False"
    case NoneValue => "None"
    case Other(r) => r
  }

  /** A value used as a Python condition. Objects of other types count as true. */
  predicate IsTruthy(v: Value)
  {
    match v
    case Str(s) => s != []
    case Int(i) => i != 0
    case Float(r) => r != "0.0" && r != "-0.0"
    case Bool(b) => b
    case NoneValue => false
    case Other(_) => true
  }

  /** `context.get(key, default)` rendered as text. */
  function Field(ctx: map<string, Value>, key: string, default: string): string
  {
    if key in ctx then Describe(ctx[key]) else default
  }

  // ---------------------------------------------------------------------------------------
  // Event subscriptions
  // ---------------------------------------------------------------------------------------

  /** Every part stripped of surrounding whitespace. */
  function StripAll(parts: seq<string>): (r: seq<string>)
    ensures |r| == |parts| && forall i :: 0 <= i < |parts| ==> r[i] == Strip(parts[i])
  {
    seq(|parts|, i requires 0 <= i < |parts| => Strip(parts[i]))
  }

  /** The event names of a settings row: its `events` column split on ',' and stripped. */
  function EventNames(events: string): seq<string>
  {
    StripAll(Split(events, ','))
  }

  /** The setting reaches `event`: it is enabled, its event list is not empty, and one of the
      listed names is `event`. */
  predicate Subscribed(s: Setting, event: string)
  {
    s.enabled && Truthy(s.events) && event in EventNames(s.events.value)
  }

  /** `_get_enabled_notifications` over the rows read: the subscribed ones, in table order. */
  function Matched(rows: seq<Setting>, event: string): (r: seq<Setting>)
    ensures |r| <= |rows|
    ensures forall s :: s in r <==> s in rows && Subscribed(s, event)
    decreases |rows|
  {
    if rows == [] then []
    else
      var rest := Matched(rows[1..], event);
      assert forall x :: x in rows <==> x == rows[0] || x in rows[1..];
      if Subscribed(rows[0], event) then [rows[0]] + rest else rest
  }

  /** The matched settings come in table order, one entry per subscribed row. */
  lemma {:induction false} MatchedAppend(a: seq<Setting>, b: seq<Setting>, event: string)
    ensures Matched(a + b, event) == Matched(a, event) + Matched(b, event)
    decreases |a|
  {
    if a == [] {
      assert a + b == b;
    } else {
      var ab := a + b;
      assert ab[0] == a[0] && ab[1..] == a[1..] + b;
      MatchedAppend(a[1..], b, event);
    }
  }

  /** One row is matched exactly when it is subscribed. */
  lemma MatchedOne(s: Setting, event: string)
    ensures Matched([s], event) == if Subscribed(s, event) then [s] else []
  {
    assert [s][1..] == [];
  }

  /** `_get_enabled_notifications`: a failing settings query gives no targets. */
  function EnabledFor(rows: Result<seq<Setting>>, event: string): (r: seq<Setting>)
    ensures rows.Err? ==> r == []
    ensures rows.Ok? ==> forall s :: s in r <==> s in rows.value && Subscribed(s, event)
  {
    if rows.Err? then [] else Matched(rows.value, event)
  }

  /** A stripped piece of a text with no ',' has no ',' either. */
  lemma StripKeepsOut(p: string, c: char)
    requires c !in p
    ensures c !in Strip(p)
  {
    StripPiece(p);
  }

  /** Only a name without ',' and without surrounding whitespace can be subscribed to: a padded
      event name such as " on_download" reaches no target. */
  lemma SubscribedNameIsClean(s: Setting, event: string)
    requires Subscribed(s, event)
    ensures ',' !in event
    ensures event == [] || (!IsSpace(event[0]) && !IsSpace(event[|event| - 1]))
  {
    var parts := Split(s.events.value, ',');
    var names := EventNames(s.events.value);
    var i :| 0 <= i < |names| && names[i] == event;
    StripKeepsOut(parts[i], ',');
    StripEnds(parts[i]);
  }

  /** The comma-joined list of event names, as the settings row stores it. */
  function JoinNames(names: seq<string>): (r: string)
    requires names != []
    decreases |names|
  {
    if |names| == 1 then names[0] else names[0] + "," + JoinNames(names[1..])
  }

  /** A clean event name: no ',' and no surrounding whitespace. */
  predicate CleanName(n: string)
  {
    ',' !in n && (n == [] || (!IsSpace(n[0]) && !IsSpace(n[|n| - 1])))
  }

  lemma {:induction false} SplitRun(x: string, rest: string, sep: char, cur: string)
    requires sep !in x && sep !in cur
    ensures SplitFrom(x + rest, sep, cur) == SplitFrom(rest, sep, cur + x)
    decreases |x|
  {
    if x != [] {
      assert (x + rest)[0] == x[0] && (x + rest)[1..] == x[1..] + rest;
      assert cur + x == (cur + [x[0]]) + x[1..];
      SplitRun(x[1..], rest, sep, cur + [x[0]]);
    } else {
      assert x + rest == rest && cur + x == cur;
    }
  }

  lemma {:induction false} SplitJoin(names: seq<string>)
    requires names != [] && forall k :: 0 <= k < |names| ==> ',' !in names[k]
    ensures SplitFrom(JoinNames(names), ',', []) == names
    decreases |names|
  {
    if |names| == 1 {
      assert names[0] + [] == names[0] && [] + names[0] == names[0];
      SplitRun(names[0], [], ',', []);
    } else {
      var rest := JoinNames(names[1..]);
      assert JoinNames(names) == names[0] + ("," + rest);
      SplitRun(names[0], "," + rest, ',', []);
      assert ("," + rest)[1..] == rest;
      SplitJoin(names[1..]);
      assert [] + names[0] == names[0];
      assert names == [names[0]] + names[1..];
    }
  }

  lemma StripClean(n: string)
    requires CleanName(n)
    ensures Strip(n) == n
  {
  }

  /** An event list written by joining clean names with ',' reads back as exactly those names:
      a setting saved that way is subscribed to precisely the listed events. */
  lemma EventNamesOfJoin(names: seq<string>)
    requires names != [] && forall k :: 0 <= k < |names| ==> CleanName(names[k])
    ensures EventNames(JoinNames(names)) == names
  {
    SplitJoin(names);
    var parts := Split(JoinNames(names), ',');
    forall k | 0 <= k < |names|
      ensures Strip(parts[k]) == names[k]
    {
      StripClean(names[k]);
    }
  }

  // ---------------------------------------------------------------------------------------
  // Dispatch
  // ---------------------------------------------------------------------------------------

  /** The events the per-story opt-out applies to. */
  predicate ChapterEvent(event: string)
  {
    event == "on_new_chapters" || event == "on_download"
  }

  /** The story the context's `story_id` names; only an integer id can match a row. */
  function ContextStory(sts: seq<Story>, id: Value): (r: Option<Story>)
    ensures r.Some? ==> id.Int? && r.value in sts && r.value.id == id.i
  {
    if id.Int? && id.i >= 0 && StoryPos(sts, id.i as nat).Some? then Some(sts[StoryPos(sts, id.i as nat).value]) else None
  }

  /** The opt-out gate of `dispatch`: a truthy story id, a chapter event, a story lookup that
      did not raise and found the story, and that story's `notify_on_new_chapter` is off. */
  predicate OptedOut(event: string, ctx: map<string, Value>, stories: Result<seq<Story>>)
  {
    "story_id" in ctx && IsTruthy(ctx["story_id"]) && ChapterEvent(event) && stories.Ok?
    && var s := ContextStory(stories.value, ctx["story_id"]); s.Some? && !s.value.notifyOnNewChapter
  }

  /** Where the pieces of `pre + mid + post` sit. */
  lemma Framed(pre: string, mid: string, post: string)
    ensures StartsWith(pre + mid + post, pre) && OccursAt(pre + mid + post, mid, |pre|)
    ensures Contains(pre + mid + post, mid) && EndsWith(pre + mid, mid)
  {
    var s := pre + mid + post;
    assert s[..|pre|] == pre;
    assert s[|pre|..|pre| + |mid|] == mid;
    assert (pre + mid)[|pre|..] == mid;
    assert OccursAt(s, mid, |pre|);
  }

  /** The story and chapter titles a message mentions, with their defaults. */
  function StoryTitle(ctx: map<string, Value>): string { Field(ctx, "story_title", "Unknown Story") }
  function ChapterTitle(ctx: map<string, Value>): string { Field(ctx, "chapter_title", "") }

  /** The subject of an event's notification. */
  function Subject(event: string, ctx: map<string, Value>): (r: string)
    ensures event == "on_download" ==>
      (StartsWith(r, "Downloaded: ") && EndsWith(r, StoryTitle(ctx) + " - " + ChapterTitle(ctx)))
    ensures event == "on_failure" ==>
      (StartsWith(r, "Failed: ") && EndsWith(r, StoryTitle(ctx) + " - " + ChapterTitle(ctx)))
    ensures event == "on_download" ==> r == "Downloaded: " + StoryTitle(ctx) + " - " + ChapterTitle(ctx)
    ensures event == "on_failure" ==> r == "Failed: " + StoryTitle(ctx) + " - " + ChapterTitle(ctx)
    ensures event == "on_new_chapters" ==> r == "New Chapters: " + StoryTitle(ctx)
    ensures !ChapterEvent(event) && event != "on_failure" ==> r == "Notification: " + event
  {
    var tail := StoryTitle(ctx) + " - " + ChapterTitle(ctx);
    if event == "on_download" then
      Framed("Downloaded: ", tail, "");
      "Downloaded: " + tail
    else if event == "on_failure" then
      Framed("Failed: ", tail, "");
      "Failed: " + tail
    else if event == "on_new_chapters" then "New Chapters: " + StoryTitle(ctx)
    else "Notification: " + event
  }

  /** The message of an event's notification, by event kind. It always names the story. */
  function Body(event: string, ctx: map<string, Value>): (r: string)
    ensures Contains(r, StoryTitle(ctx))
    ensures event == "on_download" ==>
      r == "Successfully downloaded: " + StoryTitle(ctx) + "\nChapter: " + ChapterTitle(ctx)
    ensures event == "on_failure" ==>
      r == "Download failed for: " + StoryTitle(ctx) + "\nChapter: " + ChapterTitle(ctx) + FailureTail(ctx)
    ensures event == "on_new_chapters" ==>
      r == "Found " + Field(ctx, "new_chapters_count", "0") + " new chapters for " + StoryTitle(ctx) + "."
    ensures event != "on_download" && event != "on_failure" && event != "on_new_chapters" ==>
      r == "Event " + event + " occurred for " + StoryTitle(ctx) + "."
  {
    var story := StoryTitle(ctx);
    var chapter := ChapterTitle(ctx);
    if event == "on_download" then
      Framed("Successfully downloaded: ", story, "\nChapter: " + chapter);
      AppendAssoc("Successfully downloaded: " + story, "\nChapter: ", chapter);
      "Successfully downloaded: " + story + "\nChapter: " + chapter
    else if event == "on_failure" then
      Framed("Download failed for: ", story, "\nChapter: " + chapter + FailureTail(ctx));
      AppendAssoc("Download failed for: " + story, "\nChapter: " + chapter, FailureTail(ctx));
      AppendAssoc("Download failed for: " + story, "\nChapter: ", chapter);
      "Download failed for: " + story + "\nChapter: " + chapter + FailureTail(ctx)
    else if event == "on_new_chapters" then
      Framed("Found " + Field(ctx, "new_chapters_count", "0") + " new chapters for ", story, ".");
      "Found " + Field(ctx, "new_chapters_count", "0") + " new chapters for " + story + "."
    else
      Framed("Event " + event + " occurred for ", story, ".");
      "Event " + event + " occurred for " + story + "."
  }

  /** The last line of a failure message: the error, or "Unknown Error". */
  function FailureTail(ctx: map<string, Value>): string
  {
    "\nError: " + Field(ctx, "error", "Unknown Error")
  }

  /** A failure message opens with "Download failed for: " and ends with the error line. */
  lemma FailureBody(ctx: map<string, Value>)
    ensures StartsWith(Body("on_failure", ctx), "Download failed for: ")
    ensures EndsWith(Body("on_failure", ctx), FailureTail(ctx))
  {
    var pre, story, mid := "Download failed for: ", StoryTitle(ctx), "\nChapter: " + ChapterTitle(ctx);
    var tail := FailureTail(ctx);
    var b := pre + story + (mid + tail);
    assert b == Body("on_failure", ctx);
    assert b[..|pre|] == pre;
    assert b == (pre + story + mid) + tail;
    assert b[|b| - |tail|..] == tail;
  }

  /** A new-chapters message carries the count of new chapters (0 when the context has none). */
  lemma NewChaptersBody(ctx: map<string, Value>)
    ensures Contains(Body("on_new_chapters", ctx), Field(ctx, "new_chapters_count", "0"))
  {
    var count := Field(ctx, "new_chapters_count", "0");
    Framed("Found ", count, " new chapters for " + StoryTitle(ctx) + ".");
    assert "Found " + count + (" new chapters for " + StoryTitle(ctx) + ".") == Body("on_new_chapters", ctx);
  }

  /** A context value JSON can carry as it is. */
  predicate JsonSafe(v: Value) { !v.Other? }

  /** One value of the webhook's context: kept when JSON can carry it, else its text. */
  function Sanitize(v: Value): (r: Value)
    ensures JsonSafe(r)
    ensures JsonSafe(v) ==> r == v
    ensures !JsonSafe(v) ==> r == Str(Describe(v))
  {
    if v.Other? then Str(v.repr) else v
  }

  /** The context as `send_webhook` sends it. */
  function Sanitized(ctx: map<string, Value>): (r: map<string, Value>)
    ensures r.Keys == ctx.Keys
    ensures forall k :: k in r ==> JsonSafe(r[k]) && Describe(r[k]) == Describe(ctx[k])
  {
    map k | k in ctx :: Sanitize(ctx[k])
  }

  /** What one target receives. */
  datatype Delivery =
    | Email(target: string, subject: string, body: string, attachment: Option<Value>)
    | Webhook(target: string, message: string, data: map<string, Value>)

  /** What `dispatch` sends to one matched setting: email and webhook kinds only. */
  function DeliveryFor(s: Setting, subject: string, body: string, ctx: map<string, Value>): (r: Option<Delivery>)
    ensures r.Some? <==> s.kind == "email" || s.kind == "webhook"
    ensures r.Some? ==> r.value.target == s.target && (r.value.Email? <==> s.kind == "email")
    ensures r.Some? && r.value.Email? ==>
      (r.value.subject == subject && r.value.body == body
       && (r.value.attachment.Some? <==> s.attachFile && "file_path" in ctx)
       && (r.value.attachment.Some? ==> r.value.attachment.value == ctx["file_path"]))
    ensures r.Some? && r.value.Webhook? ==> r.value.message == body && r.value.data == Sanitized(ctx)
  {
    if s.kind == "email" then
      Some(Email(s.target, subject, body, if s.attachFile && "file_path" in ctx then Some(ctx["file_path"]) else None))
    else if s.kind == "webhook" then
      Some(Webhook(s.target, body, Sanitized(ctx)))
    else None
  }

  /** The deliveries to the matched settings, in their order. */
  function Deliveries(ss: seq<Setting>, subject: string, body: string, ctx: map<string, Value>): (r: seq<Delivery>)
    ensures |r| <= |ss|
    ensures forall d :: d in r ==> exists s :: s in ss && DeliveryFor(s, subject, body, ctx) == Some(d)
    ensures forall s :: s in ss && DeliveryFor(s, subject, body, ctx).Some? ==> DeliveryFor(s, subject, body, ctx).value in r
    decreases |ss|
  {
    if ss == [] then []
    else
      var rest := Deliveries(ss[1..], subject, body, ctx);
      assert forall x :: x in ss <==> x == ss[0] || x in ss[1..];
      match DeliveryFor(ss[0], subject, body, ctx)
      case None => rest
      case Some(d) => [d] + rest
  }

  /** The deliveries of the first setting followed by those of the rest. */
  lemma DeliveriesUnfold(ss: seq<Setting>, subject: string, body: string, ctx: map<string, Value>)
    requires ss != []
    ensures Deliveries(ss, subject, body, ctx)
      == (match DeliveryFor(ss[0], subject, body, ctx) case None => [] case Some(d) => [d]) + Deliveries(ss[1..], subject, body, ctx)
  {
  }

  /** The deliveries come in the settings' order, one per setting that has a channel. */
  lemma {:induction false} DeliveriesAppend(a: seq<Setting>, b: seq<Setting>, subject: string, body: string, ctx: map<string, Value>)
    ensures Deliveries(a + b, subject, body, ctx) == Deliveries(a, subject, body, ctx) + Deliveries(b, subject, body, ctx)
    decreases |a|
  {
    if a == [] {
      assert a + b == b;
    } else {
      var ab := a + b;
      assert ab[0] == a[0] && ab[1..] == a[1..] + b;
      DeliveriesAppend(a[1..], b, subject, body, ctx);
      DeliveriesUnfold(ab, subject, body, ctx);
      DeliveriesUnfold(a, subject, body, ctx);
      var h := match DeliveryFor(a[0], subject, body, ctx) case None => [] case Some(d) => [d];
      AppendAssoc(h, Deliveries(a[1..], subject, body, ctx), Deliveries(b, subject, body, ctx));
    }
  }

  /** One setting gives its delivery, or none when its channel is neither email nor webhook. */
  lemma DeliveriesOne(s: Setting, subject: string, body: string, ctx: map<string, Value>)
    ensures Deliveries([s], subject, body, ctx) == match DeliveryFor(s, subject, body, ctx) case None => [] case Some(d) => [d]
  {
    assert [s][1..] == [];
  }

  /** `dispatch(event, context)`: the deliveries made, given the story rows the gate reads
      (`Err` when that lookup raises) and the settings rows (`Err` when that query raises). */
  function Dispatch(event: string, ctx: map<string, Value>, stories: Result<seq<Story>>, rows: Result<seq<Setting>>): (r: seq<Delivery>)
    ensures OptedOut(event, ctx, stories) ==> r == []
    ensures !OptedOut(event, ctx, stories) ==>
      r == Deliveries(EnabledFor(rows, event), Subject(event, ctx), Body(event, ctx), ctx)
    ensures forall d :: d in r ==> exists s :: rows.Ok? && s in rows.value && Subscribed(s, event) && s.target == d.target
    ensures forall d :: d in r && d.Email? ==> d.subject == Subject(event, ctx) && d.body == Body(event, ctx)
    ensures forall d :: d in r && d.Webhook? ==> d.message == Body(event, ctx) && forall k :: k in d.data ==> JsonSafe(d.data[k])
  {
    if OptedOut(event, ctx, stories) then []
    else
      Deliveries(EnabledFor(rows, event), Subject(event, ctx), Body(event, ctx), ctx)
  }

  /** The gate only ever silences the two chapter events, and a story lookup that raises never
      silences anything: in both cases every subscribed email or webhook target is reached. */
  lemma GateFailsOpen(event: string, ctx: map<string, Value>, stories: Result<seq<Story>>, rows: Result<seq<Setting>>, s: Setting)
    requires !ChapterEvent(event) || stories.Err?
    requires rows.Ok? && s in rows.value && Subscribed(s, event) && (s.kind == "email" || s.kind == "webhook")
    ensures exists d :: d in Dispatch(event, ctx, stories, rows) && d.target == s.target
  {
    var d := DeliveryFor(s, Subject(event, ctx), Body(event, ctx), ctx).value;
    assert d in Deliveries(EnabledFor(rows, event), Subject(event, ctx), Body(event, ctx), ctx);
  }

  /** The context the story manager passes with an `on_new_chapters` notice. */
  function NoticeContext(n: Notice): (ctx: map<string, Value>)
    ensures ctx.Keys == {"story_title", "new_chapters_count", "story_id"}
  {
    map["story_title" := Str(n.storyTitle), "new_chapters_count" := Int(n.newChapters), "story_id" := Int(n.storyId)]
  }

  /** A new-chapters notice for a stored story that opted out reaches no target. */
  lemma OptedOutNoticeSilenced(n: Notice, sts: seq<Story>, rows: Result<seq<Setting>>)
    requires n.event == "on_new_chapters" && n.storyId != 0
    requires StoryPos(sts, n.storyId).Some? && !sts[StoryPos(sts, n.storyId).value].notifyOnNewChapter
    ensures Dispatch(n.event, NoticeContext(n), Ok(sts), rows) == []
  {
    assert NoticeContext(n)["story_id"] == Int(n.storyId);
  }

  /** A new-chapters notice for a story that did not opt out, or that is not stored, goes to
      every subscribed target with the story's title in its subject. */
  lemma NoticeDelivered(n: Notice, sts: seq<Story>, rows: Result<seq<Setting>>)
    requires n.event == "on_new_chapters"
    requires StoryPos(sts, n.storyId).None? || sts[StoryPos(sts, n.storyId).value].notifyOnNewChapter
    ensures Dispatch(n.event, NoticeContext(n), Ok(sts), rows)
            == Deliveries(EnabledFor(rows, n.event), "New Chapters: " + n.storyTitle, Body(n.event, NoticeContext(n)), NoticeContext(n))
  {
    var ctx := NoticeContext(n);
    assert ctx["story_id"] == Int(n.storyId) && ctx["story_title"] == Str(n.storyTitle);
    assert !OptedOut(n.event, ctx, Ok(sts));
  }

  // ---------------------------------------------------------------------------------------
  // Email retry schedule
  // ---------------------------------------------------------------------------------------

  const MaxRetries: nat := 3
  const RetryDelay: nat := 5

  /** One step of `send_email`: an SMTP attempt (numbered from 0) or a pause in seconds. */
  datatype EmailStep = Try(attempt: nat) | Sleep(seconds: nat)

  /** The steps from attempt `a` on, when `succeeds(k)` says whether attempt `k` goes through. */
  function RetryFrom(a: nat, succeeds: nat -> bool): (t: seq<EmailStep>)
    requires a < MaxRetries
    ensures |t| >= 1 && t[0] == Try(a)
    decreases MaxRetries - a
  {
    if succeeds(a) || a == MaxRetries - 1 then [Try(a)]
    else [Try(a), Sleep(RetryDelay * (a + 1))] + RetryFrom(a + 1, succeeds)
  }

  /** From attempt `a` on: attempts and pauses alternate, attempt `k` is followed by a pause of
      `5 * (k + 1)` seconds, the schedule ends on an attempt, every attempt before the last one
      failed, and the last one succeeded or was the third. */
  lemma {:induction false} RetryShape(a: nat, succeeds: nat -> bool)
    requires a < MaxRetries
    ensures var t := RetryFrom(a, succeeds);
      |t| <= 2 * (MaxRetries - a) - 1 && t[|t| - 1].Try?
      && (forall i :: 0 <= i < |t| ==>
            t[i] == if i % 2 == 0 then Try(a + i / 2) else Sleep(RetryDelay * (a + i / 2 + 1)))
      && (forall i :: 0 <= i < |t| - 1 && t[i].Try? ==> !succeeds(t[i].attempt))
      && (succeeds(t[|t| - 1].attempt) || t[|t| - 1].attempt == MaxRetries - 1)
    decreases MaxRetries - a
  {
    if !(succeeds(a) || a == MaxRetries - 1) {
      var rest := RetryFrom(a + 1, succeeds);
      RetryShape(a + 1, succeeds);
      var t := [Try(a), Sleep(RetryDelay * (a + 1))] + rest;
      assert RetryFrom(a, succeeds) == t;
      forall i | 2 <= i < |t|
        ensures t[i] == if i % 2 == 0 then Try(a + i / 2) else Sleep(RetryDelay * (a + i / 2 + 1))
      {
        assert t[i] == rest[i - 2];
        assert (i - 2) % 2 == i % 2 && (i - 2) / 2 == i / 2 - 1;
      }
      assert t[|t| - 1] == rest[|rest| - 1];
      forall i | 0 <= i < |t| - 1 && t[i].Try?
        ensures !succeeds(t[i].attempt)
      {
        if i >= 2 {
          assert t[i] == rest[i - 2];
        }
      }
    }
  }

  /** The steps `send_email` takes: none without an SMTP host. */
  function EmailTrace(host: Option<string>, succeeds: nat -> bool): (t: seq<EmailStep>)
    ensures !Truthy(host) <==> t == []
  {
    if Truthy(host) then RetryFrom(0, succeeds) else []
  }

  /** The email went out: the last attempt made succeeded. */
  predicate Delivered(t: seq<EmailStep>, succeeds: nat -> bool)
  {
    t != [] && t[|t| - 1].Try? && succeeds(t[|t| - 1].attempt)
  }

  /** With a host configured: at most three attempts, the first is attempt 0, the schedule
      alternates attempts with pauses of 5 then 10 seconds, never ends on a pause, stops at the
      first success, and the email goes out exactly when one of the three attempts would succeed. */
  lemma EmailSchedule(host: Option<string>, succeeds: nat -> bool)
    requires Truthy(host)
    ensures var t := EmailTrace(host, succeeds);
      1 <= |t| <= 5 && t[0] == Try(0) && t[|t| - 1].Try?
      && (|t| >= 2 ==> t[1] == Sleep(5)) && (|t| >= 4 ==> t[3] == Sleep(10))
      && (forall i :: 0 <= i < |t| - 1 && t[i].Try? ==> !succeeds(t[i].attempt))
      && (Delivered(t, succeeds) <==> succeeds(0) || succeeds(1) || succeeds(2))
  {
    var t := RetryFrom(0, succeeds);
    RetryShape(0, succeeds);
    assert t[|t| - 1] == Try((|t| - 1) / 2);
    if !Delivered(t, succeeds) {
      assert t[|t| - 1].attempt == 2 && |t| == 5;
      assert t[0] == Try(0) && t[2] == Try(1);
    }
  }

  /** `send_email`'s attempt loop: the steps taken and whether the email went out. */
  method SendEmail(host: Option<string>, succeeds: nat -> bool) returns (trace: seq<EmailStep>, sent: bool)
    ensures trace == EmailTrace(host, succeeds)
    ensures sent <==> Delivered(trace, succeeds)
  {
    trace := [];
    sent := false;
    if !Truthy(host) {
      return;
    }
    var attempt := 0;
    while attempt < MaxRetries
      invariant 0 <= attempt <= MaxRetries
      invariant attempt < MaxRetries ==> trace + RetryFrom(attempt, succeeds) == RetryFrom(0, succeeds)
      invariant attempt == MaxRetries ==>
        trace == RetryFrom(0, succeeds) && trace != [] && trace[|trace| - 1] == Try(MaxRetries - 1) && !succeeds(MaxRetries - 1)
    {
      var rest := RetryFrom(attempt, succeeds);
      if succeeds(attempt) {
        assert rest == [Try(attempt)];
        trace := trace + [Try(attempt)];
        sent := true;
        return;
      }
      if attempt < MaxRetries - 1 {
        var step := [Try(attempt), Sleep(RetryDelay * (attempt + 1))];
        assert rest == step + RetryFrom(attempt + 1, succeeds);
        assert (trace + step) + RetryFrom(attempt + 1, succeeds) == trace + rest;
        trace := trace + step;
      } else {
        assert rest == [Try(attempt)];
        trace := trace + [Try(attempt)];
      }
      attempt := attempt + 1;
    }
  }

  /** The JSON body `send_webhook` posts once, without retry. */
  datatype WebhookPayload = WebhookPayload(content: string, text: string, data: map<string, Value>)

  /** `send_webhook`: the context copied key by key into a JSON-safe dictionary, and the payload
      built around it. */
  method SendWebhook(message: string, ctx: map<string, Value>) returns (payload: WebhookPayload)
    ensures payload.content == message && payload.text == message
    ensures payload.data == Sanitized(ctx)
  {
    var safe: map<string, Value> := map[];
    var todo := ctx.Keys;
    while todo != {}
      invariant todo <= ctx.Keys
      invariant safe.Keys == ctx.Keys - todo
      invariant forall k :: k in safe ==> safe[k] == Sanitize(ctx[k])
      decreases |todo|
    {
      var k :| k in todo;
      var v := ctx[k];
      if v.Other? {
        safe := safe[k := Str(Describe(v))];
      } else {
        safe := safe[k := v];
      }
      todo := todo - {k};
    }
    payload := WebhookPayload(message, message, safe);
  }
}
