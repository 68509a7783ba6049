/**
 * The XenForo forum adapters (Questionable Questing, SpaceBattles, Sufficient Velocity):
 * which URLs each one claims, the thread-URL normaliser, and the post-id extractor of the
 * "all posts" variant.
 *
 * The normaliser is `re.search(r'(https?://<host>/threads/[^/]+\.\d+)', url)`, group 1 plus '/',
 * or the URL unchanged. It is modelled as a leftmost search; at each start the greedy
 * `[^/]+` backtracks to the LAST '.' that is followed by a digit, and `\d+` then takes every
 * digit that follows.
 */
module ForumThreads {
  import opened Wrappers
  import opened Text

  const QuestionableQuestingHost := "forum.questionablequesting.com"
  const SpaceBattlesHost := "forums.spacebattles.com"
  const SufficientVelocityHost := "forums.sufficientvelocity.com"

  /** `QuestionableQuestingSource.identify`. */
  predicate IdentifyQuestionableQuesting(url: string) { Contains(url, "questionablequesting.com/threads/") }
  /** `SpaceBattlesSource.identify`. */
  predicate IdentifySpaceBattles(url: string) { Contains(url, "spacebattles.com/threads/") }
  /** `SufficientVelocitySource.identify`. */
  predicate IdentifySufficientVelocity(url: string) { Contains(url, "sufficientvelocity.com/threads/") }
  /** `QuestionableQuestingAllPostsSource.identify`: the "all posts" mode is never chosen by URL. */
  predicate IdentifyAllPosts(url: string) { false }

  /** The literal text in front of the thread slug, for `https` (`secure`) or `http`. */
  function Prefix(host: string, secure: bool): string {
    (if secure then "https://" else "http://") + host + "/threads/"
  }

  /** The end of the run of non-'/' characters that starts at `i`. */
  function NonSlashEnd(s: string, i: nat): (e: nat)
    requires i <= |s|
    ensures i <= e <= |s| && (e == |s| || s[e] == '/')
    ensures forall k :: i <= k < e ==> s[k] != '/'
    decreases |s| - i
  {
    if i < |s| && s[i] != '/' then NonSlashEnd(s, i + 1) else i
  }

  /** A '.' followed by a digit at position `j`. */
  predicate DotDigitAt(s: string, j: nat) { j + 1 < |s| && s[j] == '.' && IsDigit(s[j + 1]) }

  /** The largest `j` in `[lo, hi)` with a '.' followed by a digit. */
  function LastDotDigit(s: string, lo: nat, hi: nat): (r: Option<nat>)
    requires lo <= hi <= |s|
    ensures r.Some? ==> lo <= r.value < hi && DotDigitAt(s, r.value)
    ensures r.Some? ==> forall j :: r.value < j < hi ==> !DotDigitAt(s, j)
    ensures r.None? ==> forall j :: lo <= j < hi ==> !DotDigitAt(s, j)
    decreases hi - lo
  {
    if hi == lo then None
    else if DotDigitAt(s, hi - 1) then Some(hi - 1)
    else LastDotDigit(s, lo, hi - 1)
  }

  /** Where the scheme and host part of the pattern ends when it starts at `start`. */
  function SlugStart(host: string, s: string, start: nat): (p: Option<nat>)
    requires start <= |s|
    ensures p.Some? ==> start < p.value <= |s|
  {
    if StartsWith(s[start..], Prefix(host, true)) then Some(start + |Prefix(host, true)|)
    else if StartsWith(s[start..], Prefix(host, false)) then Some(start + |Prefix(host, false)|)
    else None
  }

  /** The end of the match of the thread pattern that starts at `start`, if there is one. */
  function MatchEnd(host: string, s: string, start: nat): (r: Option<nat>)
    requires start <= |s|
    ensures r.Some? ==> start < r.value <= |s|
  {
    match SlugStart(host, s, start)
    case None => None
    case Some(p) =>
      var e := NonSlashEnd(s, p);
      if p + 1 > e then None
      else
        match LastDotDigit(s, p + 1, e)
        case None => None
        case Some(j) => Some(DigitRunEnd(s, j + 1))
  }

  /** The leftmost position in `from..last` at which `f` finds something, with what it finds. */
  function FirstSome(f: nat -> Option<nat>, from: nat, last: nat): (r: Option<(nat, nat)>)
    requires from <= last
    ensures r.Some? ==> from <= r.value.0 <= last && f(r.value.0) == Some(r.value.1)
    decreases last - from
  {
    if f(from).Some? then Some((from, f(from).value))
    else if from == last then None
    else FirstSome(f, from + 1, last)
  }

  /** `FirstSome` finds the leftmost position, and finds nothing only when `f` finds nothing
      anywhere in `from..last`. */
  lemma {:induction false} FirstSomeLeftmost(f: nat -> Option<nat>, from: nat, last: nat)
    requires from <= last
    ensures var r := FirstSome(f, from, last);
      && (r.Some? ==> forall k :: from <= k < r.value.0 ==> f(k).None?)
      && (r.None? ==> forall k :: from <= k <= last ==> f(k).None?)
    decreases last - from
  {
    if f(from).None? && from < last {
      FirstSomeLeftmost(f, from + 1, last);
    }
  }

  /** The end of the match starting at each position of `s`. */
  function Matcher(host: string, s: string): nat -> Option<nat>
  {
    (k: nat) => if k <= |s| then MatchEnd(host, s, k) else None
  }

  /** The leftmost match at or after `from`, as a (start, end) pair. */
  function FirstMatch(host: string, s: string, from: nat): (r: Option<(nat, nat)>)
    requires from <= |s|
    ensures r.Some? ==> from <= r.value.0 < r.value.1 <= |s| && MatchEnd(host, s, r.value.0) == Some(r.value.1)
  {
    FirstSome(Matcher(host, s), from, |s|)
  }

  /** The match found is the leftmost one, and none is found only when the pattern matches
      nowhere at or after `from`. */
  lemma FirstMatchLeftmost(host: string, s: string, from: nat)
    requires from <= |s|
    ensures var r := FirstMatch(host, s, from);
      && (r.Some? ==> forall k :: from <= k < r.value.0 ==> MatchEnd(host, s, k).None?)
      && (r.None? ==> forall k :: from <= k <= |s| ==> MatchEnd(host, s, k).None?)
  {
    var f := Matcher(host, s);
    var r := FirstMatch(host, s, from);
    FirstSomeLeftmost(f, from, |s|);
    assert r == FirstSome(f, from, |s|);
    if r.Some? {
      forall k | from <= k < r.value.0
        ensures MatchEnd(host, s, k).None?
      {
        assert f(k).None?;
      }
    } else {
      forall k | from <= k <= |s|
        ensures MatchEnd(host, s, k).None?
      {
        assert f(k).None?;
      }
    }
  }

  /** `_normalize_url` of the adapter for `host`. */
  function NormalizeThreadUrl(host: string, url: string): (r: string)
    ensures FirstMatch(host, url, 0).None? ==> r == url
    ensures FirstMatch(host, url, 0).Some? ==>
      var m := FirstMatch(host, url, 0).value;
      r == url[m.0..m.1] + "/"
  {
    match FirstMatch(host, url, 0)
    case None => url
    case Some(m) => url[m.0..m.1] + "/"
  }

  lemma DigitsInsideSlug(url: string, p: nat, e: nat, j: nat, en: nat)
    requires p <= j < e <= |url| && e == NonSlashEnd(url, p) && DotDigitAt(url, j)
    requires en == DigitRunEnd(url, j + 1)
    ensures en <= e
  {
  }

  /** The scheme prefix recognised at `st` in `url` is the one recognised at 0 in `r`, when `r`
      agrees with `url` from `st` on for longer than either prefix. */
  lemma SlugStartShift(host: string, url: string, st: nat, r: string, n: nat)
    requires st + n <= |url| && n <= |r| && |Prefix(host, true)| <= n
    requires r[..n] == url[st..st + n]
    ensures SlugStart(host, r, 0) == (match SlugStart(host, url, st) case None => None case Some(p) => Some(p - st))
  {
    var hs := Prefix(host, true);
    var hp := Prefix(host, false);
    assert |hs| == |hp| + 1;
    assert r[..|hs|] == url[st..][..|hs|];
    assert r[..|hp|] == url[st..][..|hp|];
    assert r[0..] == r;
  }

  lemma NonSlashEndShift(url: string, st: nat, p: nat, en: nat, r: string)
    requires st <= p <= en <= |url| && |r| == en - st + 1 && r[en - st] == '/'
    requires forall k :: 0 <= k < en - st ==> r[k] == url[st + k]
    requires forall k :: p <= k < en ==> url[k] != '/'
    ensures NonSlashEnd(r, p - st) == en - st
  {
    assert forall k :: p - st <= k < en - st ==> r[k] != '/';
  }

  lemma LastDotDigitShift(url: string, st: nat, p: nat, e: nat, j: nat, en: nat, r: string)
    requires st <= p && p + 1 <= j && j + 1 < en <= e <= |url|
    requires LastDotDigit(url, p + 1, e) == Some(j)
    requires |r| == en - st + 1 && r[en - st] == '/'
    requires forall k :: 0 <= k < en - st ==> r[k] == url[st + k]
    ensures LastDotDigit(r, p - st + 1, en - st) == Some(j - st)
  {
    assert r[j - st] == url[j] && r[j - st + 1] == url[j + 1];
    assert DotDigitAt(r, j - st);
    assert forall k :: j - st < k < en - st ==> !DotDigitAt(r, k) by {
      forall k | j - st < k < en - st
        ensures !DotDigitAt(r, k)
      {
        assert !DotDigitAt(url, st + k);
        if k + 1 < en - st {
          assert r[k] == url[st + k] && r[k + 1] == url[st + k + 1];
        }
      }
    }
  }

  lemma DigitRunEndShift(url: string, st: nat, j: nat, en: nat, r: string)
    requires st <= j && j + 1 <= en <= |url| && en == DigitRunEnd(url, j + 1)
    requires |r| == en - st + 1 && r[en - st] == '/'
    requires forall k :: 0 <= k < en - st ==> r[k] == url[st + k]
    ensures DigitRunEnd(r, j - st + 1) == en - st
  {
    forall k | j - st + 1 <= k < en - st
      ensures IsDigit(r[k])
    {
      assert r[k] == url[st + k];
      assert url[j + 1..en][st + k - (j + 1)] == url[st + k];
    }
    DigitsUpTo(r, j - st + 1, en - st);
  }

  /** The four stages of a match, read off `MatchEnd`. */
  lemma MatchEndParts(host: string, s: string, start: nat, en: nat)
      returns (p: nat, e: nat, j: nat)
    requires start <= |s| && MatchEnd(host, s, start) == Some(en)
    ensures SlugStart(host, s, start) == Some(p) && e == NonSlashEnd(s, p) && p + 1 <= e
    ensures LastDotDigit(s, p + 1, e) == Some(j) && en == DigitRunEnd(s, j + 1)
  {
    p := SlugStart(host, s, start).value;
    e := NonSlashEnd(s, p);
    j := LastDotDigit(s, p + 1, e).value;
  }

  /** The four stages put back together. */
  lemma MatchEndFromParts(host: string, s: string, start: nat, p: nat, e: nat, j: nat, en: nat)
    requires start <= |s| && SlugStart(host, s, start) == Some(p) && e == NonSlashEnd(s, p) && p + 1 <= e
    requires LastDotDigit(s, p + 1, e) == Some(j) && j + 1 <= |s| && DigitRunEnd(s, j + 1) == en
    ensures MatchEnd(host, s, start) == Some(en)
  {
  }

  /** The four stages of a match in `url` from `st`, replayed on a string that agrees with `url`
      on the match and has '/' after it. */
  lemma PartsAgainOn(host: string, url: string, st: nat, p: nat, e: nat, j: nat, en: nat, r: string)
    requires st <= |url| && SlugStart(host, url, st) == Some(p) && e == NonSlashEnd(url, p) && p + 1 <= e
    requires LastDotDigit(url, p + 1, e) == Some(j) && en == DigitRunEnd(url, j + 1)
    requires |r| == en - st + 1 && r[en - st] == '/'
    requires forall k :: 0 <= k < en - st ==> r[k] == url[st + k]
    ensures st <= p < j < en
    ensures SlugStart(host, r, 0) == Some(p - st) && NonSlashEnd(r, p - st) == en - st
    ensures LastDotDigit(r, p - st + 1, en - st) == Some(j - st) && DigitRunEnd(r, j - st + 1) == en - st
  {
    DigitsInsideSlug(url, p, e, j, en);
    assert r[..en - st] == url[st..en];
    SlugStartShift(host, url, st, r, en - st);
    NonSlashEndShift(url, st, p, en, r);
    LastDotDigitShift(url, st, p, e, j, en, r);
    DigitRunEndShift(url, st, j, en, r);
  }

  /** The matched text followed by '/': a string that agrees with `url` on the match and has
      '/' after it. */
  lemma MatchAgainOn(host: string, url: string, st: nat, en: nat, r: string)
    requires st <= |url| && MatchEnd(host, url, st) == Some(en)
    requires |r| == en - st + 1 && r[en - st] == '/'
    requires forall k :: 0 <= k < en - st ==> r[k] == url[st + k]
    ensures MatchEnd(host, r, 0) == Some(en - st)
  {
    var p, e, j := MatchEndParts(host, url, st, en);
    PartsAgainOn(host, url, st, p, e, j, en, r);
    var p', e', j' := p - st, en - st, j - st;
    MatchEndFromParts(host, r, 0, p', e', j', e');
  }

  /** The matched text plus '/' matches again, from its first character to the '/'. */
  lemma MatchAgain(host: string, url: string, st: nat, en: nat)
    requires st <= |url| && MatchEnd(host, url, st) == Some(en)
    ensures MatchEnd(host, url[st..en] + "/", 0) == Some(en - st)
  {
    var r := url[st..en] + "/";
    MatchAgainOn(host, url, st, en, r);
  }

  /** A normalised thread URL is a fixed point: normalising twice changes nothing more. */
  lemma NormalizeIdempotent(host: string, url: string)
    ensures NormalizeThreadUrl(host, NormalizeThreadUrl(host, url)) == NormalizeThreadUrl(host, url)
  {
    var m := FirstMatch(host, url, 0);
    if m.Some? {
      var st, en := m.value.0, m.value.1;
      var r := url[st..en] + "/";
      MatchAgain(host, url, st, en);
      assert FirstMatch(host, r, 0) == Some((0, en - st));
      assert r[0..en - st] == url[st..en];
    }
  }

  /** A prefix of the text from `st` on is a prefix of any piece of it long enough, with '/'
      appended. */
  lemma PrefixOfPiece(s: string, st: nat, en: nat, pre: string)
    requires st + |pre| <= en <= |s| && StartsWith(s[st..], pre)
    ensures StartsWith(s[st..en] + "/", pre)
  {
    assert (s[st..en] + "/")[..|pre|] == s[st..][..|pre|];
  }

  /** A URL in which the pattern does not occur is returned unchanged; one in which it occurs
      becomes an http(s) thread URL of `host` that ends with '/'. */
  lemma NormalizeShape(host: string, url: string)
    ensures var r := NormalizeThreadUrl(host, url);
      r == url || ((StartsWith(r, Prefix(host, true)) || StartsWith(r, Prefix(host, false))) && r[|r| - 1] == '/')
  {
    var m := FirstMatch(host, url, 0);
    if m.Some? {
      var st, en := m.value.0, m.value.1;
      var p, e, j := MatchEndParts(host, url, st, en);
      if StartsWith(url[st..], Prefix(host, true)) {
        PrefixOfPiece(url, st, en, Prefix(host, true));
      } else {
        PrefixOfPiece(url, st, en, Prefix(host, false));
      }
    }
  }

  /** The thread prefix of a host that ends with `site` holds "<site>/threads/". */
  lemma PrefixNamesSite(host: string, site: string, secure: bool)
    requires EndsWith(host, site)
    ensures Contains(Prefix(host, secure), site + "/threads/")
  {
    var scheme := if secure then "https://" else "http://";
    var p := Prefix(host, secure);
    var k := |scheme| + |host| - |site|;
    assert p == scheme + host + "/threads/";
    assert p[k..k + |site|] == host[|host| - |site|..];
    assert p[k + |site|..k + |site| + 9] == "/threads/";
    assert p[k..k + |site| + 9] == site + "/threads/";
    assert OccursAt(p, site + "/threads/", k);
  }

  /** Whatever a string starts with, it contains whatever that contains. */
  lemma ContainsThroughPrefix(s: string, p: string, sub: string)
    requires StartsWith(s, p) && Contains(p, sub)
    ensures Contains(s, sub)
  {
    var k :| 0 <= k <= |p| && OccursAt(p, sub, k);
    assert s[k..k + |sub|] == p[k..k + |sub|];
    assert OccursAt(s, sub, k);
  }

  /** Normalising keeps a URL claimed by the adapter of a host that ends with `site`: the
      result is the URL itself or starts with the host's thread prefix. */
  lemma NormalizeKeepsSite(host: string, site: string, url: string)
    requires EndsWith(host, site) && Contains(url, site + "/threads/")
    ensures Contains(NormalizeThreadUrl(host, url), site + "/threads/")
  {
    var r := NormalizeThreadUrl(host, url);
    NormalizeShape(host, url);
    if r != url {
      var secure := StartsWith(r, Prefix(host, true));
      PrefixNamesSite(host, site, secure);
      ContainsThroughPrefix(r, Prefix(host, secure), site + "/threads/");
    }
  }

  /** Each adapter still claims the thread URL its normaliser gives for a URL it claims. */
  lemma NormalizeKeepsIdentified(url: string)
    ensures IdentifyQuestionableQuesting(url) ==>
      IdentifyQuestionableQuesting(NormalizeThreadUrl(QuestionableQuestingHost, url))
    ensures IdentifySpaceBattles(url) ==> IdentifySpaceBattles(NormalizeThreadUrl(SpaceBattlesHost, url))
    ensures IdentifySufficientVelocity(url) ==>
      IdentifySufficientVelocity(NormalizeThreadUrl(SufficientVelocityHost, url))
  {
    if IdentifyQuestionableQuesting(url) {
      QuestionableQuestingSite();
      NormalizeKeepsSite(QuestionableQuestingHost, "questionablequesting.com", url);
    }
    if IdentifySpaceBattles(url) {
      SpaceBattlesSite();
      NormalizeKeepsSite(SpaceBattlesHost, "spacebattles.com", url);
    }
    if IdentifySufficientVelocity(url) {
      SufficientVelocitySite();
      NormalizeKeepsSite(SufficientVelocityHost, "sufficientvelocity.com", url);
    }
  }

  /** Each host ends with its site name, and each identify pattern is that name and "/threads/". */
  lemma QuestionableQuestingSite()
    ensures EndsWith(QuestionableQuestingHost, "questionablequesting.com")
    ensures "questionablequesting.com/threads/" == "questionablequesting.com" + "/threads/"
  {
  }

  lemma SpaceBattlesSite()
    ensures EndsWith(SpaceBattlesHost, "spacebattles.com")
    ensures "spacebattles.com/threads/" == "spacebattles.com" + "/threads/"
  {
  }

  lemma SufficientVelocitySite()
    ensures EndsWith(SufficientVelocityHost, "sufficientvelocity.com")
    ensures "sufficientvelocity.com/threads/" == "sufficientvelocity.com" + "/threads/"
  {
  }

  /** `_extract_post_id`: the digits after "post-", else after "posts/", else "". */
  function ExtractPostId(url: string): (r: string)
    ensures AllDigits(r)
    ensures r != [] <==> exists k :: 0 <= k <= |url| && (TagDigitAt(url, "post-", k) || TagDigitAt(url, "posts/", k))
    ensures (exists k :: 0 <= k <= |url| && TagDigitAt(url, "post-", k)) ==> Some(r) == TaggedDigits(url, "post-")
    ensures (forall k :: 0 <= k <= |url| ==> !TagDigitAt(url, "post-", k)) ==>
      r == (if TaggedDigits(url, "posts/").Some? then TaggedDigits(url, "posts/").value else "")
  {
    match TaggedDigits(url, "post-")
    case Some(d) => d
    case None =>
      match TaggedDigits(url, "posts/")
      case Some(d) => d
      case None => ""
  }
}
