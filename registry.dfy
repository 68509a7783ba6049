/**
 * The provider registry: an ordered list of source adapters with first-match lookup by URL
 * and by key, the reload that rebuilds it from the stored source records, and the search
 * fan-out over the enabled adapters.
 */
module Registry {
  import opened Wrappers
  import opened Text
  import ForumThreads
  import Wattpad
  import Ao3

  /** The adapter classes a provider can be an instance of. */
  datatype SourceKind =
    | RoyalRoad
    | ArchiveOfOurOwn
    | QuestionableQuesting
    | QuestionableQuestingAllPosts
    | SpaceBattles
    | SufficientVelocity
    | WattpadSite

  /** A registered adapter: its key, its class and whether it takes part in searches. */
  datatype Provider = Provider(key: string, kind: SourceKind, isEnabled: bool)

  /** A row of the `sources` table. */
  datatype SourceRecord = SourceRecord(key: string, isEnabled: bool)

  /** Each adapter's `identify(url)`. */
  predicate Identifies(p: Provider, url: string) {
    match p.kind
    case RoyalRoad => Contains(url, "royalroad.com")
    case ArchiveOfOurOwn => Ao3.Identify(url)
    case QuestionableQuesting => ForumThreads.IdentifyQuestionableQuesting(url)
    case QuestionableQuestingAllPosts => ForumThreads.IdentifyAllPosts(url)
    case SpaceBattles => ForumThreads.IdentifySpaceBattles(url)
    case SufficientVelocity => ForumThreads.IdentifySufficientVelocity(url)
    case WattpadSite => Wattpad.Identify(url)
  }

  /** Position of the first provider that identifies `url`. */
  function IndexForUrl(ps: seq<Provider>, url: string): (r: Option<nat>)
    ensures r.Some? ==> r.value < |ps| && Identifies(ps[r.value], url)
    ensures r.Some? ==> forall j :: 0 <= j < r.value ==> !Identifies(ps[j], url)
    ensures r.None? <==> forall j :: 0 <= j < |ps| ==> !Identifies(ps[j], url)
  {
    if ps == [] then None
    else if Identifies(ps[0], url) then Some(0)
    else
      match IndexForUrl(ps[1..], url)
      case None => None
      case Some(k) => Some(k + 1)
  }

  /** Position of the first provider whose key is `key`. */
  function IndexByKey(ps: seq<Provider>, key: string): (r: Option<nat>)
    ensures r.Some? ==> r.value < |ps| && ps[r.value].key == key
    ensures r.Some? ==> forall j :: 0 <= j < r.value ==> ps[j].key != key
    ensures r.None? <==> forall j :: 0 <= j < |ps| ==> ps[j].key != key
  {
    if ps == [] then None
    else if ps[0].key == key then Some(0)
    else
      match IndexByKey(ps[1..], key)
      case None => None
      case Some(k) => Some(k + 1)
  }

  /** `get_provider_for_url` on a provider list. */
  function ProviderForUrl(ps: seq<Provider>, url: string): Option<Provider>
  {
    match IndexForUrl(ps, url)
    case None => None
    case Some(k) => Some(ps[k])
  }

  /** The provider list the first story manager registers, and with it the job manager and the
      standalone scheduler that build one: the Royal Road adapter alone. */
  const RoyalRoadOnly: seq<Provider> := [Provider("royalroad", RoyalRoad, true)]

  /** With that list a URL has a provider exactly when it names Royal Road. */
  lemma RoyalRoadOnlyIdentifies(url: string)
    ensures ProviderForUrl(RoyalRoadOnly, url).Some? <==> Contains(url, "royalroad.com")
  {
    assert Identifies(RoyalRoadOnly[0], url) == Contains(url, "royalroad.com");
  }

  /** The "all posts" adapter is never chosen by URL, whatever else is registered. */
  lemma AllPostsNeverByUrl(ps: seq<Provider>, url: string)
    ensures ProviderForUrl(ps, url).Some? ==> ProviderForUrl(ps, url).value.kind != QuestionableQuestingAllPosts
  {
  }

  /** `get_provider_by_key` on a provider list. */
  function ProviderByKey(ps: seq<Provider>, key: string): Option<Provider>
  {
    match IndexByKey(ps, key)
    case None => None
    case Some(k) => Some(ps[k])
  }

  /** The provider of a story: by its recorded provider name when that is set and registered,
      otherwise by its URL. */
  function ResolveProvider(ps: seq<Provider>, keyHint: Option<string>, url: string): (r: Option<Provider>)
    ensures Truthy(keyHint) && ProviderByKey(ps, keyHint.value).Some? ==> r == ProviderByKey(ps, keyHint.value)
    ensures !(Truthy(keyHint) && ProviderByKey(ps, keyHint.value).Some?) ==> r == ProviderForUrl(ps, url)
    ensures r.Some? ==> r.value in ps
    ensures r.None? <==> (!Truthy(keyHint) || IndexByKey(ps, keyHint.value).None?) && IndexForUrl(ps, url).None?
  {
    var byKey := if Truthy(keyHint) then ProviderByKey(ps, keyHint.value) else None;
    if byKey.Some? then byKey else ProviderForUrl(ps, url)
  }

  /** Registering one more provider never changes the answer for a URL an earlier one claims,
      and otherwise the new provider answers exactly when it identifies the URL. */
  lemma RegisterKeepsEarlierMatches(ps: seq<Provider>, p: Provider, url: string)
    ensures ProviderForUrl(ps, url).Some? ==> ProviderForUrl(ps + [p], url) == ProviderForUrl(ps, url)
    ensures ProviderForUrl(ps, url).None? ==>
      ProviderForUrl(ps + [p], url) == (if Identifies(p, url) then Some(p) else None)
  {
    var qs := ps + [p];
    match IndexForUrl(ps, url)
    case Some(k) =>
      assert qs[k] == ps[k];
      assert forall j :: 0 <= j < k ==> qs[j] == ps[j];
    case None =>
      assert forall j :: 0 <= j < |ps| ==> qs[j] == ps[j];
      assert qs[|ps|] == p;
  }

  /** The same for lookups by key. */
  lemma RegisterKeepsEarlierKeys(ps: seq<Provider>, p: Provider, key: string)
    ensures ProviderByKey(ps, key).Some? ==> ProviderByKey(ps + [p], key) == ProviderByKey(ps, key)
    ensures ProviderByKey(ps, key).None? ==>
      ProviderByKey(ps + [p], key) == (if p.key == key then Some(p) else None)
  {
    var qs := ps + [p];
    match IndexByKey(ps, key)
    case Some(k) =>
      assert qs[k] == ps[k];
      assert forall j :: 0 <= j < k ==> qs[j] == ps[j];
    case None =>
      assert forall j :: 0 <= j < |ps| ==> qs[j] == ps[j];
      assert qs[|ps|] == p;
  }

  /** Position of the last record with `key`: the one a dict built from the records keeps. */
  function LastRecordFor(records: seq<SourceRecord>, key: string): (r: Option<nat>)
    ensures r.Some? ==> r.value < |records| && records[r.value].key == key
    ensures r.Some? ==> forall k :: r.value < k < |records| ==> records[k].key != key
    ensures r.None? <==> forall k :: 0 <= k < |records| ==> records[k].key != key
    decreases |records|
  {
    if records == [] then None
    else if records[|records| - 1].key == key then Some(|records| - 1)
    else LastRecordFor(records[..|records| - 1], key)
  }

  /** The enabled flag a key gets: that of its record, or true when no record has the key. */
  function EnabledFor(records: seq<SourceRecord>, key: string): bool
  {
    match LastRecordFor(records, key)
    case None => true
    case Some(k) => records[k].isEnabled
  }

  /** The provider list `reload_providers` leaves: the four built-in adapters in registration
      order, each with its enabled flag, or nothing when reading the records fails. */
  function Reloaded(records: Result<seq<SourceRecord>>): seq<Provider>
  {
    match records
    case Err(_) => []
    case Ok(rs) =>
      [ Provider("royalroad", RoyalRoad, EnabledFor(rs, "royalroad")),
        Provider("ao3", ArchiveOfOurOwn, EnabledFor(rs, "ao3")),
        Provider("questionablequesting", QuestionableQuesting, EnabledFor(rs, "questionablequesting")),
        Provider("questionablequesting_all", QuestionableQuestingAllPosts, EnabledFor(rs, "questionablequesting_all")) ]
  }

  /** After a successful reload each built-in key finds its own adapter, enabled as its record says. */
  lemma ReloadedKeys(rs: seq<SourceRecord>)
    ensures ProviderByKey(Reloaded(Ok(rs)), "royalroad") == Some(Provider("royalroad", RoyalRoad, EnabledFor(rs, "royalroad")))
    ensures ProviderByKey(Reloaded(Ok(rs)), "ao3") == Some(Provider("ao3", ArchiveOfOurOwn, EnabledFor(rs, "ao3")))
    ensures ProviderByKey(Reloaded(Ok(rs)), "questionablequesting")
      == Some(Provider("questionablequesting", QuestionableQuesting, EnabledFor(rs, "questionablequesting")))
    ensures ProviderByKey(Reloaded(Ok(rs)), "questionablequesting_all")
      == Some(Provider("questionablequesting_all", QuestionableQuestingAllPosts, EnabledFor(rs, "questionablequesting_all")))
  {
    var ps := Reloaded(Ok(rs));
    assert |ps[0].key| == 9 && |ps[1].key| == 3 && |ps[2].key| == 20 && |ps[3].key| == 24;
  }

  /** After a successful reload a URL finds a provider exactly when Royal Road, AO3 or
      Questionable Questing claims it (the all-posts adapter claims nothing); after a failed
      reload nothing is found. */
  lemma ReloadedUrls(records: Result<seq<SourceRecord>>, url: string)
    ensures records.Ok? ==> (ProviderForUrl(Reloaded(records), url).Some? <==>
      Contains(url, "royalroad.com") || Ao3.Identify(url) || ForumThreads.IdentifyQuestionableQuesting(url))
    ensures records.Err? ==> ProviderForUrl(Reloaded(records), url).None?
  {
    if records.Ok? {
      var ps := Reloaded(records);
      assert Identifies(ps[0], url) == Contains(url, "royalroad.com");
      assert Identifies(ps[1], url) == Ao3.Identify(url);
      assert Identifies(ps[2], url) == ForumThreads.IdentifyQuestionableQuesting(url);
      assert !Identifies(ps[3], url);
    }
  }

  /** A provider takes part in a search when it is enabled and, if a key is asked for, it has
      that key or no key at all. */
  predicate Searched(p: Provider, keyHint: Option<string>) {
    p.isEnabled && !(Truthy(keyHint) && p.key != [] && p.key != keyHint.value)
  }

  /** `search`: the results of every searched provider, in registration order; a provider whose
      search raises contributes nothing. */
  function Search<T>(ps: seq<Provider>, keyHint: Option<string>, results: Provider -> Result<seq<T>>): (r: seq<T>)
    ensures forall x :: x in r ==>
      exists p :: p in ps && Searched(p, keyHint) && results(p).Ok? && x in results(p).value
    ensures forall p, x :: p in ps && Searched(p, keyHint) && results(p).Ok? && x in results(p).value ==> x in r
    decreases |ps|
  {
    if ps == [] then []
    else
      var rest := Search(ps[1..], keyHint, results);
      var p := ps[0];
      if Searched(p, keyHint) && results(p).Ok? then results(p).value + rest else rest
  }

  /** Searching two provider lists in turn gives the first list's results, then the second's. */
  lemma {:induction false} SearchConcat<T>(a: seq<Provider>, b: seq<Provider>, keyHint: Option<string>,
                                           results: Provider -> Result<seq<T>>)
    ensures Search(a + b, keyHint, results) == Search(a, keyHint, results) + Search(b, keyHint, results)
    decreases |a|
  {
    if a == [] {
      assert a + b == b;
    } else {
      assert (a + b)[1..] == a[1..] + b;
      assert (a + b)[0] == a[0];
      SearchConcat(a[1..], b, keyHint, results);
    }
  }

  /** Each provider's results appear whole, each result as often as the provider gives it, and in
      registration order: a searched provider that answers contributes its list between those of
      the providers before and after it, and any other provider contributes nothing. */
  lemma SearchInOrder<T>(a: seq<Provider>, p: Provider, b: seq<Provider>, keyHint: Option<string>,
                         results: Provider -> Result<seq<T>>)
    ensures Search(a + [p] + b, keyHint, results)
      == Search(a, keyHint, results) + (if Searched(p, keyHint) && results(p).Ok? then results(p).value else [])
         + Search(b, keyHint, results)
  {
    SearchConcat(a + [p], b, keyHint, results);
    SearchConcat(a, [p], keyHint, results);
    assert Search([p], keyHint, results) == (if Searched(p, keyHint) && results(p).Ok? then results(p).value else []) + Search([p][1..], keyHint, results);
  }

  /** The dispatcher: `SourceManager`, an ordered list of providers. */
  class SourceManager {
    var providers: seq<Provider>

    constructor()
      ensures providers == []
    {
      providers := [];
    }

    /** `register_provider`: appends, keeping registration order. */
    method RegisterProvider(p: Provider)
      modifies this
      ensures providers == old(providers) + [p]
    {
      providers := providers + [p];
    }

    /** `clear_providers`: afterwards no URL and no key finds a provider. */
    method ClearProviders()
      modifies this
      ensures providers == []
      ensures forall url :: ProviderForUrl(providers, url).None?
      ensures forall key :: ProviderByKey(providers, key).None?
    {
      providers := [];
    }

    /** `get_provider_for_url`: the first provider that identifies `url`. */
    method GetProviderForUrl(url: string) returns (r: Option<Provider>)
      ensures r == ProviderForUrl(providers, url)
      ensures r.Some? ==> r.value in providers && Identifies(r.value, url)
      ensures r.None? <==> forall p :: p in providers ==> !Identifies(p, url)
    {
      var i := 0;
      while i < |providers|
        invariant 0 <= i <= |providers|
        invariant forall j :: 0 <= j < i ==> !Identifies(providers[j], url)
      {
        if Identifies(providers[i], url) {
          return Some(providers[i]);
        }
        i := i + 1;
      }
      return None;
    }

    /** `get_provider_by_key`: the first provider with key `key`. */
    method GetProviderByKey(key: string) returns (r: Option<Provider>)
      ensures r == ProviderByKey(providers, key)
      ensures r.Some? ==> r.value in providers && r.value.key == key
      ensures r.None? <==> forall p :: p in providers ==> p.key != key
    {
      var i := 0;
      while i < |providers|
        invariant 0 <= i <= |providers|
        invariant forall j :: 0 <= j < i ==> providers[j].key != key
      {
        if providers[i].key == key {
          return Some(providers[i]);
        }
        i := i + 1;
      }
      return None;
    }

    /** `reload_providers`: clears the list, then registers the built-in adapters in order. */
    method ReloadProviders(records: Result<seq<SourceRecord>>)
      modifies this
      ensures providers == Reloaded(records)
    {
      ClearProviders();
      if records.Err? {
        return;
      }
      var rs := records.value;
      RegisterProvider(Provider("royalroad", RoyalRoad, EnabledFor(rs, "royalroad")));
      RegisterProvider(Provider("ao3", ArchiveOfOurOwn, EnabledFor(rs, "ao3")));
      RegisterProvider(Provider("questionablequesting", QuestionableQuesting, EnabledFor(rs, "questionablequesting")));
      RegisterProvider(Provider("questionablequesting_all", QuestionableQuestingAllPosts, EnabledFor(rs, "questionablequesting_all")));
    }
  }
}
