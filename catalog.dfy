/** The per-folder catalog store behind `Localization<T>` as a value: its
    handle map, bundle map and resolution chain, and what the two systems
    of src/localization/systems.rs do to it. */
module Catalog {
  import opened Wrappers
  import opened LanguageIds
  import opened Bundles
  import opened Handles

  /** The state of one `Localization<T>` resource. */
  datatype Store = Store(handleMap: map<LanguageId, Handle>, bundleMap: map<LanguageId, Bundle>,
                         resolutionChain: seq<LanguageId>)

  /** A bundle only exists for a locale whose source was requested, and
      each handle belongs to one locale. */
  predicate Valid(s: Store)
  {
    s.bundleMap.Keys <= s.handleMap.Keys && HandlesDistinct(s.handleMap)
  }

  /** Exactly the locales of the chain hold a handle. */
  predicate Converged(s: Store)
  {
    s.handleMap.Keys == ChainSet(s.resolutionChain)
  }

  /** `update_localization_on_locale_change` once a change was seen: request
      a source for every chain locale without a handle, drop handle and
      bundle of every locale that left the chain, store the new chain. */
  function Reconcile(s: Store, chain: seq<LanguageId>, request: LanguageId -> Handle): (r: Store)
    ensures r.resolutionChain == chain
    ensures Converged(r)
    ensures forall l :: l in chain && l in s.handleMap ==> r.handleMap[l] == s.handleMap[l]
    ensures forall l :: l in chain && l !in s.handleMap ==> r.handleMap[l] == request(l)
    ensures forall l :: l in r.bundleMap ==> l in s.bundleMap && r.bundleMap[l] == s.bundleMap[l]
    ensures forall l :: l in s.bundleMap && l in chain ==> l in r.bundleMap
    ensures forall l :: l in s.handleMap && l !in chain ==> l !in r.handleMap && l !in r.bundleMap
    ensures Valid(s) && FreshRequests(s.handleMap, chain, request) ==> Valid(r)
  {
    Store(RetargetHandles(s.handleMap, chain, request), s.bundleMap - (s.handleMap.Keys - ChainSet(chain)), chain)
  }

  /** Reconciling again with the same chain is a no-op. */
  lemma ReconcileIdempotent(s: Store, chain: seq<LanguageId>, request: LanguageId -> Handle)
    requires Valid(s)
    ensures Reconcile(Reconcile(s, chain, request), chain, request) == Reconcile(s, chain, request)
  {
    var r := Reconcile(s, chain, request);
    RetargetIdempotent(s.handleMap, chain, request);
    assert r.bundleMap - (r.handleMap.Keys - ChainSet(chain)) == r.bundleMap;
  }

  /** The locale-change system's two loops compose to `Reconcile`: first
      the handle map grows by the requested handles, then handle and bundle
      of the departed locales are dropped. */
  lemma ReconcileInTwoSteps(s: Store, chain: seq<LanguageId>, request: LanguageId -> Handle,
                            grown: map<LanguageId, Handle>, r: Store)
    requires grown.Keys == s.handleMap.Keys + ChainSet(chain)
    requires forall l :: l in s.handleMap ==> grown[l] == s.handleMap[l]
    requires forall l :: l in grown && l !in s.handleMap ==> grown[l] == request(l)
    requires r.handleMap == grown - (s.handleMap.Keys - ChainSet(chain))
    requires r.bundleMap == s.bundleMap - (s.handleMap.Keys - ChainSet(chain))
    requires r.resolutionChain == chain
    ensures r == Reconcile(s, chain, request)
  {
    assert r.handleMap == RetargetHandles(s.handleMap, chain, request);
  }

  /** The locale whose handle is `h`: the `find_map` over the handle map,
      which has at most one answer because handles are distinct. */
  function LocaleOf(handleMap: map<LanguageId, Handle>, h: Handle): (r: Option<LanguageId>)
    requires HandlesDistinct(handleMap)
    ensures r.Some? <==> h in handleMap.Values
    ensures r.Some? ==> r.value in handleMap && handleMap[r.value] == h
  {
    if h in handleMap.Values then
      var l :| l in handleMap && handleMap[l] == h;
      Some(l)
    else None
  }

  /** An event of the asset system about a localization source. */
  datatype AssetEvent = Created(handle: Handle) | Modified(handle: Handle) | Removed(handle: Handle)

  /** A loaded localization source (`LocalizationSource`): its FTL text. */
  datatype LocalizationSource = LocalizationSource(ftlString: string)

  const SourceNotLoaded := "Localization source expected to be loaded but it wasn't!"

  /** One event of `update_localization_on_asset_change`. A created or
      modified source of a known locale replaces that locale's bundle with
      one built from the loaded text, and panics when the text is not
      loaded, does not parse, or repeats a message; a removed one drops the
      locale's bundle. Events about handles of no locale do nothing. */
  function ApplyEvent(s: Store, ev: AssetEvent, assets: map<Handle, LocalizationSource>, parse: ResourceParser)
    : (r: Outcome<Store>)
    requires Valid(s)
    ensures r.Returned? ==> Valid(r.value)
    ensures r.Returned? ==> r.value.handleMap == s.handleMap && r.value.resolutionChain == s.resolutionChain
    ensures ev.handle !in s.handleMap.Values ==> r == Returned(s)
    ensures ev.Removed? ==> r.Returned?
    ensures ev.Removed? && ev.handle in s.handleMap.Values ==>
      r.value.bundleMap == s.bundleMap - {LocaleOf(s.handleMap, ev.handle).value}
    ensures !ev.Removed? && ev.handle in s.handleMap.Values ==>
      var l := LocaleOf(s.handleMap, ev.handle).value;
      && (ev.handle !in assets ==> r == Panicked(SourceNotLoaded))
      && (ev.handle in assets ==>
            match BuildBundle(l, assets[ev.handle].ftlString, parse)
            case Returned(b) => r == Returned(s.(bundleMap := s.bundleMap[l := b]))
            case Panicked(m) => r == Panicked(m))
  {
    match LocaleOf(s.handleMap, ev.handle)
    case None => Returned(s)
    case Some(l) =>
      if ev.Removed? then
        Returned(s.(bundleMap := s.bundleMap - {l}))
      else if ev.handle !in assets then
        Panicked(SourceNotLoaded)
      else
        match BuildBundle(l, assets[ev.handle].ftlString, parse)
        case Panicked(m) => Panicked(m)
        case Returned(b) => Returned(s.(bundleMap := s.bundleMap[l := b]))
  }

  /** The store after a run of the asset-change system over `events`, and
      whether the run ended in a panic. */
  datatype EventRun = EventRun(store: Store, outcome: Outcome<()>)

  /** The events handled in order, stopping at the first panic with the
      store as the earlier events left it. */
  function ApplyEvents(s: Store, events: seq<AssetEvent>, assets: map<Handle, LocalizationSource>, parse: ResourceParser)
    : (r: EventRun)
    requires Valid(s)
    ensures Valid(r.store)
    ensures r.store.handleMap == s.handleMap && r.store.resolutionChain == s.resolutionChain
    ensures (forall i :: 0 <= i < |events| ==> events[i].handle !in s.handleMap.Values) ==> r == EventRun(s, Returned(()))
    decreases |events|
  {
    if events == [] then EventRun(s, Returned(()))
    else
      var previous := ApplyEvents(s, events[..|events| - 1], assets, parse);
      if previous.outcome.Panicked? then previous
      else
        match ApplyEvent(previous.store, events[|events| - 1], assets, parse)
        case Returned(next) => EventRun(next, Returned(()))
        case Panicked(m) => EventRun(previous.store, Panicked(m))
  }

  /** A source that arrives for a locale the chain has dropped finds no
      handle and is ignored: the eviction already removed its handle, and
      no handle requested since is the same. */
  lemma LateArrivalIgnored(s: Store, chain: seq<LanguageId>, request: LanguageId -> Handle, l: LanguageId,
                           ev: AssetEvent, assets: map<Handle, LocalizationSource>, parse: ResourceParser)
    requires Valid(s) && FreshRequests(s.handleMap, chain, request)
    requires l in s.handleMap && l !in chain && ev.handle == s.handleMap[l]
    ensures ApplyEvent(Reconcile(s, chain, request), ev, assets, parse) == Returned(Reconcile(s, chain, request))
  {
    var r := Reconcile(s, chain, request);
    forall l' | l' in r.handleMap ensures r.handleMap[l'] != ev.handle {
      if l' in s.handleMap {
        assert l' != l;
      } else {
        assert r.handleMap[l'] == request(l');
      }
    }
  }

  /** Events never change which locales hold handles, so a converged store
      stays converged through any run of the asset-change system. */
  lemma EventsKeepConvergence(s: Store, events: seq<AssetEvent>, assets: map<Handle, LocalizationSource>, parse: ResourceParser)
    requires Valid(s) && Converged(s)
    ensures Converged(ApplyEvents(s, events, assets, parse).store)
    ensures ApplyEvents(s, events, assets, parse).store.bundleMap.Keys <= ChainSet(s.resolutionChain)
  {
  }
}
