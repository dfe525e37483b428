/** The per-folder localization resource `Localization<T>`
    (src/localization/mod.rs) and its two update systems
    (src/localization/systems.rs). The folder type `T` is represented by
    the folder path it names. */
module Localizations {
  import opened Wrappers
  import opened LanguageIds
  import opened Locales
  import opened LocalizationUtils
  import opened Bundles
  import opened Handles
  import opened Catalog
  import opened MessageResolution

  /** The handle the asset server gives for the catalog file of `l`. */
  function FtlRequest(folder: string, load: AssetLoad): LanguageId -> Handle
  {
    l => load(FtlPath(folder, l))
  }

  class Localization {
    const folder: string
    var handleMap: map<LanguageId, Handle>
    var bundleMap: map<LanguageId, Bundle>
    var resolutionChain: seq<LanguageId>

    /** The resource's state as a value. */
    function Model(): Store
      reads this
    {
      Store(handleMap, bundleMap, resolutionChain)
    }

    predicate Valid()
      reads this
    {
      Catalog.Valid(Model())
    }

    /** `Localization::new(chain)`: the chain, and no handle or bundle yet. */
    constructor (folder: string, chain: seq<LanguageId>)
      ensures this.folder == folder
      ensures Model() == Store(map[], map[], chain)
      ensures Valid()
    {
      this.folder := folder;
      handleMap := map[];
      bundleMap := map[];
      resolutionChain := chain;
    }

    /** `Default`: an empty chain and no handle or bundle. */
    constructor Default(folder: string)
      ensures this.folder == folder
      ensures Model() == Store(map[], map[], [])
      ensures Valid()
    {
      this.folder := folder;
      handleMap := map[];
      bundleMap := map[];
      resolutionChain := [];
    }

    /** `try_format_pattern`: walks the chain and returns the text of the
        first locale whose bundle has the message with a value that formats
        without errors; `Err` once the chain is exhausted. */
    method TryFormatPattern(id: MessageId, args: Option<Args>, format: Formatter) returns (r: Result<string>)
      ensures r == FirstSuccess(resolutionChain, bundleMap, id, args, format)
    {
      var chain := resolutionChain;
      for i := 0 to |chain|
        invariant FirstSuccess(chain, bundleMap, id, args, format) == FirstSuccess(chain[i..], bundleMap, id, args, format)
      {
        assert chain[i..][0] == chain[i] && chain[i..][1..] == chain[i + 1..];
        var l := chain[i];
        if l in bundleMap {
          var bundle := bundleMap[l];
          if id in bundle.messages {
            var msg := bundle.messages[id];
            if msg.value.Some? {
              var formatted := format(bundle, msg.value.value, args);
              if formatted.errors == [] {
                return Ok(formatted.text);
              }
            }
          }
        }
      }
      assert chain[|chain|..] == [];
      return Err(LocalizationError);
    }

    /** `try_get_message`: the lookup without arguments. */
    method TryGetMessage(id: MessageId, format: Formatter) returns (r: Result<string>)
      ensures r == FirstSuccess(resolutionChain, bundleMap, id, None, format)
    {
      r := TryFormatPattern(id, None, format);
    }

    /** `try_format_message`: the lookup with arguments, with the isolate
        marks removed from a successful result. */
    method TryFormatMessage(id: MessageId, args: Args, format: Formatter) returns (r: Result<string>)
      ensures r.Ok? <==> FirstSuccess(resolutionChain, bundleMap, id, Some(args), format).Ok?
      ensures r.Ok? ==> r.value == StripIsolates(FirstSuccess(resolutionChain, bundleMap, id, Some(args), format).value)
      ensures r.Ok? ==> forall i :: 0 <= i < |r.value| ==> !IsIsolate(r.value[i])
    {
      var formatted := TryFormatPattern(id, Some(args), format);
      match formatted
      case Ok(text) =>
        r := Ok(StripIsolates(text));
      case Err(e) =>
        r := Err(e);
    }

    /** The `find_map` over the handle map: the locale holding handle `h`. */
    method LocaleOfHandle(h: Handle) returns (r: Option<LanguageId>)
      requires Valid()
      ensures r == LocaleOf(handleMap, h)
    {
      var keys := handleMap.Keys;
      while keys != {}
        invariant keys <= handleMap.Keys
        invariant forall l :: l in handleMap && l !in keys ==> handleMap[l] != h
        decreases keys
      {
        var l :| l in keys;
        if handleMap[l] == h {
          return Some(l);
        }
        keys := keys - {l};
      }
      return None;
    }

    /** `update_localization_on_locale_change`: when the locale, the
        fallback map or the default fallback changed, requests the catalog
        file of every new chain locale, drops handle and bundle of every
        locale that left the chain, and stores the new chain. */
    method UpdateOnLocaleChange(locale: Locale, fallbackMap: LocaleFallbackMap, defaultFallback: LocaleDefaultFallback,
                                changes: ConfigChanges, load: AssetLoad)
      requires Valid()
      requires changes.Any() ==>
        FreshRequests(handleMap, ResolutionChain(locale.id, fallbackMap.entries, defaultFallback.fallback),
                      FtlRequest(folder, load))
      modifies this
      ensures Valid()
      ensures !changes.Any() ==> Model() == old(Model())
      ensures changes.Any() ==>
        Model() == Reconcile(old(Model()), ResolutionChain(locale.id, fallbackMap.entries, defaultFallback.fallback),
                             FtlRequest(folder, load))
    {
      if !changes.Any() {
        return;
      }
      var chain := ResolutionChain(locale.id, fallbackMap.entries, defaultFallback.fallback);
      ghost var before := Model();
      var handleKeys := handleMap.Keys;
      RequestMissing(chain, load);
      ghost var grown := handleMap;
      EvictDeparted(chain, handleKeys);
      resolutionChain := chain;
      ReconcileInTwoSteps(before, chain, FtlRequest(folder, load), grown, Model());
    }

    /** The first loop of the locale-change system: a handle for every chain
        locale that had none. */
    method RequestMissing(chain: seq<LanguageId>, load: AssetLoad)
      modifies this
      ensures handleMap.Keys == old(handleMap).Keys + ChainSet(chain)
      ensures forall l :: l in old(handleMap) ==> handleMap[l] == old(handleMap)[l]
      ensures forall l :: l in handleMap && l !in old(handleMap) ==> handleMap[l] == FtlRequest(folder, load)(l)
      ensures bundleMap == old(bundleMap) && resolutionChain == old(resolutionChain)
    {
      var handleKeys := handleMap.Keys;
      for i := 0 to |chain|
        invariant handleMap.Keys == handleKeys + ChainSet(chain[..i])
        invariant forall l :: l in old(handleMap) ==> handleMap[l] == old(handleMap)[l]
        invariant forall l :: l in handleMap && l !in old(handleMap) ==> handleMap[l] == FtlRequest(folder, load)(l)
        invariant bundleMap == old(bundleMap) && resolutionChain == old(resolutionChain)
      {
        assert chain[..i + 1] == chain[..i] + [chain[i]];
        var l := chain[i];
        if l !in handleKeys {
          handleMap := handleMap[l := load(FtlPath(folder, l))];
        }
      }
      assert chain[..|chain|] == chain;
    }

    /** The second loop of the locale-change system: handle and bundle of
        every formerly held locale that is not in the chain are dropped. */
    method EvictDeparted(chain: seq<LanguageId>, handleKeys: set<LanguageId>)
      modifies this
      ensures handleMap == old(handleMap) - (handleKeys - ChainSet(chain))
      ensures bundleMap == old(bundleMap) - (handleKeys - ChainSet(chain))
      ensures resolutionChain == old(resolutionChain)
    {
      var toVisit := handleKeys;
      while toVisit != {}
        invariant toVisit <= handleKeys
        invariant handleMap == old(handleMap) - ((handleKeys - toVisit) - ChainSet(chain))
        invariant bundleMap == old(bundleMap) - ((handleKeys - toVisit) - ChainSet(chain))
        invariant resolutionChain == old(resolutionChain)
        decreases toVisit
      {
        var l :| l in toVisit;
        if l !in chain {
          handleMap := handleMap - {l};
          bundleMap := bundleMap - {l};
        }
        toVisit := toVisit - {l};
      }
    }

    /** `update_localization_on_asset_change`: handles the events in order;
        stops at the first panic, leaving the state the earlier events
        made. */
    method UpdateOnAssetChange(events: seq<AssetEvent>, assets: map<Handle, LocalizationSource>, parse: ResourceParser)
      returns (outcome: Outcome<()>)
      requires Valid()
      modifies this
      ensures Valid()
      ensures EventRun(Model(), outcome) == ApplyEvents(old(Model()), events, assets, parse)
    {
      ghost var start := Model();
      for i := 0 to |events|
        invariant Valid()
        invariant ApplyEvents(start, events[..i], assets, parse) == EventRun(Model(), Returned(()))
      {
        ghost var previous := Model();
        var stepOutcome := HandleEvent(events[i], assets, parse);
        if stepOutcome.Panicked? {
          RunStops(start, events, i, previous, stepOutcome.message, assets, parse);
          return stepOutcome;
        }
        RunContinues(start, events, i, previous, Model(), assets, parse);
      }
      assert events[..|events|] == events;
      outcome := Returned(());
    }

    /** One event of the asset-change system. */
    method HandleEvent(ev: AssetEvent, assets: map<Handle, LocalizationSource>, parse: ResourceParser)
      returns (outcome: Outcome<()>)
      requires Valid()
      modifies this
      ensures Valid()
      ensures outcome.Panicked? ==> Model() == old(Model())
      ensures ApplyEvent(old(Model()), ev, assets, parse) ==
        if outcome.Panicked? then Panicked(outcome.message) else Returned(Model())
    {
      var found := LocaleOfHandle(ev.handle);
      outcome := Returned(());
      match found
      case None =>
      case Some(l) =>
        if ev.Removed? {
          bundleMap := bundleMap - {l};
        } else if ev.handle !in assets {
          outcome := Panicked(SourceNotLoaded);
        } else {
          var built := BuildBundle(l, assets[ev.handle].ftlString, parse);
          if built.Panicked? {
            outcome := Panicked(built.message);
          } else {
            bundleMap := bundleMap[l := built.value];
          }
        }
    }
  }

  /** An event handled without panic extends the run by one event. */
  lemma RunContinues(s: Store, events: seq<AssetEvent>, i: nat, previous: Store, next: Store,
                     assets: map<Handle, LocalizationSource>, parse: ResourceParser)
    requires Catalog.Valid(s) && i < |events|
    requires ApplyEvents(s, events[..i], assets, parse) == EventRun(previous, Returned(()))
    requires ApplyEvent(previous, events[i], assets, parse) == Returned(next)
    ensures ApplyEvents(s, events[..i + 1], assets, parse) == EventRun(next, Returned(()))
  {
    assert events[..i + 1][..i] == events[..i];
  }

  /** An event that panics ends the whole run, with the state before it. */
  lemma RunStops(s: Store, events: seq<AssetEvent>, i: nat, previous: Store, message: string,
                 assets: map<Handle, LocalizationSource>, parse: ResourceParser)
    requires Catalog.Valid(s) && i < |events|
    requires ApplyEvents(s, events[..i], assets, parse) == EventRun(previous, Returned(()))
    requires ApplyEvent(previous, events[i], assets, parse) == Panicked(message)
    ensures ApplyEvents(s, events, assets, parse) == EventRun(previous, Panicked(message))
  {
    assert events[..i + 1][..i] == events[..i];
    ApplyEventsStopsAtPanic(s, events, i + 1, assets, parse);
  }

  /** A run that panicked within the first `k` events ends the same way
      whatever events follow. */
  lemma {:induction false} ApplyEventsStopsAtPanic(s: Store, events: seq<AssetEvent>, k: nat,
                                                   assets: map<Handle, LocalizationSource>, parse: ResourceParser)
    requires Catalog.Valid(s)
    requires k <= |events|
    requires ApplyEvents(s, events[..k], assets, parse).outcome.Panicked?
    ensures ApplyEvents(s, events, assets, parse) == ApplyEvents(s, events[..k], assets, parse)
    decreases |events| - k
  {
    if k < |events| {
      var longer := events[..k + 1];
      assert longer[..|longer| - 1] == events[..k];
      assert ApplyEvents(s, longer, assets, parse) == ApplyEvents(s, events[..k], assets, parse);
      ApplyEventsStopsAtPanic(s, events, k + 1, assets, parse);
    } else {
      assert events[..k] == events;
    }
  }
}
