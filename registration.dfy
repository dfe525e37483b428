/** Registering a localization folder with the app
    (src/localization/add_localization.rs). */
module Registration {
  import opened LanguageIds
  import opened Locales
  import opened LocalizationUtils
  import opened Handles
  import opened Catalog
  import opened Localizations

  /** The systems registered per folder. */
  datatype SystemKind = LocaleChangeSystem | AssetChangeSystem | LocalizedTextSystem

  /** A system of the given kind, instantiated for one folder. */
  datatype ScheduledSystem = ScheduledSystem(kind: SystemKind, folder: string)

  /** The three systems of a folder in the order they are chained: locale
      change first, so that newly requested sources are seen by the asset
      system, then the text update. */
  function FolderSystems(folder: string): (systems: seq<ScheduledSystem>)
    ensures |systems| == 3
    ensures forall i :: 0 <= i < 3 ==> systems[i].folder == folder
    ensures systems[0].kind == LocaleChangeSystem && systems[1].kind == AssetChangeSystem
    ensures systems[2].kind == LocalizedTextSystem
  {
    [ScheduledSystem(LocaleChangeSystem, folder), ScheduledSystem(AssetChangeSystem, folder),
     ScheduledSystem(LocalizedTextSystem, folder)]
  }

  /** The app as far as registration sees it: one `Localization` resource
      per folder, and the system schedule in insertion order. */
  class App {
    var localizations: map<string, Localization>
    var schedule: seq<ScheduledSystem>

    constructor ()
      ensures localizations == map[] && schedule == []
    {
      localizations := map[];
      schedule := [];
    }

    /** `add_localization::<T>`: a folder already registered is left as it
        is. Otherwise a resource is created with the current resolution
        chain, the catalog file of every chain locale is requested, no
        bundle exists yet, and the folder's three systems are scheduled. */
    method AddLocalization(folder: string, locale: Locale, fallbackMap: LocaleFallbackMap,
                           defaultFallback: LocaleDefaultFallback, load: AssetLoad)
      requires folder !in localizations ==>
        FreshRequests(map[], ResolutionChain(locale.id, fallbackMap.entries, defaultFallback.fallback),
                      FtlRequest(folder, load))
      modifies this
      ensures folder in localizations
      ensures folder in old(localizations) ==> localizations == old(localizations) && schedule == old(schedule)
      ensures folder !in old(localizations) ==>
        var chain := ResolutionChain(locale.id, fallbackMap.entries, defaultFallback.fallback);
        var loc := localizations[folder];
        && localizations.Keys == old(localizations).Keys + {folder}
        && (forall f :: f in old(localizations) ==> localizations[f] == old(localizations)[f])
        && fresh(loc)
        && loc.folder == folder
        && loc.resolutionChain == chain
        && loc.handleMap.Keys == ChainSet(chain)
        && (forall l :: l in loc.handleMap ==> loc.handleMap[l] == load(FtlPath(folder, l)))
        && loc.bundleMap == map[]
        && loc.Model() == Reconcile(Store(map[], map[], chain), chain, FtlRequest(folder, load))
        && loc.Valid()
        && schedule == old(schedule) + FolderSystems(folder)
    {
      if folder in localizations {
        return;
      }
      var chain := ResolutionChain(locale.id, fallbackMap.entries, defaultFallback.fallback);
      var loc := NewLocalization(folder, chain, load);
      localizations := localizations[folder := loc];
      schedule := schedule + FolderSystems(folder);
    }
  }

  /** The resource `add_localization` creates: `Localization::new(chain)`
      with the catalog file of every chain locale requested. */
  method NewLocalization(folder: string, chain: seq<LanguageId>, load: AssetLoad) returns (loc: Localization)
    ensures fresh(loc)
    ensures loc.folder == folder && loc.resolutionChain == chain && loc.bundleMap == map[]
    ensures loc.handleMap.Keys == ChainSet(chain)
    ensures forall l :: l in loc.handleMap ==> loc.handleMap[l] == load(FtlPath(folder, l))
    ensures loc.Model() == Reconcile(Store(map[], map[], chain), chain, FtlRequest(folder, load))
    ensures FreshRequests(map[], chain, FtlRequest(folder, load)) ==> loc.Valid()
  {
    loc := new Localization(folder, chain);
    for i := 0 to |chain|
      invariant loc.folder == folder && loc.resolutionChain == chain && loc.bundleMap == map[]
      invariant loc.handleMap.Keys == ChainSet(chain[..i])
      invariant forall l :: l in loc.handleMap ==> loc.handleMap[l] == load(FtlPath(folder, l))
    {
      assert chain[..i + 1] == chain[..i] + [chain[i]];
      var l := chain[i];
      loc.handleMap := loc.handleMap[l := load(FtlPath(folder, l))];
    }
    assert chain[..|chain|] == chain;
    RetargetInTwoSteps(map[], chain, FtlRequest(folder, load), map[], loc.handleMap);
  }

  /** Registration leaves a resource the locale-change system has nothing
      to do for: reconciling it with the same chain changes nothing. */
  lemma RegisteredIsConverged(folder: string, chain: seq<LanguageId>, load: AssetLoad)
    requires FreshRequests(map[], chain, FtlRequest(folder, load))
    ensures var s := Reconcile(Store(map[], map[], chain), chain, FtlRequest(folder, load));
      Converged(s) && Catalog.Valid(s) && Reconcile(s, chain, FtlRequest(folder, load)) == s
  {
    ReconcileIdempotent(Store(map[], map[], chain), chain, FtlRequest(folder, load));
  }
}
