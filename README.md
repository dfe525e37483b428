# Locale resolution and message lookup of bevy_mod_localization, in Dafny

This project models the locale-resolution and message-lookup engine of the
Bevy localization add-on and proves properties of it:

- the locale configuration: the current `Locale`, the optional
  `LocaleDefaultFallback` and the `LocaleFallbackMap` with its `insert` and
  `add_fallback` (three revisions of the same code, in `src/locale.rs`,
  `src/locale/*.rs` and `src/core/fallback_map.rs`);
- the resolution chain `[locale] ++ fallbacks(locale) ++ [default?]`
  (`get_resolution_chain`, `update_resolution_chain`) and the catalog path
  `get_ftl_path`;
- the per-folder `Localization` resource: its handle map, bundle map and
  chain; the locale-change system that reconciles handles with the chain,
  and the asset-change system that builds or drops bundles from asset
  events; registration with `add_localization`;
- the message lookup `try_format_pattern` / `try_get_message` /
  `try_format_message`, including the removal of the isolate controls
  U+2068 and U+2069 (section 2.4 of Unicode Standard Annex #9);
- the `LocalizedAsset` component and its update system;
- the localized asset reader: `localized_path`, `localized_path_chain` and
  the first-not-`NotFound` selection of `read` and `read_meta`;
- the early single-bundle `Localization` of `src/localization.rs`.

Modules, one per file: `Wrappers` (Option, and `Outcome` for a value or a
panic), `LanguageIds`, `Locales`, `LocalizationUtils`, `ResolutionChains`,
`Bundles`, `Handles`, `Catalog` (the resource's state as a value and what
the systems do to it), `MessageResolution`, `Localizations` (the resource
as a class, proved against `Catalog` and `MessageResolution`),
`CatalogFiles` (where held handles come from), `Registration`, `LocalizedAssets`, `AssetReading`,
`SingleBundle`.

Conventions of the model:

- A panic (`expect`, `unwrap`) is the `Panicked(message)` outcome, carrying
  the source's message; methods stop changing state at that point.
- A language identifier is its normalized tag. Tag parsing, `AssetServer::load`,
  FTL parsing and `format_pattern` are parameters (`TagParser`, `AssetLoad`,
  `ResourceParser`, `Formatter`).
- Handles are opaque tokens. `FreshRequests` states that the asset server
  hands out handles not already held, one per path. This keeps the handle
  map one-to-one (`HandlesDistinct`), so the reverse lookup over the map,
  whose iteration order is unspecified, has a single answer.
- Bevy change detection is a flag per resource (`ConfigChanges`, a
  `chainChanged` flag). Asset events are an input sequence, and loaded
  sources are a map from handle to FTL text.
- The folder type `T` of `Localization<T>` is represented by its folder path.

A catalog that fails to parse could be expected to leave the previous
bundle in place. The code panics instead (`src/localization/systems.rs:77-88`): on a source that is
not loaded, on a parse failure, and on a repeated message id. The model
follows the code, in `Catalog.ApplyEvent` and
`Localizations.Localization.UpdateOnAssetChange`. The comment at
`src/localization/mod.rs:70` names U+2058, while the code removes U+2068;
the model removes U+2068 and U+2069, as the code does.

## Model

| member | source | states |
|---|---|---|
| `LanguageIds.IntoLanguageIdentifier` | src/locale.rs:235-251 | An identifier converts to itself. A tag string converts iff the parser accepts it, to the parsed identifier; otherwise it panics with "Invalid language ID". |
| `LanguageIds.IntoLanguageIdentifiers` | src/locale.rs:197-201 | A list converts iff every element does. The result has the same length, and element i is the conversion of input i. Any failure is the "Invalid language ID" panic. |
| `LanguageIds.IntoOptionalLanguageIdentifier` | src/locale/default_fallback.rs:43 | `None` stays `None`. `Some(x)` converts iff `x` does, to `Some` of its conversion. |
| `LanguageIds.IdentifiersConvertUnchanged` | src/locale/into_language_identifier.rs:9-13 | A list of identifiers converts without panicking, unchanged and in order. |
| `Locales.Locale.constructor` | src/locale.rs:90-92 | `Locale::new(x)` holds the conversion of `x`. |
| `Locales.Locale.Set` | src/locale/mod.rs:116-118 | `set(x)` replaces the identifier with the conversion of `x`, which is what `Locale::new(x)` holds. An invalid tag panics and leaves the identifier unchanged. |
| `Locales.LocaleDefaultFallback.Default` | src/locale/default_fallback.rs:8-9 | The default holds no fallback. |
| `Locales.LocaleDefaultFallback.constructor` | src/locale/default_fallback.rs:42-44 | `new(None)` holds `None`, and `new(Some(x))` holds `Some` of the conversion of `x`. |
| `Locales.LocaleDefaultFallback.Set` | src/locale.rs:170-172 | `set(o)` overwrites the field with the conversion of `o`. `set(None)` always succeeds and clears the default. |
| `Locales.WithFallback` | src/core/fallback_map.rs:38-55 | After `add_fallback(k, f)`, the keys are the old keys plus `k`, and `f` is in `map[k]`. An existing list is a prefix of the new one, which is at most one longer. Every other key is unchanged. |
| `Locales.AddFallbackPresentIsNoOp` | src/core/fallback_map.rs:48-51 | Adding a fallback that is already listed leaves the map unchanged. |
| `Locales.AddFallbackIdempotent` | src/locale/fallback_map.rs:50-58 | Adding the same fallback twice is the same as adding it once. |
| `Locales.AddFallbackAppends` | src/locale.rs:218-226 | A fallback not yet listed goes at the end, after the earlier ones in their order. An absent key gets `[f]`. |
| `Locales.AddFallbackKeepsNoDuplicates` | src/locale/fallback_map.rs:52-55 | A duplicate-free fallback list stays duplicate-free after `add_fallback`. |
| `Locales.LocaleFallbackMap.constructor` | src/core/fallback_map.rs:16-18 | `new()` is the empty map. |
| `Locales.LocaleFallbackMap.Insert` | src/locale/fallback_map.rs:24-36 | `insert(k, v)` sets `map[k]` to the converted list in the given order and leaves the other keys alone. It returns the previous list of `k`, if any. An invalid tag panics and changes nothing. |
| `Locales.LocaleFallbackMap.AddFallback` | src/locale.rs:210-227 | `add_fallback(k, f)` changes the map exactly as `WithFallback` describes. An invalid tag panics and changes nothing. |
| `LocalizationUtils.JoinPath` | src/localization/utils.rs:11 | `Path::join` on a path held as a string. An absolute component replaces the path. A relative component follows `JoinPrefix` of the base: the base, plus one `/` exactly when the base is non-empty and does not already end in `/`. |
| `LocalizationUtils.JoinPrefix` | src/localization/utils.rs:11 | What `Path::join` puts before a relative component: the base, extended by exactly one `/` when the base is non-empty and does not end in `/`; empty iff the base is. |
| `LocalizationUtils.FtlPath` | src/localization/utils.rs:10-12 | The catalog path of a locale ends in `<tag>.ftl`. For a well-formed tag it is the folder, a `/` separator unless the folder is empty or ends in one, then `<tag>.ftl`; so it lies inside the folder. |
| `LocalizationUtils.FtlPathInjective` | src/localization/utils.rs:10-12 | Distinct well-formed locales have distinct catalog paths in one folder. |
| `LocalizationUtils.ResolutionChain` | src/localization/utils.rs:14-36 | The chain starts with the locale. Its stored fallbacks follow in order, and the default, if set, comes last. Length = 1 + number of fallbacks + (1 if a default is set). |
| `LocalizationUtils.ResolutionChainMembers` | src/localization/utils.rs:25-33 | A locale is in the chain iff it is the current locale, one of its fallbacks, or the default. |
| `LocalizationUtils.ResolutionChainWithoutEntry` | src/localization/utils.rs:20-33 | Without a map entry, the chain is exactly `[locale]` or `[locale, default]`. |
| `LocalizationUtils.ResolutionChainKeepsDuplicateDefault` | src/localization/utils.rs:27-33 | Nothing is de-duplicated. A default equal to the locale or to one of its fallbacks occurs at least twice. |
| `ResolutionChains.LocaleResolutionChain.Update` | src/localization/resolution_chain.rs:13-38 | With no change the stored chain is untouched. Otherwise it is replaced by a chain built step by step, which equals `get_resolution_chain` of the same inputs. |
| `Bundles.NewBundle` | src/localization/systems.rs:85 | A new bundle is for the one given locale and holds no message. |
| `Bundles.AddResource` | src/localization/systems.rs:86-88 | Adding a resource succeeds iff none of its ids is already in the bundle and no id repeats. On success the locales are kept, the ids are the old ones plus the resource's, each resource message is stored under its id, and old messages are kept. |
| `Bundles.BuildBundle` | src/localization/systems.rs:82-88 | A parse failure panics with "Failed to parse an FTL string.". A repeated id panics with "Failed to add resource to bundle". Otherwise the result is a bundle for the locale holding every parsed message. |
| `Handles.RetargetHandles` | src/localization/systems.rs:27-47 | After retargeting, exactly the chain locales hold handles. Locales that stay keep their handle, and new ones get a requested handle. Handles stay distinct when requests are fresh. |
| `Handles.RetargetInTwoSteps` | src/localization/asset.rs:58-77 | Dropping the locales outside the chain, then requesting every chain locale still without a handle, gives exactly the retargeted map. |
| `Handles.RetargetIdempotent` | src/localization/asset.rs:70-73 | Retargeting again to the same chain requests nothing and changes nothing. |
| `Catalog.Reconcile` | src/localization/systems.rs:23-51 | The new chain is stored, and the handle keys become the chain's locales. Staying locales keep handle and bundle, and new ones get a fresh handle. A departing locale loses handle and bundle, and no bundle is invented. Bundle keys stay within handle keys. |
| `Catalog.ReconcileInTwoSteps` | src/localization/systems.rs:27-47 | Requesting the missing chain locales and then evicting the departed ones, handle and bundle together, gives exactly `Reconcile`. |
| `Catalog.ReconcileIdempotent` | src/localization/systems.rs:31-47 | Reconciling twice with the same chain equals reconciling once. |
| `Catalog.LocaleOf` | src/localization/systems.rs:68-74 | The reverse lookup finds a locale iff the handle is held, and the found locale holds that handle. |
| `Catalog.ApplyEvent` | src/localization/systems.rs:66-106 | An event for an unknown handle changes nothing. Removed drops only that locale's bundle. Created/Modified replace that bundle with the freshly built one, or panic when the source is not loaded or fails to parse or add. The handle map and chain never change. |
| `Catalog.ApplyEvents` | src/localization/systems.rs:65-107 | No run of events changes the handle map or the chain, and the store stays valid. A run in which no event names a held handle changes nothing. |
| `Catalog.LateArrivalIgnored` | src/localization/systems.rs:68-76 | A source that arrives for a locale already evicted from the chain is ignored. |
| `Catalog.EventsKeepConvergence` | src/localization/systems.rs:60-107 | A converged store stays converged through any run of events, with bundles only for chain locales. |
| `MessageResolution.FirstSuccess` | src/localization/mod.rs:36-58 | The chain walk of `try_format_pattern`: the first locale that answers gives the text, and a walk that finds none is an error; only a non-empty chain can succeed. |
| `MessageResolution.FirstSuccessFindsFirst` | src/localization/mod.rs:36-58 | The lookup is `Ok` iff some chain locale has a bundle holding the message with a value that formats without errors. The result is the text of the first such locale. |
| `MessageResolution.FirstSuccessSkipsPrefix` | src/localization/mod.rs:42-53 | Locales without a bundle, without the message, without a value, or with format errors are skipped, and the walk continues. |
| `MessageResolution.FirstSuccessIgnoresSuffix` | src/localization/mod.rs:49-51 | After the first success, later chain locales do not matter. |
| `MessageResolution.NoBundlesNoMessage` | src/localization/mod.rs:41-57 | A chain without bundles, the empty chain included, yields `Err(LocalizationError)`. |
| `MessageResolution.FallbackScenario` | examples/locale_fallback.rs:7-24 | With `en-US`, `en-GB`, `de`, a message neither English locale has gives the German text, the same text the chain `[de]` gives. |
| `MessageResolution.StripIsolates` | src/localization/mod.rs:73 | No U+2068 or U+2069 remains, and every other character is kept with its multiplicity. |
| `MessageResolution.StripIsolatesOfClean` | src/localization/mod.rs:73 | Text without isolates is left unchanged. |
| `MessageResolution.StripIsolatesDistributes` | src/localization/mod.rs:73 | Stripping distributes over concatenation, so the kept characters stay in order. |
| `MessageResolution.StripIsolatesIdempotent` | src/localization/mod.rs:73 | Stripping twice is stripping once. |
| `MessageResolution.StripIsolatesUnwrapsArgument` | src/localization/mod.rs:70-73 | An argument the formatter wrapped in isolates comes out bare, with the surrounding text unchanged. |
| `Localizations.Localization.constructor` | src/localization/mod.rs:29-34 | `new(chain)` stores the chain, and both maps start empty. |
| `Localizations.Localization.Default` | src/localization/mod.rs:77-85 | The default has an empty chain and empty maps. |
| `Localizations.Localization.TryFormatPattern` | src/localization/mod.rs:36-58 | The loop returns exactly the first-success lookup over the stored chain and bundles. |
| `Localizations.Localization.TryGetMessage` | src/localization/mod.rs:60-62 | It is `try_format_pattern(id, None)`. |
| `Localizations.Localization.TryFormatMessage` | src/localization/mod.rs:64-74 | `Ok` iff the lookup with the arguments is `Ok`. The result is that text with the isolates removed and contains no U+2068 or U+2069. |
| `Localizations.Localization.LocaleOfHandle` | src/localization/systems.rs:94-100 | The loop over the handle map returns the unique locale holding the handle, or `None`. |
| `Localizations.Localization.UpdateOnLocaleChange` | src/localization/systems.rs:16-52 | With no change, nothing changes. Otherwise the new state is `Reconcile` of the old one with the newly computed chain and the catalog paths of the folder. The resource stays valid. |
| `Localizations.Localization.RequestMissing` | src/localization/systems.rs:30-38 | Every chain locale without a handle gets the handle of its catalog path. Existing handles and the bundles are kept. |
| `Localizations.Localization.EvictDeparted` | src/localization/systems.rs:40-47 | Handle and bundle of every formerly held locale outside the chain are removed together. |
| `Localizations.Localization.UpdateOnAssetChange` | src/localization/systems.rs:60-108 | The new state and the panic, if any, are exactly those of `ApplyEvents` on the old state. The resource stays valid. |
| `Localizations.Localization.HandleEvent` | src/localization/systems.rs:66-106 | One event changes the resource exactly as `ApplyEvent` describes, or panics with its message and changes nothing. The resource stays valid. |
| `Localizations.RunContinues` | src/localization/systems.rs:65-107 | Events apply in order: an event that returns extends the run over the events before it by that event's new state. |
| `Localizations.RunStops` | src/localization/systems.rs:77-88 | The first event that panics ends the whole run, with the state just before it and that event's message. |
| `Localizations.ApplyEventsStopsAtPanic` | src/localization/systems.rs:77-88 | Once a run has panicked, later events change nothing. |
| `CatalogFiles.FreshFromInjectiveLoad` | src/localization/systems.rs:30-38 | If the asset server gives distinct handles for distinct paths and every held handle is that of its locale's catalog file, every request for a well-formed chain is fresh. |
| `CatalogFiles.ReconcileKeepsCatalogFiles` | src/localization/utils.rs:10-12 | After the locale-change reconciliation with a well-formed chain, every held handle is still that of its locale's catalog file. |
| `Registration.FolderSystems` | src/localization/add_localization.rs:44-56 | A folder's systems run in the order locale change, asset change, text update. |
| `Registration.App.AddLocalization` | src/localization/add_localization.rs:22-59 | A registered folder is left as it is. Otherwise the new resource has the current chain, exactly one handle per chain locale (its catalog path), and no bundle. The resource is valid and the three systems are appended in order. |
| `Registration.NewLocalization` | src/localization/add_localization.rs:35-42 | The created resource equals `Reconcile` of the empty resource with its chain. |
| `Registration.RegisteredIsConverged` | src/localization/add_localization.rs:33-42 | Right after registration, the locale-change reconciliation with the same chain changes nothing. |
| `LocalizedAssets.LocalizedAsset.constructor` | src/localization/asset.rs:29-35 | It stores folder and extension and starts with no handle. |
| `LocalizedAssets.LocalizedAsset.AssetPath` | src/localization/asset.rs:38-45 | The path is `<folder>/<tag>.<extension>`: folder, `/`, tag, `.`, extension. |
| `LocalizedAssets.AssetPathInjective` | src/localization/asset.rs:38-45 | Distinct locales get distinct asset paths. |
| `LocalizedAssets.LocalizedAsset.Retarget` | src/localization/asset.rs:58-77 | Locales outside the chain are dropped. Chain locales with a handle are not re-requested, and the others get the handle of their asset path. The keys become the chain's locales. |
| `LocalizedAssets.LocalizedAsset.DropOutside` | src/localization/asset.rs:58-66 | The handle of every locale outside the chain is removed; the others are kept. |
| `LocalizedAssets.LocalizedAsset.RequestMissing` | src/localization/asset.rs:68-77 | Every chain locale without a handle gets the handle of its asset path; existing handles are kept and not re-requested. |
| `LocalizedAssets.UpdateAssetOnLocaleChanges` | src/localization/asset.rs:48-79 | With an unchanged chain, no component changes. Otherwise every component is retargeted to the chain. |
| `AssetReading.Parent` | src/asset/reader.rs:17 | `Path::parent`: present iff the path has a last component; the parent followed by the file name is the path. |
| `AssetReading.FileName` | src/asset/reader.rs:19 | `Path::file_name`: present iff the path is non-empty, and then it is the last component. |
| `AssetReading.LastDot` | src/asset/reader.rs:18-19 | The position of the last `.` of a file name: a dot, with no dot after it; `None` iff the name has no dot. |
| `AssetReading.SplitAtDot` | src/asset/reader.rs:18-19 | The split of the standard library's `file_stem` and `extension`: `..` is all stem, and a name whose only dot leads has no extension. A name without a dot is all stem. Otherwise the name is a non-empty stem, a dot and a dot-free extension. |
| `AssetReading.FileStem` | src/asset/reader.rs:19 | `Path::file_stem`: present iff there is a file name, and a prefix of it. A name that is `..` or has no dot after its first character is its own stem; with an extension, the stem is what precedes the last dot (`FileNameSplitsAtExtension`). |
| `AssetReading.Extension` | src/asset/reader.rs:18 | `Path::extension`: for a path with a file name, present iff the name is not `..` and has a dot after its first character; present only with a stem, and contains no dot. |
| `AssetReading.FileNameSplitsAtExtension` | src/asset/reader.rs:18-19 | A file name with an extension is its stem, a dot and the extension. |
| `AssetReading.LocalizedPath` | src/asset/reader.rs:16-31 | `dir/stem.ext` becomes `dir/stem/<locale>.ext`. A path without parent or extension panics on `unwrap`. |
| `AssetReading.LocalizedPathRoundTrip` | src/asset/reader.rs:16-31 | For a well-formed locale, the rewritten path's stem is the locale and its extension the original one. Its parent's name is the original stem, and its grandparent is the original parent. |
| `AssetReading.LocalizedPathChain` | src/asset/reader.rs:33-39 | The chain of paths has the chain's length and order, and element i is the rewrite for locale i. It panics iff the chain is non-empty and the path cannot be rewritten. |
| `AssetReading.FirstFoundSelects` | src/asset/reader.rs:50-60 | The result is `NotFound` iff every path was, and then it is `NotFound` of the original path. Otherwise it is the first result that is not `NotFound`, errors included. |
| `AssetReading.FirstAvailable` | src/asset/reader.rs:50-57 | The loop with early return yields exactly that selection. |
| `AssetReading.EmptyChainNotFound` | src/asset/reader.rs:59-60 | With an empty chain, `read` reports `NotFound` of the original path. |
| `AssetReading.ReadPicksFirstLocale` | src/asset/reader.rs:48-61 | `read` gives the result for the first chain locale whose file is not `NotFound`. |
| `AssetReading.LocalizedAssetReader.Read` | src/asset/reader.rs:43-62 | `read` is the chain-ordered selection over the localized paths with the file probe, or the path-rewrite panic. |
| `AssetReading.LocalizedAssetReader.ReadMeta` | src/asset/reader.rs:64-84 | `read_meta` follows the same rule with the meta probe. |
| `SingleBundle.New` | src/localization.rs:19-24 | The resource starts with no bundle. |
| `SingleBundle.TryGetMessage` | src/localization.rs:26-46 | It panics iff there is a bundle and the message is missing ("Message doesn't exist.") or has no value ("Message has no value."). Without a bundle it returns `Err`. |
| `SingleBundle.AgreesWithChainLookup` | src/localization.rs:26-46 | Where it does not panic, it answers as the chain lookup does for the one-locale chain: `Ok` with the text when formatting reports no error, `Err` otherwise. |
| `SingleBundle.App.AddLocalization` | src/localization.rs:59-72 | Registration inserts a new, bundle-less resource unless the folder already has one. |

## Left out

- Tag parsing and normalization (`unic_langid`) are not modelled. A parser is a parameter, and identifiers are compared by their tag.
- Fluent internals are not modelled: FTL parsing (`FluentResource::try_new`), pattern formatting (`format_pattern`), terms, attributes and argument values. A resource is its list of (id, message) pairs, and formatting is a parameter returning text plus an error list.
- `AssetServer::load` is a parameter from path to handle. Asynchronous loading, reference counting of handles and the actual file I/O are not modelled. The reader's `read`/`read_meta` results are a parameter per path, and the `async` machinery is dropped.
- Bevy's scheduler, change detection and event delivery are not modelled. They are flags and an event sequence given as inputs.
- The text-update system `update_localized_text`, the `LocalizedText` component, `LocalizationArgs` and the derive macro for folders are outside this model. They read the ECS world and rely on type-level plumbing.
- `Localizations.Localization.UpdateOnLocaleChange`, `Registration.NewLocalization` and `Registration.App.AddLocalization` require fresh handles (`FreshRequests`) on each call. The source trusts the asset server to give distinct handles for distinct paths, and this keeps the handle map one-to-one. `CatalogFiles.FreshFromInjectiveLoad` and `CatalogFiles.ReconcileKeepsCatalogFiles` reduce that requirement to one assumption: the asset server is injective on paths, and chain locales are well-formed. The resource does not record which `load` produced its handles, so `Valid` does not carry that link itself.
- `AssetReading.LocalizedPath` models paths as sequences of normal components. Absolute paths, `.` and `..` components and platform separators are not represented. The `to_str` conversion of the extension, which cannot fail on these strings, is not modelled.
- `LocalizationUtils.JoinPath` works on strings. Path normalization that `Path::join` leaves to later components is not modelled.
- `LocalizedAssets.UpdateAssetOnLocaleChanges` iterates the components in the order given. The ECS query order is unspecified, and components are independent.
- The three revisions of `Locale`, `LocaleDefaultFallback` and `LocaleFallbackMap` behave the same. Each is modelled once, and the table cites one revision per member. The `src/core` revision converts with an infallible `Into`, which corresponds to `Identifier` inputs.
- `update_localization_on_asset_change` keeps no stale bundle on a parse failure. The code panics, and the model follows the code.
- `Locales.Locale.constructor` and `Locales.LocaleDefaultFallback.constructor` require a tag the parser accepts. `Locale::new` with an invalid tag string panics with "Invalid language ID"; `Locales.Locale.Set` and `Locales.LocaleDefaultFallback.Set` model that panic.
- `Registration.App.AddLocalization` does not model the panics of `world.resource::<AssetServer>()`, `::<Locale>()`, `::<LocaleFallbackMap>()` and `::<LocaleDefaultFallback>()` when a resource is missing (`src/localization/add_localization.rs:27-31`, `src/localization.rs:67`). The locale configuration and the loader are passed in, so they always exist.
- `Registration.App.AddLocalization` and `SingleBundle.App.AddLocalization` key registrations by folder path. Two folder types with the same `FOLDER_PATH` are two resources with six systems in the source, but one registration with three systems here.
