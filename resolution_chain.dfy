/** The `LocaleResolutionChain` resource and the system that keeps it up to
    date (src/localization/resolution_chain.rs). */
module ResolutionChains {
  import opened Wrappers
  import opened LanguageIds
  import opened Locales
  import opened LocalizationUtils

  /** The chain of locales to try, in order. */
  class LocaleResolutionChain {
    var chain: seq<LanguageId>

    constructor (chain: seq<LanguageId>)
      ensures this.chain == chain
    {
      this.chain := chain;
    }

    /** `update_resolution_chain`: when the locale, the fallback map or the
        default fallback changed, rebuilds the chain from scratch (pushing
        the locale, appending its fallbacks, pushing the default) and
        replaces the stored one; otherwise leaves it untouched. */
    method Update(locale: Locale, fallbackMap: LocaleFallbackMap, defaultFallback: LocaleDefaultFallback,
                  changes: ConfigChanges)
      modifies this
      ensures !changes.Any() ==> chain == old(chain)
      ensures changes.Any() ==>
        chain == ResolutionChain(locale.id, fallbackMap.entries, defaultFallback.fallback)
    {
      if changes.Any() {
        var current := locale.id;
        var built := [current];
        if current in fallbackMap.entries {
          built := built + fallbackMap.entries[current];
        }
        if defaultFallback.fallback.Some? {
          built := built + [defaultFallback.fallback.value];
        }
        chain := built;
      }
    }
  }
}
