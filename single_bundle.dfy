/** The early single-bundle revision of the localization resource
    (src/localization.rs): one optional bundle, no chain. */
module SingleBundle {
  import opened Wrappers
  import opened LanguageIds
  import opened Bundles
  import opened MessageResolution

  const MessageMissing := "Message doesn't exist."
  const MessageWithoutValue := "Message has no value."

  /** The resource: the bundle of the current locale, once loaded. */
  datatype Localization = Localization(curBundle: Option<Bundle>)

  /** `Localization::new` (= `Default`): no bundle yet. */
  function New(): (loc: Localization)
    ensures loc.curBundle == None
  {
    Localization(None)
  }

  /** `try_get_message`: `Err` without a bundle; panics when the message is
      missing or has no value; otherwise the formatted text, or `Err` when
      formatting reported errors. */
  function TryGetMessage(loc: Localization, id: MessageId, format: Formatter): (r: Outcome<Result<string>>)
    ensures r.Panicked? <==>
      loc.curBundle.Some? && (id !in loc.curBundle.value.messages || loc.curBundle.value.messages[id].value.None?)
    ensures r.Panicked? ==> r.message == (if id !in loc.curBundle.value.messages then MessageMissing else MessageWithoutValue)
    ensures loc.curBundle.None? ==> r == Returned(Err(LocalizationError))
  {
    match loc.curBundle
    case None => Returned(Err(LocalizationError))
    case Some(bundle) =>
      if id !in bundle.messages then Panicked(MessageMissing)
      else
        match bundle.messages[id].value
        case None => Panicked(MessageWithoutValue)
        case Some(pattern) =>
          var formatted := format(bundle, pattern, None);
          if formatted.errors != [] then Returned(Err(LocalizationError)) else Returned(Ok(formatted.text))
  }

  /** Where it does not panic, the single-bundle lookup answers as the chain
      lookup does for the one-locale chain of the bundle's locale; the later
      design skips where this one panics. */
  lemma AgreesWithChainLookup(loc: Localization, l: LanguageId, id: MessageId, format: Formatter)
    requires TryGetMessage(loc, id, format).Returned?
    ensures var bundleMap := if loc.curBundle.Some? then map[l := loc.curBundle.value] else map[];
      TryGetMessage(loc, id, format).value == FirstSuccess([l], bundleMap, id, None, format)
  {
    var bundleMap := if loc.curBundle.Some? then map[l := loc.curBundle.value] else map[];
    assert [l][1..] == [];
  }

  /** The app as far as this revision's registration sees it. */
  class App {
    var localizations: map<string, Localization>

    constructor ()
      ensures localizations == map[]
    {
      localizations := map[];
    }

    /** `add_localization::<T>`: inserts a new resource unless the folder
        already has one. */
    method AddLocalization(folder: string)
      modifies this
      ensures folder in old(localizations) ==> localizations == old(localizations)
      ensures folder !in old(localizations) ==> localizations == old(localizations)[folder := New()]
    {
      if folder in localizations {
        return;
      }
      localizations := localizations[folder := New()];
    }
  }
}
