/** The locale configuration resources: the current `Locale`, the optional
    `LocaleDefaultFallback` and the `LocaleFallbackMap`
    (src/locale.rs, src/locale/mod.rs, src/locale/default_fallback.rs,
    src/locale/fallback_map.rs, src/core/fallback_map.rs: three revisions
    with the same behaviour). */
module Locales {
  import opened Wrappers
  import opened LanguageIds

  /** The currently active locale. */
  class Locale {
    var id: LanguageId

    /** `Locale::new`; a tag string that does not parse panics, which the
        caller must rule out. */
    constructor (x: LocaleInput, parse: TagParser)
      requires IntoLanguageIdentifier(x, parse).Returned?
      ensures id == IntoLanguageIdentifier(x, parse).value
    {
      id := IntoLanguageIdentifier(x, parse).value;
    }

    /** `Locale::set`: replaces the identifier, or panics on an invalid tag
        before anything is changed. */
    method Set(x: LocaleInput, parse: TagParser) returns (outcome: Outcome<()>)
      modifies this
      ensures outcome.Returned? <==> IntoLanguageIdentifier(x, parse).Returned?
      ensures outcome.Panicked? ==> outcome.message == InvalidLanguageId && id == old(id)
      ensures outcome.Returned? ==> id == IntoLanguageIdentifier(x, parse).value
    {
      match IntoLanguageIdentifier(x, parse)
      case Panicked(m) =>
        outcome := Panicked(m);
      case Returned(converted) =>
        id := converted;
        outcome := Returned(());
    }
  }

  /** The locale tried last, if any. */
  class LocaleDefaultFallback {
    var fallback: Option<LanguageId>

    /** The derived `Default`: no default fallback. */
    constructor Default()
      ensures fallback == None
    {
      fallback := None;
    }

    /** `LocaleDefaultFallback::new`. */
    constructor (x: Option<LocaleInput>, parse: TagParser)
      requires IntoOptionalLanguageIdentifier(x, parse).Returned?
      ensures fallback == IntoOptionalLanguageIdentifier(x, parse).value
      ensures fallback.Some? <==> x.Some?
    {
      fallback := IntoOptionalLanguageIdentifier(x, parse).value;
    }

    /** `LocaleDefaultFallback::set`: overwrites the field, `None` included. */
    method Set(x: Option<LocaleInput>, parse: TagParser) returns (outcome: Outcome<()>)
      modifies this
      ensures outcome.Returned? <==> IntoOptionalLanguageIdentifier(x, parse).Returned?
      ensures outcome.Panicked? ==> outcome.message == InvalidLanguageId && fallback == old(fallback)
      ensures outcome.Returned? ==> fallback == IntoOptionalLanguageIdentifier(x, parse).value
      ensures x.None? ==> outcome.Returned? && fallback == None
    {
      match IntoOptionalLanguageIdentifier(x, parse)
      case Panicked(m) =>
        outcome := Panicked(m);
      case Returned(converted) =>
        fallback := converted;
        outcome := Returned(());
    }
  }

  /** Bevy's change detection on the three resources, as seen by a system in
      one update: whether each was changed since that system last ran. */
  datatype ConfigChanges = ConfigChanges(locale: bool, fallbackMap: bool, defaultFallback: bool)
  {
    predicate Any()
    {
      locale || fallbackMap || defaultFallback
    }
  }

  /** The fallbacks of `locale` in the stored order; none without an entry. */
  function FallbacksOf(entries: map<LanguageId, seq<LanguageId>>, locale: LanguageId): seq<LanguageId>
  {
    if locale in entries then entries[locale] else []
  }

  /** A list in which no locale occurs twice. */
  predicate NoDuplicates(s: seq<LanguageId>)
  {
    forall i, j :: 0 <= i < j < |s| ==> s[i] != s[j]
  }

  /** The map after `add_fallback(locale, fallback)`: an absent key gets
      `[fallback]`; a present list gets `fallback` appended unless it is
      already there. */
  function WithFallback(entries: map<LanguageId, seq<LanguageId>>, locale: LanguageId, fallback: LanguageId)
    : (r: map<LanguageId, seq<LanguageId>>)
    ensures r.Keys == entries.Keys + {locale}
    ensures fallback in r[locale]
    ensures locale in entries ==> entries[locale] <= r[locale]
    ensures |r[locale]| <= |FallbacksOf(entries, locale)| + 1
    ensures forall l :: l in entries && l != locale ==> r[l] == entries[l]
  {
    if locale !in entries then entries[locale := [fallback]]
    else if fallback in entries[locale] then entries
    else entries[locale := entries[locale] + [fallback]]
  }

  /** Adding a fallback that is already listed changes nothing. */
  lemma AddFallbackPresentIsNoOp(entries: map<LanguageId, seq<LanguageId>>, locale: LanguageId, fallback: LanguageId)
    requires locale in entries && fallback in entries[locale]
    ensures WithFallback(entries, locale, fallback) == entries
  {
  }

  /** `add_fallback` is idempotent. */
  lemma AddFallbackIdempotent(entries: map<LanguageId, seq<LanguageId>>, locale: LanguageId, fallback: LanguageId)
    ensures WithFallback(WithFallback(entries, locale, fallback), locale, fallback) == WithFallback(entries, locale, fallback)
  {
    AddFallbackPresentIsNoOp(WithFallback(entries, locale, fallback), locale, fallback);
  }

  /** A new fallback goes to the end, after the earlier ones in their order. */
  lemma AddFallbackAppends(entries: map<LanguageId, seq<LanguageId>>, locale: LanguageId, fallback: LanguageId)
    requires fallback !in FallbacksOf(entries, locale)
    ensures WithFallback(entries, locale, fallback)[locale] == FallbacksOf(entries, locale) + [fallback]
  {
  }

  /** A fallback list built by `add_fallback` alone never repeats a locale. */
  lemma {:induction false} AddFallbackKeepsNoDuplicates(entries: map<LanguageId, seq<LanguageId>>, locale: LanguageId, fallback: LanguageId)
    requires NoDuplicates(FallbacksOf(entries, locale))
    ensures NoDuplicates(WithFallback(entries, locale, fallback)[locale])
  {
    var s := FallbacksOf(entries, locale);
    var r := WithFallback(entries, locale, fallback)[locale];
    if fallback !in s {
      assert r == s + [fallback];
      forall i, j | 0 <= i < j < |r| ensures r[i] != r[j] {
        if j == |s| {
          assert r[i] == s[i];
        }
      }
    }
  }

  /** Locale -> list of fallback locales, tried first to last. */
  class LocaleFallbackMap {
    var entries: map<LanguageId, seq<LanguageId>>

    /** `LocaleFallbackMap::new` (= `Default`): no entries. */
    constructor ()
      ensures entries == map[]
    {
      entries := map[];
    }

    /** `insert(locale, fallbacks)`: converts the key and the list, replaces
        the list of that key (last writer wins) and returns the previous
        one. Panics, changing nothing, when a tag string is invalid. */
    method Insert(locale: LocaleInput, fallbacks: seq<LocaleInput>, parse: TagParser)
      returns (outcome: Outcome<Option<seq<LanguageId>>>)
      modifies this
      ensures outcome.Returned? <==>
        IntoLanguageIdentifier(locale, parse).Returned? && IntoLanguageIdentifiers(fallbacks, parse).Returned?
      ensures outcome.Panicked? ==> outcome.message == InvalidLanguageId && entries == old(entries)
      ensures outcome.Returned? ==>
        var key := IntoLanguageIdentifier(locale, parse).value;
        && entries == old(entries)[key := IntoLanguageIdentifiers(fallbacks, parse).value]
        && outcome.value == (if key in old(entries) then Some(old(entries)[key]) else None)
    {
      var key := IntoLanguageIdentifier(locale, parse);
      if key.Panicked? {
        return Panicked(key.message);
      }
      var value := IntoLanguageIdentifiers(fallbacks, parse);
      if value.Panicked? {
        return Panicked(value.message);
      }
      var previous := if key.value in entries then Some(entries[key.value]) else None;
      entries := entries[key.value := value.value];
      outcome := Returned(previous);
    }

    /** `add_fallback(locale, fallback)`: appends `fallback` to the list of
        `locale` unless it is already there; an absent key is inserted with
        the one-element list. */
    method AddFallback(locale: LocaleInput, fallback: LocaleInput, parse: TagParser) returns (outcome: Outcome<()>)
      modifies this
      ensures outcome.Returned? <==>
        IntoLanguageIdentifier(locale, parse).Returned? && IntoLanguageIdentifier(fallback, parse).Returned?
      ensures outcome.Panicked? ==> outcome.message == InvalidLanguageId && entries == old(entries)
      ensures outcome.Returned? ==>
        entries == WithFallback(old(entries), IntoLanguageIdentifier(locale, parse).value,
                                IntoLanguageIdentifier(fallback, parse).value)
    {
      var key := IntoLanguageIdentifier(locale, parse);
      if key.Panicked? {
        return Panicked(key.message);
      }
      var value := IntoLanguageIdentifier(fallback, parse);
      if value.Panicked? {
        return Panicked(value.message);
      }
      if key.value in entries {
        if value.value !in entries[key.value] {
          entries := entries[key.value := entries[key.value] + [value.value]];
        }
      } else {
        ghost var single := [Identifier(value.value)];
        assert IntoLanguageIdentifier(single[0], parse) == Returned(value.value);
        assert IntoLanguageIdentifiers(single, parse).value == [value.value];
        var _ := Insert(Identifier(key.value), [Identifier(value.value)], parse);
      }
      outcome := Returned(());
    }
  }
}
