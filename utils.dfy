/** The resolution-chain builder and the catalog file path
    (src/localization/utils.rs). */
module LocalizationUtils {
  import opened Wrappers
  import opened LanguageIds
  import opened Locales

  /** `PathBuf::push` of a relative-or-absolute component onto a path held
      as a string: an absolute component replaces the path; otherwise a `/`
      separator is inserted unless the path is empty or already ends in one. */
  function JoinPath(base: string, component: string): (r: string)
    ensures |component| > 0 && component[0] == '/' ==> r == component
    ensures (|component| == 0 || component[0] != '/') ==>
      && base <= r
      && |r| - |component| in {|base|, |base| + 1}
      && r[|r| - |component|..] == component
    ensures (|component| == 0 || component[0] != '/') ==> r == JoinPrefix(base) + component
  {
    if |component| > 0 && component[0] == '/' then component
    else JoinPrefix(base) + component
  }

  /** What `JoinPath` puts in front of a relative component. */
  function JoinPrefix(base: string): (r: string)
    ensures base <= r && |r| <= |base| + 1
    ensures r == [] <==> base == []
    ensures r != [] ==> r[|r| - 1] == '/'
    ensures (base == [] || base[|base| - 1] == '/') ==> r == base
  {
    if base == [] || base[|base| - 1] == '/' then base else base + "/"
  }

  /** `get_ftl_path`: the folder joined with `<lang_id>.ftl`. */
  function FtlPath(folder: string, l: LanguageId): (p: string)
    ensures WellFormed(l) ==> folder <= p
    ensures |p| >= |l.tag| + 4 && p[|p| - |l.tag| - 4..] == l.tag + ".ftl"
    ensures WellFormed(l) ==> p == JoinPrefix(folder) + l.tag + ".ftl"
  {
    assert WellFormed(l) ==> (l.tag + ".ftl")[0] == l.tag[0] && l.tag[0] != '/';
    JoinPath(folder, l.tag + ".ftl")
  }

  /** Distinct locales are requested from distinct files of one folder. */
  lemma FtlPathInjective(folder: string, a: LanguageId, b: LanguageId)
    requires WellFormed(a) && WellFormed(b)
    requires FtlPath(folder, a) == FtlPath(folder, b)
    ensures a == b
  {
    var prefix := JoinPrefix(folder);
    var sa, sb := a.tag + ".ftl", b.tag + ".ftl";
    assert sa[0] == a.tag[0] && sb[0] == b.tag[0];
    var p := prefix + sa;
    assert p == FtlPath(folder, a);
    assert p == prefix + sb;
    assert |sa| == |sb|;
    var n := |prefix|;
    assert a.tag == p[n..n + |a.tag|];
    assert b.tag == p[n..n + |b.tag|];
  }

  /** `get_resolution_chain`: the current locale, then its fallbacks from the
      map in their stored order, then the default fallback if one is set.
      Nothing is de-duplicated. */
  function ResolutionChain(locale: LanguageId, fallbacks: map<LanguageId, seq<LanguageId>>,
                           defaultFallback: Option<LanguageId>): (chain: seq<LanguageId>)
    ensures |chain| == 1 + |FallbacksOf(fallbacks, locale)| + (if defaultFallback.Some? then 1 else 0)
    ensures chain[0] == locale
    ensures forall i :: 0 <= i < |FallbacksOf(fallbacks, locale)| ==> chain[1 + i] == FallbacksOf(fallbacks, locale)[i]
    ensures defaultFallback.Some? ==> chain[|chain| - 1] == defaultFallback.value
  {
    [locale] + FallbacksOf(fallbacks, locale) + (if defaultFallback.Some? then [defaultFallback.value] else [])
  }

  /** A locale is in the chain exactly when it is the current locale, one of
      its fallbacks, or the default fallback. */
  lemma ResolutionChainMembers(locale: LanguageId, fallbacks: map<LanguageId, seq<LanguageId>>,
                               defaultFallback: Option<LanguageId>, l: LanguageId)
    ensures l in ResolutionChain(locale, fallbacks, defaultFallback) <==>
      l == locale || l in FallbacksOf(fallbacks, locale) || defaultFallback == Some(l)
  {
    var chain := ResolutionChain(locale, fallbacks, defaultFallback);
    var fs := FallbacksOf(fallbacks, locale);
    if l in fs {
      var i :| 0 <= i < |fs| && fs[i] == l;
      assert chain[1 + i] == l;
    }
  }

  /** Without an entry in the map the chain is the locale, then the default. */
  lemma ResolutionChainWithoutEntry(locale: LanguageId, fallbacks: map<LanguageId, seq<LanguageId>>,
                                    defaultFallback: Option<LanguageId>)
    requires locale !in fallbacks
    ensures ResolutionChain(locale, fallbacks, defaultFallback) ==
      if defaultFallback.Some? then [locale, defaultFallback.value] else [locale]
  {
  }

  /** How often `l` occurs in `s`. */
  function Occurrences(s: seq<LanguageId>, l: LanguageId): nat
  {
    multiset(s)[l]
  }

  /** No de-duplication: a default fallback that equals the locale or one of
      its fallbacks is tried a second time at the end. */
  lemma ResolutionChainKeepsDuplicateDefault(locale: LanguageId, fallbacks: map<LanguageId, seq<LanguageId>>, d: LanguageId)
    requires d == locale || d in FallbacksOf(fallbacks, locale)
    ensures Occurrences(ResolutionChain(locale, fallbacks, Some(d)), d) >= 2
  {
    var fs := FallbacksOf(fallbacks, locale);
    var chain := ResolutionChain(locale, fallbacks, Some(d));
    assert chain == [locale] + fs + [d];
    assert multiset(chain) == multiset([locale]) + multiset(fs) + multiset([d]);
    assert multiset([locale] + fs)[d] >= 1 by {
      assert d in [locale] + fs;
    }
  }
}
