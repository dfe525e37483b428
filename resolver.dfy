/** Message lookup along a resolution chain (`try_format_pattern`) and the
    removal of the Unicode isolate controls that `try_format_message`
    applies to its result (src/localization/mod.rs). */
module MessageResolution {
  import opened Wrappers
  import opened LanguageIds
  import opened Bundles

  /** `LocalizationError`: no locale of the chain could produce the message. */
  datatype LocalizationError = LocalizationError

  datatype Result<+T> = Ok(value: T) | Err(error: LocalizationError)

  /** Locale `l` can answer `id`: it has a bundle, the bundle has the
      message, the message has a value, and formatting it reports no error. */
  predicate Formats(bundleMap: map<LanguageId, Bundle>, l: LanguageId, id: MessageId, args: Option<Args>,
                    format: Formatter)
  {
    && l in bundleMap
    && id in bundleMap[l].messages
    && bundleMap[l].messages[id].value.Some?
    && format(bundleMap[l], bundleMap[l].messages[id].value.value, args).errors == []
  }

  /** The text locale `l` gives for `id`. */
  function FormattedText(bundleMap: map<LanguageId, Bundle>, l: LanguageId, id: MessageId, args: Option<Args>,
                         format: Formatter): string
    requires Formats(bundleMap, l, id, args, format)
  {
    format(bundleMap[l], bundleMap[l].messages[id].value.value, args).text
  }

  /** `chain[i]` is the first locale of the chain that can answer `id`. */
  predicate FirstAnswering(chain: seq<LanguageId>, i: int, bundleMap: map<LanguageId, Bundle>, id: MessageId,
                           args: Option<Args>, format: Formatter)
  {
    && 0 <= i < |chain|
    && Formats(bundleMap, chain[i], id, args, format)
    && forall j :: 0 <= j < i ==> !Formats(bundleMap, chain[j], id, args, format)
  }

  /** The answer of the first chain locale that can answer `id`; a locale
      that cannot is skipped, and an exhausted chain is an error. */
  function FirstSuccess(chain: seq<LanguageId>, bundleMap: map<LanguageId, Bundle>, id: MessageId,
                        args: Option<Args>, format: Formatter): (r: Result<string>)
    ensures r.Ok? ==> chain != []
    decreases |chain|
  {
    if chain == [] then Err(LocalizationError)
    else if Formats(bundleMap, chain[0], id, args, format) then
      Ok(FormattedText(bundleMap, chain[0], id, args, format))
    else
      FirstSuccess(chain[1..], bundleMap, id, args, format)
  }

  /** The lookup succeeds exactly when some chain locale can answer, and
      then gives the text of the first one that can. */
  lemma {:induction false} FirstSuccessFindsFirst(chain: seq<LanguageId>, bundleMap: map<LanguageId, Bundle>,
                                                  id: MessageId, args: Option<Args>, format: Formatter)
    ensures FirstSuccess(chain, bundleMap, id, args, format).Ok? <==>
      exists i :: 0 <= i < |chain| && Formats(bundleMap, chain[i], id, args, format)
    ensures forall i :: FirstAnswering(chain, i, bundleMap, id, args, format) ==>
      FirstSuccess(chain, bundleMap, id, args, format) == Ok(FormattedText(bundleMap, chain[i], id, args, format))
    decreases |chain|
  {
    if chain != [] && !Formats(bundleMap, chain[0], id, args, format) {
      var tail := chain[1..];
      FirstSuccessFindsFirst(tail, bundleMap, id, args, format);
      if exists i :: 0 <= i < |chain| && Formats(bundleMap, chain[i], id, args, format) {
        var i :| 0 <= i < |chain| && Formats(bundleMap, chain[i], id, args, format);
        assert tail[i - 1] == chain[i];
      }
      if exists i :: 0 <= i < |tail| && Formats(bundleMap, tail[i], id, args, format) {
        var i :| 0 <= i < |tail| && Formats(bundleMap, tail[i], id, args, format);
        assert chain[i + 1] == tail[i];
      }
      forall i | FirstAnswering(chain, i, bundleMap, id, args, format)
        ensures FirstSuccess(chain, bundleMap, id, args, format) == Ok(FormattedText(bundleMap, chain[i], id, args, format))
      {
        assert tail[i - 1] == chain[i];
        assert FirstAnswering(tail, i - 1, bundleMap, id, args, format) by {
          forall j | 0 <= j < i - 1 ensures !Formats(bundleMap, tail[j], id, args, format) {
            assert tail[j] == chain[j + 1];
          }
        }
      }
    }
  }

  /** Locales in front that cannot answer do not change the answer: the
      walk resumes at the first one that can. */
  lemma {:induction false} FirstSuccessSkipsPrefix(skipped: seq<LanguageId>, rest: seq<LanguageId>,
                                                   bundleMap: map<LanguageId, Bundle>, id: MessageId,
                                                   args: Option<Args>, format: Formatter)
    requires forall i :: 0 <= i < |skipped| ==> !Formats(bundleMap, skipped[i], id, args, format)
    ensures FirstSuccess(skipped + rest, bundleMap, id, args, format) == FirstSuccess(rest, bundleMap, id, args, format)
    decreases |skipped|
  {
    if skipped != [] {
      var chain := skipped + rest;
      assert chain[0] == skipped[0] && !Formats(bundleMap, chain[0], id, args, format);
      assert FirstSuccess(chain, bundleMap, id, args, format) == FirstSuccess(chain[1..], bundleMap, id, args, format);
      assert chain[1..] == skipped[1..] + rest;
      FirstSuccessSkipsPrefix(skipped[1..], rest, bundleMap, id, args, format);
    } else {
      assert skipped + rest == rest;
    }
  }

  /** Once a locale can answer, whatever follows it is never consulted. */
  lemma {:induction false} FirstSuccessIgnoresSuffix(chain: seq<LanguageId>, more: seq<LanguageId>,
                                                     bundleMap: map<LanguageId, Bundle>, id: MessageId,
                                                     args: Option<Args>, format: Formatter)
    requires FirstSuccess(chain, bundleMap, id, args, format).Ok?
    ensures FirstSuccess(chain + more, bundleMap, id, args, format) == FirstSuccess(chain, bundleMap, id, args, format)
    decreases |chain|
  {
    assert (chain + more)[0] == chain[0];
    if !Formats(bundleMap, chain[0], id, args, format) {
      assert (chain + more)[1..] == chain[1..] + more;
      FirstSuccessIgnoresSuffix(chain[1..], more, bundleMap, id, args, format);
    }
  }

  /** A chain of locales without bundles yields the error, the empty chain
      included. */
  lemma NoBundlesNoMessage(chain: seq<LanguageId>, bundleMap: map<LanguageId, Bundle>, id: MessageId,
                           args: Option<Args>, format: Formatter)
    requires forall i :: 0 <= i < |chain| ==> chain[i] !in bundleMap
    ensures FirstSuccess(chain, bundleMap, id, args, format) == Err(LocalizationError)
  {
  }

  /** The fallback scenario: with `en-US`, then `en-GB`, then `de`, a
      message that neither English locale has (no file, or no such message
      in it) comes out as the German text, the same text the chain of `de`
      alone gives. */
  lemma FallbackScenario(enUS: LanguageId, enGB: LanguageId, de: LanguageId, bundleMap: map<LanguageId, Bundle>,
                         id: MessageId, format: Formatter)
    requires enUS !in bundleMap || id !in bundleMap[enUS].messages
    requires enGB !in bundleMap || id !in bundleMap[enGB].messages
    requires Formats(bundleMap, de, id, None, format)
    ensures FirstSuccess([enUS, enGB, de], bundleMap, id, None, format) == Ok(FormattedText(bundleMap, de, id, None, format))
    ensures FirstSuccess([enUS, enGB, de], bundleMap, id, None, format) == FirstSuccess([de], bundleMap, id, None, format)
  {
    FirstSuccessSkipsPrefix([enUS, enGB], [de], bundleMap, id, None, format);
    assert [enUS, enGB] + [de] == [enUS, enGB, de];
  }

  /** U+2068 FIRST STRONG ISOLATE and U+2069 POP DIRECTIONAL ISOLATE, the
      marks the formatter puts around inserted arguments (section 2.4 of
      Unicode Standard Annex #9). */
  predicate IsIsolate(c: char)
  {
    c == '\U{2068}' || c == '\U{2069}'
  }

  /** `replace(['\u{2068}', '\u{2069}'], "")`: the text without isolates. */
  function StripIsolates(s: string): (r: string)
    ensures forall i :: 0 <= i < |r| ==> !IsIsolate(r[i])
    ensures forall c :: !IsIsolate(c) ==> multiset(r)[c] == multiset(s)[c]
    ensures forall c :: IsIsolate(c) ==> multiset(r)[c] == 0
    decreases |s|
  {
    if s == [] then []
    else
      var rest := StripIsolates(s[1..]);
      assert s == [s[0]] + s[1..];
      assert multiset(s) == multiset([s[0]]) + multiset(s[1..]);
      if IsIsolate(s[0]) then rest
      else
        assert multiset([s[0]] + rest) == multiset([s[0]]) + multiset(rest);
        [s[0]] + rest
  }

  /** Text without isolates is kept as it is. */
  lemma {:induction false} StripIsolatesOfClean(s: string)
    requires forall i :: 0 <= i < |s| ==> !IsIsolate(s[i])
    ensures StripIsolates(s) == s
    decreases |s|
  {
    if s != [] {
      StripIsolatesOfClean(s[1..]);
    }
  }

  /** Stripping works character by character: it distributes over
      concatenation, so the characters kept stay in their order. */
  lemma {:induction false} StripIsolatesDistributes(s: string, t: string)
    ensures StripIsolates(s + t) == StripIsolates(s) + StripIsolates(t)
    decreases |s|
  {
    if s == [] {
      assert s + t == t;
    } else {
      assert (s + t)[0] == s[0];
      assert (s + t)[1..] == s[1..] + t;
      StripIsolatesDistributes(s[1..], t);
    }
  }

  /** Stripping twice is stripping once. */
  lemma StripIsolatesIdempotent(s: string)
    ensures StripIsolates(StripIsolates(s)) == StripIsolates(s)
  {
    StripIsolatesOfClean(StripIsolates(s));
  }

  /** An argument inserted between isolates comes out bare. */
  lemma StripIsolatesUnwrapsArgument(before: string, argument: string, after: string)
    requires forall i :: 0 <= i < |before| ==> !IsIsolate(before[i])
    requires forall i :: 0 <= i < |argument| ==> !IsIsolate(argument[i])
    requires forall i :: 0 <= i < |after| ==> !IsIsolate(after[i])
    ensures StripIsolates(before + ['\U{2068}'] + argument + ['\U{2069}'] + after) == before + argument + after
  {
    var open, close := ['\U{2068}'], ['\U{2069}'];
    assert StripIsolates(open) == [] by { assert open[1..] == []; }
    assert StripIsolates(close) == [] by { assert close[1..] == []; }
    StripIsolatesOfClean(before);
    StripIsolatesOfClean(argument);
    StripIsolatesOfClean(after);
    var a := before + open;
    StripIsolatesDistributes(before, open);
    assert StripIsolates(a) == before;
    var b := a + argument;
    StripIsolatesDistributes(a, argument);
    assert StripIsolates(b) == before + argument;
    var c := b + close;
    StripIsolatesDistributes(b, close);
    assert StripIsolates(c) == before + argument;
    StripIsolatesDistributes(c, after);
  }
}
