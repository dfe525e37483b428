/** Locale identifiers and the `IntoLanguageIdentifier` conversions
    (src/locale.rs:230-251, src/locale/into_language_identifier.rs). */
module LanguageIds {
  import opened Wrappers

  /** A validated language identifier, held as its normalized tag
      (`en-US`). Two identifiers are equal exactly when their tags are. */
  datatype LanguageId = LanguageId(tag: string)

  /** The characters a rendered tag is made of: ASCII letters, digits and
      the subtag separator `-`. */
  predicate IsTagChar(c: char)
  {
    ('a' <= c <= 'z') || ('A' <= c <= 'Z') || ('0' <= c <= '9') || c == '-'
  }

  /** What every identifier produced by the parser satisfies: a non-empty
      tag of tag characters only (so no `/` and no `.` in it). */
  predicate WellFormed(l: LanguageId)
  {
    |l.tag| > 0 && forall i :: 0 <= i < |l.tag| ==> IsTagChar(l.tag[i])
  }

  /** Tag parsing of the identifier library, which this model does not
      implement: `None` for a string that is not a valid tag. */
  type TagParser = string -> Option<LanguageId>

  /** What a caller may hand to `Locale::new`, `set`, `insert` and
      `add_fallback`: an identifier already parsed, or a tag string. */
  datatype LocaleInput = Identifier(id: LanguageId) | Text(text: string)

  const InvalidLanguageId := "Invalid language ID"

  /** `into_language_identifier`: identity on identifiers, parse (or panic
      with "Invalid language ID") on strings. */
  function IntoLanguageIdentifier(x: LocaleInput, parse: TagParser): (r: Outcome<LanguageId>)
    ensures x.Identifier? ==> r == Returned(x.id)
    ensures x.Text? ==> (r.Returned? <==> parse(x.text).Some?)
    ensures x.Text? && r.Returned? ==> parse(x.text) == Some(r.value)
    ensures r.Panicked? ==> r.message == InvalidLanguageId
  {
    match x
    case Identifier(id) => Returned(id)
    case Text(text) =>
      match parse(text)
      case Some(id) => Returned(id)
      case None => Panicked(InvalidLanguageId)
  }

  /** `.into_iter().map(|x| x.into_language_identifier()).collect()`:
      converts every element in order; panics at the first invalid one. */
  function IntoLanguageIdentifiers(xs: seq<LocaleInput>, parse: TagParser): (r: Outcome<seq<LanguageId>>)
    ensures r.Returned? <==> forall i :: 0 <= i < |xs| ==> IntoLanguageIdentifier(xs[i], parse).Returned?
    ensures r.Returned? ==> |r.value| == |xs|
    ensures r.Returned? ==> forall i :: 0 <= i < |xs| ==> IntoLanguageIdentifier(xs[i], parse) == Returned(r.value[i])
    ensures r.Panicked? ==> r.message == InvalidLanguageId
    decreases |xs|
  {
    if xs == [] then Returned([])
    else
      match IntoLanguageIdentifier(xs[0], parse)
      case Panicked(m) => Panicked(m)
      case Returned(id) =>
        match IntoLanguageIdentifiers(xs[1..], parse)
        case Panicked(m) => Panicked(m)
        case Returned(ids) => Returned([id] + ids)
  }

  /** `Option::map(|x| x.into_language_identifier())`. */
  function IntoOptionalLanguageIdentifier(x: Option<LocaleInput>, parse: TagParser): (r: Outcome<Option<LanguageId>>)
    ensures x.None? ==> r == Returned(None)
    ensures x.Some? ==> (r.Returned? <==> IntoLanguageIdentifier(x.value, parse).Returned?)
    ensures x.Some? && r.Returned? ==> r.value == Some(IntoLanguageIdentifier(x.value, parse).value)
    ensures r.Panicked? ==> r.message == InvalidLanguageId
  {
    match x
    case None => Returned(None)
    case Some(input) =>
      match IntoLanguageIdentifier(input, parse)
      case Panicked(m) => Panicked(m)
      case Returned(id) => Returned(Some(id))
  }

  /** Converting a list whose elements are all identifiers never panics
      and keeps them in order. */
  lemma {:induction false} IdentifiersConvertUnchanged(ids: seq<LanguageId>, parse: TagParser)
    ensures IntoLanguageIdentifiers(seq(|ids|, i requires 0 <= i < |ids| => Identifier(ids[i])), parse) == Returned(ids)
  {
    var xs := seq(|ids|, i requires 0 <= i < |ids| => Identifier(ids[i]));
    var r := IntoLanguageIdentifiers(xs, parse);
    assert r.Returned?;
    assert r.value == ids;
  }
}
