/** Message catalogs ("bundles") as the localization systems see them.
    Parsing FTL text and formatting patterns belong to the Fluent library
    and are parameters here: a `ResourceParser` and a `Formatter`. */
module Bundles {
  import opened Wrappers
  import opened LanguageIds

  type MessageId = string

  /** A message's value pattern, kept as its source text. */
  datatype Pattern = Pattern(source: string)

  /** A message; `value` is `None` for a message that has only attributes. */
  datatype Message = Message(value: Option<Pattern>)

  /** A parsed FTL resource: its messages in file order. */
  datatype Resource = Resource(messages: seq<(MessageId, Message)>)

  /** A compiled catalog for the locales it was created with. */
  datatype Bundle = Bundle(locales: seq<LanguageId>, messages: map<MessageId, Message>)

  /** Named arguments, as (name, textual value) pairs. */
  type Args = seq<(string, string)>

  datatype FormatError = FormatError(description: string)

  /** What `format_pattern` gives: the text and the errors it collected. */
  datatype Formatted = Formatted(text: string, errors: seq<FormatError>)

  /** `FluentBundle::format_pattern`, not modelled. */
  type Formatter = (Bundle, Pattern, Option<Args>) -> Formatted

  /** `FluentResource::try_new`, not modelled: `None` for text with syntax errors. */
  type ResourceParser = string -> Option<Resource>

  const ParseFailure := "Failed to parse an FTL string."
  const AddResourceFailure := "Failed to add resource to bundle"

  /** `FluentBundle::new_concurrent(vec![locale])`: an empty bundle. */
  function NewBundle(locale: LanguageId): (b: Bundle)
    ensures b.locales == [locale] && b.messages == map[]
  {
    Bundle([locale], map[])
  }

  /** The message ids of a resource, as a set. */
  function IdSet(entries: seq<(MessageId, Message)>): set<MessageId>
  {
    set i | 0 <= i < |entries| :: entries[i].0
  }

  lemma IdSetCons(entries: seq<(MessageId, Message)>)
    requires entries != []
    ensures IdSet(entries) == {entries[0].0} + IdSet(entries[1..])
  {
    forall id | id in IdSet(entries) ensures id in {entries[0].0} + IdSet(entries[1..]) {
      var i :| 0 <= i < |entries| && entries[i].0 == id;
      if i > 0 { assert entries[1..][i - 1].0 == id; }
    }
    forall id | id in IdSet(entries[1..]) ensures id in IdSet(entries) {
      var i :| 0 <= i < |entries[1..]| && entries[1..][i].0 == id;
      assert entries[i + 1].0 == id;
    }
  }

  /** `add_resource`: adds the messages in order; a message whose id the
      bundle already holds is an overriding error. The result is `None`
      exactly when an error occurred (the caller panics on it). */
  function AddResource(b: Bundle, entries: seq<(MessageId, Message)>): (r: Option<Bundle>)
    ensures r.Some? <==>
      (forall i :: 0 <= i < |entries| ==> entries[i].0 !in b.messages) &&
      (forall i, j :: 0 <= i < j < |entries| ==> entries[i].0 != entries[j].0)
    ensures r.Some? ==> r.value.locales == b.locales
    ensures r.Some? ==> r.value.messages.Keys == b.messages.Keys + IdSet(entries)
    ensures r.Some? ==> forall i :: 0 <= i < |entries| ==>
      entries[i].0 in r.value.messages && r.value.messages[entries[i].0] == entries[i].1
    ensures r.Some? ==> forall id :: id in b.messages ==> r.value.messages[id] == b.messages[id]
    decreases |entries|
  {
    if entries == [] then Some(b)
    else if entries[0].0 in b.messages then None
    else
      var next := Bundle(b.locales, b.messages[entries[0].0 := entries[0].1]);
      var rest := AddResource(next, entries[1..]);
      assert rest.Some? ==> forall i :: 1 <= i < |entries| ==> entries[i].0 != entries[0].0 by {
        if rest.Some? {
          forall i | 1 <= i < |entries| ensures entries[i].0 != entries[0].0 {
            assert entries[1..][i - 1].0 !in next.messages;
          }
        }
      }
      assert rest.None? ==> !((forall i :: 0 <= i < |entries| ==> entries[i].0 !in b.messages) &&
                              (forall i, j :: 0 <= i < j < |entries| ==> entries[i].0 != entries[j].0)) by {
        if rest.None? && (forall i :: 0 <= i < |entries| ==> entries[i].0 !in b.messages) {
          var tail := entries[1..];
          if forall i :: 0 <= i < |tail| ==> tail[i].0 !in next.messages {
            var i, j :| 0 <= i < j < |tail| && tail[i].0 == tail[j].0;
            assert entries[i + 1].0 == entries[j + 1].0;
          } else {
            var i :| 0 <= i < |tail| && tail[i].0 in next.messages;
            assert entries[i + 1].0 == entries[0].0;
          }
        }
      }
      IdSetCons(entries);
      rest
  }

  /** Builds the bundle of `locale` from FTL text as the asset system does:
      parse (panic on syntax errors), then add the resource to a fresh
      bundle (panic on a repeated message id). */
  function BuildBundle(locale: LanguageId, ftl: string, parse: ResourceParser): (r: Outcome<Bundle>)
    ensures parse(ftl).None? ==> r == Panicked(ParseFailure)
    ensures parse(ftl).Some? ==>
      (r.Returned? <==> AddResource(NewBundle(locale), parse(ftl).value.messages).Some?)
    ensures r.Panicked? ==> r.message in {ParseFailure, AddResourceFailure}
    ensures r.Returned? ==> r.value.locales == [locale]
    ensures r.Returned? ==> parse(ftl).Some? && forall i :: 0 <= i < |parse(ftl).value.messages| ==>
      parse(ftl).value.messages[i].0 in r.value.messages &&
      r.value.messages[parse(ftl).value.messages[i].0] == parse(ftl).value.messages[i].1
  {
    match parse(ftl)
    case None => Panicked(ParseFailure)
    case Some(resource) =>
      match AddResource(NewBundle(locale), resource.messages)
      case None => Panicked(AddResourceFailure)
      case Some(b) => Returned(b)
  }
}
