/** The localized asset reader: an asset path `dir/stem.ext` is looked up
    as `dir/stem/<locale>.ext` for each locale of the chain in turn
    (src/asset/reader.rs). */
module AssetReading {
  import opened Wrappers
  import opened LanguageIds

  /** A relative path as its sequence of normal components. */
  datatype Path = Path(components: seq<string>)

  /** `Path::parent`: `None` for the empty path. */
  function Parent(p: Path): (r: Option<Path>)
    ensures r.Some? <==> FileName(p).Some?
    ensures r.Some? ==> r.value.components + [FileName(p).value] == p.components
  {
    if p.components == [] then None else Some(Path(p.components[..|p.components| - 1]))
  }

  /** `Path::file_name`: the last component. */
  function FileName(p: Path): (r: Option<string>)
    ensures r.Some? <==> p.components != []
    ensures r.Some? ==> p.components == p.components[..|p.components| - 1] + [r.value]
  {
    if p.components == [] then None else Some(p.components[|p.components| - 1])
  }

  /** The position of the last `.` of `name`, if any. */
  function LastDot(name: string): (r: Option<nat>)
    ensures r.Some? ==> r.value < |name| && name[r.value] == '.'
    ensures r.Some? ==> forall k :: r.value < k < |name| ==> name[k] != '.'
    ensures r.None? ==> forall k :: 0 <= k < |name| ==> name[k] != '.'
    decreases |name|
  {
    if name == [] then None
    else if name[|name| - 1] == '.' then Some(|name| - 1)
    else LastDot(name[..|name| - 1])
  }

  /** A file name split at its last dot: the part before and the part
      after; a leading dot (or `..`) does not start an extension. */
  datatype Split = Split(before: Option<string>, after: Option<string>)

  function SplitAtDot(name: string): (r: Split)
    ensures name == ".." ==> r == Split(Some(name), None)
    ensures r.before.Some? || r.after.Some?
    ensures r.before.None? ==> r.after == Some(name) && forall k :: 0 <= k < |name| ==> name[k] != '.'
    ensures r.after.None? ==> r.before == Some(name)
    ensures r.after.None? && name != ".." ==> |name| > 0 && name[0] == '.' && forall k :: 0 < k < |name| ==> name[k] != '.'
    ensures r.before.Some? && r.after.Some? ==>
      && r.before.value != []
      && name == r.before.value + "." + r.after.value
      && forall k :: 0 <= k < |r.after.value| ==> r.after.value[k] != '.'
  {
    if name == ".." then Split(Some(name), None)
    else
      match LastDot(name)
      case None => Split(None, Some(name))
      case Some(i) => if i == 0 then Split(Some(name), None) else Split(Some(name[..i]), Some(name[i + 1..]))
  }

  /** `Path::file_stem`: the file name without its extension. */
  function FileStem(p: Path): (r: Option<string>)
    ensures r.Some? <==> FileName(p).Some?
    ensures r.Some? ==> r.value <= FileName(p).value
    ensures r.Some? && (FileName(p).value == ".." || forall k :: 0 < k < |FileName(p).value| ==> FileName(p).value[k] != '.') ==>
      r.value == FileName(p).value
  {
    match FileName(p)
    case None => None
    case Some(name) =>
      var split := SplitAtDot(name);
      if split.before.Some? then split.before else split.after
  }

  /** `Path::extension`: the part of the file name after its last dot. */
  function Extension(p: Path): (r: Option<string>)
    ensures r.Some? ==> FileName(p).Some? && FileStem(p).Some?
    ensures r.Some? ==> forall k :: 0 <= k < |r.value| ==> r.value[k] != '.'
    ensures FileName(p).Some? ==>
      (r.Some? <==> FileName(p).value != ".." && exists k :: 0 < k < |FileName(p).value| && FileName(p).value[k] == '.')
  {
    match FileName(p)
    case None => None
    case Some(name) =>
      var split := SplitAtDot(name);
      if split.before.Some? then split.after else None
  }

  /** A file name with an extension is its stem, a dot and the extension. */
  lemma FileNameSplitsAtExtension(p: Path)
    requires Extension(p).Some?
    ensures FileName(p).value == FileStem(p).value + "." + Extension(p).value
  {
    assert SplitAtDot(FileName(p).value).before.Some?;
  }

  /** A path `localized_path` can rewrite: it has a parent and an
      extension. */
  predicate Localizable(p: Path)
  {
    Parent(p).Some? && Extension(p).Some?
  }

  /** `localized_path(locale, dir/stem.ext)` = `dir/stem/<locale>.ext`;
      a path without parent or extension panics on `unwrap`. */
  function LocalizedPath(locale: LanguageId, path: Path): (r: Outcome<Path>)
    ensures r.Panicked? <==> !Localizable(path)
    ensures r.Panicked? ==> r.message == UnwrapOnNone
    ensures r.Returned? ==>
      r.value.components == Parent(path).value.components
                            + [FileStem(path).value, locale.tag + "." + Extension(path).value]
  {
    match Parent(path)
    case None => Panicked(UnwrapOnNone)
    case Some(base) =>
      match Extension(path)
      case None => Panicked(UnwrapOnNone)
      case Some(extension) =>
        var stem := FileStem(path).value;
        Returned(Path(base.components + [stem, locale.tag + "." + extension]))
  }

  /** A rewritten path splits back into its parts: its stem is the locale,
      its extension the original one, and its parent is the original path
      without the extension. */
  lemma LocalizedPathRoundTrip(locale: LanguageId, path: Path)
    requires WellFormed(locale) && Localizable(path)
    ensures var r := LocalizedPath(locale, path).value;
      && FileStem(r) == Some(locale.tag)
      && Extension(r) == Extension(path)
      && FileName(Parent(r).value) == FileStem(path)
      && Parent(Parent(r).value) == Parent(path)
  {
    var r := LocalizedPath(locale, path).value;
    var extension := Extension(path).value;
    var name := locale.tag + "." + extension;
    var n := |locale.tag|;
    assert name[n] == '.';
    assert forall k :: n < k < |name| ==> name[k] == extension[k - n - 1];
    var dot := LastDot(name);
    assert dot == Some(n);
    assert name[..n] == locale.tag && name[n + 1..] == extension;
    assert name != ".." by { assert name[0] == locale.tag[0] && IsTagChar(locale.tag[0]); }
    assert FileName(r) == Some(name);
    assert Parent(r).value.components == Parent(path).value.components + [FileStem(path).value];
  }

  /** `localized_path_chain`: the rewritten path for every chain locale, in
      chain order; panics when the chain is non-empty and the path cannot be
      rewritten. */
  function LocalizedPathChain(chain: seq<LanguageId>, path: Path): (r: Outcome<seq<Path>>)
    ensures r.Panicked? <==> chain != [] && !Localizable(path)
    ensures r.Returned? ==> |r.value| == |chain|
    ensures r.Returned? ==> forall i :: 0 <= i < |chain| ==> LocalizedPath(chain[i], path) == Returned(r.value[i])
    decreases |chain|
  {
    if chain == [] then Returned([])
    else
      match LocalizedPath(chain[0], path)
      case Panicked(m) => Panicked(m)
      case Returned(first) =>
        match LocalizedPathChain(chain[1..], path)
        case Panicked(m) => Panicked(m)
        case Returned(rest) => Returned([first] + rest)
  }

  /** What the file reader gives for a path: an opened file, `NotFound`,
      or another error. */
  datatype ReadResult = Opened(contents: seq<bv8>) | NotFound(path: Path) | Failed(error: string)

  /** The file reader, not modelled: a result per path, for the file and for
      its meta file. */
  datatype FileReader = FileReader(read: Path -> ReadResult, readMeta: Path -> ReadResult)

  /** The result for the first path that is not `NotFound`; `NotFound` of
      the original path when every one is. */
  function FirstFound(paths: seq<Path>, probe: Path -> ReadResult, original: Path): ReadResult
    decreases |paths|
  {
    if paths == [] then NotFound(original)
    else if probe(paths[0]).NotFound? then FirstFound(paths[1..], probe, original)
    else probe(paths[0])
  }

  /** The selection rule: the result is `NotFound` exactly when every path
      was; otherwise it is the result for the first path that was not,
      errors included. */
  lemma {:induction false} FirstFoundSelects(paths: seq<Path>, probe: Path -> ReadResult, original: Path)
    ensures FirstFound(paths, probe, original).NotFound? <==> forall i :: 0 <= i < |paths| ==> probe(paths[i]).NotFound?
    ensures (forall i :: 0 <= i < |paths| ==> probe(paths[i]).NotFound?) ==>
      FirstFound(paths, probe, original) == NotFound(original)
    ensures forall i :: 0 <= i < |paths| && !probe(paths[i]).NotFound?
                        && (forall j :: 0 <= j < i ==> probe(paths[j]).NotFound?) ==>
      FirstFound(paths, probe, original) == probe(paths[i])
    decreases |paths|
  {
    if paths != [] {
      var tail := paths[1..];
      FirstFoundSelects(tail, probe, original);
      assert forall i :: 0 < i < |paths| ==> paths[i] == tail[i - 1];
      if probe(paths[0]).NotFound? {
        forall i | 0 <= i < |paths| && !probe(paths[i]).NotFound?
                   && (forall j :: 0 <= j < i ==> probe(paths[j]).NotFound?)
          ensures FirstFound(paths, probe, original) == probe(paths[i])
        {
          assert forall j :: 0 <= j < i - 1 ==> probe(tail[j]).NotFound? by {
            forall j | 0 <= j < i - 1 ensures probe(tail[j]).NotFound? {
              assert tail[j] == paths[j + 1];
            }
          }
        }
      }
    }
  }

  /** The first non-`NotFound` result along the chain paths, as the `read`
      and `read_meta` loops find it. */
  method FirstAvailable(paths: seq<Path>, probe: Path -> ReadResult, original: Path) returns (r: ReadResult)
    ensures r == FirstFound(paths, probe, original)
  {
    for i := 0 to |paths|
      invariant FirstFound(paths, probe, original) == FirstFound(paths[i..], probe, original)
    {
      assert paths[i..][0] == paths[i] && paths[i..][1..] == paths[i + 1..];
      var result := probe(paths[i]);
      if !result.NotFound? {
        return result;
      }
    }
    assert paths[|paths|..] == [];
    return NotFound(original);
  }

  /** What `read` (or `read_meta`, with the meta probe) returns for `path`
      along `chain`. */
  function ReadAlongChain(chain: seq<LanguageId>, path: Path, probe: Path -> ReadResult): Outcome<ReadResult>
  {
    match LocalizedPathChain(chain, path)
    case Panicked(m) => Panicked(m)
    case Returned(paths) => Returned(FirstFound(paths, probe, path))
  }

  /** The empty chain finds nothing: `read` reports the original path. */
  lemma EmptyChainNotFound(path: Path, probe: Path -> ReadResult)
    ensures ReadAlongChain([], path, probe) == Returned(NotFound(path))
  {
  }

  /** Along a chain, `read` is the result for the first locale whose file is
      not `NotFound`. */
  lemma ReadPicksFirstLocale(chain: seq<LanguageId>, path: Path, probe: Path -> ReadResult, i: nat)
    requires Localizable(path) && i < |chain|
    requires !probe(LocalizedPath(chain[i], path).value).NotFound?
    requires forall j :: 0 <= j < i ==> probe(LocalizedPath(chain[j], path).value).NotFound?
    ensures ReadAlongChain(chain, path, probe) == Returned(probe(LocalizedPath(chain[i], path).value))
  {
    var paths := LocalizedPathChain(chain, path).value;
    FirstFoundSelects(paths, probe, path);
  }

  /** The reader of localized assets over a file reader. */
  datatype LocalizedAssetReader = LocalizedAssetReader(internalReader: FileReader, localeChain: seq<LanguageId>)
  {
    /** `read`: the first localized file that exists, along the chain. */
    method Read(path: Path) returns (r: Outcome<ReadResult>)
      ensures r == ReadAlongChain(localeChain, path, internalReader.read)
    {
      var paths := LocalizedPathChain(localeChain, path);
      if paths.Panicked? {
        return Panicked(paths.message);
      }
      var found := FirstAvailable(paths.value, internalReader.read, path);
      r := Returned(found);
    }

    /** `read_meta`: the same rule over the meta files. */
    method ReadMeta(path: Path) returns (r: Outcome<ReadResult>)
      ensures r == ReadAlongChain(localeChain, path, internalReader.readMeta)
    {
      var paths := LocalizedPathChain(localeChain, path);
      if paths.Panicked? {
        return Panicked(paths.message);
      }
      var found := FirstAvailable(paths.value, internalReader.readMeta, path);
      r := Returned(found);
    }
  }
}
