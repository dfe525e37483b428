/** The `LocalizedAsset` component: per-locale handles to an asset of any
    kind, kept in step with the resolution chain
    (src/localization/asset.rs). */
module LocalizedAssets {
  import opened LanguageIds
  import opened Handles
  import opened ResolutionChains

  class LocalizedAsset {
    const folderPath: string
    const extension: string
    var handleMap: map<LanguageId, Handle>

    /** `LocalizedAsset::new`: the folder and extension, no handle yet. */
    constructor (folderPath: string, extension: string)
      ensures this.folderPath == folderPath && this.extension == extension
      ensures handleMap == map[]
    {
      this.folderPath := folderPath;
      this.extension := extension;
      handleMap := map[];
    }

    /** `get_asset_path`: `<folder>/<locale>.<extension>`. */
    function AssetPath(l: LanguageId): (p: string)
      ensures |p| == |folderPath| + |l.tag| + |extension| + 2
      ensures p[..|folderPath|] == folderPath && p[|folderPath|] == '/'
      ensures p[|folderPath| + 1..|folderPath| + 1 + |l.tag|] == l.tag
      ensures p[|folderPath| + 1 + |l.tag|] == '.'
      ensures p[|p| - |extension|..] == extension
    {
      folderPath + "/" + l.tag + "." + extension
    }

    /** The handle the asset server gives for the file of `l`. */
    function Request(load: AssetLoad): LanguageId -> Handle
    {
      l => load(AssetPath(l))
    }

    /** One component's share of `update_asset_on_locale_changes`: drop the
        handles of locales not in the chain, then request the file of every
        chain locale without a handle. */
    method Retarget(chain: seq<LanguageId>, load: AssetLoad)
      modifies this
      ensures handleMap == RetargetHandles(old(handleMap), chain, Request(load))
    {
      DropOutside(chain);
      ghost var kept := handleMap;
      RequestMissing(chain, load);
      RetargetInTwoSteps(old(handleMap), chain, Request(load), kept, handleMap);
    }

    /** The unloading loop: every locale outside the chain loses its handle. */
    method DropOutside(chain: seq<LanguageId>)
      modifies this
      ensures handleMap == old(handleMap) - (old(handleMap).Keys - ChainSet(chain))
    {
      var loaded := handleMap.Keys;
      while loaded != {}
        invariant loaded <= old(handleMap).Keys
        invariant handleMap == old(handleMap) - ((old(handleMap).Keys - loaded) - ChainSet(chain))
        decreases loaded
      {
        var l :| l in loaded;
        if l !in chain {
          handleMap := handleMap - {l};
        }
        loaded := loaded - {l};
      }
    }

    /** The loading loop: every chain locale without a handle gets the
        handle of its asset path; existing handles are not re-requested. */
    method RequestMissing(chain: seq<LanguageId>, load: AssetLoad)
      modifies this
      ensures handleMap.Keys == old(handleMap).Keys + ChainSet(chain)
      ensures forall l :: l in old(handleMap) ==> handleMap[l] == old(handleMap)[l]
      ensures forall l :: l in handleMap && l !in old(handleMap) ==> handleMap[l] == Request(load)(l)
    {
      for i := 0 to |chain|
        invariant handleMap.Keys == old(handleMap).Keys + ChainSet(chain[..i])
        invariant forall l :: l in old(handleMap) ==> handleMap[l] == old(handleMap)[l]
        invariant forall l :: l in handleMap && l !in old(handleMap) ==> handleMap[l] == Request(load)(l)
      {
        assert chain[..i + 1] == chain[..i] + [chain[i]];
        var l := chain[i];
        if l in handleMap {
          continue;
        }
        handleMap := handleMap[l := load(AssetPath(l))];
      }
      assert chain[..|chain|] == chain;
    }
  }

  /** Distinct locales have distinct asset paths, so a component never
      requests one file for two locales. */
  lemma AssetPathInjective(asset: LocalizedAsset, a: LanguageId, b: LanguageId)
    requires asset.AssetPath(a) == asset.AssetPath(b)
    ensures a == b
  {
    var n := |asset.folderPath| + 1;
    assert a.tag == asset.AssetPath(a)[n..n + |a.tag|];
  }

  /** `update_asset_on_locale_changes`: nothing happens unless the
      resolution chain changed; then every component holds exactly one
      handle per chain locale, keeping the handles it already had. */
  method UpdateAssetOnLocaleChanges(query: seq<LocalizedAsset>, resolutionChain: LocaleResolutionChain,
                                    chainChanged: bool, load: AssetLoad)
    requires forall i, j :: 0 <= i < j < |query| ==> query[i] != query[j]
    modifies set i | 0 <= i < |query| :: query[i]
    ensures !chainChanged ==> forall i :: 0 <= i < |query| ==> query[i].handleMap == old(query[i].handleMap)
    ensures chainChanged ==> forall i :: 0 <= i < |query| ==>
      query[i].handleMap == RetargetHandles(old(query[i].handleMap), resolutionChain.chain, query[i].Request(load))
  {
    if !chainChanged {
      return;
    }
    var chain := resolutionChain.chain;
    for k := 0 to |query|
      invariant resolutionChain.chain == chain
      invariant forall i :: 0 <= i < k ==>
        query[i].handleMap == RetargetHandles(old(query[i].handleMap), chain, query[i].Request(load))
      invariant forall i :: k <= i < |query| ==> query[i].handleMap == old(query[i].handleMap)
    {
      query[k].Retarget(chain, load);
    }
  }
}
