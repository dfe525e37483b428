/** Asset handles and the per-locale handle maps that the localization
    resource and the `LocalizedAsset` component keep. */
module Handles {
  import opened LanguageIds

  /** An opaque reference to an asset owned by the asset system. */
  datatype Handle = Handle(id: nat)

  /** `AssetServer::load`: the handle the asset system returns for a path. */
  type AssetLoad = string -> Handle

  /** The set of locales of a chain. */
  function ChainSet(chain: seq<LanguageId>): set<LanguageId>
  {
    set l | l in chain
  }

  /** No two locales hold the same handle, so the locale of a handle is
      unique. */
  predicate HandlesDistinct(handleMap: map<LanguageId, Handle>)
  {
    forall a, b :: a in handleMap && b in handleMap && a != b ==> handleMap[a] != handleMap[b]
  }

  /** The asset system hands out, for the locales of `chain` that have no
      handle yet, handles that are not held already and that differ from
      locale to locale (distinct paths name distinct assets). */
  predicate FreshRequests(handleMap: map<LanguageId, Handle>, chain: seq<LanguageId>, request: LanguageId -> Handle)
  {
    && (forall l :: l in chain && l !in handleMap ==> request(l) !in handleMap.Values)
    && (forall a, b :: a in chain && b in chain && a !in handleMap && b !in handleMap && a != b ==>
          request(a) != request(b))
  }

  /** The handle map once it serves `chain`: locales that stay keep their
      handle, new ones get the handle of a fresh request, the others are
      dropped. */
  function RetargetHandles(handleMap: map<LanguageId, Handle>, chain: seq<LanguageId>, request: LanguageId -> Handle)
    : (r: map<LanguageId, Handle>)
    ensures r.Keys == ChainSet(chain)
    ensures forall l :: l in r && l in handleMap ==> r[l] == handleMap[l]
    ensures forall l :: l in r && l !in handleMap ==> r[l] == request(l)
    ensures HandlesDistinct(handleMap) && FreshRequests(handleMap, chain, request) ==> HandlesDistinct(r)
  {
    map l | l in chain :: if l in handleMap then handleMap[l] else request(l)
  }

  /** Dropping the locales outside the chain and then requesting a handle
      for every chain locale still without one retargets the map. */
  lemma RetargetInTwoSteps(handleMap: map<LanguageId, Handle>, chain: seq<LanguageId>, request: LanguageId -> Handle,
                           kept: map<LanguageId, Handle>, r: map<LanguageId, Handle>)
    requires kept == handleMap - (handleMap.Keys - ChainSet(chain))
    requires r.Keys == kept.Keys + ChainSet(chain)
    requires forall l :: l in kept ==> r[l] == kept[l]
    requires forall l :: l in r && l !in kept ==> r[l] == request(l)
    ensures r == RetargetHandles(handleMap, chain, request)
  {
    var target := RetargetHandles(handleMap, chain, request);
    assert r.Keys == target.Keys;
    forall l | l in r ensures r[l] == target[l] {
      if l in kept {
        assert l in handleMap;
      }
    }
  }

  /** Retargeting twice to the same chain changes nothing the second time. */
  lemma RetargetIdempotent(handleMap: map<LanguageId, Handle>, chain: seq<LanguageId>, request: LanguageId -> Handle)
    ensures RetargetHandles(RetargetHandles(handleMap, chain, request), chain, request) ==
            RetargetHandles(handleMap, chain, request)
  {
  }
}
