/** Where the handles of a localization resource come from: the catalog
    files of its folder, requested from the asset server. */
module CatalogFiles {
  import opened LanguageIds
  import opened LocalizationUtils
  import opened Handles
  import opened Catalog
  import opened Localizations

  /** The asset server gives distinct handles for distinct paths. */
  ghost predicate InjectiveLoad(load: AssetLoad)
  {
    forall p, q :: load(p) == load(q) ==> p == q
  }

  /** Every held handle is the one the asset server gives for the catalog
      file of its well-formed locale. */
  predicate FromCatalogFiles(folder: string, load: AssetLoad, handleMap: map<LanguageId, Handle>)
  {
    forall l :: l in handleMap ==> WellFormed(l) && handleMap[l] == load(FtlPath(folder, l))
  }

  /** Handles that came from the catalog files of an injective asset server
      make every later request for a well-formed chain fresh. */
  lemma FreshFromInjectiveLoad(folder: string, load: AssetLoad, handleMap: map<LanguageId, Handle>,
                               chain: seq<LanguageId>)
    requires InjectiveLoad(load) && FromCatalogFiles(folder, load, handleMap)
    requires forall l :: l in chain ==> WellFormed(l)
    ensures FreshRequests(handleMap, chain, FtlRequest(folder, load))
  {
    var request := FtlRequest(folder, load);
    forall l | l in chain && l !in handleMap
      ensures request(l) !in handleMap.Values
    {
      if request(l) in handleMap.Values {
        var m :| m in handleMap && handleMap[m] == request(l);
        FtlPathInjective(folder, l, m);
      }
    }
    forall a, b | a in chain && b in chain && a !in handleMap && b !in handleMap && a != b
      ensures request(a) != request(b)
    {
      if request(a) == request(b) {
        FtlPathInjective(folder, a, b);
      }
    }
  }

  /** Reconciling with a well-formed chain keeps every handle tied to the
      catalog file of its locale. */
  lemma ReconcileKeepsCatalogFiles(folder: string, load: AssetLoad, s: Store, chain: seq<LanguageId>)
    requires FromCatalogFiles(folder, load, s.handleMap)
    requires forall l :: l in chain ==> WellFormed(l)
    ensures FromCatalogFiles(folder, load, Reconcile(s, chain, FtlRequest(folder, load)).handleMap)
  {
    var r := Reconcile(s, chain, FtlRequest(folder, load));
    forall l | l in r.handleMap
      ensures WellFormed(l) && r.handleMap[l] == load(FtlPath(folder, l))
    {
      assert l in chain;
    }
  }
}
