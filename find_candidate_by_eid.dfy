/**
 * The MDM candidate finder that matches a base resource against golden
 * resources by external identifier (EID): for every canonical EID of the base
 * resource, in order, look up the golden resource tagged with that EID's value
 * and the base resource's type, and emit each one found as an EID match.
 */
module FindCandidateByEid {
  import opened Wrappers
  import opened MdmTypes

  /**
   * What the service is wired with, as functions: the EID helper, the
   * resource type of a base resource, the golden-resource search of the MDM
   * resource DAO service and the id helper's pid lookup (`None` for null).
   */
  datatype Services<!R, !G> = Services(
    getExternalEid: R -> seq<EID>,
    resourceTypeOf: R -> string,
    searchGoldenResourceByEid: (string, string) -> Option<G>,
    getPidOrNull: G -> Option<Long>)

  /** The arguments of one golden-resource search: an EID value and a resource type. */
  datatype LookupKey = LookupKey(eidValue: string, resourceType: string)

  /** Whether the search for this EID's value finds a golden resource. */
  predicate Resolves<R, G>(svc: Services<R, G>, resourceType: string, eid: EID) {
    svc.searchGoldenResourceByEid(eid.value, resourceType).Some?
  }

  /** The candidate the EID finder builds for a golden resource it found. */
  function CandidateFor<R, G>(svc: Services<R, G>, golden: G): MatchedGoldenResourceCandidate {
    MatchedGoldenResourceCandidate(ResourcePersistentId(svc.getPidOrNull(golden)), EidMatch)
  }

  /** What one EID adds to the result: nothing, or the candidate for its golden resource. */
  function CandidatesForEid<R, G>(svc: Services<R, G>, resourceType: string, eid: EID): (r: seq<MatchedGoldenResourceCandidate>)
    ensures |r| <= 1
    ensures r != [] <==> Resolves(svc, resourceType, eid)
  {
    match svc.searchGoldenResourceByEid(eid.value, resourceType)
    case None => []
    case Some(golden) => [CandidateFor(svc, golden)]
  }

  /**
   * The candidate list for a sequence of EIDs: the contributions of the EIDs
   * in order. Defined on the prefix so that it follows a loop that appends.
   */
  function Candidates<R, G>(svc: Services<R, G>, resourceType: string, eids: seq<EID>): (r: seq<MatchedGoldenResourceCandidate>)
    ensures |r| <= |eids|
    ensures forall k :: 0 <= k < |r| ==> r[k].matchResult == EidMatch
    decreases |eids|
  {
    if eids == [] then []
    else Candidates(svc, resourceType, eids[..|eids| - 1]) + CandidatesForEid(svc, resourceType, eids[|eids| - 1])
  }

  /** The searches issued for a sequence of EIDs, in order. */
  function LookupKeys(eids: seq<EID>, resourceType: string): (keys: seq<LookupKey>)
    ensures |keys| == |eids|
    ensures forall i :: 0 <= i < |eids| ==> keys[i] == LookupKey(eids[i].value, resourceType)
    decreases |eids|
  {
    if eids == [] then []
    else LookupKeys(eids[..|eids| - 1], resourceType) + [LookupKey(eids[|eids| - 1].value, resourceType)]
  }

  /**
   * One golden-resource search, together with its entry in the ghost log of
   * the searches issued so far.
   */
  method SearchGoldenResourceByEid<R, G>(svc: Services<R, G>, eidValue: string, resourceType: string, ghost log: seq<LookupKey>)
    returns (found: Option<G>, ghost log': seq<LookupKey>)
    ensures found == svc.searchGoldenResourceByEid(eidValue, resourceType)
    ensures log' == log + [LookupKey(eidValue, resourceType)]
  {
    found := svc.searchGoldenResourceByEid(eidValue, resourceType);
    log' := log + [LookupKey(eidValue, resourceType)];
  }

  /**
   * The candidates found by EID for a base resource. The ghost `lookups`
   * records the arguments of every golden-resource search, in order.
   */
  method FindMatchGoldenResourceCandidates<R, G>(svc: Services<R, G>, baseResource: R)
    returns (retval: seq<MatchedGoldenResourceCandidate>, ghost lookups: seq<LookupKey>)
    ensures retval == Candidates(svc, svc.resourceTypeOf(baseResource), svc.getExternalEid(baseResource))
    ensures lookups == LookupKeys(svc.getExternalEid(baseResource), svc.resourceTypeOf(baseResource))
    ensures svc.getExternalEid(baseResource) == [] ==> retval == [] && lookups == []
  {
    retval := [];
    lookups := [];
    var eidFromResource := svc.getExternalEid(baseResource);
    ghost var resourceType := svc.resourceTypeOf(baseResource);
    if eidFromResource != [] {
      for i := 0 to |eidFromResource|
        invariant retval == Candidates(svc, resourceType, eidFromResource[..i])
        invariant lookups == LookupKeys(eidFromResource[..i], resourceType)
      {
        var eid := eidFromResource[i];
        assert eidFromResource[..i + 1][..i] == eidFromResource[..i];
        var oFoundGoldenResource;
        oFoundGoldenResource, lookups := SearchGoldenResourceByEid(svc, eid.value, svc.resourceTypeOf(baseResource), lookups);
        if oFoundGoldenResource.Some? {
          var foundGoldenResource := oFoundGoldenResource.value;
          var pidOrNull := svc.getPidOrNull(foundGoldenResource);
          var mpc := MatchedGoldenResourceCandidate(ResourcePersistentId(pidOrNull), EidMatch);
          retval := retval + [mpc];
        }
      }
      assert eidFromResource[..|eidFromResource|] == eidFromResource;
    }
  }

  /** The tag this finder reports as its strategy. */
  function GetStrategy(): (s: CandidateStrategy)
    ensures s == Eid
  {
    Eid
  }
}
