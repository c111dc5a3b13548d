# EID candidate finder of the HAPI FHIR MDM matcher

This project models, in Dafny, the external-identifier (EID) candidate finder
of HAPI FHIR's Master Data Management (MDM) module, `FindCandidateByEidSvc`.
Given a base resource (a Patient, say), the finder takes the resource's
canonical EIDs in order. For each EID it searches for the golden resource
tagged with that EID's value and the base resource's type. Every golden
resource found becomes a `MatchedGoldenResourceCandidate` holding the golden
resource's persistent id (which may be null) and the outcome `EID_MATCH`. The
candidates are appended to a list, in EID order, and the list is returned. The
finder reports `EID` as its strategy.

Files:

- `wrappers.dfy`: `Option`, standing for Java's `Optional` and for nullable values.
- `mdm_types.dfy`: `EID`, `ResourcePersistentId` (an optional 64-bit `Long`),
  `MatchOutcome`, `CandidateStrategy` and `MatchedGoldenResourceCandidate`.
- `find_candidate_by_eid.dfy`: the collaborators the service is wired with, as
  functions (`Services`). It holds the specification `Candidates`, the loop
  `FindMatchGoldenResourceCandidates` proved to compute it, and `GetStrategy`.
  The method also returns a ghost log of the searches it issues, which the
  contract ties to `LookupKeys`. Each search goes through
  `SearchGoldenResourceByEid`, which returns the search result and the log
  entry together.
- `find_candidate_by_eid_properties.dfy`: lemmas about `Candidates`.

Two behaviours of the source deserve stating outright, and the model keeps
both:

- A found golden resource whose pid is null is still emitted: the null pid is
  wrapped in a `ResourcePersistentId` and the candidate is added
  (FindCandidateByEidSvc.java:57-58). See `UnpersistedGoldenEmitted`.
- Nothing is deduplicated: EIDs that find the same golden resource each add a
  candidate of their own (FindCandidateByEidSvc.java:53-61). See
  `NoDeduplication`.

## Model

| member | source | states |
|---|---|---|
| FindCandidateByEid.FindMatchGoldenResourceCandidates | hapi-fhir-jpaserver-mdm/src/main/java/ca/uhn/fhir/jpa/mdm/svc/candidate/FindCandidateByEidSvc.java:48-65 | the list built by appending inside the EID loop equals `Candidates` of the base resource's EIDs and type. The searches issued are exactly `LookupKeys`: one per EID, in order. A resource with no EIDs gets an empty list and no search at all |
| FindCandidateByEid.Candidates | hapi-fhir-jpaserver-mdm/src/main/java/ca/uhn/fhir/jpa/mdm/svc/candidate/FindCandidateByEidSvc.java:53-61 | never more candidates than EIDs, and every candidate carries the outcome `EID_MATCH` |
| FindCandidateByEid.CandidatesForEid | hapi-fhir-jpaserver-mdm/src/main/java/ca/uhn/fhir/jpa/mdm/svc/candidate/FindCandidateByEidSvc.java:54-61 | one EID adds at most one candidate, and adds one exactly when the search for its value finds a golden resource |
| FindCandidateByEid.LookupKeys | hapi-fhir-jpaserver-mdm/src/main/java/ca/uhn/fhir/jpa/mdm/svc/candidate/FindCandidateByEidSvc.java:53-54 | the i-th search is keyed by the i-th EID's value and the base resource's type, and there is one search per EID |
| FindCandidateByEid.GetStrategy | hapi-fhir-jpaserver-mdm/src/main/java/ca/uhn/fhir/jpa/mdm/svc/candidate/FindCandidateByEidSvc.java:67-70 | the strategy tag is always `EID` |
| FindCandidateByEidProperties.CandidateOrigins | hapi-fhir-jpaserver-mdm/src/main/java/ca/uhn/fhir/jpa/mdm/svc/candidate/FindCandidateByEidSvc.java:53-61 | the result is exactly a filter-map of the EIDs. Each candidate comes from an EID whose search succeeded. The source EIDs are strictly increasing, so EID order is kept. Every EID that resolves is a source, so nothing is dropped. Each candidate is `EID_MATCH` with its golden resource's pid, null included |
| FindCandidateByEidProperties.CandidateCountFull | hapi-fhir-jpaserver-mdm/src/main/java/ca/uhn/fhir/jpa/mdm/svc/candidate/FindCandidateByEidSvc.java:53-61 | there are at most as many candidates as EIDs. There are exactly as many if and only if every EID's search finds a golden resource |
| FindCandidateByEidProperties.CandidatesAppend | hapi-fhir-jpaserver-mdm/src/main/java/ca/uhn/fhir/jpa/mdm/svc/candidate/FindCandidateByEidSvc.java:53-60 | the list is only appended to: the candidates of `a + b` are those of `a` followed by those of `b` |
| FindCandidateByEidProperties.UnresolvedEidSkipped | hapi-fhir-jpaserver-mdm/src/main/java/ca/uhn/fhir/jpa/mdm/svc/candidate/FindCandidateByEidSvc.java:55-62 | an EID whose search finds nothing contributes nothing. The EIDs after it are still processed: the result is the same as if that EID were absent |
| FindCandidateByEidProperties.NoDeduplication | hapi-fhir-jpaserver-mdm/src/main/java/ca/uhn/fhir/jpa/mdm/svc/candidate/FindCandidateByEidSvc.java:53-61 | two EIDs at positions i < j whose searches find the same golden resource give two equal candidates. The first sits right after the candidates of the EIDs before position i, the second right after those of the EIDs before position j, and the first comes before the second |
| FindCandidateByEidProperties.CandidateOfEid | hapi-fhir-jpaserver-mdm/src/main/java/ca/uhn/fhir/jpa/mdm/svc/candidate/FindCandidateByEidSvc.java:53-60 | the candidate of a resolving EID is appended right after the candidates of the EIDs before it, and it is the candidate for that EID's golden resource |
| FindCandidateByEidProperties.CandidatesOfLongerPrefix | hapi-fhir-jpaserver-mdm/src/main/java/ca/uhn/fhir/jpa/mdm/svc/candidate/FindCandidateByEidSvc.java:53-60 | the list only grows as the loop advances: a longer prefix of the EIDs never has fewer candidates |
| FindCandidateByEidProperties.UnpersistedGoldenEmitted | hapi-fhir-jpaserver-mdm/src/main/java/ca/uhn/fhir/jpa/mdm/svc/candidate/FindCandidateByEidSvc.java:56-58 | a found golden resource whose pid is null is still emitted, as `ResourcePersistentId(null)` with `EID_MATCH` |
| FindCandidateByEidProperties.SystemIgnored | hapi-fhir-jpaserver-mdm/src/main/java/ca/uhn/fhir/jpa/mdm/svc/candidate/FindCandidateByEidSvc.java:54 | the search key ignores the EID's system: EIDs that agree on their values give the same searches and the same candidates |

## Left out

- Collaborator internals: the EID helper's `getExternalEid`, the MDM resource DAO service's `searchGoldenResourceByEID` and the id helper's `getPidOrNull` are not part of this model. Neither is the base resource's `getIdElement().getResourceType()`. All four are function parameters bundled in `Services`. Nothing is assumed about what they compute beyond what is stated next.
- Services: the collaborators are Dafny functions, so they give the same answer to the same arguments for the whole call. The same EID value and resource type always find the same golden resource, and the same golden resource always yields the same pid. The source issues a fresh database search on every iteration (line 54). A concurrent write to the golden-resource store between iterations could change the answer. Such concurrent writes are not modelled. `SystemIgnored`'s equal candidate lists rest on this assumption.
- Exceptions raised by those collaborators, such as database failures, are not modelled: the functions are total. In the source such an exception propagates out of the finder and no list is returned.
- The troubleshooting debug log line (line 59) only observes the result, so it is not modelled.
- Spring wiring: the `@Service` annotation and the autowired fields (lines 38, 43-46) are dependency injection, not logic.
- `BaseCandidateFinder` is not part of this model. It declares the abstract methods the finder overrides and supplies the id helper service. Any cross-strategy aggregation, tier ranking or merging of candidates is also not part of this model.
- `MdmMatchOutcome` and `CandidateStrategyEnum` are modelled as plain enumerations. Only the constants the finder uses matter here. The outcome's score and vector fields are not part of this model.
- `JpaPersistedResourceValidationSupportTest` tests a validation-support class that is not part of this model, so none of its three assertions is modelled.
