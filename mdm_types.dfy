/**
 * The values the EID candidate finder reads and produces: canonical external
 * identifiers, persistent ids, match outcomes, the strategy tag and the
 * matched candidate that pairs an id with an outcome.
 */
module MdmTypes {
  import opened Wrappers

  /** A Java `long`: the width of the persistent id a golden resource carries. */
  newtype Long = x: int | -0x8000_0000_0000_0000 <= x < 0x8000_0000_0000_0000

  /** A canonical external identifier: the identifier system and its value. */
  datatype EID = EID(system: string, value: string)

  /**
   * A `ResourcePersistentId` wrapping a `Long` that may be null; `None`
   * stands for the null a golden resource without a stored pid yields.
   */
  datatype ResourcePersistentId = ResourcePersistentId(id: Option<Long>)

  /** The match outcomes an MDM candidate finder may attach to a candidate. */
  datatype MatchOutcome = EidMatch | PossibleMatch | PossibleDuplicate | NewGoldenResourceMatch

  /** The tags by which the candidate finders identify themselves. */
  datatype CandidateStrategy = Link | Eid | Score

  /** One golden-resource candidate: its persistent id and how it matched. */
  datatype MatchedGoldenResourceCandidate =
    MatchedGoldenResourceCandidate(candidateGoldenResourcePid: ResourcePersistentId, matchResult: MatchOutcome)
}
