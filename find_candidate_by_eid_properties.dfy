/**
 * What the EID candidate finder promises about its result, proved of the
 * specification `Candidates` that its method is shown to compute.
 */
module FindCandidateByEidProperties {
  import opened Wrappers
  import opened MdmTypes
  import opened FindCandidateByEid

  /** The candidate list is built by concatenation: each EID adds its part after the earlier ones. */
  lemma {:induction false} CandidatesAppend<R, G>(svc: Services<R, G>, t: string, a: seq<EID>, b: seq<EID>)
    ensures Candidates(svc, t, a + b) == Candidates(svc, t, a) + Candidates(svc, t, b)
    decreases |b|
  {
    if b == [] {
      assert a + b == a;
    } else {
      var front := b[..|b| - 1];
      assert (a + b)[..|a + b| - 1] == a + front;
      assert (a + b)[|a + b| - 1] == b[|b| - 1];
      CandidatesAppend(svc, t, a, front);
    }
  }

  /**
   * An EID that finds no golden resource adds nothing, and the EIDs after it
   * are still searched: their candidates follow those of the EIDs before it.
   */
  lemma {:induction false} UnresolvedEidSkipped<R, G>(svc: Services<R, G>, t: string, before: seq<EID>, eid: EID, after: seq<EID>)
    requires !Resolves(svc, t, eid)
    ensures Candidates(svc, t, before + [eid] + after) == Candidates(svc, t, before) + Candidates(svc, t, after)
    ensures Candidates(svc, t, before + [eid] + after) == Candidates(svc, t, before + after)
  {
    var none := Candidates(svc, t, [eid]);
    assert [eid][..0] == [];
    assert none == Candidates(svc, t, []) + CandidatesForEid(svc, t, eid);
    assert none == [];
    CandidatesAppend(svc, t, before, [eid]);
    assert Candidates(svc, t, before + [eid]) == Candidates(svc, t, before);
    CandidatesAppend(svc, t, before + [eid], after);
    CandidatesAppend(svc, t, before, after);
  }

  /**
   * The result is exactly the filter-map of the EIDs: candidate `k` comes from
   * the EID at `origin[k]`, the origins are increasing (EID order is kept),
   * every EID that resolves is an origin (none is dropped, none merged), and
   * each candidate is an EID match carrying exactly the pid, null included,
   * that its golden resource yields.
   */
  lemma {:induction false} CandidateOrigins<R, G>(svc: Services<R, G>, t: string, eids: seq<EID>) returns (origin: seq<nat>)
    ensures |origin| == |Candidates(svc, t, eids)|
    ensures forall k :: 0 <= k < |origin| ==>
              && origin[k] < |eids|
              && Resolves(svc, t, eids[origin[k]])
              && Candidates(svc, t, eids)[k] == CandidateFor(svc, svc.searchGoldenResourceByEid(eids[origin[k]].value, t).value)
    ensures forall k, l :: 0 <= k < l < |origin| ==> origin[k] < origin[l]
    ensures forall j :: 0 <= j < |eids| && Resolves(svc, t, eids[j]) ==> j in origin
    decreases |eids|
  {
    if eids == [] {
      origin := [];
    } else {
      var n := |eids| - 1;
      var front := eids[..n];
      var prev := CandidateOrigins(svc, t, front);
      assert forall j :: 0 <= j < n ==> front[j] == eids[j];
      if Resolves(svc, t, eids[n]) {
        origin := prev + [n];
      } else {
        origin := prev;
      }
    }
  }

  /** At most one candidate per EID, and exactly one each if and only if every EID resolves. */
  lemma {:induction false} CandidateCountFull<R, G>(svc: Services<R, G>, t: string, eids: seq<EID>)
    ensures |Candidates(svc, t, eids)| <= |eids|
    ensures |Candidates(svc, t, eids)| == |eids| <==> forall i :: 0 <= i < |eids| ==> Resolves(svc, t, eids[i])
    decreases |eids|
  {
    if eids != [] {
      var n := |eids| - 1;
      var front := eids[..n];
      CandidateCountFull(svc, t, front);
      assert forall j :: 0 <= j < n ==> front[j] == eids[j];
    }
  }

  /**
   * The candidate of a resolving EID sits right after the candidates of the
   * EIDs before it.
   */
  lemma CandidateOfEid<R, G>(svc: Services<R, G>, t: string, eids: seq<EID>, i: nat, golden: G)
    requires i < |eids|
    requires svc.searchGoldenResourceByEid(eids[i].value, t) == Some(golden)
    ensures |Candidates(svc, t, eids[..i])| < |Candidates(svc, t, eids[..i + 1])| <= |Candidates(svc, t, eids)|
    ensures Candidates(svc, t, eids)[|Candidates(svc, t, eids[..i])|] == CandidateFor(svc, golden)
  {
    assert eids[..i + 1][..i] == eids[..i];
    assert Candidates(svc, t, eids[..i + 1]) == Candidates(svc, t, eids[..i]) + [CandidateFor(svc, golden)];
    assert eids[..i + 1] + eids[i + 1..] == eids;
    CandidatesAppend(svc, t, eids[..i + 1], eids[i + 1..]);
  }

  /** A longer prefix of the EIDs never has fewer candidates. */
  lemma CandidatesOfLongerPrefix<R, G>(svc: Services<R, G>, t: string, eids: seq<EID>, m: nat, n: nat)
    requires m <= n <= |eids|
    ensures |Candidates(svc, t, eids[..m])| <= |Candidates(svc, t, eids[..n])|
  {
    var front, middle := eids[..m], eids[m..n];
    assert front + middle == eids[..n];
    CandidatesAppend(svc, t, front, middle);
  }

  /**
   * No deduplication: two EIDs that find the same golden resource give two
   * equal candidates, each right after the candidates of the EIDs before it,
   * so the earlier EID's candidate comes first.
   */
  lemma NoDeduplication<R, G>(svc: Services<R, G>, t: string, eids: seq<EID>, i: nat, j: nat, golden: G)
    requires i < j < |eids|
    requires svc.searchGoldenResourceByEid(eids[i].value, t) == Some(golden)
    requires svc.searchGoldenResourceByEid(eids[j].value, t) == Some(golden)
    ensures |Candidates(svc, t, eids[..i])| < |Candidates(svc, t, eids[..j])| < |Candidates(svc, t, eids)|
    ensures Candidates(svc, t, eids)[|Candidates(svc, t, eids[..i])|] == CandidateFor(svc, golden)
    ensures Candidates(svc, t, eids)[|Candidates(svc, t, eids[..j])|] == CandidateFor(svc, golden)
  {
    CandidateOfEid(svc, t, eids, i, golden);
    CandidateOfEid(svc, t, eids, j, golden);
    CandidatesOfLongerPrefix(svc, t, eids, i + 1, j);
  }

  /** A golden resource without a stored pid is still emitted, with a null persistent id. */
  lemma UnpersistedGoldenEmitted<R, G>(svc: Services<R, G>, t: string, eids: seq<EID>, j: nat, golden: G)
    requires j < |eids|
    requires svc.searchGoldenResourceByEid(eids[j].value, t) == Some(golden)
    requires svc.getPidOrNull(golden) == None
    ensures MatchedGoldenResourceCandidate(ResourcePersistentId(None), EidMatch) in Candidates(svc, t, eids)
  {
    var origin := CandidateOrigins(svc, t, eids);
    assert Resolves(svc, t, eids[j]);
    var k :| 0 <= k < |origin| && origin[k] == j;
    assert Candidates(svc, t, eids)[k] == MatchedGoldenResourceCandidate(ResourcePersistentId(None), EidMatch);
  }

  /**
   * The search key is the EID's value alone: EIDs that differ only in their
   * systems give the same searches and the same candidates.
   */
  lemma {:induction false} SystemIgnored<R, G>(svc: Services<R, G>, t: string, eids: seq<EID>, others: seq<EID>)
    requires |eids| == |others|
    requires forall i :: 0 <= i < |eids| ==> eids[i].value == others[i].value
    ensures LookupKeys(eids, t) == LookupKeys(others, t)
    ensures Candidates(svc, t, eids) == Candidates(svc, t, others)
    decreases |eids|
  {
    if eids != [] {
      var n := |eids| - 1;
      SystemIgnored(svc, t, eids[..n], others[..n]);
    }
  }
}
