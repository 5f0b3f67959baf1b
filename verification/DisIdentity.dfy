/** The identity decisions of the discovery service: candidate links between devices are
    rejected, reopened and confirmed, and a confirmation merges the source device into the
    target. */
module DisIdentity {
  import opened Options
  import opened Chains
  import opened Redirects

  datatype Status = Pending | Confirmed | Rejected

  datatype Candidate = Candidate(
    source: string, target: string, probability: real, ambiguous: bool, status: Status, updatedAt: int)

  /** What the person who decides expects to decide on; an empty text expects nothing. */
  datatype Request = Request(expectedSource: string, expectedTarget: string, expectedUpdatedAt: Option<int>)

  datatype Decision = Decided(candidate: Candidate) | NotFound | StaleOrConflicting

  datatype MergeResult = MergedInto(pdid: string) | AlreadyMerged(pdid: string) | NoCandidate | Refused

  predicate ValidDecision(c: Candidate, req: Request) {
    && (req.expectedSource == "" || req.expectedSource == c.source)
    && (req.expectedTarget == "" || req.expectedTarget == c.target)
    && (req.expectedUpdatedAt.None? || req.expectedUpdatedAt.value == c.updatedAt)
  }

  /** Nothing that the request expects is otherwise by now. */
  ghost predicate AsExpected(c: Candidate, req: Request) {
    && (req.expectedSource != "" ==> c.source == req.expectedSource)
    && (req.expectedTarget != "" ==> c.target == req.expectedTarget)
    && (req.expectedUpdatedAt.Some? ==> req.expectedUpdatedAt == Some(c.updatedAt))
  }

  type Candidates = map<nat, Candidate>

  /** The history of merges is that of the confirmed candidates: each merge has one candidate
      behind it, each confirmed candidate has one merge. */
  ghost predicate MergesAreDecisions(candidates: Candidates, merges: seq<Merge>, decided: seq<nat>) {
    && |decided| == |merges|
    && (forall i | 0 <= i < |decided| ::
          && decided[i] in candidates && candidates[decided[i]].status == Confirmed
          && merges[i] == Merge(candidates[decided[i]].source, candidates[decided[i]].target))
    && (forall i, j | 0 <= i < j < |decided| :: decided[i] != decided[j])
    && (forall id | id in candidates && candidates[id].status == Confirmed :: id in decided)
  }

  /** Candidates keep their end points, and confirmed ones their status. */
  ghost predicate DecisionsStand(before: Candidates, after: Candidates) {
    forall id | id in before ::
      && id in after && after[id].source == before[id].source && after[id].target == before[id].target
      && (before[id].status == Confirmed ==> after[id].status == Confirmed)
  }

  /** Devices in the cache or the store have not been merged away. */
  ghost predicate Alive(cached: map<string, bool>, stored: set<string>, merges: seq<Merge>) {
    forall pdid | pdid in cached || pdid in stored :: !WasMergedAway(merges, pdid)
  }

  /** Ids are below the next one, and no two candidates link the same pair. */
  ghost predicate PairsDistinct(candidates: Candidates, nextId: nat) {
    && (forall id | id in candidates :: id < nextId)
    && forall i, j | i in candidates && j in candidates && i != j ::
         candidates[i].source != candidates[j].source || candidates[i].target != candidates[j].target
  }

  ghost predicate ValidState(
      cached: map<string, bool>, stored: set<string>, redirects: Table, candidates: Candidates, nextId: nat,
      merges: seq<Merge>, decided: seq<nat>)
  {
    && ValidHistory(merges) && redirects == ChainTable(merges)
    && Alive(cached, stored, merges)
    && MergesAreDecisions(candidates, merges, decided)
    && PairsDistinct(candidates, nextId)
  }

  class Engine {
    /** The devices in the live cache, with their online flags, and the stored ones. */
    var cached: map<string, bool>
    var stored: set<string>
    var redirects: Table
    var candidates: Candidates
    var nextId: nat

    /** The merges so far and the candidate behind each. */
    ghost var merges: seq<Merge>
    ghost var decided: seq<nat>

    ghost predicate Valid()
      reads this
    {
      ValidState(cached, stored, redirects, candidates, nextId, merges, decided)
    }

    constructor ()
      ensures Valid() && candidates == map[] && redirects == map[] && merges == []
    {
      cached, stored, redirects, candidates, nextId := map[], {}, map[], map[], 1;
      merges, decided := [], [];
    }

    /** A device is seen, new or known.  PDIDs are fresh: none that was merged away returns. */
    method Observe(pdid: string, online: bool)
      requires Valid() && pdid !in redirects
      modifies this`cached, this`stored
      ensures Valid() && cached == old(cached)[pdid := online] && stored == old(stored) + {pdid}
    {
      ChainTableKeys(merges);
      cached := cached[pdid := online];
      stored := stored + {pdid};
    }

    method PurgeFromCache(pdid: string)
      requires Valid()
      modifies this`cached
      ensures Valid() && cached == old(cached) - {pdid}
    {
      cached := cached - {pdid};
    }

    /** Looks a candidate up by its two end points, in any order of rows. */
    method FindCandidate(source: string, target: string) returns (found: Option<nat>)
      ensures found.Some? ==>
                found.value in candidates && candidates[found.value].source == source
                && candidates[found.value].target == target
      ensures found.None? ==>
                forall id | id in candidates :: candidates[id].source != source || candidates[id].target != target
    {
      var remaining := candidates.Keys;
      while remaining != {}
        invariant remaining <= candidates.Keys
        invariant forall id | id in candidates.Keys - remaining ::
                    candidates[id].source != source || candidates[id].target != target
        decreases remaining
      {
        var id :| id in remaining;
        if candidates[id].source == source && candidates[id].target == target {
          return Some(id);
        }
        remaining := remaining - {id};
      }
      return None;
    }

    /** A (re-)observed link: a known pair is refreshed and keeps its status, a new pair is
        pending. */
    method UpsertCandidate(source: string, target: string, probability: real, ambiguous: bool, now: int)
      returns (id: Option<nat>)
      requires Valid()
      modifies this`candidates, this`nextId
      ensures Valid() && DecisionsStand(old(candidates), candidates)
      ensures id.None? <==> source == "" || target == "" || source == target
      ensures id.None? ==> candidates == old(candidates)
      ensures id.Some? ==>
                && id.value in candidates && candidates.Keys == old(candidates).Keys + {id.value}
                && candidates[id.value] ==
                   Candidate(source, target, probability, ambiguous,
                             if id.value in old(candidates) then old(candidates)[id.value].status else Pending, now)
                && forall other | other in old(candidates) && other != id.value ::
                     candidates[other] == old(candidates)[other]
    {
      if source == "" || target == "" || source == target {
        return None;
      }
      var found := FindCandidate(source, target);
      if found.Some? {
        id := found;
        var c := candidates[id.value].(probability := probability, ambiguous := ambiguous, updatedAt := now);
        RefreshKeepsDecisions(candidates, merges, decided, id.value, c);
        SamePairs(candidates, nextId, id.value, c);
        candidates := candidates[id.value := c];
      } else {
        id := Some(nextId);
        var c := Candidate(source, target, probability, ambiguous, Pending, now);
        RefreshKeepsDecisions(candidates, merges, decided, nextId, c);
        candidates := candidates[nextId := c];
        nextId := nextId + 1;
      }
    }

    method RejectIdentityCandidate(id: nat, req: Request, now: int) returns (r: Decision)
      requires Valid()
      modifies this`candidates
      ensures Valid() && DecisionsStand(old(candidates), candidates)
      ensures id !in old(candidates) ==> r == NotFound
      ensures id in old(candidates) ==>
                var c := old(candidates)[id];
                if c.status == Rejected then r == Decided(c)
                else if c.status == Pending && AsExpected(c, req) then
                  r == Decided(c.(status := Rejected, ambiguous := false, updatedAt := now))
                else r == StaleOrConflicting
      ensures candidates == if r.Decided? then old(candidates)[id := r.candidate] else old(candidates)
    {
      if id !in candidates {
        return NotFound;
      }
      var candidate := candidates[id];
      if candidate.status == Rejected {
        return Decided(candidate);
      }
      if candidate.status != Pending || !ValidDecision(candidate, req) {
        return StaleOrConflicting;
      }
      candidates := candidates[id := candidate.(status := Rejected, ambiguous := false, updatedAt := now)];
      return Decided(candidates[id]);
    }

    method ReopenIdentityCandidate(id: nat, req: Request, now: int) returns (r: Decision)
      requires Valid()
      modifies this`candidates
      ensures Valid() && DecisionsStand(old(candidates), candidates)
      ensures id !in old(candidates) ==> r == NotFound
      ensures id in old(candidates) ==>
                var c := old(candidates)[id];
                if c.status == Confirmed || !AsExpected(c, req) then r == StaleOrConflicting
                else if c.status == Pending then r == Decided(c)
                else r == Decided(c.(status := Pending, ambiguous := true, updatedAt := now))
      ensures candidates == if r.Decided? then old(candidates)[id := r.candidate] else old(candidates)
    {
      if id !in candidates {
        return NotFound;
      }
      var candidate := candidates[id];
      if candidate.status == Confirmed || !ValidDecision(candidate, req) {
        return StaleOrConflicting;
      }
      if candidate.status == Pending {
        return Decided(candidate);
      }
      candidates := candidates[id := candidate.(status := Pending, ambiguous := true, updatedAt := now)];
      return Decided(candidates[id]);
    }

    /** The guards under which a confirmation merges. */
    ghost predicate Confirmable(id: nat, req: Request)
      reads this
    {
      && id in candidates && candidates[id].status == Pending && AsExpected(candidates[id], req)
      && candidates[id].source != candidates[id].target
      && candidates[id].source in cached && candidates[id].target in cached
      && !(cached[candidates[id].source] && cached[candidates[id].target])
    }

    method ConfirmIdentityCandidate(id: nat, req: Request, now: int) returns (r: MergeResult)
      requires Valid()
      modifies this
      ensures Valid() && DecisionsStand(old(candidates), candidates)
      ensures r.NoCandidate? <==> id !in old(candidates)
      ensures r.MergedInto? <==> old(Confirmable(id, req))
      ensures r.MergedInto? ==>
                var c := old(candidates)[id];
                && r.pdid == c.target
                && candidates == old(candidates)[id := c.(status := Confirmed, ambiguous := false, updatedAt := now)]
                && redirects == old(redirects)[c.source := c.target]
                && merges == old(merges) + [Merge(c.source, c.target)] && decided == old(decided) + [id]
                && stored == old(stored) - {c.source} + {c.target}
                && cached == old(cached) - {c.source}
                && c.source !in old(redirects)
      ensures !r.MergedInto? ==> unchanged(this)
      ensures r.AlreadyMerged? ==>
                && old(candidates)[id].status == Confirmed && r.pdid in cached
                && r.pdid == Survivor(merges, old(candidates)[id].target)
    {
      if id !in candidates {
        return NoCandidate;
      }
      var candidate := candidates[id];
      if candidate.status == Confirmed {
        var resolved := ResolvePDID(redirects, candidate.target);
        var pdid := if resolved.Resolved? then resolved.pdid else candidate.target;
        LiveResolutionIsSurvivor(merges, candidate.target, resolved, pdid);
        return if pdid in cached then AlreadyMerged(pdid) else Refused;
      }
      if candidate.status != Pending || !ValidDecision(candidate, req) {
        return Refused;
      }
      if candidate.source !in cached || candidate.target !in cached {
        return Refused;
      }
      if cached[candidate.source] && cached[candidate.target] {
        return Refused;
      }
      if candidate.source == candidate.target {
        return Refused;
      }
      CommitMerge(id, candidate.(status := Confirmed, ambiguous := false, updatedAt := now));
      return MergedInto(candidate.target);
    }

    /** The transaction of a confirmation, and the reconciliation of the cache after it. */
    method CommitMerge(id: nat, confirmed: Candidate)
      requires Valid() && id in candidates && candidates[id].status == Pending && confirmed.status == Confirmed
      requires confirmed.source == candidates[id].source && confirmed.target == candidates[id].target
      requires confirmed.source != confirmed.target
      requires confirmed.source in cached && confirmed.target in cached
      modifies this`candidates, this`stored, this`redirects, this`merges, this`decided, this`cached
      ensures Valid()
      ensures candidates == old(candidates)[id := confirmed]
      ensures redirects == old(redirects)[confirmed.source := confirmed.target]
      ensures confirmed.source !in old(redirects)
      ensures merges == old(merges) + [Merge(confirmed.source, confirmed.target)] && decided == old(decided) + [id]
      ensures stored == old(stored) - {confirmed.source} + {confirmed.target}
      ensures cached == old(cached) - {confirmed.source}
    {
      MergeStep(cached, stored, redirects, candidates, nextId, merges, decided, id, confirmed);
      WriteMerge(id, confirmed);
    }

    method WriteMerge(id: nat, confirmed: Candidate)
      modifies this`candidates, this`stored, this`redirects, this`merges, this`decided, this`cached
      ensures candidates == old(candidates)[id := confirmed]
      ensures redirects == old(redirects)[confirmed.source := confirmed.target]
      ensures merges == old(merges) + [Merge(confirmed.source, confirmed.target)] && decided == old(decided) + [id]
      ensures stored == old(stored) - {confirmed.source} + {confirmed.target}
      ensures cached == old(cached) - {confirmed.source}
    {
      candidates := candidates[id := confirmed];
      stored := stored - {confirmed.source} + {confirmed.target};
      redirects := redirects[confirmed.source := confirmed.target];
      ghost var merge := Merge(confirmed.source, confirmed.target);
      merges, decided := merges + [merge], decided + [id];
      cached := cached - {confirmed.source};
    }
  }

  /** What resolution gives, or the PDID itself where it gives up, is the survivor if it is live. */
  lemma LiveResolutionIsSurvivor(merges: seq<Merge>, target: string, resolved: Resolution, pdid: string)
    requires ValidHistory(merges) && IsResolution(ChainTable(merges), target, resolved)
    requires pdid == if resolved.Resolved? then resolved.pdid else target
    ensures !WasMergedAway(merges, pdid) ==> pdid == Survivor(merges, target)
  {
    var hops := ResolutionOfHistory(merges, target, resolved);
    ChainTableKeys(merges);
    if !WasMergedAway(merges, target) {
      EndIsUnique(Hop(ChainTable(merges)), target, hops, Survivor(merges, target), 0, target);
    }
  }

  lemma SamePairs(candidates: Candidates, nextId: nat, id: nat, c: Candidate)
    requires PairsDistinct(candidates, nextId) && id in candidates
    requires c.source == candidates[id].source && c.target == candidates[id].target
    ensures PairsDistinct(candidates[id := c], nextId)
  {
  }

  lemma StillAlive(cached: map<string, bool>, stored: set<string>, merges: seq<Merge>, source: string, target: string)
    requires Alive(cached, stored, merges) && target in cached && source != target
    requires forall pdid :: WasMergedAway(merges + [Merge(source, target)], pdid) <==>
                            WasMergedAway(merges, pdid) || pdid == source
    ensures Alive(cached - {source}, stored - {source} + {target}, merges + [Merge(source, target)])
  {
  }

  /** A merge of two distinct live devices extends the history by one row. */
  lemma NewMerge(merges: seq<Merge>, source: string, target: string)
    requires ValidHistory(merges)
    requires source != target && !WasMergedAway(merges, source) && !WasMergedAway(merges, target)
    ensures var more := merges + [Merge(source, target)];
      && ValidHistory(more)
      && ChainTable(more) == ChainTable(merges)[source := target]
      && source !in ChainTable(merges)
      && forall pdid :: WasMergedAway(more, pdid) <==> WasMergedAway(merges, pdid) || pdid == source
  {
    var more := merges + [Merge(source, target)];
    assert more[..|more| - 1] == merges;
    ChainTableKeys(merges);
    ChainTableKeys(more);
  }

  /** Confirming a candidate that was not confirmed adds its merge to the history. */
  lemma NewDecision(candidates: Candidates, merges: seq<Merge>, decided: seq<nat>, id: nat, c: Candidate)
    requires MergesAreDecisions(candidates, merges, decided)
    requires id in candidates && candidates[id].status != Confirmed && c.status == Confirmed
    ensures MergesAreDecisions(candidates[id := c], merges + [Merge(c.source, c.target)], decided + [id])
  {
    assert id !in decided;
    var after, all := candidates[id := c], decided + [id];
    forall other | other in after && after[other].status == Confirmed ensures other in all {
      assert other == id || other in decided;
      assert all[|all| - 1] == id;
    }
  }

  /** Everything a confirmation changes, changed together. */
  lemma MergeStep(
      cached: map<string, bool>, stored: set<string>, redirects: Table, candidates: Candidates, nextId: nat,
      merges: seq<Merge>, decided: seq<nat>, id: nat, c: Candidate)
    requires ValidState(cached, stored, redirects, candidates, nextId, merges, decided)
    requires id in candidates && candidates[id].status != Confirmed && c.status == Confirmed
    requires c.source == candidates[id].source && c.target == candidates[id].target && c.source != c.target
    requires c.source in cached && c.target in cached
    ensures c.source !in redirects
    ensures ValidState(cached - {c.source}, stored - {c.source} + {c.target}, redirects[c.source := c.target],
                       candidates[id := c], nextId, merges + [Merge(c.source, c.target)], decided + [id])
  {
    NewMerge(merges, c.source, c.target);
    NewDecision(candidates, merges, decided, id, c);
    SamePairs(candidates, nextId, id, c);
    StillAlive(cached, stored, merges, c.source, c.target);
  }

  lemma RefreshKeepsDecisions(candidates: Candidates, merges: seq<Merge>, decided: seq<nat>, id: nat, c: Candidate)
    requires MergesAreDecisions(candidates, merges, decided)
    requires if id in candidates then
               c.source == candidates[id].source && c.target == candidates[id].target
                   && c.status == candidates[id].status
             else c.status != Confirmed
    ensures MergesAreDecisions(candidates[id := c], merges, decided)
    ensures DecisionsStand(candidates, candidates[id := c])
  {
  }

  /** One merge stands behind the candidate, its source has a redirect row, and no other confirmed
      candidate has that source. */
  ghost predicate MergedOnce(candidates: Candidates, merges: seq<Merge>, decided: seq<nat>, id: nat)
    requires id in candidates
  {
    && candidates[id].source in ChainTable(merges)
    && (exists i :: 0 <= i < |decided| && decided[i] == id)
    && (forall i, j | 0 <= i < j < |decided| :: decided[i] != id || decided[j] != id)
    && forall other | other in candidates && candidates[other].status == Confirmed
                      && candidates[other].source == candidates[id].source :: other == id
  }

  lemma ConfirmedIsMergedOnce(candidates: Candidates, merges: seq<Merge>, decided: seq<nat>)
    requires ValidHistory(merges) && MergesAreDecisions(candidates, merges, decided)
    ensures forall id | id in candidates && candidates[id].status == Confirmed ::
              MergedOnce(candidates, merges, decided, id)
  {
    ChainTableKeys(merges);
    forall id | id in candidates && candidates[id].status == Confirmed
      ensures MergedOnce(candidates, merges, decided, id)
    {
      var i :| 0 <= i < |decided| && decided[i] == id;
      assert merges[i] in merges;
      forall other | other in candidates && candidates[other].status == Confirmed
                     && candidates[other].source == candidates[id].source
        ensures other == id
      {
        var j :| 0 <= j < |decided| && decided[j] == other;
        SourcesDistinct(merges, i, j);
      }
    }
  }

  lemma {:induction false} SourcesDistinct(merges: seq<Merge>, i: nat, j: nat)
    requires ValidHistory(merges) && i < |merges| && j < |merges| && merges[i].source == merges[j].source
    ensures i == j
  {
    var init := merges[..|merges| - 1];
    assert forall k | 0 <= k < |init| :: init[k] in init && init[k] == merges[k];
    if i < |init| && j < |init| {
      SourcesDistinct(init, i, j);
    }
  }

  // ----- whole runs

  /** What can happen to the identities; a PDID that was merged away is not seen again. */
  datatype Call =
    | Seen(pdid: string, online: bool)
    | Purged(pdid: string)
    | Linked(source: string, target: string, probability: real, ambiguous: bool, now: int)
    | Reject(id: nat, req: Request, now: int)
    | Reopen(id: nat, req: Request, now: int)
    | Confirm(id: nat, req: Request, now: int)

  method Perform(e: Engine, call: Call)
    requires e.Valid()
    modifies e
    ensures e.Valid() && DecisionsStand(old(e.candidates), e.candidates)
    ensures old(e.merges) <= e.merges && old(e.decided) <= e.decided
  {
    match call
    case Seen(pdid, online) =>
      if pdid !in e.redirects {
        e.Observe(pdid, online);
      }
    case Purged(pdid) => e.PurgeFromCache(pdid);
    case Linked(source, target, probability, ambiguous, now) =>
      var _ := e.UpsertCandidate(source, target, probability, ambiguous, now);
    case Reject(id, req, now) => var _ := e.RejectIdentityCandidate(id, req, now);
    case Reopen(id, req, now) => var _ := e.ReopenIdentityCandidate(id, req, now);
    case Confirm(id, req, now) => var _ := e.ConfirmIdentityCandidate(id, req, now);
  }

  /** Over any run a confirmed candidate stays confirmed, its merge is never repeated or undone,
      and its source keeps a redirect row. */
  method Run(e: Engine, calls: seq<Call>)
    requires e.Valid()
    modifies e
    ensures e.Valid() && DecisionsStand(old(e.candidates), e.candidates)
    ensures old(e.merges) <= e.merges && old(e.decided) <= e.decided
    ensures forall id | id in e.candidates && e.candidates[id].status == Confirmed ::
              e.candidates[id].source in e.redirects && MergedOnce(e.candidates, e.merges, e.decided, id)
  {
    for i := 0 to |calls|
      invariant e.Valid() && DecisionsStand(old(e.candidates), e.candidates)
      invariant old(e.merges) <= e.merges && old(e.decided) <= e.decided
    {
      Perform(e, calls[i]);
    }
    ConfirmedIsMergedOnce(e.candidates, e.merges, e.decided);
  }
}
