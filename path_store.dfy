/** lib.path_store's PathStore: the candidate list and the snapshot history of
    one store, updated in place. Every method is proved to leave the state the
    matching function of PathStoreSpec describes. */
module PathStores {
  import opened Wrappers
  import opened Segments
  import opened PathPolicies
  import opened PathStoreRecords
  import opened PathStoreSpec

  class PathStore {
    const policy: PathPolicy
    var candidates: seq<PathStoreRecord>
    /** The deque of snapshots, oldest first, bounded by history_limit. */
    var history: seq<seq<PathStoreRecord>>

    ghost predicate Valid()
      reads this
    {
      && IdsDistinct(candidates)
      && |candidates| <= policy.candidates_set_size
      && |history| <= policy.history_limit
    }

    /** PathStore(path_policy): no candidates, an empty history. */
    constructor (policy: PathPolicy)
      ensures Valid()
      ensures this.policy == policy && candidates == [] && history == []
    {
      this.policy := policy;
      candidates := [];
      history := [];
    }

    /** add_segment: filter, refresh a known segment, or append a new record and
        bring the list back within capacity. Returns the warnings the filters
        log. */
    method AddSegment(pcb: PathSegment, now: int, score: Scorer) returns (warnings: seq<Warning>)
      requires Valid()
      modifies this
      ensures Valid()
      ensures candidates == Added(policy, old(candidates), pcb, now, score)
      ensures history == old(history)
      ensures warnings == CheckFilters(policy, pcb, now).warnings
    {
      AddedKeepsInvariant(policy, candidates, pcb, now, score);
      var f := CheckFilters(policy, pcb, now);
      warnings := f.warnings;
      if !f.ok {
        return;
      }
      var i := 0;
      while i < |candidates|
        invariant 0 <= i <= |candidates|
        invariant candidates == old(candidates) && history == old(history)
        invariant forall j :: 0 <= j < i ==> candidates[j].id != pcb.id
      {
        if candidates[i].id == pcb.id {
          assert FindIndex(candidates, pcb.id) == Some(i);
          candidates := candidates[i := Refresh(candidates[i], pcb, now)];
          return;
        }
        i := i + 1;
      }
      candidates := candidates + [NewRecord(pcb, now)];
      TrimCandidates(now, score);
    }

    /** The capacity step after an append. */
    method TrimCandidates(now: int, score: Scorer)
      requires IdsDistinct(candidates)
      modifies this
      ensures candidates == Trimmed(old(candidates), policy.candidates_set_size, now, score)
      ensures history == old(history)
    {
      if |candidates| > policy.candidates_set_size {
        RemoveExpiredSegments(now, score);
        if |candidates| > policy.candidates_set_size {
          UpdateAllFidelity(score);
          EvictLowest();
        }
      }
    }

    /** _remove_expired_segments: collect the ids of records expired at `now`
        and remove them. */
    method RemoveExpiredSegments(now: int, score: Scorer)
      modifies this
      ensures candidates == ExpiryRemoved(old(candidates), now, score)
      ensures history == old(history)
      ensures old(Valid()) ==> Valid()
    {
      var ids: seq<SegmentId> := [];
      var i := 0;
      while i < |candidates|
        invariant 0 <= i <= |candidates|
        invariant ids == ExpiredIds(candidates[..i], now)
      {
        assert candidates[..i + 1][..i] == candidates[..i];
        if candidates[i].expiration_time <= now {
          ids := ids + [candidates[i].id];
        }
        i := i + 1;
      }
      assert candidates[..i] == candidates;
      RemoveSegments(ids, score);
    }

    /** remove_segments: drop the listed ids, then recompute fidelity and
        order the candidates by it, highest first. */
    method RemoveSegments(ids: seq<SegmentId>, score: Scorer)
      modifies this
      ensures candidates == Removed(old(candidates), ids, score)
      ensures history == old(history)
      ensures old(Valid()) ==> Valid()
    {
      var kept: seq<PathStoreRecord> := [];
      var i := 0;
      while i < |candidates|
        invariant 0 <= i <= |candidates|
        invariant kept == RemoveIds(candidates[..i], ids)
      {
        assert candidates[..i + 1][..i] == candidates[..i];
        if candidates[i].id !in ids {
          kept := kept + [candidates[i]];
        }
        i := i + 1;
      }
      assert candidates[..i] == candidates;
      if IdsDistinct(candidates) {
        RemovedContract(candidates, ids, score);
      }
      candidates := kept;
      UpdateAllFidelity(score);
      candidates := SortByFidelity(candidates);
    }

    /** _update_all_fidelity: every record gets the fidelity the formula gives
        it on the list as it was before the pass. */
    method UpdateAllFidelity(score: Scorer)
      modifies this
      ensures candidates == Rescore(old(candidates), score)
      ensures history == old(history)
    {
      var before := candidates;
      var i := 0;
      while i < |candidates|
        invariant 0 <= i <= |candidates| == |before|
        invariant forall j :: 0 <= j < i ==> candidates[j] == before[j].(fidelity := score(before, before[j]))
        invariant forall j :: i <= j < |before| ==> candidates[j] == before[j]
        invariant history == old(history)
      {
        candidates := candidates[i := candidates[i].(fidelity := score(before, candidates[i]))];
        i := i + 1;
      }
    }

    /** Evict the lowest-fidelity candidate until the list fits. */
    method EvictLowest()
      modifies this
      ensures candidates == Evicted(old(candidates), policy.candidates_set_size)
      ensures history == old(history)
    {
      while |candidates| > policy.candidates_set_size
        invariant Evicted(candidates, policy.candidates_set_size)
                  == Evicted(old(candidates), policy.candidates_set_size)
        invariant history == old(history)
        decreases |candidates|
      {
        var k := LowestFidelityIndex();
        candidates := candidates[..k] + candidates[k + 1..];
      }
    }

    /** The first position holding the lowest fidelity. */
    method LowestFidelityIndex() returns (k: nat)
      requires |candidates| > 0
      ensures k < |candidates|
      ensures forall j :: 0 <= j < |candidates| ==> candidates[k].fidelity <= candidates[j].fidelity
      ensures forall j :: 0 <= j < k ==> candidates[j].fidelity > candidates[k].fidelity
      ensures k == MinIndex(candidates)
    {
      k := 0;
      var i := 1;
      while i < |candidates|
        invariant 1 <= i <= |candidates| && k < i
        invariant k == MinIndex(candidates[..i])
      {
        assert candidates[..i + 1][..i] == candidates[..i];
        assert candidates[..i][k] == candidates[k];
        if candidates[i].fidelity < candidates[k].fidelity {
          k := i;
        }
        i := i + 1;
      }
      assert candidates[..i] == candidates;
    }

    /** get_segment: the segment stored under `id`, if any. */
    method GetSegment(id: SegmentId) returns (r: Option<PathSegment>)
      ensures r.None? <==> forall i :: 0 <= i < |candidates| ==> candidates[i].id != id
      ensures r.Some? ==> exists i :: 0 <= i < |candidates| && candidates[i].id == id && candidates[i].pcb == r.value
      ensures r.Some? ==> FindIndex(candidates, id).Some? && r.value == candidates[FindIndex(candidates, id).value].pcb
    {
      var i := 0;
      while i < |candidates|
        invariant 0 <= i <= |candidates|
        invariant forall j :: 0 <= j < i ==> candidates[j].id != id
      {
        if candidates[i].id == id {
          return Some(candidates[i].pcb);
        }
        i := i + 1;
      }
      return None;
    }

    /** get_best_segments: drop expired records, recompute fidelity, and return
        the k best segments (best_set_size when k is not given). */
    method GetBestSegments(k: Option<nat>, now: int, score: Scorer) returns (best: seq<PathSegment>)
      requires Valid()
      modifies this
      ensures Valid()
      ensures candidates == Rescore(ExpiryRemoved(old(candidates), now, score), score)
      ensures history == old(history)
      ensures best == TopSegments(candidates, if k.Some? then k.value else policy.best_set_size)
    {
      RemovedContract(candidates, ExpiredIds(candidates, now), score);
      RescoreDistinct(ExpiryRemoved(candidates, now, score), score);
      var n := if k.Some? then k.value else policy.best_set_size;
      RemoveExpiredSegments(now, score);
      UpdateAllFidelity(score);
      var ranked := SortByFidelity(candidates);
      best := Pcbs(ranked[..if n < |ranked| then n else |ranked|]);
    }

    /** Append a snapshot to the history deque, dropping the oldest beyond
        history_limit. */
    method PushHistory(snapshot: seq<PathStoreRecord>)
      requires Valid()
      modifies this
      ensures Valid()
      ensures history == HistoryAppended(old(history), snapshot, policy.history_limit)
      ensures candidates == old(candidates)
    {
      history := HistoryAppended(history, snapshot, policy.history_limit);
    }

    /** get_latest_history_snapshot: the first k segments of the newest
        snapshot (best_set_size when k is not given), none without history. */
    method GetLatestHistorySnapshot(k: Option<nat>) returns (r: seq<PathSegment>)
      ensures history == [] ==> r == []
      ensures history != [] ==>
                var s := history[|history| - 1];
                var n := if k.Some? then k.value else policy.best_set_size;
                && |r| == (if n < |s| then n else |s|)
                && forall i :: 0 <= i < |r| ==> r[i] == s[i].pcb
    {
      var n := if k.Some? then k.value else policy.best_set_size;
      r := LatestSnapshot(history, n);
      LatestSnapshotContract(history, n);
    }
  }
}
