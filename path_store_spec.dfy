/** The candidate-list operations of lib.path_store's PathStore as functions on
    the list of records, with the facts the store relies on: ids stay
    distinct, the list stays within capacity, eviction drops the lowest
    fidelity, ranking is descending. The fidelity formula is a parameter. */
module PathStoreSpec {
  import opened Wrappers
  import opened Segments
  import opened PathPolicies
  import opened PathStoreRecords

  /** The fidelity formula at the moment of a refresh: the new fidelity of a
      record, given the whole candidate list (disjointness depends on it). */
  type Scorer = (seq<PathStoreRecord>, PathStoreRecord) -> real

  /** The store invariant: no two candidates share an id. */
  predicate IdsDistinct(c: seq<PathStoreRecord>)
  {
    forall i, j :: 0 <= i < j < |c| ==> c[i].id != c[j].id
  }

  /** The segments of a list of records, in order. */
  function Pcbs(c: seq<PathStoreRecord>): (s: seq<PathSegment>)
    ensures |s| == |c| && forall i :: 0 <= i < |c| ==> s[i] == c[i].pcb
  {
    seq(|c|, i requires 0 <= i < |c| => c[i].pcb)
  }

  /** The first position whose record has the given id. */
  function FindIndex(c: seq<PathStoreRecord>, id: SegmentId): (r: Option<nat>)
    ensures r.Some? ==> r.value < |c| && c[r.value].id == id
    ensures r.Some? ==> forall j :: 0 <= j < r.value ==> c[j].id != id
    ensures r.None? <==> forall j :: 0 <= j < |c| ==> c[j].id != id
  {
    if c == [] then None
    else if c[0].id == id then Some(0)
    else match FindIndex(c[1..], id)
      case None => None
      case Some(k) => Some(k + 1)
  }

  /** _update_all_fidelity: every record gets the fidelity the formula gives it
      on the current list. */
  function Rescore(c: seq<PathStoreRecord>, score: Scorer): (r: seq<PathStoreRecord>)
    ensures |r| == |c|
    ensures forall i :: 0 <= i < |c| ==> r[i] == c[i].(fidelity := score(c, c[i]))
  {
    seq(|c|, i requires 0 <= i < |c| => c[i].(fidelity := score(c, c[i])))
  }

  /** The records whose id is not listed, in their order. */
  function RemoveIds(c: seq<PathStoreRecord>, ids: seq<SegmentId>): (r: seq<PathStoreRecord>)
    ensures |r| <= |c|
  {
    if c == [] then []
    else
      var p := RemoveIds(c[..|c| - 1], ids);
      if c[|c| - 1].id in ids then p else p + [c[|c| - 1]]
  }

  /** remove_segments keeps exactly the records whose id is not listed. */
  lemma {:induction false} RemoveIdsMembers(c: seq<PathStoreRecord>, ids: seq<SegmentId>)
    ensures forall x :: x in RemoveIds(c, ids) <==> x in c && x.id !in ids
  {
    if c != [] {
      RemoveIdsMembers(c[..|c| - 1], ids);
      assert c == c[..|c| - 1] + [c[|c| - 1]];
    }
  }

  predicate SortedByFidelity(c: seq<PathStoreRecord>)
  {
    forall i, j :: 0 <= i < j < |c| ==> c[i].fidelity >= c[j].fidelity
  }

  /** Inserts x before the first record whose fidelity is not above x's. */
  function Insert(x: PathStoreRecord, s: seq<PathStoreRecord>): (r: seq<PathStoreRecord>)
    ensures |r| == |s| + 1
    ensures multiset(r) == multiset(s) + multiset{x}
  {
    if s == [] then [x]
    else if x.fidelity >= s[0].fidelity then [x] + s
    else
      assert s == [s[0]] + s[1..];
      [s[0]] + Insert(x, s[1..])
  }

  lemma {:induction false} InsertSorted(x: PathStoreRecord, s: seq<PathStoreRecord>)
    requires SortedByFidelity(s)
    ensures SortedByFidelity(Insert(x, s))
  {
    if s != [] && x.fidelity < s[0].fidelity {
      var t := Insert(x, s[1..]);
      InsertSorted(x, s[1..]);
      forall j | 0 <= j < |t| ensures s[0].fidelity >= t[j].fidelity {
        assert t[j] in multiset(t);
        if t[j] != x {
          assert t[j] in multiset(s[1..]);
          var i :| 0 <= i < |s[1..]| && s[1..][i] == t[j];
          assert s[i + 1] == t[j];
        }
      }
    }
  }

  /** Python's sorted(..., key=fidelity, reverse=True): descending fidelity,
      the same records. */
  function SortByFidelity(c: seq<PathStoreRecord>): (r: seq<PathStoreRecord>)
    ensures |r| == |c|
    ensures SortedByFidelity(r)
    ensures multiset(r) == multiset(c)
  {
    if c == [] then []
    else
      assert c == [c[0]] + c[1..];
      var t := SortByFidelity(c[1..]);
      InsertSorted(c[0], t);
      Insert(c[0], t)
  }

  /** The records of the list with the given fidelity, in list order. */
  function WithFidelity(c: seq<PathStoreRecord>, f: real): seq<PathStoreRecord>
  {
    if c == [] then []
    else (if c[0].fidelity == f then [c[0]] else []) + WithFidelity(c[1..], f)
  }

  /** Inserting x puts it ahead of every record of equal fidelity and leaves
      the order among the others as it was. */
  lemma {:induction false} InsertWithFidelity(x: PathStoreRecord, s: seq<PathStoreRecord>, f: real)
    ensures WithFidelity(Insert(x, s), f) == (if x.fidelity == f then [x] else []) + WithFidelity(s, f)
  {
    if s == [] {
      assert Insert(x, s) == [x];
      assert [x][1..] == [];
    } else if x.fidelity >= s[0].fidelity {
      var r := [x] + s;
      assert r[0] == x && r[1..] == s;
    } else {
      InsertWithFidelity(x, s[1..], f);
      InsertPastHead(x, s, f);
    }
  }

  /** The step of InsertWithFidelity where x goes behind the head: the two
      have different fidelities, so at most one of them is kept. */
  lemma InsertPastHead(x: PathStoreRecord, s: seq<PathStoreRecord>, f: real)
    requires s != [] && x.fidelity < s[0].fidelity
    requires WithFidelity(Insert(x, s[1..]), f)
             == (if x.fidelity == f then [x] else []) + WithFidelity(s[1..], f)
    ensures WithFidelity(Insert(x, s), f) == (if x.fidelity == f then [x] else []) + WithFidelity(s, f)
  {
    var xs: seq<PathStoreRecord> := if x.fidelity == f then [x] else [];
    var ss: seq<PathStoreRecord> := if s[0].fidelity == f then [s[0]] else [];
    InsertBehindHead(x, s);
    WithFidelityCons(s[0], Insert(x, s[1..]), f);
    WithFidelityHead(s, f);
    KeptCommute(xs, ss, WithFidelity(s[1..], f));
  }

  lemma InsertBehindHead(x: PathStoreRecord, s: seq<PathStoreRecord>)
    requires s != [] && x.fidelity < s[0].fidelity
    ensures Insert(x, s) == [s[0]] + Insert(x, s[1..])
  {
  }

  lemma WithFidelityCons(y: PathStoreRecord, t: seq<PathStoreRecord>, f: real)
    ensures WithFidelity([y] + t, f) == (if y.fidelity == f then [y] else []) + WithFidelity(t, f)
  {
    var r := [y] + t;
    assert r[0] == y && r[1..] == t;
  }

  lemma WithFidelityHead(s: seq<PathStoreRecord>, f: real)
    requires s != []
    ensures WithFidelity(s, f) == (if s[0].fidelity == f then [s[0]] else []) + WithFidelity(s[1..], f)
  {
  }

  /** Two pieces of which one is empty can be put in either order. */
  lemma KeptCommute<T>(a: seq<T>, b: seq<T>, rest: seq<T>)
    requires a == [] || b == []
    ensures b + (a + rest) == a + (b + rest)
  {
    if a == [] {
      assert b + (a + rest) == b + rest;
    } else {
      assert a + (b + rest) == a + rest;
    }
  }

  /** The sort is stable: records of equal fidelity keep their input order. */
  lemma {:induction false} SortStable(c: seq<PathStoreRecord>, f: real)
    ensures WithFidelity(SortByFidelity(c), f) == WithFidelity(c, f)
  {
    if c != [] {
      var t := SortByFidelity(c[1..]);
      SortStable(c[1..], f);
      InsertWithFidelity(c[0], t, f);
      assert SortByFidelity(c) == Insert(c[0], t);
    }
  }

  /** The ids of the records that have expired at `now` (expiration time at or
      before it), in list order. */
  function ExpiredIds(c: seq<PathStoreRecord>, now: int): (ids: seq<SegmentId>)
    ensures forall x :: x in ids <==> exists i :: 0 <= i < |c| && c[i].id == x && c[i].expiration_time <= now
  {
    if c == [] then []
    else
      var p := ExpiredIds(c[..|c| - 1], now);
      var last := c[|c| - 1];
      assert forall i :: 0 <= i < |c| - 1 ==> c[..|c| - 1][i] == c[i];
      if last.expiration_time <= now then p + [last.id] else p
  }

  /** The ids are collected in list order: the ids of a concatenation are
      those of its first part followed by those of its second. */
  lemma {:induction false} ExpiredIdsAppend(a: seq<PathStoreRecord>, b: seq<PathStoreRecord>, now: int)
    ensures ExpiredIds(a + b, now) == ExpiredIds(a, now) + ExpiredIds(b, now)
    decreases |b|
  {
    if b == [] {
      assert a + b == a;
    } else {
      var b' := b[..|b| - 1];
      assert (a + b)[..|a + b| - 1] == a + b';
      ExpiredIdsAppend(a, b', now);
    }
  }

  /** A single record contributes its id exactly when it has expired. */
  lemma ExpiredIdsSingle(x: PathStoreRecord, now: int)
    ensures ExpiredIds([x], now) == if x.expiration_time <= now then [x.id] else []
  {
    assert [x][..0] == [];
  }

  /** remove_segments: drop the listed ids, rescore the survivors and order
      them by descending fidelity. */
  function Removed(c: seq<PathStoreRecord>, ids: seq<SegmentId>, score: Scorer): seq<PathStoreRecord>
  {
    SortByFidelity(Rescore(RemoveIds(c, ids), score))
  }

  /** _remove_expired_segments. */
  function ExpiryRemoved(c: seq<PathStoreRecord>, now: int, score: Scorer): seq<PathStoreRecord>
  {
    Removed(c, ExpiredIds(c, now), score)
  }

  /** The first position holding the lowest fidelity. */
  function MinIndex(c: seq<PathStoreRecord>): (k: nat)
    requires |c| > 0
    ensures k < |c|
    ensures forall j :: 0 <= j < |c| ==> c[k].fidelity <= c[j].fidelity
    ensures forall j :: 0 <= j < k ==> c[j].fidelity > c[k].fidelity
  {
    if |c| == 1 then 0
    else
      var k := MinIndex(c[..|c| - 1]);
      if c[|c| - 1].fidelity < c[k].fidelity then |c| - 1 else k
  }

  function RemoveAt(c: seq<PathStoreRecord>, k: nat): seq<PathStoreRecord>
    requires k < |c|
  {
    c[..k] + c[k + 1..]
  }

  /** Evict the lowest-fidelity record until at most `cap` remain. */
  function Evicted(c: seq<PathStoreRecord>, cap: nat): seq<PathStoreRecord>
    decreases |c|
  {
    if |c| <= cap then c else Evicted(RemoveAt(c, MinIndex(c)), cap)
  }

  /** The capacity step of add_segment: over capacity, expired records go
      first; if that is not enough, fidelity is recomputed and the lowest are
      evicted. */
  function Trimmed(c: seq<PathStoreRecord>, cap: nat, now: int, score: Scorer): seq<PathStoreRecord>
  {
    if |c| <= cap then c
    else
      var c1 := ExpiryRemoved(c, now, score);
      if |c1| <= cap then c1 else Evicted(Rescore(c1, score), cap)
  }

  /** add_segment on the candidate list. */
  function Added(pol: PathPolicy, c: seq<PathStoreRecord>, pcb: PathSegment, now: int, score: Scorer): seq<PathStoreRecord>
  {
    if !CheckFilters(pol, pcb, now).ok then c
    else match FindIndex(c, pcb.id)
      case Some(i) => c[i := Refresh(c[i], pcb, now)]
      case None => Trimmed(c + [NewRecord(pcb, now)], pol.candidates_set_size, now, score)
  }

  /** get_best_segments' read-out: the segments of the k highest-fidelity records. */
  function TopSegments(c: seq<PathStoreRecord>, k: nat): seq<PathSegment>
  {
    var s := SortByFidelity(c);
    Pcbs(s[..if k < |s| then k else |s|])
  }

  /** The bounded history deque: append, then drop the oldest snapshots beyond
      `limit` (a limit of 0 keeps nothing). */
  function HistoryAppended(h: seq<seq<PathStoreRecord>>, snapshot: seq<PathStoreRecord>, limit: nat)
    : (r: seq<seq<PathStoreRecord>>)
    ensures |r| == if |h| + 1 <= limit then |h| + 1 else limit
    ensures r == (h + [snapshot])[|h| + 1 - |r|..]
    ensures limit > 0 ==> r[|r| - 1] == snapshot
  {
    var a := h + [snapshot];
    if |a| > limit then a[|a| - limit..] else a
  }

  /** get_latest_history_snapshot's read-out: the first k segments of the
      newest snapshot, or none without history. */
  function LatestSnapshot(h: seq<seq<PathStoreRecord>>, k: nat): seq<PathSegment>
  {
    if h == [] then []
    else
      var s := h[|h| - 1];
      Pcbs(s[..if k < |s| then k else |s|])
  }

  // ---------------------------------------------------------------------
  // Facts about the operations

  lemma {:induction false} RemoveIdsDistinct(c: seq<PathStoreRecord>, ids: seq<SegmentId>)
    requires IdsDistinct(c)
    ensures IdsDistinct(RemoveIds(c, ids))
  {
    if c != [] {
      var init := c[..|c| - 1];
      RemoveIdsDistinct(init, ids);
      var p := RemoveIds(init, ids);
      RemoveIdsMembers(init, ids);
      forall x | x in p ensures x.id != c[|c| - 1].id {
        var i :| 0 <= i < |init| && init[i] == x;
        assert c[i] == x;
      }
    }
  }

  lemma {:induction false} InsertDistinct(x: PathStoreRecord, s: seq<PathStoreRecord>)
    requires IdsDistinct(s)
    requires forall i :: 0 <= i < |s| ==> s[i].id != x.id
    ensures IdsDistinct(Insert(x, s))
  {
    if s != [] && x.fidelity < s[0].fidelity {
      InsertDistinct(x, s[1..]);
      var t := Insert(x, s[1..]);
      forall y | y in t ensures y.id != s[0].id {
        assert y in multiset(t);
        if y != x {
          var i :| 0 <= i < |s[1..]| && s[1..][i] == y;
          assert s[i + 1] == y;
        }
      }
    }
  }

  lemma {:induction false} SortDistinct(c: seq<PathStoreRecord>)
    requires IdsDistinct(c)
    ensures IdsDistinct(SortByFidelity(c))
  {
    if c != [] {
      SortDistinct(c[1..]);
      var s := SortByFidelity(c[1..]);
      forall i | 0 <= i < |s| ensures s[i].id != c[0].id {
        assert s[i] in multiset(c[1..]);
        var j :| 0 <= j < |c[1..]| && c[1..][j] == s[i];
        assert c[j + 1] == s[i];
      }
      InsertDistinct(c[0], s);
    }
  }

  lemma RescoreDistinct(c: seq<PathStoreRecord>, score: Scorer)
    requires IdsDistinct(c)
    ensures IdsDistinct(Rescore(c, score))
  {
  }

  /** remove_segments keeps the ids distinct, never grows the list and
      leaves the survivors in descending fidelity. */
  lemma RemovedContract(c: seq<PathStoreRecord>, ids: seq<SegmentId>, score: Scorer)
    requires IdsDistinct(c)
    ensures var r := Removed(c, ids, score);
            IdsDistinct(r) && SortedByFidelity(r) && |r| <= |c|
  {
    var p := RemoveIds(c, ids);
    RemoveIdsDistinct(c, ids);
    var q := Rescore(p, score);
    RescoreDistinct(p, score);
    SortDistinct(q);
    var r := SortByFidelity(q);
    assert |r| == |multiset(r)| == |multiset(q)| == |q|;
  }

  /** Some record of the list has the given id. */
  predicate HasId(c: seq<PathStoreRecord>, id: SegmentId)
  {
    exists i :: 0 <= i < |c| && c[i].id == id
  }

  /** remove_segments leaves exactly the ids of the list that are not listed. */
  lemma RemovedIds(c: seq<PathStoreRecord>, ids: seq<SegmentId>, score: Scorer)
    ensures forall id :: HasId(Removed(c, ids, score), id) <==> HasId(c, id) && id !in ids
  {
    var r := Removed(c, ids, score);
    forall id ensures HasId(r, id) <==> HasId(c, id) && id !in ids {
      if i :| 0 <= i < |r| && r[i].id == id {
        RemovedSurvivor(c, ids, score, i);
      }
      if i :| 0 <= i < |c| && c[i].id == id && id !in ids {
        RemovedKeeps(c, ids, score, i);
      }
    }
  }

  lemma RemovedSurvivor(c: seq<PathStoreRecord>, ids: seq<SegmentId>, score: Scorer, i: nat)
    requires i < |Removed(c, ids, score)|
    ensures var id := Removed(c, ids, score)[i].id;
            (exists k :: 0 <= k < |c| && c[k].id == id) && id !in ids
  {
    var p := RemoveIds(c, ids);
    RemoveIdsMembers(c, ids);
    var q := Rescore(p, score);
    var r := SortByFidelity(q);
    assert r[i] in multiset(q);
    var j :| 0 <= j < |q| && q[j] == r[i];
    assert p[j] in c;
    var k :| 0 <= k < |c| && c[k] == p[j];
  }

  lemma RemovedKeeps(c: seq<PathStoreRecord>, ids: seq<SegmentId>, score: Scorer, i: nat)
    requires i < |c| && c[i].id !in ids
    ensures exists k :: 0 <= k < |Removed(c, ids, score)| && Removed(c, ids, score)[k].id == c[i].id
  {
    var p := RemoveIds(c, ids);
    RemoveIdsMembers(c, ids);
    var q := Rescore(p, score);
    var r := SortByFidelity(q);
    assert r == Removed(c, ids, score);
    assert c[i] in p;
    var j :| 0 <= j < |p| && p[j] == c[i];
    assert q[j] in multiset(r);
    var k :| 0 <= k < |r| && r[k] == q[j];
    assert r[k].id == c[i].id;
  }

  /** Listing no id of the list removes nothing. */
  lemma {:induction false} RemoveIdsNoneListed(c: seq<PathStoreRecord>, ids: seq<SegmentId>)
    requires forall i :: 0 <= i < |c| ==> c[i].id !in ids
    ensures RemoveIds(c, ids) == c
  {
    if c != [] {
      RemoveIdsNoneListed(c[..|c| - 1], ids);
      assert c[..|c| - 1] + [c[|c| - 1]] == c;
    }
  }

  /** Listing every id of the list removes everything. */
  lemma {:induction false} RemoveIdsAllListed(c: seq<PathStoreRecord>, ids: seq<SegmentId>)
    requires forall i :: 0 <= i < |c| ==> c[i].id in ids
    ensures RemoveIds(c, ids) == []
  {
    if c != [] {
      RemoveIdsAllListed(c[..|c| - 1], ids);
    }
  }

  /** One step of remove_segments' filter: the prefix one record longer. */
  lemma RemoveIdsStep(c: seq<PathStoreRecord>, k: nat, ids: seq<SegmentId>)
    requires k < |c|
    ensures RemoveIds(c[..k + 1], ids)
            == if c[k].id in ids then RemoveIds(c[..k], ids) else RemoveIds(c[..k], ids) + [c[k]]
  {
    assert c[..k + 1][..k] == c[..k];
  }

  /** A formula that returns the fidelity a record already has leaves the
      list unchanged. */
  lemma RescoreUnchanged(c: seq<PathStoreRecord>, score: Scorer)
    requires forall c', x :: score(c', x) == x.fidelity
    ensures Rescore(c, score) == c
  {
    assert forall i :: 0 <= i < |c| ==> c[i].(fidelity := c[i].fidelity) == c[i];
  }

  /** The list in reverse order. */
  function Reversed(c: seq<PathStoreRecord>): (r: seq<PathStoreRecord>)
    ensures |r| == |c| && forall i :: 0 <= i < |c| ==> r[i] == c[|c| - 1 - i]
  {
    if c == [] then [] else Reversed(c[1..]) + [c[0]]
  }

  predicate StrictlyAscending(c: seq<PathStoreRecord>)
  {
    forall i, j :: 0 <= i < j < |c| ==> c[i].fidelity < c[j].fidelity
  }

  /** Sorting a list that is strictly ascending in fidelity reverses it. */
  lemma {:induction false} SortAscendingReverses(c: seq<PathStoreRecord>)
    requires StrictlyAscending(c)
    ensures SortByFidelity(c) == Reversed(c)
  {
    if c != [] {
      var t := c[1..];
      AscendingTail(c);
      SortAscendingReverses(t);
      var rt := Reversed(t);
      HeadBelowTail(c);
      InsertLowest(c[0], rt);
      assert SortByFidelity(c) == Insert(c[0], rt);
      assert Reversed(c) == rt + [c[0]];
    }
  }

  lemma HeadBelowTail(c: seq<PathStoreRecord>)
    requires c != [] && StrictlyAscending(c)
    ensures forall i :: 0 <= i < |c| - 1 ==> c[0].fidelity < Reversed(c[1..])[i].fidelity
  {
    var rt := Reversed(c[1..]);
    forall i | 0 <= i < |rt| ensures c[0].fidelity < rt[i].fidelity {
      assert rt[i] == c[|c| - 1 - i];
    }
  }

  lemma AscendingTail(c: seq<PathStoreRecord>)
    requires c != [] && StrictlyAscending(c)
    ensures StrictlyAscending(c[1..])
  {
    var t := c[1..];
    forall i, j | 0 <= i < j < |t| ensures t[i].fidelity < t[j].fidelity {
      assert t[i] == c[i + 1] && t[j] == c[j + 1];
    }
  }

  /** A record below every fidelity of the list goes to its end. */
  lemma {:induction false} InsertLowest(x: PathStoreRecord, s: seq<PathStoreRecord>)
    requires forall i :: 0 <= i < |s| ==> x.fidelity < s[i].fidelity
    ensures Insert(x, s) == s + [x]
  {
    if s != [] {
      InsertLowest(x, s[1..]);
    }
  }

  /** The unit-test vector of remove_segments: ids 0..4 with fidelities 0..4,
      removing 1, 2 and 3 leaves 4 then 0; removing all leaves nothing. */
  lemma RemovedExample(rs: seq<PathStoreRecord>, score: Scorer)
    requires |rs| == 5 && forall i :: 0 <= i < 5 ==> rs[i].id == i && rs[i].fidelity == i as real
    requires forall c', x :: score(c', x) == x.fidelity
    ensures Removed(rs, [1, 2, 3], score) == [rs[4], rs[0]]
    ensures Removed(rs, [0, 1, 2, 3, 4], score) == []
  {
    var kept := [rs[0], rs[4]];
    calc {
      Removed(rs, [1, 2, 3], score);
      SortByFidelity(Rescore(RemoveIds(rs, [1, 2, 3]), score));
      { RemoveIdsExample(rs); }
      SortByFidelity(Rescore(kept, score));
      { RescoreUnchanged(kept, score); }
      SortByFidelity(kept);
      { SortAscendingReverses(kept); }
      Reversed(kept);
      [rs[4], rs[0]];
    }
    assert Removed(rs, [0, 1, 2, 3, 4], score) == [] by {
      RemoveIdsAllListed(rs, [0, 1, 2, 3, 4]);
    }
  }

  lemma RemoveIdsExample(rs: seq<PathStoreRecord>)
    requires |rs| == 5 && forall i :: 0 <= i < 5 ==> rs[i].id == i
    ensures RemoveIds(rs, [1, 2, 3]) == [rs[0], rs[4]]
  {
    var ids := [1, 2, 3];
    var head, mid, last := [rs[0]], rs[1..4], [rs[4]];
    calc {
      RemoveIds(rs, ids);
      { assert rs == head + mid + last; }
      RemoveIds(head + mid + last, ids);
      { RemoveIdsAppend(head + mid, last, ids); RemoveIdsAppend(head, mid, ids); }
      RemoveIds(head, ids) + RemoveIds(mid, ids) + RemoveIds(last, ids);
      { RemoveIdsNoneListed(head, ids); RemoveIdsNoneListed(last, ids); }
      head + RemoveIds(mid, ids) + last;
      { assert forall i :: 0 <= i < |mid| ==> mid[i].id in ids by {
          assert mid[0].id == 1 && mid[1].id == 2 && mid[2].id == 3;
        }
        RemoveIdsAllListed(mid, ids); }
      [rs[0], rs[4]];
    }
  }

  /** The filter distributes over concatenation. */
  lemma {:induction false} RemoveIdsAppend(a: seq<PathStoreRecord>, b: seq<PathStoreRecord>, ids: seq<SegmentId>)
    ensures RemoveIds(a + b, ids) == RemoveIds(a, ids) + RemoveIds(b, ids)
    decreases |b|
  {
    if b == [] {
      assert a + b == a;
    } else {
      var b' := b[..|b| - 1];
      assert (a + b)[..|a + b| - 1] == a + b';
      RemoveIdsAppend(a, b', ids);
    }
  }

  /** The unit-test vector of _remove_expired_segments: records expiring at
      0..4 with ids 0..4 give ids [0, 1, 2] at time 2. */
  lemma ExpiredIdsExample(rs: seq<PathStoreRecord>)
    requires |rs| == 5 && forall i :: 0 <= i < 5 ==> rs[i].id == i && rs[i].expiration_time == i
    ensures ExpiredIds(rs, 2) == [0, 1, 2]
  {
    assert rs[..1] == [rs[0]] && rs[..1][..0] == [];
    assert rs[..2][..1] == rs[..1] && rs[..3][..2] == rs[..2] && rs[..4][..3] == rs[..3];
    assert ExpiredIds(rs[..1], 2) == [0];
    assert ExpiredIds(rs[..2], 2) == [0, 1];
    assert ExpiredIds(rs[..3], 2) == [0, 1, 2];
    assert ExpiredIds(rs[..4], 2) == [0, 1, 2];
    assert rs[..5] == rs;
  }

  /** Removing one position takes exactly that record out and keeps the ids
      of the rest distinct. */
  lemma RemoveAtFacts(c: seq<PathStoreRecord>, m: nat)
    requires m < |c|
    ensures multiset(c) == multiset(RemoveAt(c, m)) + multiset{c[m]}
    ensures IdsDistinct(c) ==> IdsDistinct(RemoveAt(c, m))
  {
    var c' := RemoveAt(c, m);
    assert c == c[..m] + [c[m]] + c[m + 1..];
    if IdsDistinct(c) {
      forall i, j | 0 <= i < j < |c'| ensures c'[i].id != c'[j].id {
        var i0 := if i < m then i else i + 1;
        var j0 := if j < m then j else j + 1;
        assert c'[i] == c[i0] && c'[j] == c[j0];
      }
    }
  }

  /** Eviction stops at `cap` records, only removes records, and keeps the
      ids distinct. */
  lemma {:induction false} EvictedContract(c: seq<PathStoreRecord>, cap: nat)
    ensures |Evicted(c, cap)| == if |c| <= cap then |c| else cap
    ensures multiset(Evicted(c, cap)) <= multiset(c)
    ensures IdsDistinct(c) ==> IdsDistinct(Evicted(c, cap))
    decreases |c|
  {
    if |c| > cap {
      var m := MinIndex(c);
      RemoveAtFacts(c, m);
      EvictedContract(RemoveAt(c, m), cap);
    }
  }

  /** Every record eviction drops has a fidelity no higher than every record
      it keeps. */
  lemma {:induction false} EvictedDropsLowest(c: seq<PathStoreRecord>, cap: nat)
    ensures forall x, y :: x in c && x !in Evicted(c, cap) && y in Evicted(c, cap) ==> x.fidelity <= y.fidelity
    decreases |c|
  {
    if |c| > cap {
      var m := MinIndex(c);
      var c' := RemoveAt(c, m);
      var r := Evicted(c', cap);
      assert Evicted(c, cap) == r;
      RemoveAtFacts(c, m);
      EvictedContract(c', cap);
      EvictedDropsLowest(c', cap);
      forall x, y | x in c && x !in r && y in r ensures x.fidelity <= y.fidelity {
        assert y in multiset(r);
        assert y in multiset(c');
        if x !in c' {
          assert x in multiset(c);
          assert x == c[m];
          assert y in multiset(c);
          var j :| 0 <= j < |c| && c[j] == y;
        }
      }
    }
  }

  /** Expiry removal leaves no record that has expired at `now`. */
  lemma ExpiryRemovedUnexpired(c: seq<PathStoreRecord>, now: int, score: Scorer)
    ensures forall i :: 0 <= i < |ExpiryRemoved(c, now, score)| ==>
              ExpiryRemoved(c, now, score)[i].expiration_time > now
  {
    var ids := ExpiredIds(c, now);
    var p := RemoveIds(c, ids);
    RemoveIdsMembers(c, ids);
    forall x | x in p ensures x.expiration_time > now {
      var i :| 0 <= i < |c| && c[i] == x;
    }
    var q := Rescore(p, score);
    forall i | 0 <= i < |q| ensures q[i].expiration_time > now {
      assert p[i] in p;
    }
    var s := SortByFidelity(q);
    forall i | 0 <= i < |s| ensures s[i].expiration_time > now {
      assert s[i] in multiset(q);
    }
  }

  /** Over capacity, the capacity step leaves no expired record: expiry runs
      first, and eviction only drops records from what it left. */
  lemma TrimmedUnexpired(c: seq<PathStoreRecord>, cap: nat, now: int, score: Scorer)
    requires |c| > cap
    ensures forall i :: 0 <= i < |Trimmed(c, cap, now, score)| ==>
              Trimmed(c, cap, now, score)[i].expiration_time > now
  {
    var c1 := ExpiryRemoved(c, now, score);
    ExpiryRemovedUnexpired(c, now, score);
    if |c1| > cap {
      var q := Rescore(c1, score);
      EvictedContract(q, cap);
      var t := Evicted(q, cap);
      forall i | 0 <= i < |t| ensures t[i].expiration_time > now {
        assert t[i] in multiset(q);
        var j :| 0 <= j < |q| && q[j] == t[i];
      }
    }
  }

  /** The capacity step never leaves more than `cap` records, keeps the ids
      distinct, and when it has to evict, every record it drops scores no
      higher (after the refresh) than every record it keeps. */
  lemma TrimmedContract(c: seq<PathStoreRecord>, cap: nat, now: int, score: Scorer)
    requires IdsDistinct(c)
    ensures |Trimmed(c, cap, now, score)| <= cap || Trimmed(c, cap, now, score) == c
    ensures |c| <= cap ==> Trimmed(c, cap, now, score) == c
    ensures |c| > cap ==> |Trimmed(c, cap, now, score)| <= cap
    ensures IdsDistinct(Trimmed(c, cap, now, score))
    ensures |c| > cap ==> forall i :: 0 <= i < |Trimmed(c, cap, now, score)| ==>
              Trimmed(c, cap, now, score)[i].expiration_time > now
    ensures var c1 := ExpiryRemoved(c, now, score);
            |c| > cap && |c1| > cap ==>
              forall x, y :: (x in Rescore(c1, score) && x !in Trimmed(c, cap, now, score)
                              && y in Trimmed(c, cap, now, score)) ==> x.fidelity <= y.fidelity
  {
    if |c| > cap {
      var c1 := ExpiryRemoved(c, now, score);
      TrimmedUnexpired(c, cap, now, score);
      RemovedContract(c, ExpiredIds(c, now), score);
      if |c1| > cap {
        RescoreDistinct(c1, score);
        EvictedContract(Rescore(c1, score), cap);
        EvictedDropsLowest(Rescore(c1, score), cap);
      }
    }
  }

  /** add_segment keeps the store invariant: distinct ids and at most
      candidates_set_size records. */
  lemma AddedKeepsInvariant(pol: PathPolicy, c: seq<PathStoreRecord>, pcb: PathSegment, now: int, score: Scorer)
    requires IdsDistinct(c) && |c| <= pol.candidates_set_size
    ensures IdsDistinct(Added(pol, c, pcb, now, score))
    ensures |Added(pol, c, pcb, now, score)| <= pol.candidates_set_size
  {
    if CheckFilters(pol, pcb, now).ok && FindIndex(c, pcb.id).None? {
      var a := c + [NewRecord(pcb, now)];
      assert IdsDistinct(a);
      TrimmedContract(a, pol.candidates_set_size, now, score);
    }
  }

  /** The three outcomes of add_segment: a filtered-out segment changes
      nothing; a segment already present is refreshed in place without growing
      the list; a new segment is appended when there is room. */
  lemma AddedOutcomes(pol: PathPolicy, c: seq<PathStoreRecord>, pcb: PathSegment, now: int, score: Scorer)
    requires IdsDistinct(c) && |c| <= pol.candidates_set_size
    ensures var r := Added(pol, c, pcb, now, score);
            && (!CheckFilters(pol, pcb, now).ok ==> r == c)
            && (CheckFilters(pol, pcb, now).ok && (exists i :: 0 <= i < |c| && c[i].id == pcb.id) ==>
                  && |r| == |c|
                  && (forall i :: 0 <= i < |c| && c[i].id == pcb.id ==>
                        r[i].delay_time == now - pcb.timestamp && r[i].last_seen_time == now
                        && RecordEq(r[i], RecordValue(c[i])))
                  && (forall i :: 0 <= i < |c| && c[i].id != pcb.id ==> r[i] == c[i]))
            && ((CheckFilters(pol, pcb, now).ok && (forall i :: 0 <= i < |c| ==> c[i].id != pcb.id)
                 && |c| < pol.candidates_set_size) ==> r == c + [NewRecord(pcb, now)])
  {
    if CheckFilters(pol, pcb, now).ok && FindIndex(c, pcb.id).Some? {
      var k := FindIndex(c, pcb.id).value;
      forall i | 0 <= i < |c| && c[i].id == pcb.id ensures i == k {
        if i < k {
        } else if i > k {
        }
      }
    }
  }

  /** The unit-test scenario of expiry: with no room for candidates, an
      admitted segment that has already expired is dropped by the expiry step
      alone, so fidelity is never recomputed, and the store stays empty. */
  lemma ExpiryExample(pol: PathPolicy, pcb: PathSegment, now: int, score: Scorer)
    requires pol.candidates_set_size == 0
    requires CheckFilters(pol, pcb, now).ok && pcb.expiration_time <= now
    ensures ExpiryRemoved([NewRecord(pcb, now)], now, score) == []
    ensures Added(pol, [], pcb, now, score) == []
  {
    var x := NewRecord(pcb, now);
    ExpiryRemovedUnexpired([x], now, score);
    assert FindIndex([], pcb.id).None?;
    assert [] + [x] == [x];
  }

  /** The unit-test scenario of eviction: with room for one candidate, adding
      a second segment (nothing expired) and a formula that scores the first
      0 and the second 1 leaves only the second. */
  lemma EvictionExample(pol: PathPolicy, p1: PathSegment, p2: PathSegment, now: int, score: Scorer)
    requires pol.candidates_set_size == 1
    requires CheckFilters(pol, p1, now).ok && CheckFilters(pol, p2, now).ok
    requires p1.id != p2.id && p1.expiration_time > now && p2.expiration_time > now
    requires forall c, x :: score(c, x) == if x.id == p1.id then 0.0 else 1.0
    ensures var c := Added(pol, Added(pol, [], p1, now, score), p2, now, score);
            |c| == 1 && c[0].pcb == p2
  {
    var r1 := NewRecord(p1, now);
    var r2 := NewRecord(p2, now);
    assert Added(pol, [], p1, now, score) == [r1];
    assert [r1][1..] == [];
    assert FindIndex([r1], p2.id).None?;
    assert [r1] + [r2] == [r1, r2];
    assert Added(pol, [r1], p2, now, score) == Trimmed([r1, r2], 1, now, score);
    TrimTwoExample(r1, r2, now, score);
  }

  lemma TrimTwoExample(r1: PathStoreRecord, r2: PathStoreRecord, now: int, score: Scorer)
    requires r1.id != r2.id && r1.expiration_time > now && r2.expiration_time > now
    requires forall c, x :: score(c, x) == if x.id == r1.id then 0.0 else 1.0
    ensures Trimmed([r1, r2], 1, now, score) == [r2.(fidelity := 1.0)]
  {
    var c1 := [r2.(fidelity := 1.0), r1.(fidelity := 0.0)];
    ExpiryTwoExample(r1, r2, now, score);
    var q2 := Rescore(c1, score);
    assert q2 == c1;
    assert MinIndex(c1) == 1 by {
      assert c1[..1] == [c1[0]];
    }
    assert RemoveAt(c1, 1) == [c1[0]];
    assert Evicted(c1, 1) == Evicted([c1[0]], 1) == [c1[0]];
    assert |ExpiryRemoved([r1, r2], now, score)| > 1;
  }

  lemma ExpiryTwoExample(r1: PathStoreRecord, r2: PathStoreRecord, now: int, score: Scorer)
    requires r1.id != r2.id && r1.expiration_time > now && r2.expiration_time > now
    requires forall c, x :: score(c, x) == if x.id == r1.id then 0.0 else 1.0
    ensures ExpiryRemoved([r1, r2], now, score) == [r2.(fidelity := 1.0), r1.(fidelity := 0.0)]
  {
    var a := [r1, r2];
    var ids := ExpiredIds(a, now);
    assert forall i :: 0 <= i < |a| ==> a[i].id !in ids;
    RemoveIdsNoneListed(a, ids);
    var q := Rescore(a, score);
    assert q == [r1.(fidelity := 0.0), r2.(fidelity := 1.0)];
    SortAscendingReverses(q);
  }

  /** The ranked read-out: the segments of the first k records of the
      descending ranking, in that order. */
  lemma TopSegmentsContract(c: seq<PathStoreRecord>, k: nat)
    ensures var s := SortByFidelity(c);
            var m := if k < |c| then k else |c|;
            && |TopSegments(c, k)| == m
            && (forall i :: 0 <= i < m ==> TopSegments(c, k)[i] == s[i].pcb)
            && (forall i, j :: 0 <= i < j < m ==> s[i].fidelity >= s[j].fidelity)
  {
    var s := SortByFidelity(c);
    assert |s| == |multiset(s)| == |multiset(c)| == |c|;
  }

  /** Every record the read-out leaves out scores no higher than every record
      it returns. */
  lemma TopSegmentsBest(c: seq<PathStoreRecord>, k: nat)
    ensures var s := SortByFidelity(c);
            var m := if k < |c| then k else |c|;
            forall i, x :: 0 <= i < m && x in c && x !in s[..m] ==> s[i].fidelity >= x.fidelity
  {
    var s := SortByFidelity(c);
    assert |s| == |multiset(s)| == |multiset(c)| == |c|;
    var m := if k < |c| then k else |c|;
    forall i, x | 0 <= i < m && x in c && x !in s[..m] ensures s[i].fidelity >= x.fidelity {
      assert x in multiset(s);
      var j :| 0 <= j < |s| && s[j] == x;
    }
  }

  /** The unit-test vectors of get_best_segments: fidelities 0..4 in list
      order rank as 4, 3, 2 for k = 3 and as 4, 3, 2, 1 for k = 4. */
  lemma TopSegmentsExample(rs: seq<PathStoreRecord>)
    requires |rs| == 5 && forall i :: 0 <= i < 5 ==> rs[i].fidelity == i as real
    ensures TopSegments(rs, 3) == [rs[4].pcb, rs[3].pcb, rs[2].pcb]
    ensures TopSegments(rs, 4) == [rs[4].pcb, rs[3].pcb, rs[2].pcb, rs[1].pcb]
  {
    assert StrictlyAscending(rs);
    TopOfAscending(rs, 3);
    TopOfAscending(rs, 4);
  }

  /** On a list ascending in fidelity, the read-out is the last k records,
      last first. */
  lemma TopOfAscending(c: seq<PathStoreRecord>, k: nat)
    requires StrictlyAscending(c) && k <= |c|
    ensures |TopSegments(c, k)| == k
    ensures forall i :: 0 <= i < k ==> TopSegments(c, k)[i] == c[|c| - 1 - i].pcb
  {
    SortAscendingReverses(c);
    TopSegmentsContract(c, k);
  }

  /** The unit-test vectors of get_latest_history_snapshot: nothing without
      history; the first k segments of the newest snapshot otherwise. */
  lemma LatestSnapshotContract(h: seq<seq<PathStoreRecord>>, k: nat)
    ensures h == [] ==> LatestSnapshot(h, k) == []
    ensures h != [] ==>
              var s := h[|h| - 1];
              && |LatestSnapshot(h, k)| == (if k < |s| then k else |s|)
              && forall i :: 0 <= i < |LatestSnapshot(h, k)| ==> LatestSnapshot(h, k)[i] == s[i].pcb
  {
  }
}
