/** PathStoreRecord of lib.path_store: a candidate segment with the properties
    the store scores it on. Fidelity and disjointness are reals (Python floats);
    times are whole seconds. */
module PathStoreRecords {
  import opened Segments

  /** How far in the past a fresh record's last send time is put, so that a new
      record is immediately eligible to be sent (one week). */
  const DefaultOffset: int := 604800

  datatype PathStoreRecord = PathStoreRecord(
    pcb: PathSegment,
    id: SegmentId,
    peer_links: int,
    hops_length: int,
    fidelity: real,
    disjointness: real,
    delay_time: int,
    last_sent_time: int,
    last_seen_time: int,
    expiration_time: int,
    guaranteed_bandwidth: int,
    available_bandwidth: int,
    total_bandwidth: int
  )

  /** PathStoreRecord(pcb) at time `now`. */
  function NewRecord(pcb: PathSegment, now: int): (r: PathStoreRecord)
    ensures r.pcb == pcb && r.id == pcb.id
    ensures r.peer_links == pcb.n_peer_links && r.hops_length == pcb.n_hops
    ensures r.delay_time + pcb.timestamp == now
    ensures now - r.last_sent_time == DefaultOffset && r.last_seen_time == now
    ensures r.expiration_time == pcb.expiration_time
    ensures r.fidelity == 0.0 && r.disjointness == 0.0
    ensures r.guaranteed_bandwidth == 0 && r.available_bandwidth == 0 && r.total_bandwidth == 0
  {
    PathStoreRecord(pcb, pcb.id, pcb.n_peer_links, pcb.n_hops, 0.0, 0.0,
                    now - pcb.timestamp, now - DefaultOffset, now, pcb.expiration_time, 0, 0, 0)
  }

  /** The unit test's clock and timestamp one second either side of the offset
      give a delay of 2 and a last send time of 1. */
  lemma NewRecordExample(pcb: PathSegment)
    requires pcb.timestamp == DefaultOffset - 1
    ensures NewRecord(pcb, DefaultOffset + 1).delay_time == 2
    ensures NewRecord(pcb, DefaultOffset + 1).last_sent_time == 1
  {
  }

  /** What `__eq__` compares a record with: another record or any other object. */
  datatype Comparand = RecordValue(rec: PathStoreRecord) | OtherObject

  /** `__eq__`: records are equal exactly when their ids are; anything that is
      not a record is unequal. */
  predicate RecordEq(a: PathStoreRecord, other: Comparand)
  {
    other.RecordValue? && a.id == other.rec.id
  }

  /** `__eq__` is an equivalence on records that ignores every field but the id. */
  lemma RecordEqIsIdEquivalence(a: PathStoreRecord, b: PathStoreRecord, c: PathStoreRecord)
    ensures RecordEq(a, RecordValue(a))
    ensures RecordEq(a, RecordValue(b)) <==> RecordEq(b, RecordValue(a))
    ensures RecordEq(a, RecordValue(b)) && RecordEq(b, RecordValue(c)) ==> RecordEq(a, RecordValue(c))
    ensures RecordEq(a, RecordValue(b)) <==> a.id == b.id
    ensures !RecordEq(a, OtherObject)
  {
  }

  /** Re-observing a segment that is already a candidate, as evidently
      intended: the delay is recomputed from the segment's timestamp and the
      record is marked as seen now. */
  function Refresh(r: PathStoreRecord, pcb: PathSegment, now: int): (r': PathStoreRecord)
    ensures r'.delay_time + pcb.timestamp == now && r'.last_seen_time == now
    ensures r' == r.(delay_time := r'.delay_time, last_seen_time := r'.last_seen_time)
  {
    r.(delay_time := now - pcb.timestamp, last_seen_time := now)
  }

  /** The refresh as written assigns the delay to an attribute named `delay`,
      which PathStoreRecord does not otherwise have: the record's delay_time
      stays as it was. The result pairs the record with the value of that
      stray attribute. */
  function RefreshAsWritten(r: PathStoreRecord, pcb: PathSegment, now: int): (PathStoreRecord, int)
  {
    (r.(last_seen_time := now), now - pcb.timestamp)
  }

  /** A record created at time 10 for a segment stamped 5 and re-observed at
      time 23 with the segment stamped 22 keeps the stale delay 5 as written,
      where the intended refresh gives 1. */
  lemma RefreshAsWrittenKeepsStaleDelay(pcb: PathSegment)
    requires pcb.timestamp == 5
    ensures var r := NewRecord(pcb, 10);
            && RefreshAsWritten(r, pcb.(timestamp := 22), 23).0.delay_time == 5
            && Refresh(r, pcb.(timestamp := 22), 23).delay_time == 1
  {
  }

  /** A refreshed record is still equal to the one it replaced. */
  lemma RefreshKeepsIdentity(r: PathStoreRecord, pcb: PathSegment, now: int)
    ensures RecordEq(Refresh(r, pcb, now), RecordValue(r))
    ensures Refresh(r, pcb, now).fidelity == r.fidelity
  {
  }
}
