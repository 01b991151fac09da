/** The path segment as the path store sees it: only the accessors the store,
    the policy and the record read. The segment's own encoding is not part of
    this model. */
module Segments {

  /** The key that identifies a segment (its hop-sequence hash). */
  type SegmentId = int

  /** One traversed AD: its ISD, its AD and the egress interface of its hop field. */
  datatype Hop = Hop(isd_id: int, ad_id: int, egress_if: int)

  datatype PathSegment = PathSegment(
    id: SegmentId,
    timestamp: int,          // get_timestamp()
    expiration_time: int,    // get_expiration_time()
    ads: seq<Hop>,           // the hop list, in path order
    n_peer_links: int,       // get_n_peer_links()
    n_hops: int              // get_n_hops()
  )
}
