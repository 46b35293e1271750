/** Lists of row positions, as both engine wrappers build them when they
    skip rows. */
module RowIndices {

  /** The positions are strictly increasing, so each row appears at most
      once and rows keep their order. */
  predicate Increasing(idx: seq<nat>) {
    forall k, l | 0 <= k < l < |idx| :: idx[k] < idx[l]
  }
}
