/** What crash safety asks of an operation: whatever it changes it passes to log_write. */
module LoggedBlocks {
  import opened Blocks

  /** From blk to blk' only blocks passed to log_write have changed, and those are blocks from
      `lo` on. */
  ghost predicate AllLogged(lo: nat, blk: seq<Block>, logged: set<nat>, blk': seq<Block>, logged': set<nat>) {
    && |blk'| == |blk| && logged <= logged'
    && (forall b :: 0 <= b < |blk| && b !in logged' ==> blk'[b] == blk[b])
    && (forall b :: b in logged' && b !in logged ==> lo <= b < |blk|)
  }

  lemma NothingLogged(lo: nat, blk: seq<Block>, logged: set<nat>)
    ensures AllLogged(lo, blk, logged, blk, logged)
  {
  }

  lemma LoggedOne(lo: nat, blk: seq<Block>, logged: set<nat>, b: nat, x: Block)
    requires lo <= b < |blk|
    ensures AllLogged(lo, blk, logged, blk[b := x], logged + {b})
  {
  }

  lemma LoggedMore(lo: nat, blk: seq<Block>, logged: set<nat>, blk1: seq<Block>, logged1: set<nat>, b: nat, x: Block)
    requires AllLogged(lo, blk, logged, blk1, logged1) && lo <= b < |blk1|
    ensures AllLogged(lo, blk, logged, blk1[b := x], logged1 + {b})
  {
  }

  lemma LoggedBoth(lo: nat, blk: seq<Block>, logged: set<nat>, blk1: seq<Block>, logged1: set<nat>, blk2: seq<Block>,
                   logged2: set<nat>)
    requires AllLogged(lo, blk, logged, blk1, logged1) && AllLogged(lo, blk1, logged1, blk2, logged2)
    ensures AllLogged(lo, blk, logged, blk2, logged2)
  {
  }
}
