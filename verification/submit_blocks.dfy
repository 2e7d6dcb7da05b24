/** t3m_submits.c: which packet a reply belongs to, found by contest and run number. */
module SubmitBlocks {
  import opened CTypes

  /** struct submit_block_info: the run numbers of one packet; `data` is the packet. */
  datatype Block<+D> = Block(contestId: int, firstRunId: int, submitCount: int, data: D)

  predicate Covers<D>(b: Block<D>, contestId: int, runId: int) {
    b.contestId == contestId && b.firstRunId <= runId < b.firstRunId + b.submitCount
  }

  /** The overlap test of submit_block_add. */
  predicate Overlaps<D>(b: Block<D>, contestId: int, firstRunId: int, submitCount: int) {
    b.contestId == contestId &&
    (firstRunId <= b.firstRunId < firstRunId + submitCount ||
     b.firstRunId <= firstRunId < b.firstRunId + b.submitCount)
  }

  /** The test finds out whether a run number would belong to both. */
  lemma OverlapMeans<D>(b: Block<D>, contestId: int, firstRunId: int, submitCount: int)
    requires b.submitCount > 0 && submitCount > 0
    ensures Overlaps(b, contestId, firstRunId, submitCount) <==>
            exists r :: Covers(b, contestId, r) && firstRunId <= r < firstRunId + submitCount
  {
    var r := if b.firstRunId < firstRunId then firstRunId else b.firstRunId;
    if Overlaps(b, contestId, firstRunId, submitCount) { assert Covers(b, contestId, r); }
  }

  /** The assertions and the overlap check of submit_block_add; a failed one aborts the server. */
  predicate CanAdd<D>(bs: seq<Block<D>>, contestId: int, firstRunId: int, submitCount: int) {
    && contestId > 0 && firstRunId >= 0 && submitCount > 0
    && forall i | 0 <= i < |bs| :: !Overlaps(bs[i], contestId, firstRunId, submitCount)
  }

  /** No run number belongs to two blocks. */
  ghost predicate Disjoint<D>(bs: seq<Block<D>>) {
    && (forall i | 0 <= i < |bs| :: bs[i].submitCount > 0)
    && (forall i, j, r | 0 <= i < j < |bs| && Covers(bs[i], bs[j].contestId, r) ::
          !Covers(bs[j], bs[j].contestId, r))
  }

  lemma AddKeepsDisjoint<D>(bs: seq<Block<D>>, b: Block<D>)
    requires Disjoint(bs) && CanAdd(bs, b.contestId, b.firstRunId, b.submitCount)
    ensures Disjoint(bs + [b])
  {
    var cs := bs + [b];
    forall i, j, r | 0 <= i < j < |cs| && Covers(cs[i], cs[j].contestId, r)
      ensures !Covers(cs[j], cs[j].contestId, r)
    {
      if j == |bs| {
        OverlapMeans(bs[i], b.contestId, b.firstRunId, b.submitCount);
      }
    }
  }

  /** submit_block_find: the first block with the run number, or the length of the list. */
  function FindBlock<D>(bs: seq<Block<D>>, contestId: int, runId: int): (i: nat)
    ensures i <= |bs| && (i < |bs| ==> Covers(bs[i], contestId, runId))
    ensures forall k | 0 <= k < i :: !Covers(bs[k], contestId, runId)
  {
    if bs == [] || Covers(bs[0], contestId, runId) then 0
    else 1 + FindBlock(bs[1..], contestId, runId)
  }

  lemma FindIs<D>(bs: seq<Block<D>>, i: nat, contestId: int, runId: int)
    requires i <= |bs| && (i < |bs| ==> Covers(bs[i], contestId, runId))
    requires forall k | 0 <= k < i :: !Covers(bs[k], contestId, runId)
    ensures FindBlock(bs, contestId, runId) == i
  {
    var j := FindBlock(bs, contestId, runId);
    assert !(j < i) && !(i < j);
  }

  /** Among disjoint blocks a run number finds the block it belongs to. */
  lemma FindsOwnBlock<D>(bs: seq<Block<D>>, k: nat, contestId: int, runId: int)
    requires Disjoint(bs) && k < |bs| && Covers(bs[k], contestId, runId)
    ensures FindBlock(bs, contestId, runId) == k
  {
    forall j | 0 <= j < k ensures !Covers(bs[j], contestId, runId) {}
    FindIs(bs, k, contestId, runId);
  }

  /** struct submit_block_state */
  class SubmitBlockState<D> {
    var blocks: seq<Block<D>>

    constructor ()
      ensures blocks == []
    {
      blocks := [];
    }

    /** submit_block_add; `alive` tells that no assertion failed and no overlap aborted the server. */
    method Add(contestId: int, firstRunId: int, submitCount: int, data: D) returns (alive: bool)
      modifies this
      ensures alive <==> CanAdd(old(blocks), contestId, firstRunId, submitCount)
      ensures blocks == if alive then old(blocks) + [Block(contestId, firstRunId, submitCount, data)] else old(blocks)
    {
      if contestId <= 0 || firstRunId < 0 || submitCount <= 0 { return false; }
      for i := 0 to |blocks|
        invariant blocks == old(blocks)
        invariant forall k | 0 <= k < i :: !Overlaps(blocks[k], contestId, firstRunId, submitCount)
      {
        var p := blocks[i];
        if p.contestId == contestId &&
           ((p.firstRunId < firstRunId + submitCount && p.firstRunId >= firstRunId) ||
            (firstRunId < p.firstRunId + p.submitCount && firstRunId >= p.firstRunId)) {
          return false;
        }
      }
      blocks := blocks + [Block(contestId, firstRunId, submitCount, data)];
      return true;
    }

    /** submit_block_find */
    method Find(contestId: int, runId: int) returns (found: Option<Block<D>>)
      ensures var i := FindBlock(blocks, contestId, runId);
              found == if i < |blocks| then Some(blocks[i]) else None
    {
      for i := 0 to |blocks|
        invariant forall k | 0 <= k < i :: !Covers(blocks[k], contestId, runId)
      {
        var p := blocks[i];
        if p.contestId == contestId && p.firstRunId <= runId && p.firstRunId + p.submitCount > runId {
          FindIs(blocks, i, contestId, runId);
          return Some(p);
        }
      }
      FindIs(blocks, |blocks|, contestId, runId);
      return None;
    }
  }
}
