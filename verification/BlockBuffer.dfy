/** The buffer that a node in sync mode fills below its root, and the window it hands to the policy. */
module BlockBuffers {
  import opened Wrappers
  import opened FinalOnly

  /** A full block with its parent. */
  datatype Full = Full(block: Block, parent: BlockId)

  datatype Range = Range(last: BlockId, numBlocks: nat)

  ghost function IdAt(chain: nat -> Block, n: nat): BlockId {
    if n == 0 then GENESIS else chain(n).id
  }

  ghost predicate Linked(chain: nat -> Block, e: Full, n: nat) {
    n > 0 && e == Full(chain(n), IdAt(chain, n - 1))
  }

  /** Ids name blocks without collision, and what is buffered under the id of a finalized block is that
      block; genesis is never buffered. */
  ghost predicate Faithful(chain: nat -> Block, blocks: map<BlockId, Full>) {
    && GENESIS !in blocks
    && forall n :: n > 0 && IdAt(chain, n) in blocks ==> Linked(chain, blocks[IdAt(chain, n)], n)
  }

  /** The buffered blocks from number `n` down, newest first. */
  ghost predicate ChainFrom(chain: nat -> Block, out: seq<Full>, n: nat) {
    |out| <= n && forall k :: 0 <= k < |out| ==> Linked(chain, out[k], n - k)
  }

  /** How many blocks are buffered without a gap from number `n` down. */
  ghost function Depth(chain: nat -> Block, blocks: map<BlockId, Full>, n: nat): (d: nat)
    ensures d <= n && (d == n || IdAt(chain, n - d) !in blocks)
  {
    if n == 0 || IdAt(chain, n) !in blocks then 0 else 1 + Depth(chain, blocks, n - 1)
  }

  function Blocks(s: seq<Full>): (r: seq<Block>)
    ensures |r| == |s| && forall k :: 0 <= k < |s| ==> r[k] == s[|s| - 1 - k].block
  {
    seq(|s|, k requires 0 <= k < |s| => s[|s| - 1 - k].block)
  }

  lemma CutBlocks(chain: nat -> Block, c: seq<Full>, cut: seq<Full>, n: nat)
    requires ChainFrom(chain, c, n) && cut <= c
    ensures |cut| <= n && forall k :: 0 <= k < |cut| ==> Blocks(cut)[k] == chain(n - |cut| + 1 + k)
  {
    forall k | 0 <= k < |cut| ensures Blocks(cut)[k] == chain(n - |cut| + 1 + k) {
      var j := |cut| - 1 - k;
      assert cut[j] == c[j] && Linked(chain, c[j], n - j);
    }
  }

  class BlockBuffer {
    const delay: nat
    var root: BlockId
    var fullBlocks: map<BlockId, Full>
    ghost const chain: nat -> Block
    ghost var rootSeq: nat

    /** The root is a finalized block, or genesis. */
    ghost predicate Valid()
      reads this
    {
      && 2 <= delay && Canonical(delay, chain) && Faithful(chain, fullBlocks)
      && root == IdAt(chain, rootSeq) && (root == GENESIS <==> rootSeq == 0)
    }

    constructor (delay: nat, root: BlockId, ghost chain: nat -> Block, ghost rootSeq: nat)
      requires 2 <= delay && Canonical(delay, chain) && root == IdAt(chain, rootSeq) && (root == GENESIS <==> rootSeq == 0)
      ensures Valid() && this.delay == delay && this.root == root && this.chain == chain && this.rootSeq == rootSeq && fullBlocks == map[]
    {
      this.delay, this.root, this.chain, this.rootSeq, fullBlocks := delay, root, chain, rootSeq, map[];
    }

    /** Buffers a synced block, unless it is above the root. */
    method HandleBlocksync(e: Full)
      requires Valid() && e.block.id != GENESIS && forall n :: n > 0 && IdAt(chain, n) == e.block.id ==> Linked(chain, e, n)
      modifies this`fullBlocks
      ensures Valid() && (fullBlocks == old(fullBlocks) || fullBlocks == old(fullBlocks)[e.block.id := e])
      ensures e.block.seqNum <= rootSeq ==> e.block.id in fullBlocks && fullBlocks[e.block.id] == e
    {
      if root == GENESIS && e.block.seqNum > 0 {
        return;
      }
      if root in fullBlocks {
        assert CanonicalAt(delay, chain, rootSeq);
        if e.block.seqNum > fullBlocks[root].block.seqNum {
          return;
        }
      }
      fullBlocks := fullBlocks[e.block.id := e];
    }

    /** The blocks below and including the root that are buffered without a gap, newest first. */
    method RootParentChain() returns (out: seq<Full>)
      requires Valid()
      ensures ChainFrom(chain, out, rootSeq) && |out| == Depth(chain, fullBlocks, rootSeq)
    {
      out := [];
      var next := root;
      while next in fullBlocks
        invariant ChainFrom(chain, out, rootSeq) && next == IdAt(chain, rootSeq - |out|)
        invariant |out| + Depth(chain, fullBlocks, rootSeq - |out|) == Depth(chain, fullBlocks, rootSeq)
        decreases rootSeq - |out|
      {
        var e := fullBlocks[next];
        assert Linked(chain, e, rootSeq - |out|);
        out := out + [e];
        next := e.parent;
      }
    }

    function Required(): (n: nat)
      reads this
    {
      if root in fullBlocks then RequiredChainLen(delay, fullBlocks[root].block.seqNum, fullBlocks[root].block.results) else 2 * delay
    }

    /** Enough is buffered: everything down to the first block, or the required length. */
    ghost predicate Enough(have: nat)
      reads this
    {
      have == rootSeq || (root in fullBlocks && Required() <= have)
    }

    ghost function Have(): nat
      reads this
    {
      Depth(chain, fullBlocks, rootSeq)
    }

    /** The range still missing below the root. Nothing is missing exactly when enough is buffered; what is
        asked for starts right below what is there, and with it enough is buffered, unless the root itself is
        still unknown. */
    method NeedsBlocksync() returns (r: Option<Range>)
      requires Valid()
      ensures r.None? <==> Enough(Have())
      ensures r.Some? ==> r.value.last == IdAt(chain, rootSeq - Have()) && r.value.last !in fullBlocks && r.value.numBlocks > 0
      ensures r.Some? && Have() > 0 ==> Have() + r.value.numBlocks <= rootSeq && Enough(Have() + r.value.numBlocks)
    {
      if root == GENESIS {
        return None;
      }
      var c := RootParentChain();
      if |c| == 0 {
        return Some(Range(root, 2 * delay));
      }
      assert Linked(chain, c[0], rootSeq) && Linked(chain, c[|c| - 1], rootSeq - (|c| - 1));
      assert CanonicalAt(delay, chain, rootSeq) && CanonicalAt(delay, chain, rootSeq - (|c| - 1));
      var required, last := Required(), c[|c| - 1];
      if last.block.seqNum <= 1 || |c| >= required {
        return None;
      }
      var want := required - |c|;
      if want > last.block.seqNum - 1 {
        want := last.block.seqNum - 1;
      }
      r := Some(Range(last.parent, want));
    }

    /** The newest blocks of the chain, oldest first: the required number of them, or all. */
    method Window() returns (window: seq<Block>)
      requires Valid() && Enough(Have())
      ensures |window| <= rootSeq && forall k :: 0 <= k < |window| ==> window[k] == chain(rootSeq - |window| + 1 + k)
      ensures |window| == rootSeq || (window != [] && |window| >= RequiredChainLen(delay, chain(rootSeq).seqNum, chain(rootSeq).results))
    {
      hide Canonical;
      var c := RootParentChain();
      var n := Required();
      var cut := if n < |c| then c[..n] else c;
      CutBlocks(chain, c, cut, rootSeq);
      window := Blocks(cut);
      if |cut| != rootSeq {
        assert Linked(chain, c[0], rootSeq);
      }
    }

    /** Once nothing is missing, the policy gets a window in which every height a block may embed resolves. */
    method Start(policy: FinalOnlyPolicy)
      requires Valid() && policy.delay == delay && policy.chain == chain && Enough(Have())
      modifies policy
      ensures policy.Valid() && policy.lastCommit == rootSeq
    {
      hide Canonical;
      hide Faithful;
      hide FinalOnlyPolicy.Valid;
      hide Depth;
      var window := Window();
      policy.Reset(window, rootSeq - |window| + 1);
    }

    /** The height whose result the root embeds: what the database is synced to before going live. */
    method ExecutionTarget() returns (s: Option<nat>)
      requires Valid()
      ensures s.Some? <==> root == GENESIS || root in fullBlocks
      ensures s.Some? ==> s.value == EmbeddedAt(chain, rootSeq)
    {
      if root == GENESIS {
        return Some(0);
      }
      if root !in fullBlocks {
        return None;
      }
      assert CanonicalAt(delay, chain, rootSeq);
      var blk := fullBlocks[root].block;
      if |blk.results| == 1 {
        return Some(blk.results[0].seqNum);
      }
      s := Some(if blk.seqNum < delay then 0 else blk.seqNum - delay);
    }
  }
}
