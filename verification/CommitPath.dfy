/** Committing through a certificate: the tree is pruned and the block policy is told of each block. */
module CommitPath {
  import opened Wrappers
  import opened BlockTrees
  import opened PendingTree

  /** The committed index of the delayed-result policy: a sliding window of twice the execution delay. */
  class CommittedIndex {
    const delay: nat
    var lastCommit: nat
    var committed: map<nat, BlockId>
    ghost var lo: nat

    /** The window holds exactly the numbers from `lo` on: all of them, or at least twice the delay. */
    ghost predicate Valid()
      reads this
    {
      && 1 <= lo <= lastCommit + 1 && (lo == 1 || lo + 2 * delay <= lastCommit + 1)
      && forall n :: n in committed <==> lo <= n <= lastCommit
    }

    constructor (delay: nat)
      ensures Valid() && this.delay == delay && lastCommit == 0
    {
      this.delay, lastCommit, committed, lo := delay, 0, map[], 1;
    }

    /** Indexes a committed block, which must follow the previous one, and forgets what is more than twice the
        delay below it. */
    method UpdateCommittedBlock(blk: Block)
      requires Valid() && blk.seqNum == lastCommit + 1
      modifies this
      ensures Valid() && lastCommit == blk.seqNum && blk.seqNum in committed && committed[blk.seqNum] == blk.id
      ensures forall n :: n in committed && n != blk.seqNum ==> n in old(committed) && committed[n] == old(committed)[n]
      ensures forall n :: n in old(committed) && n !in committed ==> n + 2 * delay < lastCommit
    {
      lastCommit := blk.seqNum;
      committed := committed[blk.seqNum := blk.id];
      var minSeq := if blk.seqNum >= 2 * delay then blk.seqNum - 2 * delay else 0;
      committed := map n | n in committed && n >= minSeq :: committed[n];
      lo := if lo < minSeq then minSeq else lo;
    }

    /** Reseeds the index on a restart with the last committed blocks: twice the delay of them, or all. */
    method Reset(blocks: seq<Block>)
      requires forall k :: 0 <= k < |blocks| ==> 1 <= blocks[k].seqNum == blocks[0].seqNum + k
      requires blocks == [] || blocks[0].seqNum == 1 || 2 * delay <= |blocks|
      modifies this
      ensures Valid() && lastCommit == if blocks == [] then 0 else blocks[|blocks| - 1].seqNum
      ensures forall k :: 0 <= k < |blocks| ==> blocks[k].seqNum in committed && committed[blocks[k].seqNum] == blocks[k].id
    {
      committed, lastCommit := map[], 0;
      lo := if blocks == [] then 1 else blocks[0].seqNum;
      for k := 0 to |blocks|
        modifies this`committed, this`lastCommit
        invariant lastCommit == if k == 0 then 0 else lo + k - 1
        invariant forall n :: n in committed <==> lo <= n < lo + k
        invariant forall i :: 0 <= i < k ==> blocks[i].seqNum in committed && committed[blocks[i].seqNum] == blocks[i].id
      {
        committed := committed[blocks[k].seqNum := blocks[k].id];
        lastCommit := blocks[k].seqNum;
      }
    }

    /** The committed block whose result a block of number `n` on top of the chain must embed: genesis, or
        one that is still in the window. */
    method DelayedBase(n: nat) returns (id: BlockId)
      requires Valid() && lastCommit < n && delay <= n && n - delay <= lastCommit
      ensures n != delay ==> n - delay in committed
      ensures id == if n == delay then GENESIS else committed[n - delay]
    {
      var base := n - delay;
      if base == 0 {
        return GENESIS;
      }
      id := committed[base];
    }
  }

  /** Commits whatever the certificate makes committable and coherent, by the two-chain rule and by nothing
      else. Every block handed to the index follows the one before it, and the new root is left below a block
      and a certificate of adjacent rounds. `None` is the panic on a broken path. */
  method TryCommit(tree: BlockTree, index: CommittedIndex, qc: Cert) returns (out: Option<seq<Block>>)
    requires tree.Valid() && index.Valid() && index.lastCommit == tree.root.seqNum
    modifies tree, index
    ensures World(tree.world)
    ensures out.None? <==> exists g :: old(TwoChain(tree.View(), qc, g) && !Linked(tree.world, tree.View(), g))
    ensures out.Some? ==> tree.Valid() && index.Valid() && index.lastCommit == tree.root.seqNum
    ensures out.Some? ==> tree.committed == old(tree.committed) + out.value
    ensures out.Some? ==> forall g :: g != old(tree.root.id) ==> (tree.root.id == g <==> old(TwoChain(tree.View(), qc, g)))
    ensures out.Some? ==> (out.value == [] <==> tree.root.id == old(tree.root.id))
    ensures out.Some? && out.value != [] ==>
              && qc.id in tree.entries && tree.entries[qc.id].block.parent == tree.root.id
              && qc.round - tree.entries[qc.id].block.qcRound == 1
    ensures out.Some? && out.value == [] ==> tree.View() == old(tree.View())
    ensures out.Some? && out.value != [] ==> tree.root.id in old(tree.entries) && tree.View() == Pruned(tree.world, old(tree.View()), tree.root.id)
  {
    hide Inv;
    hide Chain;
    hide PayloadsExact;
    hide World;
    hide Linked;
    InvWorld(tree.world, tree.View());
    assert tree.committed + [] == tree.committed;
    if qc.id !in tree.entries {
      return Some([]);
    }
    var c := Committable(qc.round, tree.entries[qc.id].block);
    if c.None? || !tree.IsCoherent(c.value) {
      return Some([]);
    }
    ghost var root, t := tree.root, tree.View();
    assert TwoChain(t, qc, c.value);
    out := tree.Prune(c.value);
    if out.None? {
      return;
    }
    LinkedPath(tree.world, t, c.value);
    CoherentPath(tree.world, t, c.value);
    if c.value != root.id {
      RootAbsent(tree.world, t);
      CertifiedStays(tree.world, t, qc.id, c.value);
    }
    for k := 0 to |out.value|
      invariant index.Valid() && index.lastCommit == root.seqNum + k
      modifies index
    {
      ChainNumber(root, out.value, k);
      index.UpdateCommittedBlock(out.value[k]);
    }
  }

  /** Directly above the root stands `p`, and `c` certifies `p` in the round after the one `p` certifies the
      root in. */
  ghost predicate AdjacentAbove(t: Tree, p: BlockId, c: BlockId) {
    && p in t.entries && c in t.entries && t.entries[p].block.parent == t.root.id && t.entries[c].block.parent == p
    && t.entries[c].block.qcRound - t.entries[p].block.qcRound == 1
  }

  lemma CarrierStays(b: BlockId -> Block, t: Tree, c: BlockId, g: BlockId)
    requires Inv(b, t) && c in t.entries && g in t.entries && Carries(t, c) && t.entries[t.entries[c].block.parent].block.parent == g
    ensures var p := t.entries[c].block.parent; var after := Pruned(b, t, g).entries;
            c in after && after[c] == t.entries[c] && p in after && after[p] == t.entries[p]
  {
    var p := t.entries[c].block.parent;
    RootAbsent(b, t);
    CertifiedStays(b, t, p, g);
    assert Sane(b, p);
  }

  /** Commits through the best certificate the tree carries. This path never meets a broken one. */
  method CommitBest(tree: BlockTree, index: CommittedIndex) returns (out: seq<Block>)
    requires tree.Valid() && index.Valid() && index.lastCommit == tree.root.seqNum
    modifies tree, index
    ensures tree.Valid() && index.Valid() && index.lastCommit == tree.root.seqNum && World(tree.world)
    ensures tree.committed == old(tree.committed) + out
    ensures out == [] ==> forall c :: c in tree.entries && OnTree(tree.world, tree.View(), c) ==> !Carries(tree.View(), c)
    ensures out != [] ==> exists p, c :: AdjacentAbove(tree.View(), p, c)
  {
    hide Inv;
    hide Chain;
    hide PayloadsExact;
    hide World;
    hide Linked;
    hide Connected;
    InvWorld(tree.world, tree.View());
    var qc := tree.GetHighCommittableQc();
    out := [];
    assert tree.committed + [] == tree.committed;
    if qc.Some? {
      ghost var t := tree.View();
      ghost var c :| c in t.entries && OnTree(tree.world, t, c) && Carries(t, c)
                     && qc.value == Cert(t.entries[c].block.qcRound, t.entries[c].block.parent);
      ghost var g := CarriedTarget(tree.world, t, c);
      hide Carries;
      hide TwoChain;
      var r := TryCommit(tree, index, qc.value);
      out := r.value;
      assert AdjacentAbove(tree.View(), qc.value.id, c);
    }
  }

  lemma CarriedTarget(b: BlockId -> Block, t: Tree, c: BlockId) returns (g: BlockId)
    requires Inv(b, t) && World(b) && c in t.entries && OnTree(b, t, c) && Carries(t, c)
    ensures var blk := t.entries[c].block;
            var qc := Cert(blk.qcRound, blk.parent);
            && g in t.entries && g != t.root.id && TwoChain(t, qc, g) && Linked(b, t, g)
            && (forall h :: TwoChain(t, qc, h) ==> h == g)
            && var after := Pruned(b, t, g);
               AdjacentAbove(after, blk.parent, c)
  {
    g := t.entries[t.entries[c].block.parent].block.parent;
    CarriedLinked(b, t, c);
    RootAbsent(b, t);
    CarrierStays(b, t, c, g);
    assert b(g).id == g by {
      assert Sane(b, g);
    }
  }

  /** Re-checks coherence from an updated block and commits through the best certificate the tree carries. */
  method UpdateCoherency(tree: BlockTree, index: CommittedIndex, id: BlockId, check: Policy) returns (coherent: seq<Block>, out: seq<Block>)
    requires tree.Valid() && index.Valid() && index.lastCommit == tree.root.seqNum && Sound(check)
    modifies tree, index
    ensures tree.Valid() && index.Valid() && index.lastCommit == tree.root.seqNum && World(tree.world)
    ensures tree.committed == old(tree.committed) + out
    ensures out == [] ==> forall c :: c in tree.entries && OnTree(tree.world, tree.View(), c) ==> !Carries(tree.View(), c)
    ensures out != [] ==> exists p, c :: AdjacentAbove(tree.View(), p, c)
  {
    hide Inv;
    hide Chain;
    hide PayloadsExact;
    hide World;
    hide Sound;
    hide Search;
    hide Checkable;
    hide Settled;
    hide Connected;
    hide Path;
    ghost var start;
    coherent, start := tree.TryUpdateCoherency(id, check);
    out := CommitBest(tree, index);
  }

  /** A fork in which a prune leaves a coherent block behind whose path to the new root is broken. */
  function ForkBlock(i: BlockId): Block {
    if i == 0 then Block(0, 0, 0, 0, 0, 0, 0, 0)
    else if i == 2 then Block(2, 0, 1, 2, 0, 0, 0, 0)
    else if i == 3 then Block(3, 1, 2, 4, 3, 0, 0, 0)
    else Block(i, 0, 1, 1, 0, 0, 0, 0)
  }

  lemma ForkWorld()
    ensures World(ForkBlock)
  {}

  /** The policy that checks the numbering and nothing else. */
  function Continues(blk: Block, ext: seq<Block>, root: RootInfo): bool {
    blk.seqNum == (if ext == [] then root.seqNum else ext[|ext| - 1].seqNum) + 1
  }

  lemma ContinuesSound()
    ensures Sound(Continues)
  {}

  ghost predicate IsFork(t: Tree) {
    t.root == Info(ForkBlock(0)) && t.entries.Keys == {1, 2, 3}
  }

  lemma ForkPaths(t: Tree)
    requires World(ForkBlock) && IsFork(t)
    ensures forall i :: i in t.entries ==> OnTree(ForkBlock, t, i)
    ensures Path(ForkBlock, 0, t.entries.Keys, 0) == []
    ensures Path(ForkBlock, 0, t.entries.Keys, 1) == [ForkBlock(1)] && Path(ForkBlock, 0, t.entries.Keys, 2) == [ForkBlock(2)]
  {
    hide World;
    assert Connected(ForkBlock, 0, t.entries.Keys, 1) && Connected(ForkBlock, 0, t.entries.Keys, 2);
    assert Path(ForkBlock, 0, t.entries.Keys, 0) == [];
  }

  /** What a search from block 1 or 2 has marked when it ends. */
  lemma ForkMarked(t: Tree, start: BlockId, done: set<BlockId>)
    requires World(ForkBlock) && IsFork(t) && Search(ForkBlock, Continues, t, start, done, []) && (start == 1 || start == 2)
    ensures start in done && (start == 1 ==> 3 in done)
  {
    hide World;
    hide Inv;
    hide Waiting;
    hide Accepted;
    ForkPaths(t);
    hide Connected;
    hide Path;
    assert Accepts(ForkBlock, Continues, t, 1) && Accepts(ForkBlock, Continues, t, 2) && Accepts(ForkBlock, Continues, t, 3);
  }

  method BuildFork() returns (tree: BlockTree)
    ensures fresh(tree) && tree.Valid() && tree.world == ForkBlock && IsFork(tree.View())
    ensures forall i :: i in tree.entries ==> !tree.entries[i].coherent
  {
    ForkWorld();
    hide World;
    hide Inv;
    hide PayloadsExact;
    hide Chain;
    hide KidsOf;
    tree := new BlockTree(Info(ForkBlock(0)), ForkBlock);
    tree.Add(ForkBlock(1));
    assert tree.entries.Keys == {1};
    tree.Add(ForkBlock(2));
    assert tree.entries.Keys == {1, 2};
    tree.Add(ForkBlock(3));
    assert tree.entries.Keys == {1, 2, 3};
  }

  /** Updates coherence from block 1 or 2. */
  method MarkFork(tree: BlockTree, id: BlockId)
    requires tree.Valid() && tree.world == ForkBlock && IsFork(tree.View()) && (id == 1 || id == 2)
    requires id == 1 ==> !tree.entries[1].coherent
    modifies tree
    ensures tree.Valid() && IsFork(tree.View())
    ensures forall i :: i in tree.entries && old(tree.entries[i].coherent) ==> tree.entries[i].coherent
    ensures tree.entries[id].coherent && (id == 1 ==> tree.entries[3].coherent)
  {
    ForkWorld();
    ContinuesSound();
    hide World;
    hide Inv;
    hide PayloadsExact;
    hide Sound;
    ghost var t := tree.View();
    ForkPaths(t);
    hide Connected;
    hide Path;
    hide Search;
    var out, start := tree.TryUpdateCoherency(id, Continues);
    if start.Some? {
      assert start.value == id;
      ForkMarked(t, id, Ids(out));
    }
  }

  /** A run of the tree, from its constructor, that ends with a coherent block whose path to the root is
      broken. */
  method DetachedCoherent() returns (tree: BlockTree)
    ensures fresh(tree) && tree.Valid() && World(tree.world)
    ensures 3 in tree.entries && tree.IsCoherent(3) && !Linked(tree.world, tree.View(), 3)
  {
    ForkWorld();
    hide World;
    hide Inv;
    hide PayloadsExact;
    tree := BuildFork();
    MarkFork(tree, 1);
    MarkFork(tree, 2);
    ForkPaths(tree.View());
    RootAbsent(tree.world, tree.View());
    var commit := tree.Prune(2);
    assert !Connected(ForkBlock, 2, tree.entries.Keys, 1);
  }

  lemma ChainNumber(root: RootInfo, p: seq<Block>, k: nat)
    requires Chain(root, p) && k < |p|
    ensures p[k].seqNum == root.seqNum + 1 + k
  {}
}
