/** The pending block tree: out-of-order insertion, coherence, pruning and its indexes. */
module BlockTrees {
  import opened Wrappers

  type BlockId = nat

  const GENESIS: BlockId := 0

  /** A block: its parent and the round of the certificate that names the parent. */
  datatype Block = Block(id: BlockId, parent: BlockId, seqNum: nat, round: nat, qcRound: nat, bodyId: nat, body: nat, timestamp: nat)

  datatype Entry = Entry(block: Block, coherent: bool, children: seq<BlockId>)

  datatype RootInfo = RootInfo(id: BlockId, round: nat, seqNum: nat, timestamp: nat)

  datatype BodyIndex = BodyIndex(body: nat, active: set<BlockId>)

  /** A certificate is older than the block carrying it and no older than the block it certifies. */
  ghost predicate Sane(b: BlockId -> Block, i: BlockId) {
    b(i).id == i && (i != GENESIS ==> b(b(i).parent).round <= b(i).qcRound < b(i).round)
  }

  ghost predicate SameBody(x: Block, y: Block) {
    x.bodyId == y.bodyId ==> x.body == y.body
  }

  /** Ids name sane blocks without collision, and equal body ids mean equal bodies. */
  ghost predicate World(b: BlockId -> Block) {
    && b(GENESIS).round == 0
    && (forall i :: Sane(b, i))
    && (forall i, j :: SameBody(b(i), b(j)))
  }

  datatype Tree = Tree(root: RootInfo, rootKids: seq<BlockId>, entries: map<BlockId, Entry>)

  function Info(blk: Block): RootInfo {
    RootInfo(blk.id, blk.round, blk.seqNum, blk.timestamp)
  }

  ghost predicate NoDup(s: seq<BlockId>) {
    forall i, j :: 0 <= i < j < |s| ==> s[i] != s[j]
  }

  // ---- invariants ----

  ghost predicate Present(b: BlockId -> Block, t: Tree) {
    && t.root == Info(b(t.root.id))
    && (forall i :: i in t.entries ==> t.entries[i].block == b(i) && t.root.round < b(i).round)
  }

  /** `kids` lists, once each, exactly the present blocks whose certificate names `p`. */
  ghost predicate KidsOf(entries: map<BlockId, Entry>, p: BlockId, kids: seq<BlockId>) {
    && NoDup(kids)
    && (forall c :: c in kids <==> c in entries && entries[c].block.parent == p)
  }

  ghost predicate Kids(t: Tree) {
    && KidsOf(t.entries, t.root.id, t.rootKids)
    && (forall i :: i in t.entries ==> KidsOf(t.entries, i, t.entries[i].children))
  }

  ghost predicate PayloadsExact(entries: map<BlockId, Entry>, payloads: map<nat, BodyIndex>) {
    && (forall i :: i in entries ==> entries[i].block.bodyId in payloads)
    && (forall k :: k in payloads ==> payloads[k].active != {})
    && (forall k, i :: k in payloads ==>
          (i in payloads[k].active <==> i in entries && entries[i].block.bodyId == k))
    && (forall i :: i in entries ==> payloads[entries[i].block.bodyId].body == entries[i].block.body)
  }

  /** A block at or below the root round, or certified below it, can never connect to the root again. */
  ghost predicate Hopeless(blk: Block, rootRound: nat) {
    blk.round <= rootRound || blk.qcRound < rootRound
  }

  ghost predicate ParentCoherent(b: BlockId -> Block, t: Tree, i: BlockId) {
    var p := b(i).parent;
    p == t.root.id || (p in t.entries && t.entries[p].coherent) || Hopeless(b(p), t.root.round)
  }

  /** A coherent block continues its parent's numbering, and its parent is coherent unless out of reach. */
  ghost predicate Coherence(b: BlockId -> Block, t: Tree) {
    forall i :: i in t.entries && t.entries[i].coherent ==>
      b(i).seqNum == b(b(i).parent).seqNum + 1 && ParentCoherent(b, t, i)
  }

  ghost predicate Inv(b: BlockId -> Block, t: Tree) {
    World(b) && Present(b, t) && Kids(t) && Coherence(b, t)
  }

  // ---- paths ----

  /** There is an unbroken path from the root to `i` among the blocks `keys`. */
  ghost predicate Connected(b: BlockId -> Block, root: BlockId, keys: set<BlockId>, i: BlockId)
    requires World(b)
    decreases b(i).round
  {
    assert Sane(b, i);
    i in keys && i != GENESIS && (b(i).parent == root || Connected(b, root, keys, b(i).parent))
  }

  ghost function Path(b: BlockId -> Block, root: BlockId, keys: set<BlockId>, i: BlockId): (p: seq<Block>)
    requires World(b) && (i == root || Connected(b, root, keys, i))
    decreases b(i).round
  {
    assert Sane(b, i);
    if i == root then [] else assert Connected(b, root, keys, i); Path(b, root, keys, b(i).parent) + [b(i)]
  }

  ghost predicate OnTree(b: BlockId -> Block, t: Tree, i: BlockId)
    requires World(b)
  {
    Connected(b, t.root.id, t.entries.Keys, i)
  }

  lemma ConnectedAbove(b: BlockId -> Block, t: Tree, i: BlockId)
    requires World(b) && Present(b, t) && OnTree(b, t, i)
    ensures t.root.round <= b(i).qcRound < b(i).round
  {
    assert Sane(b, i) && Sane(b, t.root.id);
    var p := b(i).parent;
    if p != t.root.id {
      assert Connected(b, t.root.id, t.entries.Keys, p);
    }
  }

  /** A coherent block connected to the root has a coherent, connected parent, or the root. */
  lemma CoherentParent(b: BlockId -> Block, t: Tree, i: BlockId)
    requires Inv(b, t) && OnTree(b, t, i) && t.entries[i].coherent
    ensures var p := b(i).parent; p == t.root.id || (OnTree(b, t, p) && t.entries[p].coherent)
  {
    var p := b(i).parent;
    if p != t.root.id {
      ConnectedAbove(b, t, p);
      assert p in t.entries;
    }
  }

  /** A child of an incoherent connected block is incoherent. */
  lemma IncoherentChild(b: BlockId -> Block, t: Tree, p: BlockId, c: BlockId)
    requires Inv(b, t) && OnTree(b, t, p) && !t.entries[p].coherent && c in t.entries && b(c).parent == p
    ensures !t.entries[c].coherent && OnTree(b, t, c)
  {
    assert p in t.entries;
    ConnectedAbove(b, t, p);
  }

  /** Consecutive blocks: each continues the one before it, starting from `root`. */
  ghost predicate Chain(root: RootInfo, p: seq<Block>) {
    forall k :: 0 <= k < |p| ==> p[k].parent == Before(root, p, k) && p[k].seqNum == root.seqNum + 1 + k
  }

  /** The id before position `k`. */
  ghost function Before(root: RootInfo, p: seq<Block>, k: nat): BlockId
    requires k <= |p|
  {
    if k == 0 then root.id else p[k - 1].id
  }

  lemma ChainSnoc(root: RootInfo, p: seq<Block>, blk: Block)
    requires Chain(root, p) && blk.seqNum == root.seqNum + |p| + 1
    requires blk.parent == Before(root, p, |p|)
    ensures Chain(root, p + [blk])
  {}

  /** In every tree, the path to a coherent connected block is a chain of coherent blocks. */
  lemma {:induction false} CoherentPath(b: BlockId -> Block, t: Tree, i: BlockId)
    requires Inv(b, t) && (i == t.root.id || (OnTree(b, t, i) && t.entries[i].coherent))
    ensures var p := Path(b, t.root.id, t.entries.Keys, i);
            && Chain(t.root, p)
            && (forall blk :: blk in p ==> blk.id in t.entries && t.entries[blk.id].coherent)
            && b(i).seqNum == t.root.seqNum + |p|
            && (i != t.root.id ==> p != [] && p[|p| - 1] == b(i))
    decreases b(i).round
  {
    assert Sane(b, i);
    if i != t.root.id {
      CoherentParent(b, t, i);
      CoherentNumber(b, t, i);
      hide Inv;
      var q := b(i).parent;
      CoherentPath(b, t, q);
      assert Sane(b, q);
      ChainSnoc(t.root, Path(b, t.root.id, t.entries.Keys, q), b(i));
    }
  }

  lemma CoherentNumber(b: BlockId -> Block, t: Tree, i: BlockId)
    requires Inv(b, t) && i in t.entries && t.entries[i].coherent
    ensures b(i).seqNum == b(b(i).parent).seqNum + 1 && b(t.root.id).seqNum == t.root.seqNum
  {}

  // ---- insertion ----

  function Inserted(t: Tree, blk: Block, kids: seq<BlockId>): Tree {
    var e := t.entries[blk.id := Entry(blk, false, kids)];
    t.(entries := if blk.parent in t.entries then e[blk.parent := t.entries[blk.parent].(children := t.entries[blk.parent].children + [blk.id])] else e,
       rootKids := if blk.parent == t.root.id then t.rootKids + [blk.id] else t.rootKids)
  }

  lemma InsertedKids(t: Tree, blk: Block, kids: seq<BlockId>)
    requires Kids(t) && blk.id !in t.entries && blk.parent != blk.id && KidsOf(t.entries, blk.id, kids)
    requires t.root.id !in t.entries && t.root.id != blk.id
    ensures Kids(Inserted(t, blk, kids))
  {
    var t' := Inserted(t, blk, kids);
    forall i | i in t'.entries ensures KidsOf(t'.entries, i, t'.entries[i].children) {
      if i != blk.id {
        assert KidsOf(t.entries, i, t.entries[i].children);
      }
    }
  }

  lemma InsertedCoherence(b: BlockId -> Block, t: Tree, id: BlockId, kids: seq<BlockId>)
    requires Coherence(b, t) && id !in t.entries && t.root.id != id && b(id).id == id
    ensures Coherence(b, Inserted(t, b(id), kids))
  {}

  lemma InsertedPresent(b: BlockId -> Block, t: Tree, id: BlockId, kids: seq<BlockId>)
    requires Present(b, t) && id !in t.entries && t.root.round < b(id).round && b(id).id == id
    ensures Present(b, Inserted(t, b(id), kids))
  {}

  lemma WorldSane(b: BlockId -> Block, i: BlockId)
    requires World(b)
    ensures Sane(b, i) && (b(i).round > 0 ==> i != GENESIS)
  {}

  lemma InsertedInv(b: BlockId -> Block, t: Tree, id: BlockId, kids: seq<BlockId>)
    requires Inv(b, t) && id !in t.entries && t.root.round < b(id).round && KidsOf(t.entries, id, kids)
    ensures Inv(b, Inserted(t, b(id), kids))
  {
    hide World;
    hide Kids;
    hide KidsOf;
    hide Coherence;
    WorldSane(b, id);
    WorldSane(b, t.root.id);
    InsertedPresent(b, t, id, kids);
    InsertedKids(t, b(id), kids);
    InsertedCoherence(b, t, id, kids);
  }

  // ---- marking ----

  function Marked(t: Tree, i: BlockId): (t': Tree)
    requires i in t.entries
    ensures t'.entries.Keys == t.entries.Keys
  {
    t.(entries := t.entries[i := t.entries[i].(coherent := true)])
  }

  lemma MarkedKids(t: Tree, i: BlockId)
    requires Kids(t) && i in t.entries
    ensures Kids(Marked(t, i))
  {
    var t' := Marked(t, i);
    forall j | j in t'.entries ensures KidsOf(t'.entries, j, t'.entries[j].children) {
      assert KidsOf(t.entries, j, t.entries[j].children);
    }
  }

  lemma MarkedCoherence(b: BlockId -> Block, t: Tree, i: BlockId)
    requires Coherence(b, t) && i in t.entries
    requires b(i).parent == t.root.id || (b(i).parent in t.entries && t.entries[b(i).parent].coherent)
    requires b(i).seqNum == b(b(i).parent).seqNum + 1
    ensures Coherence(b, Marked(t, i))
  {}

  lemma MarkedInv(b: BlockId -> Block, t: Tree, i: BlockId)
    requires Inv(b, t) && i in t.entries
    requires b(i).parent == t.root.id || (b(i).parent in t.entries && t.entries[b(i).parent].coherent)
    requires b(i).seqNum == b(b(i).parent).seqNum + 1
    ensures Inv(b, Marked(t, i))
  {
    hide World;
    hide Kids;
    hide Coherence;
    MarkedKids(t, i);
    MarkedCoherence(b, t, i);
  }

  // ---- pruning ----

  /** The tree re-rooted at `i`, without the blocks certified below it. */
  ghost function Pruned(b: BlockId -> Block, t: Tree, i: BlockId): Tree
    requires i in t.entries
  {
    Tree(Info(b(i)), t.entries[i].children, map j | j in t.entries && b(i).round <= t.entries[j].block.qcRound :: t.entries[j])
  }

  lemma PrunedKids(b: BlockId -> Block, t: Tree, i: BlockId, p: BlockId, kids: seq<BlockId>)
    requires World(b) && Present(b, t) && i in t.entries && p in t.entries && b(i).round <= b(p).round && KidsOf(t.entries, p, kids)
    ensures KidsOf(Pruned(b, t, i).entries, p, kids)
  {
    forall c | c in t.entries && t.entries[c].block.parent == p ensures c in Pruned(b, t, i).entries {
      assert Sane(b, c);
    }
  }

  lemma PrunedAbove(b: BlockId -> Block, t: Tree, i: BlockId)
    requires World(b) && Present(b, t) && i in t.entries
    ensures Present(b, Pruned(b, t, i)) && t.root.round < b(i).round
  {
    var t' := Pruned(b, t, i);
    assert Sane(b, i);
    forall j | j in t'.entries ensures b(i).round < b(j).round {
      assert Sane(b, j);
    }
  }

  lemma PrunedKidsAll(b: BlockId -> Block, t: Tree, i: BlockId)
    requires World(b) && Present(b, t) && Kids(t) && i in t.entries
    ensures Kids(Pruned(b, t, i))
  {
    var t' := Pruned(b, t, i);
    assert Sane(b, i);
    PrunedAbove(b, t, i);
    PrunedKids(b, t, i, i, t.entries[i].children);
    hide World;
    hide KidsOf;
    forall p | p in t'.entries ensures KidsOf(t'.entries, p, t'.entries[p].children) {
      PrunedKids(b, t, i, p, t.entries[p].children);
    }
  }

  lemma PrunedCoherence(b: BlockId -> Block, t: Tree, i: BlockId)
    requires Present(b, t) && Coherence(b, t) && i in t.entries && b(i).id == i && t.root.round < b(i).round
    ensures Coherence(b, Pruned(b, t, i))
  {}

  lemma PrunedInv(b: BlockId -> Block, t: Tree, i: BlockId)
    requires Inv(b, t) && i in t.entries
    ensures Inv(b, Pruned(b, t, i))
  {
    assert Sane(b, i);
    PrunedAbove(b, t, i);
    PrunedKidsAll(b, t, i);
    PrunedCoherence(b, t, i);
  }
}
