/** The pending block tree as an object: its maps are updated in place. */
module PendingTree {
  import opened Wrappers
  import opened BlockTrees

  function Reversed(s: seq<Block>): (r: seq<Block>)
    ensures |r| == |s|
    ensures forall k :: 0 <= k < |s| ==> r[k] == s[|s| - 1 - k]
  {
    seq(|s|, k requires 0 <= k < |s| => s[|s| - 1 - k])
  }

  lemma ReversedSnoc(s: seq<Block>, blk: Block)
    ensures Reversed(s + [blk]) == [blk] + Reversed(s)
  {}

  /** A policy accepts a block only if it continues the numbering of what it extends. */
  type Policy = (Block, seq<Block>, RootInfo) -> bool

  ghost predicate Sound(check: Policy) {
    forall blk: Block, ext: seq<Block>, root: RootInfo :: check(blk, ext, root) ==>
      blk.seqNum == (if ext == [] then root.seqNum else ext[|ext| - 1].seqNum) + 1
  }

  // ---- the coherence search ----

  /** `t` with the blocks `done` marked coherent. */
  function MarkedAll(t: Tree, done: set<BlockId>): (t': Tree)
    ensures t'.entries.Keys == t.entries.Keys && t'.root == t.root && t'.rootKids == t.rootKids
    ensures forall i :: i in t.entries ==> t'.entries[i] == t.entries[i].(coherent := t.entries[i].coherent || i in done)
  {
    t.(entries := map i | i in t.entries :: t.entries[i].(coherent := t.entries[i].coherent || i in done))
  }

  /** Whether the policy accepts a connected block on top of the path to its parent. */
  ghost predicate Accepts(b: BlockId -> Block, check: Policy, t: Tree, i: BlockId)
    requires World(b) && OnTree(b, t, i)
  {
    check(b(i), Path(b, t.root.id, t.entries.Keys, b(i).parent), t.root)
  }

  /** A block the search reaches: the first incoherent block, or a child of a newly coherent one. */
  ghost predicate Reached(b: BlockId -> Block, start: BlockId, done: set<BlockId>, i: BlockId) {
    i == start || b(i).parent in done
  }

  /** A block that may be checked next: connected, incoherent, and resting on coherent blocks. */
  ghost predicate Checkable(b: BlockId -> Block, t: Tree, i: BlockId)
    requires World(b)
  {
    && OnTree(b, t, i) && i in t.entries && !t.entries[i].coherent
    && (b(i).parent == t.root.id || (b(i).parent in t.entries && t.entries[b(i).parent].coherent))
  }

  /** Half-way through the search: `done` was accepted, `queue` is still to be checked, and every other
      reached block was rejected. */
  ghost predicate Search(b: BlockId -> Block, check: Policy, t: Tree, start: BlockId, done: set<BlockId>, queue: seq<BlockId>) {
    && Inv(b, t) && Inv(b, MarkedAll(t, done))
    && Waiting(b, MarkedAll(t, done), start, done, queue)
    && Accepted(b, check, t, start, done)
    && Rejected(b, check, t, start, done, queue)
  }

  ghost predicate Waiting(b: BlockId -> Block, t: Tree, start: BlockId, done: set<BlockId>, queue: seq<BlockId>)
    requires World(b)
  {
    NoDup(queue) && forall i :: i in queue ==> Checkable(b, t, i) && Reached(b, start, done, i)
  }

  ghost predicate Accepted(b: BlockId -> Block, check: Policy, t: Tree, start: BlockId, done: set<BlockId>)
    requires World(b)
  {
    forall i :: i in done ==>
      i in t.entries && !t.entries[i].coherent && Reached(b, start, done, i) && OnTree(b, t, i) && Accepts(b, check, t, i)
  }

  ghost predicate Rejected(b: BlockId -> Block, check: Policy, t: Tree, start: BlockId, done: set<BlockId>, queue: seq<BlockId>)
    requires World(b)
  {
    forall i :: i in t.entries && Reached(b, start, done, i) && i !in done && i !in queue ==>
      OnTree(b, t, i) && !Accepts(b, check, t, i)
  }

  /** Nothing to check for `id`: it is not connected, or its whole path is coherent. */
  ghost predicate Settled(b: BlockId -> Block, t: Tree, id: BlockId)
    requires World(b)
  {
    (id == t.root.id || OnTree(b, t, id)) ==>
      forall blk :: blk in Path(b, t.root.id, t.entries.Keys, id) ==> blk.id in t.entries && t.entries[blk.id].coherent
  }

  lemma SearchStart(b: BlockId -> Block, check: Policy, t: Tree, start: BlockId)
    requires Inv(b, t) && Checkable(b, t, start)
    ensures MarkedAll(t, {}) == t && Search(b, check, t, start, {}, [start])
  {}

  lemma SearchReject(b: BlockId -> Block, check: Policy, t: Tree, start: BlockId, done: set<BlockId>, queue: seq<BlockId>)
    requires Search(b, check, t, start, done, queue) && queue != [] && OnTree(b, t, queue[0]) && !Accepts(b, check, t, queue[0])
    ensures Search(b, check, t, start, done, queue[1..])
  {
    hide Inv;
    hide World;
    hide Accepts;
    hide Checkable;
    hide OnTree;
    hide Accepted;
    assert queue == [queue[0]] + queue[1..];
  }

  lemma AcceptedNumber(b: BlockId -> Block, check: Policy, t: Tree, x: BlockId)
    requires Inv(b, t) && OnTree(b, t, x) && Sound(check) && Accepts(b, check, t, x)
    ensures b(x).seqNum == b(b(x).parent).seqNum + 1
  {}

  lemma MarkedMore(t: Tree, done: set<BlockId>, x: BlockId)
    requires x in t.entries
    ensures MarkedAll(t, done + {x}) == Marked(MarkedAll(t, done), x)
  {}

  /** What accepting `x` does to the blocks waiting to be checked. */
  lemma SearchQueue(b: BlockId -> Block, t1: Tree, x: BlockId, rest: seq<BlockId>, kids: seq<BlockId>)
    requires Inv(b, t1) && Checkable(b, t1, x) && KidsOf(t1.entries, x, kids) && NoDup(rest) && x !in rest && x != t1.root.id
    requires forall i :: i in rest ==> Checkable(b, t1, i)
    ensures NoDup(rest + kids)
    ensures forall i :: i in rest + kids ==> Checkable(b, Marked(t1, x), i)
  {
    forall c | c in kids ensures c in t1.entries && b(c).parent == x && !t1.entries[c].coherent && OnTree(b, t1, c) {
      assert t1.entries[c].block == b(c);
      IncoherentChild(b, t1, x, c);
    }
    hide Inv;
    forall i | i in rest + kids ensures Checkable(b, Marked(t1, x), i) {
      assert i in rest || i in kids;
    }
    forall i, c | i in rest && c in kids ensures i != c {}
    NoDupConcat(rest, kids);
  }

  lemma NoDupConcat(a: seq<BlockId>, c: seq<BlockId>)
    requires NoDup(a) && NoDup(c) && forall i, j :: i in a && j in c ==> i != j
    ensures NoDup(a + c)
  {
    var s := a + c;
    forall i, j | 0 <= i < j < |s| ensures s[i] != s[j] {
      if i < |a| <= j {
        assert s[i] in a && s[j] in c;
      }
    }
  }

  /** The next block to check is connected, and its children are known. */
  lemma SearchHead(b: BlockId -> Block, check: Policy, t: Tree, start: BlockId, done: set<BlockId>, queue: seq<BlockId>)
    requires Search(b, check, t, start, done, queue) && queue != []
    ensures var x := queue[0];
            && World(b) && OnTree(b, t, x) && x in t.entries && x != t.root.id && t.entries[x].block == b(x)
            && KidsOf(t.entries, x, t.entries[x].children)
            && Checkable(b, MarkedAll(t, done), x) && Reached(b, start, done, x) && !t.entries[x].coherent && x !in done
  {
    assert queue[0] in queue;
    RootAbsent(b, t);
  }

  lemma AcceptedMore(b: BlockId -> Block, check: Policy, t: Tree, start: BlockId, done: set<BlockId>, x: BlockId)
    requires World(b) && Accepted(b, check, t, start, done)
    requires x in t.entries && !t.entries[x].coherent && Reached(b, start, done, x) && OnTree(b, t, x) && Accepts(b, check, t, x)
    ensures Accepted(b, check, t, start, done + {x})
  {}

  lemma RejectedMore(b: BlockId -> Block, check: Policy, t: Tree, start: BlockId, done: set<BlockId>, queue: seq<BlockId>, kids: seq<BlockId>)
    requires World(b) && Rejected(b, check, t, start, done, queue) && queue != []
    requires forall c :: c in t.entries && b(c).parent == queue[0] ==> c in kids
    ensures Rejected(b, check, t, start, done + {queue[0]}, queue[1..] + kids)
  {}

  lemma SearchAccept(b: BlockId -> Block, check: Policy, t: Tree, start: BlockId, done: set<BlockId>, queue: seq<BlockId>)
    requires Search(b, check, t, start, done, queue) && queue != [] && Sound(check)
    requires OnTree(b, t, queue[0]) && Accepts(b, check, t, queue[0])
    ensures queue[0] in t.entries && Search(b, check, t, start, done + {queue[0]}, queue[1..] + t.entries[queue[0]].children)
  {
    hide Inv;
    hide World;
    hide KidsOf;
    hide Checkable;
    hide Accepts;
    hide OnTree;
    hide Sound;
    hide Waiting;
    hide Accepted;
    hide Rejected;
    var x, rest := queue[0], queue[1..];
    SearchHead(b, check, t, start, done, queue);
    var kids := t.entries[x].children;
    AcceptedNumber(b, check, t, x);
    MarkedMore(t, done, x);
    WaitingMore(b, t, start, done, queue, kids);
    AcceptedMore(b, check, t, start, done, x);
    ChildrenListed(b, t, x);
    RejectedMore(b, check, t, start, done, queue, kids);
  }

  lemma ChildrenListed(b: BlockId -> Block, t: Tree, x: BlockId)
    requires Inv(b, t) && x in t.entries
    ensures forall c :: c in t.entries && b(c).parent == x <==> c in t.entries[x].children
  {}

  lemma KidsMarked(t: Tree, done: set<BlockId>, x: BlockId, kids: seq<BlockId>)
    requires KidsOf(t.entries, x, kids)
    ensures KidsOf(MarkedAll(t, done).entries, x, kids)
  {}

  lemma WaitingMore(b: BlockId -> Block, t: Tree, start: BlockId, done: set<BlockId>, queue: seq<BlockId>, kids: seq<BlockId>)
    requires World(b) && Inv(b, MarkedAll(t, done)) && queue != [] && Waiting(b, MarkedAll(t, done), start, done, queue)
    requires queue[0] in t.entries && KidsOf(t.entries, queue[0], kids) && b(queue[0]).seqNum == b(b(queue[0]).parent).seqNum + 1
    ensures var t2 := Marked(MarkedAll(t, done), queue[0]);
            Inv(b, t2) && Waiting(b, t2, start, done + {queue[0]}, queue[1..] + kids)
  {
    var x, rest, t1 := queue[0], queue[1..], MarkedAll(t, done);
    WaitingRest(b, t1, start, done, queue);
    hide Inv;
    hide World;
    hide Connected;
    hide NoDup;
    hide Reached;
    RootAbsent(b, t1);
    MarkedInv(b, t1, x);
    KidsMarked(t, done, x, kids);
    hide KidsOf;
    SearchQueue(b, t1, x, rest, kids);
    hide Checkable;
    KidsReached(b, t1, start, done, x, rest, kids);
  }

  lemma WaitingRest(b: BlockId -> Block, t: Tree, start: BlockId, done: set<BlockId>, queue: seq<BlockId>)
    requires World(b) && queue != [] && Waiting(b, t, start, done, queue)
    ensures var x, rest := queue[0], queue[1..];
            && Checkable(b, t, x) && NoDup(rest) && x !in rest
            && forall i :: i in rest ==> Checkable(b, t, i) && Reached(b, start, done, i)
  {
    hide World;
    hide Checkable;
    hide Reached;
    assert queue == [queue[0]] + queue[1..];
    assert queue[0] in queue;
  }

  lemma KidsReached(b: BlockId -> Block, t1: Tree, start: BlockId, done: set<BlockId>, x: BlockId, rest: seq<BlockId>, kids: seq<BlockId>)
    requires forall i :: i in t1.entries ==> t1.entries[i].block == b(i)
    requires KidsOf(t1.entries, x, kids) && forall i :: i in rest ==> Reached(b, start, done, i)
    ensures forall i :: i in rest + kids ==> Reached(b, start, done + {x}, i)
  {
    forall i | i in rest + kids ensures Reached(b, start, done + {x}, i) {
      assert i in rest || i in kids;
    }
  }

  lemma RootAbsent(b: BlockId -> Block, t: Tree)
    requires Inv(b, t)
    ensures t.root.id !in t.entries
    ensures forall i :: i in t.entries ==> t.entries[i].block == b(i) && KidsOf(t.entries, i, t.entries[i].children)
  {}

  class BlockTree {
    var root: RootInfo
    var rootKids: seq<BlockId>
    var entries: map<BlockId, Entry>
    var payloads: map<nat, BodyIndex>
    ghost const world: BlockId -> Block
    ghost const origin: RootInfo
    ghost var committed: seq<Block>

    ghost function View(): Tree
      reads this
    {
      Tree(root, rootKids, entries)
    }

    /** The tree is well formed, and everything committed so far is one chain from the first root to the
        current one. */
    ghost predicate Valid()
      reads this
    {
      && Inv(world, View())
      && PayloadsExact(entries, payloads)
      && Chain(origin, committed)
      && root.seqNum == origin.seqNum + |committed|
      && root.id == Before(origin, committed, |committed|)
    }

    constructor (root: RootInfo, ghost world: BlockId -> Block)
      requires World(world) && root == Info(world(root.id))
      ensures Valid() && this.root == root && entries == map[] && this.world == world && committed == []
    {
      this.root, rootKids, entries, payloads := root, [], map[], map[];
      this.world, origin, committed := world, root, [];
    }

    predicate IsCoherent(id: BlockId)
      reads this
    {
      id == root.id || (id in entries && entries[id].coherent)
    }

    predicate IsValidToInsert(blk: Block)
      reads this
    {
      blk.id !in entries && blk.round > root.round
    }

    /** Takes an entry out of the tree and out of the payload index. */
    method Remove(id: BlockId) returns (e: Option<Entry>)
      requires PayloadsExact(entries, payloads)
      modifies this`entries, this`payloads
      ensures PayloadsExact(entries, payloads)
      ensures entries == old(entries) - {id}
      ensures e == if id in old(entries) then Some(old(entries)[id]) else None
    {
      if id !in entries {
        return None;
      }
      e := Some(entries[id]);
      var k := entries[id].block.bodyId;
      entries := entries - {id};
      var idx := payloads[k];
      idx := idx.(active := idx.active - {id});
      if idx.active == {} {
        payloads := payloads - {k};
      } else {
        payloads := payloads[k := idx];
      }
    }

    /** The present blocks that name `id` as their parent. */
    method ChildrenOf(id: BlockId) returns (kids: seq<BlockId>)
      ensures KidsOf(entries, id, kids)
    {
      kids := [];
      var todo := entries.Keys;
      while todo != {}
        invariant todo <= entries.Keys && NoDup(kids)
        invariant forall c :: c in kids <==> c in entries && c !in todo && entries[c].block.parent == id
      {
        var c :| c in todo;
        if entries[c].block.parent == id {
          kids := kids + [c];
        }
        todo := todo - {c};
      }
    }

    /** Files the body of a new block. */
    method IndexBody(blk: Block, ghost before: map<BlockId, Entry>)
      requires PayloadsExact(before, payloads) && blk.id !in before
      requires entries.Keys == before.Keys + {blk.id} && entries[blk.id].block == blk
      requires forall i :: i in before ==> entries[i].block == before[i].block && SameBody(before[i].block, blk)
      modifies this`payloads
      ensures PayloadsExact(entries, payloads)
    {
      var idx := if blk.bodyId in payloads then payloads[blk.bodyId] else BodyIndex(blk.body, {});
      BodyIndexed(before, payloads, blk);
      payloads := payloads[blk.bodyId := idx.(active := idx.active + {blk.id})];
      forall i | i in entries ensures i == blk.id || i in before {}
      forall k, i | k in payloads ensures i in payloads[k].active <==> i in entries && entries[i].block.bodyId == k {
        assert i in before ==> entries[i].block == before[i].block;
      }
    }

    /** Adds a block that is new and above the root. */
    method Insert(blk: Block)
      requires Valid() && blk == world(blk.id) && IsValidToInsert(blk)
      modifies this`entries, this`payloads, this`rootKids
      ensures Valid()
      ensures exists kids :: KidsOf(old(entries), blk.id, kids) && View() == Inserted(old(View()), blk, kids)
    {
      hide Inv;
      hide KidsOf;
      hide PayloadsExact;
      hide Chain;
      var kids := ChildrenOf(blk.id);
      InsertedInv(world, View(), blk.id, kids);
      InsertBodies(world, View(), blk.id);
      entries := entries[blk.id := Entry(blk, false, kids)];
      if blk.parent in entries && blk.parent != blk.id {
        var pe := entries[blk.parent];
        entries := entries[blk.parent := pe.(children := pe.children + [blk.id])];
      }
      IndexBody(blk, old(entries));
      if blk.parent == root.id {
        rootKids := rootKids + [blk.id];
      }
      assert View() == Inserted(old(View()), blk, kids);
    }

    /** Inserts a block unless it is present or not above the root. */
    method Add(blk: Block)
      requires Valid() && blk == world(blk.id)
      modifies this`entries, this`payloads, this`rootKids
      ensures Valid()
      ensures blk.id in entries <==> blk.id in old(entries) || old(root.round) < blk.round
      ensures !old(IsValidToInsert(blk)) ==> View() == old(View()) && payloads == old(payloads)
      ensures old(IsValidToInsert(blk)) ==> exists kids :: KidsOf(old(entries), blk.id, kids) && View() == Inserted(old(View()), blk, kids)
    {
      if IsValidToInsert(blk) {
        Insert(blk);
      }
    }

    /** The blocks from just above the root to `id`, lowest first; nothing when the path is broken. */
    method GetBlocksOnPathFromRoot(id: BlockId) returns (p: Option<seq<Block>>)
      requires Inv(world, View())
      ensures p.Some? <==> id == root.id || OnTree(world, View(), id)
      ensures p.Some? ==> p.value == Path(world, root.id, entries.Keys, id)
    {
      if id == root.id {
        return Some([]);
      }
      var blocks, visit := [], id;
      assert Reversed([]) == [];
      while true
        invariant visit != root.id
        invariant OnTree(world, View(), id) <==> OnTree(world, View(), visit)
        invariant OnTree(world, View(), id) ==>
                    Path(world, root.id, entries.Keys, id) == Path(world, root.id, entries.Keys, visit) + Reversed(blocks)
        decreases world(visit).round
      {
        if visit !in entries {
          return None;
        }
        WorldSane(world, visit);
        var vb := entries[visit].block;
        ReversedSnoc(blocks, vb);
        blocks := blocks + [vb];
        if vb.parent == root.id {
          return Some(Reversed(blocks));
        }
        visit := vb.parent;
      }
    }

    /** The first incoherent block on a path, if any. */
    method FirstIncoherent(path: seq<Block>, ghost id: BlockId) returns (start: Option<BlockId>)
      requires Inv(world, View()) && (id == root.id || OnTree(world, View(), id)) && path == Path(world, root.id, entries.Keys, id)
      ensures start.Some? ==> Checkable(world, View(), start.value) && world(start.value) in path
      ensures start.None? <==> forall blk :: blk in path ==> blk.id in entries && entries[blk.id].coherent
    {
      for k := 0 to |path|
        invariant forall l :: 0 <= l < k ==> path[l].id in entries && entries[path[l].id].coherent
      {
        PathAt(world, View(), id, k);
        if !entries[path[k].id].coherent {
          return Some(path[k].id);
        }
      }
      start := None;
    }

    /** Checks the block at the head of the queue. */
    method Visit(check: Policy, out0: seq<Block>, queue0: seq<BlockId>, ghost t: Tree, ghost start: BlockId)
        returns (out: seq<Block>, queue: seq<BlockId>)
      requires queue0 != [] && Sound(check)
      requires View() == MarkedAll(t, Ids(out0)) && Search(world, check, t, start, Ids(out0), queue0)
      modifies this`entries
      ensures View() == MarkedAll(t, Ids(out)) && Search(world, check, t, start, Ids(out), queue)
      ensures |Incoherent(entries)| < |old(Incoherent(entries))| || (entries == old(entries) && |queue| < |queue0|)
    {
      hide Inv;
      hide Waiting;
      hide Accepted;
      hide Rejected;
      hide KidsOf;
      hide Sound;
      SearchHead(world, check, t, start, Ids(out0), queue0);
      var next := queue0[0];
      var extending := GetBlocksOnPathFromRoot(next);
      NextBlock(world, t, next);
      var blk := extending.value[|extending.value| - 1];
      if check(blk, extending.value[..|extending.value| - 1], root) {
        SearchAccept(world, check, t, start, Ids(out0), queue0);
        MarkedMore(t, Ids(out0), next);
        IncoherentLess(entries, next);
        IdsSnoc(out0, blk);
        queue := queue0[1..] + entries[next].children;
        entries := entries[next := entries[next].(coherent := true)];
        out := out0 + [blk];
      } else {
        SearchReject(world, check, t, start, Ids(out0), queue0);
        out, queue := out0, queue0[1..];
      }
    }

    /** Checks blocks outward from the first incoherent one on the path to `id`, and returns those that
        became coherent. Exactly the accepted blocks reached through accepted blocks are marked. */
    method TryUpdateCoherency(id: BlockId, check: Policy) returns (out: seq<Block>, ghost start: Option<BlockId>)
      requires Valid() && Sound(check)
      modifies this`entries
      ensures Valid()
      ensures start.None? <==> old(Settled(world, View(), id))
      ensures start.None? ==> out == [] && View() == old(View())
      ensures start.Some? ==>
                && old((id == root.id || OnTree(world, View(), id)) && world(start.value) in Path(world, root.id, entries.Keys, id))
                && old(Checkable(world, View(), start.value))
                && View() == MarkedAll(old(View()), Ids(out))
                && old(Search(world, check, View(), start.value, Ids(out), []))
    {
      hide Inv;
      hide PayloadsExact;
      hide Chain;
      hide Waiting;
      hide Accepted;
      hide Rejected;
      hide Sound;
      ghost var t := View();
      out, start := [], None;
      var path := GetBlocksOnPathFromRoot(id);
      if path.None? {
        return;
      }
      var first := FirstIncoherent(path.value, id);
      if first.None? {
        return;
      }
      start := first;
      SearchStart(world, check, t, first.value);
      assert Ids([]) == {};
      var queue := [first.value];
      while queue != []
        invariant Search(world, check, t, first.value, Ids(out), queue)
        invariant View() == MarkedAll(t, Ids(out))
        decreases |Incoherent(entries)|, |queue|
      {
        out, queue := Visit(check, out, queue, t, first.value);
      }
      PayloadsMarked(t, Ids(out), payloads);
    }

    /** Removes the path up to `newRoot` and returns it, highest block first; nothing when the path breaks. */
    method TakePath(newRoot: BlockId) returns (blocks: Option<seq<Block>>)
      requires Inv(world, View()) && PayloadsExact(entries, payloads)
      modifies this`entries, this`payloads
      ensures World(world) && (blocks.Some? <==> old(Linked(world, View(), newRoot)))
      ensures blocks.Some? ==> PayloadsExact(entries, payloads) && entries == old(entries) - Ids(blocks.value)
      ensures blocks.Some? ==> Reversed(blocks.value) == old(Path(world, root.id, entries.Keys, newRoot))
    {
      hide PayloadsExact;
      hide Inv;
      hide World;
      hide Linked;
      InvWorld(world, View());
      ghost var t := View();
      var visit, taken := newRoot, [];
      LinkedPath(world, t, newRoot);
      assert Reversed([]) == [] && Ids([]) == {};
      while visit != root.id
        invariant Linked(world, t, newRoot) <==> Linked(world, t, visit)
        invariant Linked(world, t, newRoot) ==> t.root.id == visit || OnTree(world, t, visit)
        invariant Linked(world, t, newRoot) ==>
                    Path(world, t.root.id, t.entries.Keys, newRoot) == Path(world, t.root.id, t.entries.Keys, visit) + Reversed(taken)
        invariant forall k :: 0 <= k < |taken| ==> world(visit).round < taken[k].round && taken[k] == world(taken[k].id)
        invariant entries == t.entries - Ids(taken)
        invariant PayloadsExact(entries, payloads)
        decreases world(visit).round
      {
        LinkedPath(world, t, visit);
        var e := Remove(visit);
        if e.None? || !e.value.coherent {
          return None;
        }
        LinkedStep(world, t, visit);
        var vb := e.value.block;
        ReversedSnoc(taken, vb);
        IdsSnoc(taken, vb);
        taken := taken + [vb];
        visit := vb.parent;
        LinkedPath(world, t, visit);
      }
      LinkedRoot(world, t);
      blocks := Some(taken);
    }

    /** Looks at one connected block for the best committable certificate so far. */
    method Consider(bid: BlockId, high0: Option<Cert>) returns (high: Option<Cert>)
      requires bid in entries
      ensures high == if Carries(View(), bid) && (high0.None? || high0.value.round < entries[bid].block.qcRound)
                      then Some(CertOf(entries[bid].block)) else high0
    {
      var blk := entries[bid].block;
      if (high0.Some? && high0.value.round >= blk.qcRound) || blk.parent !in entries {
        return high0;
      }
      var cid := Committable(blk.qcRound, entries[blk.parent].block);
      if cid.None? || cid.value == root.id || !IsCoherent(cid.value) {
        return high0;
      }
      high := Some(CertOf(blk));
    }

    /** The highest certificate carried by a connected block that commits a coherent block above the root. */
    method GetHighCommittableQc() returns (high: Option<Cert>)
      requires Inv(world, View())
      ensures World(world) && (high.None? <==> forall c :: c in entries && OnTree(world, View(), c) ==> !Carries(View(), c))
      ensures high.Some? ==> exists c :: c in entries && OnTree(world, View(), c) && Carries(View(), c)
                                         && high.value == Cert(entries[c].block.qcRound, entries[c].block.parent)
      ensures high.Some? ==> forall c :: c in entries && OnTree(world, View(), c) && Carries(View(), c) ==> entries[c].block.qcRound <= high.value.round
    {
      hide Inv;
      hide World;
      hide Sweep;
      hide Best;
      hide Connected;
      InvWorld(world, View());
      var queue := rootKids;
      ghost var seen := {};
      high := None;
      BestNone(View());
      SweepStart(world, View());
      while queue != []
        invariant Sweep(world, View(), seen, queue) && Best(View(), seen, high)
        decreases |entries.Keys - seen|
      {
        var bid := queue[0];
        SweepStep(world, View(), seen, queue);
        queue := queue[1..] + entries[bid].children;
        ghost var before := high;
        high := Consider(bid, high);
        BestMore(View(), seen, bid, before);
        seen := seen + {bid};
      }
      SweepDone(world, View(), seen);
      BestDone(View(), seen, high);
      hide Carries;
    }

    /** Drops the blocks certified below round `r`. */
    method CollectGarbage(r: nat)
      requires PayloadsExact(entries, payloads)
      modifies this`entries, this`payloads
      ensures PayloadsExact(entries, payloads)
      ensures entries == map i | i in old(entries) && r <= old(entries)[i].block.qcRound :: old(entries)[i]
    {
      hide PayloadsExact;
      var todo := set i | i in entries && entries[i].block.qcRound < r;
      ghost var gone := todo;
      while todo != {}
        invariant todo <= gone && PayloadsExact(entries, payloads)
        invariant entries == old(entries) - (gone - todo)
      {
        var i :| i in todo;
        var e := Remove(i);
        todo := todo - {i};
      }
    }

    /** Re-roots the tree once the path `taken` is gone, and drops what can no longer connect. */
    method Reroot(newRoot: BlockId, e: Entry, ghost t: Tree, ghost taken: seq<Block>)
      requires Inv(world, t) && World(world) && newRoot in t.entries && e == t.entries[newRoot] && OnTree(world, t, newRoot)
      requires Reversed(taken) == Path(world, t.root.id, t.entries.Keys, newRoot)
      requires entries == t.entries - Ids(taken) && PayloadsExact(entries, payloads)
      modifies this`root, this`rootKids, this`entries, this`payloads
      ensures View() == Pruned(world, t, newRoot) && Inv(world, View()) && PayloadsExact(entries, payloads)
    {
      hide Inv;
      hide World;
      hide PayloadsExact;
      hide Connected;
      RootAbsent(world, t);
      PrunedEntries(world, t, newRoot, taken);
      PrunedInv(world, t, newRoot);
      CollectGarbage(e.block.round);
      root := Info(e.block);
      rootKids := e.children;
    }

    /** Commits the path to `newRoot`: returns its blocks lowest first, re-roots the tree there and drops
        what can no longer connect. `None` is the panic: the block is incoherent or its path to the root is
        broken. */
    method Prune(newRoot: BlockId) returns (commit: Option<seq<Block>>)
      requires Valid()
      modifies this
      ensures World(world) && (commit.Some? <==> old(Linked(world, View(), newRoot)))
      ensures commit.Some? ==> Valid() && commit.value == old(Path(world, root.id, entries.Keys, newRoot))
      ensures commit.Some? ==> committed == old(committed) + commit.value
      ensures commit.Some? ==> Chain(old(root), commit.value) && root.id == newRoot
      ensures commit.Some? ==> View() == if newRoot == old(root.id) then old(View()) else Pruned(world, old(View()), newRoot)
    {
      hide Inv;
      hide World;
      hide PayloadsExact;
      hide Chain;
      hide Connected;
      InvWorld(world, View());
      ghost var t := View();
      if !IsCoherent(newRoot) {
        return None;
      }
      if newRoot == root.id {
        CoherentPath(world, t, newRoot);
        assert committed + [] == committed;
        return Some([]);
      }
      var e := entries[newRoot];
      var blocks := TakePath(newRoot);
      if blocks.None? {
        return None;
      }
      Reroot(newRoot, e, t, blocks.value);
      commit := Some(Reversed(blocks.value));
      CommitGrows(world, origin, committed, t, newRoot);
      committed := committed + commit.value;
    }
  }

  /** Appending the path to a coherent connected block keeps everything committed one chain. */
  lemma CommitGrows(b: BlockId -> Block, origin: RootInfo, committed: seq<Block>, t: Tree, i: BlockId)
    requires Inv(b, t) && World(b) && i != t.root.id && Linked(b, t, i) && Chain(origin, committed)
    requires t.root.seqNum == origin.seqNum + |committed| && t.root.id == Before(origin, committed, |committed|)
    ensures var p := Path(b, t.root.id, t.entries.Keys, i);
            var all := committed + p;
            && Chain(t.root, p) && Chain(origin, all) && i == Before(origin, all, |all|)
            && b(i).seqNum == origin.seqNum + |all| && b(i).id == i
  {
    hide Inv;
    hide World;
    CoherentPath(b, t, i);
    var p := Path(b, t.root.id, t.entries.Keys, i);
    ChainConcat(origin, committed, t.root, p);
    hide Chain;
    PathHead(b, t, i);
    var all := committed + p;
    assert all[|all| - 1] == p[|p| - 1] == b(i);
  }

  /** A coherent block, or the root, with an unbroken path to the root. */
  ghost predicate Linked(b: BlockId -> Block, t: Tree, i: BlockId)
    requires World(b)
  {
    i == t.root.id || (OnTree(b, t, i) && i in t.entries && t.entries[i].coherent)
  }

  lemma LinkedRoot(b: BlockId -> Block, t: Tree)
    requires World(b)
    ensures Linked(b, t, t.root.id)
  {}

  lemma LinkedPath(b: BlockId -> Block, t: Tree, i: BlockId)
    requires World(b)
    ensures Linked(b, t, i) ==> i == t.root.id || (OnTree(b, t, i) && i in t.entries && t.entries[i].coherent)
    ensures i != t.root.id && !(i in t.entries && t.entries[i].coherent) ==> !Linked(b, t, i)
  {}

  /** A coherent block is linked exactly when its parent is. */
  lemma LinkedStep(b: BlockId -> Block, t: Tree, i: BlockId)
    requires Inv(b, t) && World(b) && i != t.root.id && i in t.entries && t.entries[i].coherent
    ensures t.entries[i].block == b(i) && b(i).id == i && b(b(i).parent).round < b(i).round
    ensures Linked(b, t, i) <==> Linked(b, t, b(i).parent)
    ensures Linked(b, t, i) ==>
              Path(b, t.root.id, t.entries.Keys, i) == Path(b, t.root.id, t.entries.Keys, b(i).parent) + [b(i)]
  {
    assert Sane(b, i);
    if OnTree(b, t, i) {
      CoherentParent(b, t, i);
    }
  }

  // ---- committable certificates ----

  /** A certificate: its round and the block it certifies. */
  datatype Cert = Cert(round: nat, id: BlockId)

  function CertOf(blk: Block): Cert {
    Cert(blk.qcRound, blk.parent)
  }

  /** The block a certificate of `qcRound` over `parent` commits: the grandparent, when the two
      certificates are of consecutive rounds. */
  function Committable(qcRound: nat, parent: Block): Option<BlockId> {
    if qcRound == parent.qcRound + 1 then Some(parent.parent) else None
  }

  /** The two-chain rule: the certified block is present, its own certificate is of the round just before and
      names `g`, and `g` is the root or coherent. */
  ghost predicate TwoChain(t: Tree, qc: Cert, g: BlockId) {
    && qc.id in t.entries && qc.round - t.entries[qc.id].block.qcRound == 1 && t.entries[qc.id].block.parent == g
    && (g == t.root.id || (g in t.entries && t.entries[g].coherent))
  }

  /** Block `c` carries a certificate over a block whose own certificate is of the round just before and names a
      coherent block other than the root. */
  ghost predicate Carries(t: Tree, c: BlockId)
    requires c in t.entries
  {
    var blk := t.entries[c].block;
    && blk.parent in t.entries
    && var p := t.entries[blk.parent].block;
       blk.qcRound - p.qcRound == 1 && p.parent in t.entries && t.entries[p.parent].coherent && p.parent != t.root.id
  }

  /** The sweep has seen `seen` and will see `queue`: connected blocks, closed under children. */
  ghost predicate Sweep(b: BlockId -> Block, t: Tree, seen: set<BlockId>, queue: seq<BlockId>)
    requires World(b)
  {
    && NoDup(queue)
    && (forall c :: c in seen ==> c in t.entries && OnTree(b, t, c))
    && (forall c :: c in queue ==> c in t.entries && OnTree(b, t, c) && c !in seen && (b(c).parent == t.root.id || b(c).parent in seen))
    && (forall c :: c in seen ==> b(c).parent == t.root.id || b(c).parent in seen)
    && (forall c :: c in t.entries && (b(c).parent == t.root.id || b(c).parent in seen) ==> c in seen || c in queue)
  }

  ghost predicate Best(t: Tree, seen: set<BlockId>, high: Option<Cert>) {
    && (forall c :: c in seen && c in t.entries && Carries(t, c) ==> high.Some? && t.entries[c].block.qcRound <= high.value.round)
    && (high.Some? ==> exists c :: c in seen && c in t.entries && Carries(t, c) && high.value == CertOf(t.entries[c].block))
  }

  lemma BestNone(t: Tree)
    ensures Best(t, {}, None)
  {}

  lemma BestMore(t: Tree, seen: set<BlockId>, c: BlockId, high: Option<Cert>)
    requires Best(t, seen, high) && c in t.entries
    ensures var blk := t.entries[c].block;
            Best(t, seen + {c}, if Carries(t, c) && (high.None? || high.value.round < blk.qcRound) then Some(CertOf(blk)) else high)
  {
    hide Carries;
    if Carries(t, c) && (high.None? || high.value.round < t.entries[c].block.qcRound) {
      assert c in seen + {c};
    } else if high.Some? {
      var d :| d in seen && d in t.entries && Carries(t, d) && high.value == CertOf(t.entries[d].block);
      assert d in seen + {c};
    }
  }

  lemma BestDone(t: Tree, seen: set<BlockId>, high: Option<Cert>)
    requires Best(t, seen, high)
    ensures high.None? ==> forall c :: c in seen && c in t.entries ==> !Carries(t, c)
    ensures high.Some? ==> exists c :: c in seen && c in t.entries && Carries(t, c) && high.value == CertOf(t.entries[c].block)
    ensures high.Some? ==> forall c :: c in seen && c in t.entries && Carries(t, c) ==> t.entries[c].block.qcRound <= high.value.round
  {}

  lemma ChildOnTree(b: BlockId -> Block, t: Tree, c: BlockId)
    requires Inv(b, t) && World(b) && c in t.entries && (b(c).parent == t.root.id || OnTree(b, t, b(c).parent))
    ensures OnTree(b, t, c)
  {
    assert Sane(b, c);
  }

  lemma SweepStart(b: BlockId -> Block, t: Tree)
    requires Inv(b, t) && World(b)
    ensures Sweep(b, t, {}, t.rootKids)
  {
    forall c | c in t.rootKids ensures OnTree(b, t, c) {
      ChildOnTree(b, t, c);
    }
  }

  lemma SweepStep(b: BlockId -> Block, t: Tree, seen: set<BlockId>, queue: seq<BlockId>)
    requires Inv(b, t) && World(b) && Sweep(b, t, seen, queue) && queue != []
    ensures queue[0] in t.entries && queue[0] !in seen
    ensures Sweep(b, t, seen + {queue[0]}, queue[1..] + t.entries[queue[0]].children)
  {
    var x, rest := queue[0], queue[1..];
    RootAbsent(b, t);
    var kids := t.entries[x].children;
    forall c | c in kids ensures OnTree(b, t, c) && c !in seen && c !in queue {
      ChildOnTree(b, t, c);
    }
    NoDupConcat(rest, kids);
  }

  /** A finished sweep has seen every connected block. */
  lemma {:induction false} SweepAll(b: BlockId -> Block, t: Tree, seen: set<BlockId>, c: BlockId)
    requires World(b) && Sweep(b, t, seen, []) && OnTree(b, t, c)
    ensures c in seen
    decreases b(c).round
  {
    assert Sane(b, c);
    if b(c).parent != t.root.id {
      SweepAll(b, t, seen, b(c).parent);
    }
  }

  lemma SweepDone(b: BlockId -> Block, t: Tree, seen: set<BlockId>)
    requires World(b) && Sweep(b, t, seen, [])
    ensures forall c :: c in t.entries && OnTree(b, t, c) <==> c in seen
  {
    forall c | c in t.entries && OnTree(b, t, c) ensures c in seen {
      SweepAll(b, t, seen, c);
    }
  }

  /** What a connected block's certificate commits is linked to the root. */
  lemma CarriedLinked(b: BlockId -> Block, t: Tree, c: BlockId)
    requires Inv(b, t) && World(b) && c in t.entries && OnTree(b, t, c) && Carries(t, c)
    ensures var blk := t.entries[c].block;
            blk.parent in t.entries && Linked(b, t, t.entries[blk.parent].block.parent)
  {
    RootAbsent(b, t);
    assert OnTree(b, t, b(c).parent);
  }

  /** What is certified directly above a committed block stays in the tree. */
  lemma CertifiedStays(b: BlockId -> Block, t: Tree, p: BlockId, g: BlockId)
    requires Inv(b, t) && p in t.entries && g in t.entries && b(p).parent == g
    ensures p in Pruned(b, t, g).entries && Pruned(b, t, g).entries[p] == t.entries[p]
  {
    assert Sane(b, p);
  }

  lemma InvWorld(b: BlockId -> Block, t: Tree)
    requires Inv(b, t)
    ensures World(b)
  {}

  /** Everything on the path was certified below its last block. */
  lemma {:induction false} PathBelow(b: BlockId -> Block, root: BlockId, keys: set<BlockId>, i: BlockId)
    requires World(b) && (i == root || Connected(b, root, keys, i))
    ensures forall blk :: blk in Path(b, root, keys, i) ==> blk.qcRound < blk.round <= b(i).round && blk == b(blk.id)
    decreases b(i).round
  {
    assert Sane(b, i);
    if i != root {
      PathBelow(b, root, keys, b(i).parent);
    }
  }

  lemma PrunedEntries(b: BlockId -> Block, t: Tree, i: BlockId, blocks: seq<Block>)
    requires Inv(b, t) && World(b) && i in t.entries && OnTree(b, t, i)
    requires Reversed(blocks) == Path(b, t.root.id, t.entries.Keys, i)
    ensures var left := t.entries - Ids(blocks);
            (map j | j in left && b(i).round <= left[j].block.qcRound :: left[j]) == Pruned(b, t, i).entries
  {
    PathBelow(b, t.root.id, t.entries.Keys, i);
    forall j | j in Ids(blocks) ensures b(j).qcRound < b(i).round {
      var k :| 0 <= k < |blocks| && blocks[k].id == j;
      assert blocks[k] == Reversed(blocks)[|blocks| - 1 - k];
      assert blocks[k] in Path(b, t.root.id, t.entries.Keys, i);
    }
  }

  lemma ChainConcat(origin: RootInfo, a: seq<Block>, root: RootInfo, c: seq<Block>)
    requires Chain(origin, a) && Chain(root, c)
    requires root.seqNum == origin.seqNum + |a| && root.id == Before(origin, a, |a|)
    ensures Chain(origin, a + c)
  {}

  lemma PathHead(b: BlockId -> Block, t: Tree, i: BlockId)
    requires Inv(b, t) && i != t.root.id && OnTree(b, t, i) && t.entries[i].coherent
    ensures i in t.entries && t.entries[i].block == b(i) && b(i).id == i && World(b)
    ensures var p := b(i).parent;
            && b(p).round < b(i).round
            && (p == t.root.id || (OnTree(b, t, p) && t.entries[p].coherent))
            && Path(b, t.root.id, t.entries.Keys, i) == Path(b, t.root.id, t.entries.Keys, p) + [b(i)]
  {
    CoherentParent(b, t, i);
    assert Sane(b, i);
  }

  lemma PayloadsMarked(t: Tree, done: set<BlockId>, payloads: map<nat, BodyIndex>)
    requires PayloadsExact(t.entries, payloads)
    ensures PayloadsExact(MarkedAll(t, done).entries, payloads)
  {}

  lemma NextBlock(b: BlockId -> Block, t: Tree, i: BlockId)
    requires World(b) && OnTree(b, t, i) && i != t.root.id
    ensures var p := Path(b, t.root.id, t.entries.Keys, i);
            p != [] && p[|p| - 1] == b(i) && p[|p| - 1].id == i && p[..|p| - 1] == Path(b, t.root.id, t.entries.Keys, b(i).parent)
  {
    assert Sane(b, i);
  }

  ghost function Ids(blocks: seq<Block>): set<BlockId> {
    set k | 0 <= k < |blocks| :: blocks[k].id
  }

  lemma IdsSnoc(blocks: seq<Block>, blk: Block)
    ensures Ids(blocks + [blk]) == Ids(blocks) + {blk.id}
  {
    var all := blocks + [blk];
    forall i | i in Ids(blocks) ensures i in Ids(all) {
      var k :| 0 <= k < |blocks| && blocks[k].id == i;
      assert all[k].id == i;
    }
    assert all[|blocks|].id == blk.id;
  }

  ghost function Incoherent(entries: map<BlockId, Entry>): set<BlockId> {
    set i | i in entries && !entries[i].coherent
  }

  lemma IncoherentLess(entries: map<BlockId, Entry>, x: BlockId)
    requires x in entries && !entries[x].coherent
    ensures |Incoherent(entries[x := entries[x].(coherent := true)])| < |Incoherent(entries)|
  {
    assert Incoherent(entries[x := entries[x].(coherent := true)]) == Incoherent(entries) - {x};
    assert x in Incoherent(entries);
  }

  /** Position `k` of a path is a connected block whose parent is the root or position `k - 1`. */
  lemma {:induction false} PathAt(b: BlockId -> Block, t: Tree, i: BlockId, k: nat)
    requires Inv(b, t) && (i == t.root.id || OnTree(b, t, i))
    requires k < |Path(b, t.root.id, t.entries.Keys, i)|
    ensures var p := Path(b, t.root.id, t.entries.Keys, i);
            && p[k] == b(p[k].id) && OnTree(b, t, p[k].id) && p[k].id in t.entries
            && p[k].parent == Before(t.root, p, k)
    decreases b(i).round
  {
    assert Sane(b, i);
    var p, q := Path(b, t.root.id, t.entries.Keys, i), b(i).parent;
    var p' := Path(b, t.root.id, t.entries.Keys, q);
    assert p == p' + [b(i)];
    if k < |p'| {
      PathAt(b, t, q, k);
    } else if q != t.root.id {
      assert Sane(b, q);
    }
  }

  lemma BodyIndexed(entries: map<BlockId, Entry>, payloads: map<nat, BodyIndex>, blk: Block)
    requires PayloadsExact(entries, payloads)
    requires forall i :: i in entries ==> SameBody(entries[i].block, blk)
    ensures blk.bodyId in payloads ==> payloads[blk.bodyId].body == blk.body
  {
    if blk.bodyId in payloads {
      var i :| i in payloads[blk.bodyId].active;
      assert i in entries;
    }
  }

  lemma InsertBodies(b: BlockId -> Block, t: Tree, id: BlockId)
    requires Inv(b, t)
    ensures b(id).id == id && (id != GENESIS ==> b(id).parent != id)
    ensures forall i :: i in t.entries ==> SameBody(t.entries[i].block, b(id))
  {
    assert Sane(b, id);
    forall i | i in t.entries ensures SameBody(t.entries[i].block, b(id)) {
      assert SameBody(b(i), b(id));
    }
  }
}
