/** Speculative execution over a versioned store, under every interleaving of the spec worker and the
    canonical-commit worker. Each method is one critical section. */
module Speculation {
  import opened Wrappers

  type BlockId = nat

  /** Application states and execution outcomes, by number. */
  type AppState = nat
  type Outcome = nat

  const GENESIS: BlockId := 0

  datatype Block = Block(id: BlockId, parent: BlockId, height: nat)

  datatype SpecEntry = SpecEntry(outcome: Outcome, id: BlockId)

  /** Executing a block is a function of the state it starts from. */
  type Engine = (AppState, Block) -> (AppState, Outcome)

  /** The states of a store that executes `blocks` one after the other. */
  ghost function States(run: Engine, s: AppState, blocks: seq<Block>): (v: seq<AppState>)
    ensures |v| == |blocks| + 1
  {
    if blocks == [] then [s]
    else
      var v := States(run, s, blocks[..|blocks| - 1]);
      v + [run(v[|v| - 1], blocks[|blocks| - 1]).0]
  }

  /** What plain sequential execution reports for the last block. */
  ghost function Reported(run: Engine, s: AppState, blocks: seq<Block>): Outcome
    requires blocks != []
  {
    var n := |blocks| - 1;
    run(States(run, s, blocks[..n])[n], blocks[n]).1
  }

  lemma {:induction false} StatesPrefix(run: Engine, s: AppState, blocks: seq<Block>, k: nat)
    requires k <= |blocks|
    ensures States(run, s, blocks)[..k + 1] == States(run, s, blocks[..k])
    decreases |blocks|
  {
    if k == |blocks| {
      assert blocks[..k] == blocks;
    } else {
      var n := |blocks| - 1;
      StatesPrefix(run, s, blocks[..n], k);
      assert blocks[..n][..k] == blocks[..k];
    }
  }

  /** Heights count up from one and each block names the one before it. */
  ghost predicate Lineage(blocks: seq<Block>) {
    forall k :: 0 <= k < |blocks| ==> blocks[k].height == k + 1 && blocks[k].parent == TipOf(blocks, k)
  }

  function TipOf(blocks: seq<Block>, k: nat): BlockId
    requires k <= |blocks|
  {
    if k == 0 then GENESIS else blocks[k - 1].id
  }

  // ---- what ties the store, the index and the finalized chain together ----

  /** Everything recorded is what executing only the finalized chain reports. */
  ghost predicate Recorded(run: Engine, g: AppState, results: map<nat, Outcome>, n: nat, finalized: seq<Block>) {
    && n <= |finalized|
    && (forall h :: h in results <==> 1 <= h <= n)
    && (forall h :: h in results && 1 <= h <= n ==> results[h] == Reported(run, g, finalized[..h]))
  }

  /** A line of blocks, each the one its id names. */
  ghost predicate Known(world: BlockId -> Block, blocks: seq<Block>) {
    Lineage(blocks) && forall k :: 0 <= k < |blocks| ==> blocks[k] == world(blocks[k].id)
  }

  /** The executed line starts with the canonical blocks. */
  ghost predicate Agrees(line: seq<Block>, finalized: seq<Block>, n: nat) {
    n <= |line| && n <= |finalized| && line[..n] == finalized[..n]
  }

  /** The index holds exactly the executed blocks above `base`, with what executing their line reports. */
  ghost predicate Indexed(run: Engine, g: AppState, bySeq: map<nat, SpecEntry>, line: seq<Block>, base: nat) {
    && (forall h :: h in bySeq <==> base < h <= |line|)
    && (forall h :: h in bySeq && 0 < h <= |line| ==> bySeq[h].id == line[h - 1].id && bySeq[h].outcome == Reported(run, g, line[..h]))
  }

  ghost predicate Inverse(bySeq: map<nat, SpecEntry>, byId: map<BlockId, nat>) {
    && (forall i :: i in byId ==> byId[i] in bySeq && bySeq[byId[i]].id == i)
    && (forall h :: h in bySeq ==> bySeq[h].id in byId && byId[bySeq[h].id] == h)
  }

  lemma RecordedGrow(run: Engine, g: AppState, results: map<nat, Outcome>, n: nat, finalized: seq<Block>, b: Block)
    requires Recorded(run, g, results, n, finalized)
    ensures Recorded(run, g, results, n, finalized + [b])
  {
    forall h | 1 <= h <= n ensures (finalized + [b])[..h] == finalized[..h] {}
  }

  lemma RecordedMore(run: Engine, g: AppState, results: map<nat, Outcome>, n: nat, finalized: seq<Block>, o: Outcome)
    requires Recorded(run, g, results, n, finalized) && n < |finalized| && o == Reported(run, g, finalized[..n + 1])
    ensures Recorded(run, g, results[n + 1 := o], n + 1, finalized)
  {}

  lemma LineageSnoc(blocks: seq<Block>, b: Block)
    requires Lineage(blocks) && b.height == |blocks| + 1 && b.parent == TipOf(blocks, |blocks|)
    ensures Lineage(blocks + [b])
  {}

  lemma KnownSnoc(world: BlockId -> Block, blocks: seq<Block>, b: Block)
    requires Known(world, blocks) && b == world(b.id) && b.height == |blocks| + 1 && b.parent == TipOf(blocks, |blocks|)
    ensures Known(world, blocks + [b])
  {
    hide Lineage;
    LineageSnoc(blocks, b);
  }

  lemma KnownPrefix(world: BlockId -> Block, blocks: seq<Block>, n: nat)
    requires Known(world, blocks) && n <= |blocks|
    ensures Known(world, blocks[..n])
  {}

  /** Executing one more block on top of a line. */
  lemma Extended(run: Engine, s: AppState, blocks: seq<Block>, b: Block)
    ensures var v := States(run, s, blocks);
            && States(run, s, blocks + [b]) == v + [run(v[|blocks|], b).0]
            && Reported(run, s, blocks + [b]) == run(v[|blocks|], b).1
  {}

  lemma IndexedSnoc(run: Engine, g: AppState, bySeq: map<nat, SpecEntry>, line: seq<Block>, base: nat, b: Block)
    requires Indexed(run, g, bySeq, line, base) && base <= |line|
    ensures Indexed(run, g, bySeq[|line| + 1 := SpecEntry(Reported(run, g, line + [b]), b.id)], line + [b], base)
  {
    var all := line + [b];
    assert all[..|all|] == all;
    forall h: nat | 0 < h <= |line| ensures all[..h] == line[..h] && all[h - 1] == line[h - 1] {}
  }

  // Index entries above, or up to, a height.

  function Above(bySeq: map<nat, SpecEntry>, n: nat): map<nat, SpecEntry> {
    map h | h in bySeq && h > n :: bySeq[h]
  }

  function IdsAbove(byId: map<BlockId, nat>, n: nat): map<BlockId, nat> {
    map i | i in byId && byId[i] > n :: byId[i]
  }

  function UpTo(bySeq: map<nat, SpecEntry>, n: nat): map<nat, SpecEntry> {
    map h | h in bySeq && h <= n :: bySeq[h]
  }

  function IdsUpTo(byId: map<BlockId, nat>, n: nat): map<BlockId, nat> {
    map i | i in byId && byId[i] <= n :: byId[i]
  }

  lemma IndexedAbove(run: Engine, g: AppState, bySeq: map<nat, SpecEntry>, byId: map<BlockId, nat>, line: seq<Block>, base: nat, n: nat)
    requires Indexed(run, g, bySeq, line, base) && Inverse(bySeq, byId) && base <= n
    ensures Indexed(run, g, Above(bySeq, n), line, n) && Inverse(Above(bySeq, n), IdsAbove(byId, n))
  {}

  lemma IndexedUpTo(run: Engine, g: AppState, bySeq: map<nat, SpecEntry>, byId: map<BlockId, nat>, line: seq<Block>, base: nat)
    requires Indexed(run, g, bySeq, line, base) && Inverse(bySeq, byId) && base <= |line|
    ensures UpTo(bySeq, base) == map[] && IdsUpTo(byId, base) == map[]
    ensures Indexed(run, g, map[], line[..base], base) && Inverse(map[], map[])
  {}

  /** A block above the line is not in the index yet. */
  lemma InverseAdd(world: BlockId -> Block, run: Engine, g: AppState, bySeq: map<nat, SpecEntry>, byId: map<BlockId, nat>,
                   line: seq<Block>, base: nat, b: Block, o: Outcome)
    requires Inverse(bySeq, byId) && Indexed(run, g, bySeq, line, base) && Known(world, line)
    requires b == world(b.id) && b.height == |line| + 1
    ensures Inverse(bySeq[b.height := SpecEntry(o, b.id)], byId[b.id := b.height])
  {}

  /** Where the canonical-commit worker stands with the next finalized block. While syncing, blocks are
      replayed on the store behind the back of the index. */
  datatype Worker = Idle | Missed(block: Block) | Executed(block: Block, outcome: Outcome)
    | Syncing | Replayed(block: Block, outcome: Outcome)

  class SpecLedger {
    const run: Engine
    const genesis: AppState
    ghost const world: BlockId -> Block
    // the store and its canonical bookkeeping
    var store: seq<AppState>
    var committedHeight: nat
    var results: map<nat, Outcome>
    // the speculative index
    var tip: nat
    var tipId: BlockId
    var bySeq: map<nat, SpecEntry>
    var byId: map<BlockId, nat>
    // the commit queue and its worker
    var finalized: seq<Block>
    var worker: Worker
    ghost var line: seq<Block>

    /** Heights the index no longer owns: recorded, or being recorded. */
    ghost function Base(): nat
      reads this
    {
      if worker.Idle? || worker.Syncing? then committedHeight else committedHeight + 1
    }

    ghost predicate WorkerOk()
      reads this
    {
      committedHeight <= |finalized| && committedHeight <= |line| &&
      match worker
      case Idle => tip == |line| && tipId == TipOf(line, |line|) && (committedHeight == 0 ==> line == [])
      case Missed(b) =>
        && committedHeight < |finalized| && b == finalized[committedHeight]
        && |line| == committedHeight && tip == committedHeight + 1 && tipId == b.id
      case Executed(b, o) =>
        && committedHeight < |finalized| && b == finalized[committedHeight]
        && committedHeight < |line| && line[committedHeight] == b && o == Reported(run, genesis, finalized[..committedHeight + 1])
        && tip == |line| && tipId == TipOf(line, |line|)
      case Syncing => |line| == committedHeight && tip < committedHeight
      case Replayed(b, o) =>
        && committedHeight < |finalized| && b == finalized[committedHeight]
        && |line| == committedHeight + 1 && line[committedHeight] == b && o == Reported(run, genesis, finalized[..committedHeight + 1])
        && tip <= committedHeight
    }

    ghost predicate Valid()
      reads this
    {
      && Recorded(run, genesis, results, committedHeight, finalized)
      && store == States(run, genesis, line) && Known(world, line) && Known(world, finalized)
      && Agrees(line, finalized, committedHeight)
      && Indexed(run, genesis, bySeq, line, Base()) && Inverse(bySeq, byId)
      && WorkerOk()
    }

    constructor (run: Engine, genesis: AppState, ghost world: BlockId -> Block)
      ensures Valid() && this.run == run && this.genesis == genesis && this.world == world
      ensures finalized == [] && committedHeight == 0 && worker == Idle
    {
      this.run, this.genesis, this.world := run, genesis, world;
      store, committedHeight, results := [genesis], 0, map[];
      tip, tipId, bySeq, byId := 0, GENESIS, map[], map[];
      finalized, worker, line := [], Idle, [];
    }

    /** Consensus finalizes the next block. */
    method Finalize(b: Block)
      requires Valid() && b == world(b.id) && b.height == |finalized| + 1 && b.parent == TipOf(finalized, |finalized|)
      modifies this`finalized
      ensures Valid() && finalized == old(finalized) + [b]
    {
      hide Recorded;
      hide Indexed;
      hide Inverse;
      hide Known;
      RecordedGrow(run, genesis, results, committedHeight, finalized, b);
      KnownSnoc(world, finalized, b);
      finalized := finalized + [b];
      assert finalized[..committedHeight] == old(finalized)[..committedHeight];
      if worker.Executed? || worker.Replayed? {
        assert finalized[..committedHeight + 1] == old(finalized)[..committedHeight + 1];
      }
    }

    /** The spec worker takes a job: it executes only on top of the tip, and only if the store agrees, so a
        stale job is harmless between replayed blocks. Height one is never submitted. */
    method RunSpec(b: Block) returns (ok: bool)
      requires Valid() && b == world(b.id) && 2 <= b.height
      modifies this`store, this`tip, this`tipId, this`bySeq, this`byId, this`line
      ensures Valid()
      ensures ok <==> b.height == old(tip) + 1 && b.parent == old(tipId) && (worker.Idle? || worker.Executed?)
      ensures !ok ==> store == old(store) && tip == old(tip) && tipId == old(tipId) && bySeq == old(bySeq) && byId == old(byId)
      ensures ok ==> tip == b.height && tipId == b.id && byId == old(byId)[b.id := b.height]
    {
      hide Recorded;
      hide Indexed;
      hide Inverse;
      hide Known;
      StoreHeight();
      hide States;
      if b.height != tip + 1 || b.parent != tipId || b.height != |store| {
        return false;
      }
      Speculate(b);
      ok := true;
    }

    lemma StoreHeight()
      requires Valid()
      ensures |store| == |line| + 1
    {}

    /** Executes a block on top of the line and indexes it. */
    method Speculate(b: Block)
      requires Valid() && b == world(b.id) && (worker.Idle? || worker.Executed?) && b.height == tip + 1 && b.parent == tipId && 2 <= b.height
      modifies this`store, this`tip, this`tipId, this`bySeq, this`byId, this`line
      ensures Valid() && tip == b.height && tipId == b.id && byId == old(byId)[b.id := b.height]
    {
      hide Recorded;
      hide Indexed;
      hide Inverse;
      hide Known;
      hide States;
      var (s, o) := run(store[|store| - 1], b);
      Extended(run, genesis, line, b);
      KnownSnoc(world, line, b);
      IndexedSnoc(run, genesis, bySeq, line, Base(), b);
      InverseAdd(world, run, genesis, bySeq, byId, line, Base(), b, o);
      store := store + [s];
      tip, tipId := b.height, b.id;
      bySeq := bySeq[b.height := SpecEntry(o, b.id)];
      byId := byId[b.id := b.height];
      line := line + [b];
      assert line[..committedHeight] == old(line)[..committedHeight];
    }

    /** Rolls the store back to height `h`. The target is never genesis and never below what is recorded. */
    method RewindLocked(h: nat, id: BlockId)
      requires Valid() && worker.Idle? && h == committedHeight && 1 <= h && h < tip && id == TipOf(finalized, h)
      modifies this`store, this`tip, this`tipId, this`bySeq, this`byId, this`line
      ensures Valid() && tip == h && bySeq == map[] && byId == map[] && line == old(line)[..h] && store == old(store)[..h + 1]
    {
      hide Recorded;
      hide Indexed;
      hide Inverse;
      hide Known;
      hide States;
      StatesPrefix(run, genesis, line, h);
      KnownPrefix(world, line, h);
      IndexedUpTo(run, genesis, bySeq, byId, line, h);
      store := store[..h + 1];
      bySeq, byId := UpTo(bySeq, h), IdsUpTo(byId, h);
      tip, tipId := h, id;
      line := line[..h];
      assert line[..h] == line;
    }

    /** Drops index entries up to `seqNum`; the ledger owns those heights now. */
    method PruneIndex(seqNum: nat)
      requires Indexed(run, genesis, bySeq, line, committedHeight) && Inverse(bySeq, byId) && committedHeight <= seqNum
      modifies this`bySeq, this`byId
      ensures Indexed(run, genesis, bySeq, line, seqNum) && Inverse(bySeq, byId)
    {
      hide Inverse;
      hide Indexed;
      IndexedAbove(run, genesis, bySeq, byId, line, committedHeight, seqNum);
      bySeq, byId := Above(bySeq, seqNum), IdsAbove(byId, seqNum);
    }

    /** The canonical worker takes the next finalized block: a speculative result is served when this very
        block was executed; another block at its height is rolled back first. */
    method CommittedResult() returns (hit: bool)
      requires Valid() && worker.Idle? && committedHeight < |finalized|
      modifies this`store, this`tip, this`tipId, this`bySeq, this`byId, this`line, this`worker
      ensures Valid()
      ensures if hit then worker.Executed? else worker.Missed?
      ensures hit <==> old(finalized[committedHeight].id in byId)
      ensures hit ==> store == old(store)
    {
      hide Recorded;
      hide Inverse;
      hide States;
      hide Known;
      hide Indexed;
      var b := finalized[committedHeight];
      var seqNum := b.height;
      NextCanonical(world, run, genesis, bySeq, byId, line, finalized, committedHeight);
      if seqNum in bySeq && bySeq[seqNum].id == b.id {
        var o := bySeq[seqNum].outcome;
        PruneIndex(seqNum);
        worker := Executed(b, o);
        return true;
      }
      if seqNum in bySeq {
        RewindLocked(seqNum - 1, TipOf(finalized, committedHeight));
      }
      if seqNum > tip {
        tip, tipId := seqNum, b.id;
      }
      PruneIndex(seqNum);
      worker := Missed(b);
      hit := false;
    }

    /** Executes a missed block on the store, which is exactly at the height below it. */
    method FinalizeDirect()
      requires Valid() && worker.Missed?
      modifies this`store, this`line, this`worker
      ensures Valid() && worker.Executed? && |store| == |old(store)| + 1
    {
      hide Recorded;
      hide Inverse;
      hide States;
      hide Known;
      var b := worker.block;
      var (s, o) := run(store[|store| - 1], b);
      Extended(run, genesis, line, b);
      MissedExecutes(world, run, genesis, bySeq, line, finalized, committedHeight);
      store := store + [s];
      line := line + [b];
      worker := Executed(b, o);
    }

    /** Records the canonical result of the block. */
    method RecordCommitted()
      requires Valid() && worker.Executed?
      modifies this`results, this`committedHeight, this`worker
      ensures Valid() && worker.Idle? && committedHeight == old(committedHeight) + 1
      ensures results == old(results)[committedHeight := Reported(run, genesis, finalized[..committedHeight])]
    {
      hide Recorded;
      hide Inverse;
      hide States;
      hide Known;
      hide Indexed;
      var b, o := worker.block, worker.outcome;
      RecordedMore(run, genesis, results, committedHeight, finalized, o);
      AgreesMore(line, finalized, committedHeight);
      results := results[committedHeight + 1 := o];
      committedHeight := committedHeight + 1;
      worker := Idle;
    }

    /** Executes the next synced block on the store, on which nothing is executed speculatively: a sync is
        requested only before execution starts. */
    method ReplaySynced()
      requires Valid() && (worker.Idle? || worker.Syncing?) && |line| == committedHeight < |finalized|
      modifies this`store, this`line, this`worker
      ensures Valid() && worker.Replayed? && |store| == |old(store)| + 1
    {
      hide Recorded;
      hide States;
      hide Reported;
      hide Known;
      hide Inverse;
      var n, b := committedHeight, finalized[committedHeight];
      var (s, o) := run(store[|store| - 1], b);
      Extended(run, genesis, line, b);
      SyncedExecutes(world, run, genesis, bySeq, line, finalized, n);
      store := store + [s];
      line := line + [b];
      worker := Replayed(b, o);
    }

    /** Records a replayed block. */
    method RecordSynced()
      requires Valid() && worker.Replayed?
      modifies this`results, this`committedHeight, this`worker
      ensures Valid() && worker.Syncing? && committedHeight == old(committedHeight) + 1 == |line|
      ensures results == old(results)[committedHeight := Reported(run, genesis, finalized[..committedHeight])]
    {
      hide Recorded;
      hide Inverse;
      hide States;
      hide Known;
      hide Indexed;
      var o := worker.outcome;
      RecordedMore(run, genesis, results, committedHeight, finalized, o);
      AgreesMore(line, finalized, committedHeight);
      results := results[committedHeight + 1 := o];
      committedHeight := committedHeight + 1;
      worker := Syncing;
    }

    /** Anchors the index at the synced height; every speculative entry is stale. */
    method ResetToHeight(h: nat, id: BlockId)
      requires Valid() && worker.Syncing? && h == committedHeight && id == TipOf(finalized, h)
      modifies this`tip, this`tipId, this`bySeq, this`byId, this`worker
      ensures Valid() && worker.Idle? && tip == h && tipId == id && bySeq == map[] && byId == map[]
    {
      hide Recorded;
      hide States;
      hide Known;
      hide Indexed;
      IndexedNone(run, genesis, line);
      bySeq, byId := map[], map[];
      tip, tipId := h, id;
      worker := Idle;
    }

    /** The speculative result of a block: what executing its own line reports. */
    method SpecResultId(id: BlockId) returns (r: Option<Outcome>)
      requires Valid()
      ensures r.Some? <==> id in byId
      ensures r.Some? ==> exists h :: Base() < h <= |line| && line[h - 1].id == id && r.value == Reported(run, genesis, line[..h])
    {
      if id !in byId {
        return None;
      }
      r := Some(bySeq[byId[id]].outcome);
    }
  }

  lemma IndexedNone(run: Engine, g: AppState, line: seq<Block>)
    ensures Indexed(run, g, map[], line, |line|)
  {}

  lemma AgreesMore(line: seq<Block>, finalized: seq<Block>, n: nat)
    requires Agrees(line, finalized, n) && n < |line| && n < |finalized| && line[n] == finalized[n]
    ensures Agrees(line, finalized, n + 1)
  {}

  /** A replayed block continues the canonical line, and the index stays empty. */
  lemma SyncedExecutes(world: BlockId -> Block, run: Engine, g: AppState, bySeq: map<nat, SpecEntry>, line: seq<Block>, finalized: seq<Block>, n: nat)
    requires Known(world, line) && Known(world, finalized) && Agrees(line, finalized, n) && n == |line| < |finalized|
    requires Indexed(run, g, bySeq, line, n)
    ensures Known(world, line + [finalized[n]]) && Agrees(line + [finalized[n]], finalized, n)
    ensures line + [finalized[n]] == finalized[..n + 1]
    ensures Indexed(run, g, bySeq, line + [finalized[n]], n + 1)
  {
    hide Known;
    hide Reported;
    assert line == line[..n] == finalized[..n];
    KnownPrefix(world, finalized, n + 1);
    var more := line + [finalized[n]];
    assert more == finalized[..n + 1] && more[..n + 1] == more;
    IndexedBare(run, g, bySeq, line);
    hide Indexed;
    IndexedNone(run, g, more);
  }

  lemma IndexedBare(run: Engine, g: AppState, bySeq: map<nat, SpecEntry>, line: seq<Block>)
    requires Indexed(run, g, bySeq, line, |line|)
    ensures bySeq == map[]
  {
    assert forall h :: h !in bySeq;
  }

  /** A block missed by the index continues the canonical line. */
  lemma MissedExecutes(world: BlockId -> Block, run: Engine, g: AppState, bySeq: map<nat, SpecEntry>, line: seq<Block>, finalized: seq<Block>, n: nat)
    requires Known(world, line) && Known(world, finalized) && Agrees(line, finalized, n) && n == |line| < |finalized|
    requires Indexed(run, g, bySeq, line, n + 1)
    ensures Known(world, line + [finalized[n]]) && Agrees(line + [finalized[n]], finalized, n)
    ensures line + [finalized[n]] == finalized[..n + 1]
    ensures Indexed(run, g, bySeq, line + [finalized[n]], n + 1)
  {
    hide Known;
    assert line == finalized[..n];
    assert finalized[..n + 1] == finalized[..n] + [finalized[n]];
    assert line + [finalized[n]] == finalized[..n + 1];
    KnownPrefix(world, finalized, n + 1);
  }

  /** The index entry at the next canonical height, if any, is that block exactly when its id is indexed,
      and then its outcome is the canonical one. */
  lemma NextCanonical(world: BlockId -> Block, run: Engine, g: AppState, bySeq: map<nat, SpecEntry>, byId: map<BlockId, nat>,
                      line: seq<Block>, finalized: seq<Block>, n: nat)
    requires Known(world, line) && Known(world, finalized) && Agrees(line, finalized, n) && n < |finalized|
    requires Indexed(run, g, bySeq, line, n) && Inverse(bySeq, byId)
    ensures finalized[n].height == n + 1
    ensures n + 1 in bySeq <==> n < |line|
    ensures n + 1 in bySeq && bySeq[n + 1].id == finalized[n].id <==> finalized[n].id in byId
    ensures finalized[n].id in byId ==> n + 1 in bySeq && line[n] == finalized[n] && bySeq[n + 1].outcome == Reported(run, g, finalized[..n + 1])
  {
    forall h | h in bySeq && bySeq[h].id == finalized[n].id ensures h == n + 1 && line[n] == finalized[n] {
      SameBlock(world, line, h - 1, finalized, n);
    }
    if finalized[n].id in byId {
      AgreesMore(line, finalized, n);
    }
  }

  lemma SameBlock(world: BlockId -> Block, a: seq<Block>, i: nat, c: seq<Block>, j: nat)
    requires Known(world, a) && Known(world, c) && i < |a| && j < |c| && a[i].id == c[j].id
    ensures i == j && a[i] == c[j]
  {}
}
