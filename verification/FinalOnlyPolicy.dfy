/** The final-only execution policy: blocks embed results of finalized heights with a variable lag. */
module FinalOnly {
  import opened Wrappers

  type BlockId = nat

  const GENESIS: BlockId := 0

  /** The execution result of a height. */
  datatype ExecResult = ExecResult(seqNum: nat, digest: nat)

  datatype Fees = Fees(base: nat, trend: nat, moment: nat)

  datatype Block = Block(id: BlockId, seqNum: nat, timestamp: nat, results: seq<ExecResult>, fees: Fees)

  datatype Ref = Ref(id: BlockId, rSeq: nat)

  datatype Verdict = Coherent | NotCoherent | BadTimestamp | ResultMismatch | NotAvailableYet | NeverAvailable | BadFee

  datatype Lookup = Found(result: ExecResult) | Unavailable(why: Verdict)

  datatype Expected = Embed(results: seq<ExecResult>) | Refuse(why: Verdict)

  /** What a node has executed of the finalized chain: nothing, or every height up to `latest`. */
  datatype Execution = Execution(latest: Option<nat>, result: nat -> ExecResult) {
    predicate Has(s: nat) {
      latest.Some? && s <= latest.value
    }
  }

  /** The height a block's result refers to; zero when it embeds none. */
  function EmbeddedSeq(b: Block): nat {
    if |b.results| == 1 then b.results[0].seqNum else 0
  }

  function Min(a: nat, b: nat): nat {
    if a < b then a else b
  }

  // ---- what the result check means ----

  /** A block's embedded height is at least its parent's and lags by `delay` or more. */
  ghost predicate Follows(delay: nat, parentR: nat, b: Block) {
    if b.seqNum < delay then b.results == []
    else |b.results| == 1 && parentR <= b.results[0].seqNum <= b.seqNum - delay
  }

  /** The finalized chain: block `n` is numbered `n` and follows block `n - 1`. */
  ghost predicate Canonical(delay: nat, chain: nat -> Block) {
    forall n :: CanonicalAt(delay, chain, n)
  }

  ghost predicate CanonicalAt(delay: nat, chain: nat -> Block, n: nat) {
    n > 0 ==> chain(n).seqNum == n && Follows(delay, EmbeddedAt(chain, n - 1), chain(n))
  }

  ghost function EmbeddedAt(chain: nat -> Block, n: nat): nat {
    if n == 0 then 0 else EmbeddedSeq(chain(n))
  }

  /** Embedded heights never decrease along the finalized chain, and stay `delay` behind. */
  lemma {:induction false} EmbeddedMonotone(delay: nat, chain: nat -> Block, m: nat, n: nat)
    requires Canonical(delay, chain) && m <= n && 2 <= delay
    ensures EmbeddedAt(chain, m) <= EmbeddedAt(chain, n)
    ensures EmbeddedAt(chain, n) == 0 || EmbeddedAt(chain, n) + delay <= n
    decreases n
  {
    assert CanonicalAt(delay, chain, n);
    if m < n {
      EmbeddedMonotone(delay, chain, m, n - 1);
      assert CanonicalAt(delay, chain, n - 1);
      if n < delay {
        EmbeddedMonotone(delay, chain, m, m);
        assert CanonicalAt(delay, chain, m);
      }
    }
  }

  /** Blocks above the root: numbered on from it, each following the one before. */
  ghost predicate Path(delay: nat, rootSeq: nat, rootR: nat, path: seq<Block>) {
    forall k :: 0 <= k < |path| ==> path[k].seqNum == rootSeq + 1 + k && Follows(delay, ParentR(rootR, path, k), path[k])
  }

  ghost function ParentR(rootR: nat, path: seq<Block>, k: nat): nat
    requires k <= |path|
  {
    if k == 0 then rootR else EmbeddedSeq(path[k - 1])
  }

  lemma {:induction false} PathMonotone(delay: nat, rootSeq: nat, rootR: nat, path: seq<Block>, k: nat)
    requires Path(delay, rootSeq, rootR, path) && k <= |path| && 2 <= delay
    requires rootR == 0 || rootR + delay <= rootSeq
    ensures rootR <= ParentR(rootR, path, k)
    ensures ParentR(rootR, path, k) == 0 || ParentR(rootR, path, k) + delay <= rootSeq + k
  {
    if k > 0 {
      PathMonotone(delay, rootSeq, rootR, path, k - 1);
      assert Follows(delay, ParentR(rootR, path, k - 1), path[k - 1]);
    }
  }

  /** Timestamps strictly increase from above zero and fees are constant. */
  ghost predicate Ordered(path: seq<Block>, fees: Fees) {
    && (forall i, j :: 0 <= i < j < |path| ==> path[i].timestamp < path[j].timestamp)
    && (forall i :: 0 <= i < |path| ==> path[i].fees == fees && path[i].timestamp > 0)
  }

  lemma NothingOrdered(delay: nat, rootSeq: nat, rootR: nat, fees: Fees)
    ensures Path(delay, rootSeq, rootR, []) && Ordered([], fees)
  {}

  lemma OrderedSnoc(path: seq<Block>, b: Block, fees: Fees)
    requires Ordered(path, fees) && b.fees == fees && b.timestamp > if path == [] then 0 else path[|path| - 1].timestamp
    ensures Ordered(path + [b], fees)
  {}

  class FinalOnlyPolicy {
    const delay: nat
    const fees: Fees
    var lastCommit: nat
    var committed: map<nat, Ref>
    ghost const chain: nat -> Block
    ghost var lo: nat

    /** The window holds exactly the finalized blocks from `lo` on, and reaches down to the height the
        last one embeds. */
    ghost predicate Valid()
      reads this
    {
      && 2 <= delay && Canonical(delay, chain)
      && 1 <= lo && (lo == 1 || lo <= EmbeddedAt(chain, lastCommit))
      && (forall n :: n in committed <==> lo <= n <= lastCommit)
      && (forall n :: n in committed ==> committed[n] == Ref(chain(n).id, EmbeddedSeq(chain(n))))
    }

    constructor (delay: nat, fees: Fees, ghost chain: nat -> Block)
      requires 2 <= delay && Canonical(delay, chain)
      ensures Valid() && lastCommit == 0 && this.delay == delay && this.fees == fees && this.chain == chain
    {
      this.delay, this.fees, this.chain := delay, fees, chain;
      lastCommit, committed, lo := 0, map[], 1;
    }

    function LowerBound(extending: seq<Block>): (r: nat)
      reads this
    {
      if |extending| > 0 then EmbeddedSeq(extending[|extending| - 1])
      else if lastCommit in committed then committed[lastCommit].rSeq else 0
    }

    function FinalizedId(s: nat): (id: Option<BlockId>)
      reads this
    {
      if s == 0 then Some(GENESIS) else if s in committed then Some(committed[s].id) else None
    }

    function FinalizedResult(s: nat, ex: Execution): (r: Lookup)
      reads this
    {
      if s > lastCommit then Unavailable(NotAvailableYet)
      else if FinalizedId(s).None? then Unavailable(NeverAvailable)
      else if ex.Has(s) then Found(ex.result(s)) else Unavailable(NotAvailableYet)
    }

    /** Validator side. */
    function CheckCoherency(b: Block, extending: seq<Block>, rootSeq: nat, ex: Execution): (v: Verdict)
      reads this
    {
      var extSeq, extTs := if |extending| > 0 then extending[|extending| - 1].seqNum else rootSeq,
                           if |extending| > 0 then extending[|extending| - 1].timestamp else 0;
      if b.seqNum != extSeq + 1 then NotCoherent
      else if b.timestamp <= extTs then BadTimestamp
      else
        var v := CheckResults(b, extending, ex);
        if v != Coherent then v
        else if b.fees != fees then BadFee else Coherent
    }

    function CheckResults(b: Block, extending: seq<Block>, ex: Execution): (v: Verdict)
      reads this
    {
      if b.seqNum < delay then (if |b.results| != 0 then ResultMismatch else Coherent)
      else if |b.results| != 1 then ResultMismatch
      else
        var s := b.results[0].seqNum;
        if s < LowerBound(extending) || s > b.seqNum - delay then ResultMismatch
        else
          match FinalizedResult(s, ex)
          case Unavailable(why) => why
          case Found(expected) => if b.results[0] != expected then ResultMismatch else Coherent
    }

    /** Proposer side: the highest executed finalized height in range. */
    function GetExpectedExecutionResults(n: nat, extending: seq<Block>, ex: Execution): (e: Expected)
      reads this
    {
      if n < delay then Embed([])
      else if ex.latest.None? then Refuse(NotAvailableYet)
      else
        var hi := Min(Min(n - delay, lastCommit), ex.latest.value);
        if hi < LowerBound(extending) then Refuse(NotAvailableYet)
        else
          match FinalizedResult(hi, ex)
          case Unavailable(why) => Refuse(why)
          case Found(r) => Embed([r])
    }

    /** The lower bound is the parent's embedded height, also once the parent has become the root. */
    lemma LowerBoundIsParents(extending: seq<Block>)
      requires Valid()
      ensures LowerBound(extending) == ParentR(EmbeddedAt(chain, lastCommit), extending, |extending|)
    {
      assert CanonicalAt(delay, chain, lastCommit);
      EmbeddedMonotone(delay, chain, lastCommit, lastCommit);
    }

    /** Every height from the parent's embedded one up to the last commit resolves. */
    lemma WindowReaches(path: seq<Block>, s: nat)
      requires Valid() && Path(delay, lastCommit, EmbeddedAt(chain, lastCommit), path)
      requires ParentR(EmbeddedAt(chain, lastCommit), path, |path|) <= s <= lastCommit
      ensures FinalizedId(s) == Some(if s == 0 then GENESIS else chain(s).id)
    {
      EmbeddedMonotone(delay, chain, lastCommit, lastCommit);
      PathMonotone(delay, lastCommit, EmbeddedAt(chain, lastCommit), path, |path|);
    }

    /** On a coherent path no lookup falls below the window. */
    lemma NeverNeverAvailable(b: Block, path: seq<Block>, ex: Execution)
      requires Valid() && Path(delay, lastCommit, EmbeddedAt(chain, lastCommit), path)
      ensures CheckCoherency(b, path, lastCommit, ex) != NeverAvailable
      ensures forall n :: GetExpectedExecutionResults(n, path, ex) != Refuse(NeverAvailable)
    {
      LowerBoundIsParents(path);
      forall s | LowerBound(path) <= s <= lastCommit ensures FinalizedId(s).Some? {
        WindowReaches(path, s);
      }
    }

    /** An accepted block extends the coherent path, and its result is finalized and executed here. */
    lemma AcceptedFollows(b: Block, path: seq<Block>, ex: Execution)
      requires Valid() && Path(delay, lastCommit, EmbeddedAt(chain, lastCommit), path)
      requires CheckCoherency(b, path, lastCommit, ex) == Coherent
      ensures Path(delay, lastCommit, EmbeddedAt(chain, lastCommit), path + [b])
      ensures b.seqNum >= delay ==> EmbeddedSeq(b) <= lastCommit && ex.Has(EmbeddedSeq(b)) && b.results == [ex.result(EmbeddedSeq(b))]
    {
      LowerBoundIsParents(path);
      var all, r := path + [b], EmbeddedAt(chain, lastCommit);
      forall k | 0 <= k < |all| ensures all[k].seqNum == lastCommit + 1 + k && Follows(delay, ParentR(r, all, k), all[k]) {
        assert k < |path| ==> ParentR(r, all, k) == ParentR(r, path, k);
      }
    }

    /** The embedded height follows the parent's, and the result is the one finalized and executed here for it. */
    ghost predicate ResultsRight(b: Block, path: seq<Block>, ex: Execution)
      reads this
    {
      && Follows(delay, ParentR(EmbeddedAt(chain, lastCommit), path, |path|), b)
      && (b.seqNum >= delay ==> EmbeddedSeq(b) <= lastCommit && ex.Has(EmbeddedSeq(b)) && b.results == [ex.result(EmbeddedSeq(b))])
    }

    /** What the validator side answers on a coherent path: it accepts exactly the next number, with a timestamp
        above the parent's (any positive one at the root), the right result and the configured fees; the
        first of these that fails names the error. */
    lemma VerdictExactly(b: Block, path: seq<Block>, ex: Execution)
      requires Valid() && Path(delay, lastCommit, EmbeddedAt(chain, lastCommit), path)
      ensures var v := CheckCoherency(b, path, lastCommit, ex);
              var next, later := b.seqNum == lastCommit + |path| + 1, b.timestamp > if path == [] then 0 else path[|path| - 1].timestamp;
              && (v == Coherent <==> next && later && ResultsRight(b, path, ex) && b.fees == fees)
              && (v == NotCoherent <==> !next)
              && (v == BadTimestamp <==> next && !later)
              && (v == BadFee <==> next && later && ResultsRight(b, path, ex) && b.fees != fees)
              && (v == NotAvailableYet <==>
                    && next && later && Follows(delay, ParentR(EmbeddedAt(chain, lastCommit), path, |path|), b) && b.seqNum >= delay
                    && (EmbeddedSeq(b) > lastCommit || !ex.Has(EmbeddedSeq(b))))
    {
      LowerBoundIsParents(path);
      EmbeddedMonotone(delay, chain, lastCommit, lastCommit);
      PathMonotone(delay, lastCommit, EmbeddedAt(chain, lastCommit), path, |path|);
      NeverNeverAvailable(b, path, ex);
      if b.seqNum >= delay && |b.results| == 1 && ParentR(EmbeddedAt(chain, lastCommit), path, |path|) <= b.results[0].seqNum <= lastCommit {
        WindowReaches(path, b.results[0].seqNum);
      }
    }

    /** Every block of the path was accepted on top of the ones before it. */
    ghost predicate AcceptedPath(path: seq<Block>, exs: seq<Execution>)
      reads this
    {
      |exs| == |path| && forall k :: 0 <= k < |path| ==> CheckCoherency(path[k], path[..k], lastCommit, exs[k]) == Coherent
    }

    lemma AcceptedPrefix(path: seq<Block>, exs: seq<Execution>, k: nat)
      requires AcceptedPath(path, exs) && k < |path|
      ensures |exs| == |path| && AcceptedPath(path[..k], exs[..k]) && CheckCoherency(path[k], path[..k], lastCommit, exs[k]) == Coherent
    {
      hide CheckCoherency;
      forall i | 0 <= i < k ensures path[..k][..i] == path[..i] {}
    }

    /** Along accepted blocks numbers rise by one, timestamps strictly increase and fees stay the configured ones. */
    lemma {:induction false} AcceptedPathOrdered(path: seq<Block>, exs: seq<Execution>)
      requires Valid() && AcceptedPath(path, exs)
      ensures Path(delay, lastCommit, EmbeddedAt(chain, lastCommit), path) && Ordered(path, fees)
    {
      hide Path;
      hide CheckCoherency;
      hide Follows;
      hide Ordered;
      hide AcceptedPath;
      hide FinalOnlyPolicy.Valid;
      if path == [] {
        NothingOrdered(delay, lastCommit, EmbeddedAt(chain, lastCommit), fees);
      } else {
        var k := |path| - 1;
        AcceptedPrefix(path, exs, k);
        AcceptedPathOrdered(path[..k], exs[..k]);
        VerdictExactly(path[k], path[..k], exs[k]);
        AcceptedFollows(path[k], path[..k], exs[k]);
        OrderedSnoc(path[..k], path[k], fees);
        assert path == path[..k] + [path[k]];
      }
    }

    /** A proposer on a coherent parent gets a result if and only if it has finalized and executed the height
        its parent embeds. */
    lemma ProposerSucceeds(path: seq<Block>, ex: Execution)
      requires Valid() && Path(delay, lastCommit, EmbeddedAt(chain, lastCommit), path)
      ensures var n, r := lastCommit + |path| + 1, ParentR(EmbeddedAt(chain, lastCommit), path, |path|);
              var e := GetExpectedExecutionResults(n, path, ex);
              && (e.Embed? <==> n < delay || (ex.Has(r) && r <= lastCommit))
              && (e.Embed? && n >= delay ==>
                    var s := Min(Min(n - delay, lastCommit), ex.latest.value); r <= s && e.results == [ex.result(s)])
    {
      var n, r := lastCommit + |path| + 1, ParentR(EmbeddedAt(chain, lastCommit), path, |path|);
      LowerBoundIsParents(path);
      EmbeddedMonotone(delay, chain, lastCommit, lastCommit);
      PathMonotone(delay, lastCommit, EmbeddedAt(chain, lastCommit), path, |path|);
      if n >= delay && ex.latest.Some? {
        var s := Min(Min(n - delay, lastCommit), ex.latest.value);
        if r <= s {
          WindowReaches(path, s);
        }
      }
    }

    method Record(b: Block)
      modifies this`lastCommit, this`committed
      ensures lastCommit == b.seqNum && committed == old(committed)[b.seqNum := Ref(b.id, EmbeddedSeq(b))]
    {
      lastCommit := b.seqNum;
      committed := committed[b.seqNum := Ref(b.id, EmbeddedSeq(b))];
    }

    /** Indexes the next finalized block and drops what no block can refer to any more. */
    method UpdateCommittedBlock(b: Block)
      requires Valid() && b == chain(lastCommit + 1) && b.seqNum == lastCommit + 1
      modifies this
      ensures Valid() && lastCommit == old(lastCommit) + 1
      ensures forall n :: n in committed <==>
                (n in old(committed) || n == lastCommit) && Min(if lastCommit < 2 * delay then 0 else lastCommit - 2 * delay, EmbeddedSeq(b)) <= n
    {
      EmbeddedMonotone(delay, chain, lastCommit, lastCommit + 1);
      Record(b);
      Prune();
    }

    method Prune()
      requires 2 <= delay && Canonical(delay, chain) && 1 <= lastCommit && 1 <= lo && (lo == 1 || lo <= EmbeddedAt(chain, lastCommit))
      requires forall n :: n in committed <==> lo <= n <= lastCommit
      requires forall n :: n in committed ==> committed[n] == Ref(chain(n).id, EmbeddedSeq(chain(n)))
      modifies this`committed, this`lo
      ensures Valid()
      ensures committed == map n | n in old(committed) && Min(if lastCommit < 2 * delay then 0 else lastCommit - 2 * delay, EmbeddedAt(chain, lastCommit)) <= n :: old(committed)[n]
    {
      EmbeddedMonotone(delay, chain, lastCommit, lastCommit);
      var floor := if lastCommit < 2 * delay then 0 else lastCommit - 2 * delay;
      if committed[lastCommit].rSeq < floor {
        floor := committed[lastCommit].rSeq;
      }
      committed := map n | n in committed && floor <= n :: committed[n];
      lo := if lo < floor then floor else lo;
    }

    /** Reseeds the window from the finalized blocks below and including the root. A window of the required
        length, or one that reaches the first block, is enough. */
    method Reset(blocks: seq<Block>, ghost first: nat)
      requires 2 <= delay && Canonical(delay, chain) && 1 <= first
      requires forall k :: 0 <= k < |blocks| ==> blocks[k] == chain(first + k)
      requires first == 1 || (blocks != [] && |blocks| >= RequiredChainLen(delay, blocks[|blocks| - 1].seqNum, blocks[|blocks| - 1].results))
      modifies this
      ensures Valid() && lastCommit == first + |blocks| - 1
    {
      committed, lastCommit := map[], 0;
      for k := 0 to |blocks|
        invariant lastCommit == if k == 0 then 0 else first + k - 1
        invariant forall n :: n in committed <==> first <= n < first + k
        invariant forall n :: n in committed ==> committed[n] == Ref(chain(n).id, EmbeddedSeq(chain(n)))
      {
        assert CanonicalAt(delay, chain, first + k);
        Record(blocks[k]);
      }
      lo := first;
      assert CanonicalAt(delay, chain, lastCommit);
      EmbeddedMonotone(delay, chain, lastCommit, lastCommit);
    }
  }

  /** How many blocks below and including the root a restart must hold. */
  function RequiredChainLen(delay: nat, rootSeq: nat, results: seq<ExecResult>): (n: nat)
    ensures 2 * delay <= n
    ensures |results| == 1 && results[0].seqNum < rootSeq ==> rootSeq < results[0].seqNum + n
    ensures n > 2 * delay ==> |results| == 1 && rootSeq + 1 == results[0].seqNum + n
  {
    if |results| == 1 && results[0].seqNum < rootSeq && rootSeq - results[0].seqNum + 1 > 2 * delay
    then rootSeq - results[0].seqNum + 1
    else 2 * delay
  }

  /** The parent a path leads to; none at genesis. */
  ghost function ParentBlock(chain: nat -> Block, root: nat, path: seq<Block>): Option<Block> {
    if |path| > 0 then Some(path[|path| - 1]) else if root == 0 then None else Some(chain(root))
  }

  /** Two views of the same parent agree on its number and on the height it embeds. */
  lemma SameParent(delay: nat, chain: nat -> Block, m: nat, a: seq<Block>, n: nat, c: seq<Block>)
    requires Canonical(delay, chain) && Path(delay, m, EmbeddedAt(chain, m), a) && Path(delay, n, EmbeddedAt(chain, n), c)
    requires ParentBlock(chain, m, a) == ParentBlock(chain, n, c)
    ensures m + |a| == n + |c|
    ensures ParentR(EmbeddedAt(chain, m), a, |a|) == ParentR(EmbeddedAt(chain, n), c, |c|)
    ensures |c| > 0 ==> c[|c| - 1].seqNum == n + |c|
  {
    assert CanonicalAt(delay, chain, m) && CanonicalAt(delay, chain, n);
  }

  /** What an honest proposer embeds passes the check of every validator that sees the same parent and has
      finalized and executed the embedded height, whatever either has committed since. */
  lemma ProposalAccepted(p: FinalOnlyPolicy, pathP: seq<Block>, exP: Execution, v: FinalOnlyPolicy, pathV: seq<Block>, exV: Execution, b: Block)
    requires p.Valid() && v.Valid() && p.chain == v.chain && p.delay == v.delay && p.fees == v.fees && exP.result == exV.result
    requires Path(p.delay, p.lastCommit, EmbeddedAt(p.chain, p.lastCommit), pathP)
    requires Path(v.delay, v.lastCommit, EmbeddedAt(v.chain, v.lastCommit), pathV)
    requires ParentBlock(p.chain, p.lastCommit, pathP) == ParentBlock(v.chain, v.lastCommit, pathV)
    requires b.seqNum == p.lastCommit + |pathP| + 1 && b.fees == v.fees
    requires b.timestamp > if |pathV| > 0 then pathV[|pathV| - 1].timestamp else 0
    requires forall s :: exP.result(s).seqNum == s
    requires p.GetExpectedExecutionResults(b.seqNum, pathP, exP) == Embed(b.results)
    requires b.seqNum >= p.delay ==> EmbeddedSeq(b) <= v.lastCommit && exV.Has(EmbeddedSeq(b))
    ensures v.CheckCoherency(b, pathV, v.lastCommit, exV) == Coherent
  {
    hide Path;
    hide Canonical;
    SameParent(p.delay, p.chain, p.lastCommit, pathP, v.lastCommit, pathV);
    p.LowerBoundIsParents(pathP);
    v.LowerBoundIsParents(pathV);
    p.ProposerSucceeds(pathP, exP);
    if b.seqNum >= p.delay {
      v.WindowReaches(pathV, EmbeddedSeq(b));
    }
  }

  /** No proposer deadlock: once this node has accepted `b`, a proposal on top of `b` gets a result at every
      later state of the node, with `b` still on the path or already the root. Only the first block that
      embeds a result relies on more: that the result of genesis has been recorded. */
  lemma AcceptedParentServes(p: FinalOnlyPolicy, pathP: seq<Block>, exP: Execution, b: Block, v: FinalOnlyPolicy, pathV: seq<Block>, exV: Execution)
    requires p.Valid() && v.Valid() && p.chain == v.chain && p.delay == v.delay && p.lastCommit <= v.lastCommit
    requires forall s :: exP.Has(s) ==> exV.Has(s)
    requires Path(p.delay, p.lastCommit, EmbeddedAt(p.chain, p.lastCommit), pathP)
    requires Path(v.delay, v.lastCommit, EmbeddedAt(v.chain, v.lastCommit), pathV)
    requires p.CheckCoherency(b, pathP, p.lastCommit, exP) == Coherent
    requires ParentBlock(v.chain, v.lastCommit, pathV) == Some(b)
    ensures v.GetExpectedExecutionResults(b.seqNum + 1, pathV, exV).Embed? <==> b.seqNum + 1 != v.delay || exV.latest.Some?
  {
    p.AcceptedFollows(b, pathP, exP);
    SameParent(p.delay, p.chain, p.lastCommit, pathP + [b], v.lastCommit, pathV);
    hide Canonical;
    hide Path;
    v.ProposerSucceeds(pathV, exV);
  }

  /** At genesis, and at a root whose embedded height the node has synced to, a proposal gets a result too. */
  lemma RootServes(p: FinalOnlyPolicy, ex: Execution)
    requires p.Valid() && (p.lastCommit == 0 || ex.Has(EmbeddedAt(p.chain, p.lastCommit)))
    ensures p.GetExpectedExecutionResults(p.lastCommit + 1, [], ex).Embed?
  {
    EmbeddedMonotone(p.delay, p.chain, p.lastCommit, p.lastCommit);
    p.ProposerSucceeds([], ex);
  }
}
