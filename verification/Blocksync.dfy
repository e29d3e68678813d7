/** The self-request side of blocksync: headers, then payloads, then emitted ranges. */
module Blocksync {
  import opened Wrappers

  type BlockId = nat
  type BodyId = nat
  type NodeId = nat

  const GENESIS: BlockId := 0
  const MAX_PAYLOAD_REQUESTS := 10

  datatype Requester = StateSync | Consensus

  datatype Range = Range(last: BlockId, numBlocks: nat)

  datatype Header = Header(id: BlockId, parent: BlockId, bodyId: BodyId)

  datatype Body = Body(id: BodyId, data: nat)

  /** An outstanding request; without a peer it is addressed to the local ledger, or waits for a timeout. */
  datatype SelfRequest = SelfRequest(requester: Requester, peer: Option<NodeId>)

  datatype Slot = Slot(header: Header, payload: Option<Body>)

  /** A range whose headers are known. */
  datatype Completed = Completed(requester: Requester, slots: seq<Slot>)

  datatype Request = Headers(range: Range) | Payload(id: BodyId)

  datatype Command =
    | SendRequest(dest: NodeId, request: Request)
    | ScheduleTimeout(request: Request)
    | ResetTimeout(request: Request)
    | FetchHeaders(range: Range)
    | FetchPayload(id: BodyId)
    | Emit(requester: Requester, range: Range, blocks: seq<Slot>)

  // ---- headers ----

  /** A chain of at most the requested length that ends at the requested block; a shorter one starts at
      genesis. */
  ghost predicate Chain(range: Range, headers: seq<Header>) {
    && 0 < |headers| <= range.numBlocks
    && headers[|headers| - 1].id == range.last
    && (forall i :: 0 <= i < |headers| - 1 ==> headers[i].id == headers[i + 1].parent)
    && (|headers| < range.numBlocks ==> headers[0].parent == GENESIS)
  }

  method VerifyBlockHeaders(range: Range, headers: seq<Header>) returns (ok: bool)
    ensures ok <==> Chain(range, headers)
  {
    if |headers| == 0 || |headers| > range.numBlocks || range.last != headers[|headers| - 1].id {
      return false;
    }
    for i := 0 to |headers| - 1
      invariant forall k :: 0 <= k < i ==> headers[k].id == headers[k + 1].parent
    {
      if headers[i].id != headers[i + 1].parent {
        return false;
      }
    }
    ok := |headers| == range.numBlocks || headers[0].parent == GENESIS;
  }

  function HeadersOf(slots: seq<Slot>): (h: seq<Header>)
    ensures |h| == |slots| && forall i :: 0 <= i < |slots| ==> h[i] == slots[i].header
  {
    seq(|slots|, i requires 0 <= i < |slots| => slots[i].header)
  }

  // ---- payloads ----

  /** Every missing slot of body `id` filled with `body`. */
  function Filled(slots: seq<Slot>, id: BodyId, body: Body): (r: seq<Slot>)
    ensures |r| == |slots| && HeadersOf(r) == HeadersOf(slots)
    ensures forall i :: 0 <= i < |slots| ==>
              r[i] == if slots[i].header.bodyId == id && slots[i].payload.None? then slots[i].(payload := Some(body)) else slots[i]
  {
    seq(|slots|, i requires 0 <= i < |slots| =>
      if slots[i].header.bodyId == id && slots[i].payload.None? then slots[i].(payload := Some(body)) else slots[i])
  }

  function FilledAll(pending: map<Range, Completed>, id: BodyId, body: Body): (r: map<Range, Completed>)
    ensures r.Keys == pending.Keys
    ensures forall k :: k in pending ==> r[k] == pending[k].(slots := Filled(pending[k].slots, id, body))
  {
    map k | k in pending :: pending[k].(slots := Filled(pending[k].slots, id, body))
  }

  predicate Complete(c: Completed) {
    forall i :: 0 <= i < |c.slots| ==> c.slots[i].payload.Some?
  }

  // ---- invariants ----

  function Initiated(reqs: map<BodyId, Option<SelfRequest>>): set<BodyId> {
    set p | p in reqs && reqs[p].Some?
  }

  /** Headers are the verified chain of their range, and filled slots hold the body they name. */
  ghost predicate Matching(pending: map<Range, Completed>) {
    forall r :: r in pending ==> Chain(r, HeadersOf(pending[r].slots)) && BodiesMatch(pending[r].slots)
  }

  ghost predicate BodiesMatch(slots: seq<Slot>) {
    forall i :: 0 <= i < |slots| && slots[i].payload.Some? ==> slots[i].payload.value.id == slots[i].header.bodyId
  }

  /** Every missing payload has a request entry. */
  ghost predicate Wanted(pending: map<Range, Completed>, reqs: map<BodyId, Option<SelfRequest>>) {
    forall r, i :: r in pending && 0 <= i < |pending[r].slots| && pending[r].slots[i].payload.None? ==>
      pending[r].slots[i].header.bodyId in reqs
  }

  /** Below ten in flight nothing waits to be initiated. */
  ghost predicate Saturated(reqs: map<BodyId, Option<SelfRequest>>, inFlight: int) {
    inFlight < 10 ==> forall p :: p in reqs ==> reqs[p].Some?
  }

  ghost predicate Unfinished(pending: map<Range, Completed>) {
    forall r :: r in pending ==> exists i :: 0 <= i < |pending[r].slots| && pending[r].slots[i].payload.None?
  }

  /** An emitted range is the requested chain with the bodies its headers name. */
  ghost predicate GoodEmit(c: Command) {
    c.Emit? ==>
      && Chain(c.range, HeadersOf(c.blocks))
      && forall i :: 0 <= i < |c.blocks| ==> c.blocks[i].payload.Some? && c.blocks[i].payload.value.id == c.blocks[i].header.bodyId
  }

  /** Nothing is asked of a peer, no timeout is armed, and only payload timeouts are reset. */
  ghost predicate Internal(cmds: seq<Command>) {
    forall c :: c in cmds ==> !c.SendRequest? && !c.ScheduleTimeout? && (c.ResetTimeout? ==> c.request.Payload?)
  }

  lemma InternalAppend(cmds: seq<Command>, c: Command)
    requires Internal(cmds) && !c.SendRequest? && !c.ScheduleTimeout? && (c.ResetTimeout? ==> c.request.Payload?)
    ensures Internal(cmds + [c])
  {}

  /** Where a request goes when it is addressed to `peer`, or to nobody for now; the timeout is armed either way. */
  ghost predicate Addressed(request: Request, peer: Option<NodeId>, cmds: seq<Command>) {
    && ScheduleTimeout(request) in cmds
    && forall to: NodeId, q :: SendRequest(to, q) in cmds <==> peer == Some(to) && q == request
  }

  /** The ledger does not have what no peer has been asked for. */
  ghost predicate LedgerMiss(sender: Option<NodeId>, req: SelfRequest, found: bool) {
    sender.None? && req.peer.None? && !found
  }

  ghost predicate GoodEmits(cmds: seq<Command>) {
    forall i :: 0 <= i < |cmds| ==> GoodEmit(cmds[i])
  }

  // ---- no range is lost ----

  /** The same headers, and every body that was there. */
  ghost predicate Extends(a: seq<Slot>, b: seq<Slot>) {
    && HeadersOf(a) == HeadersOf(b)
    && forall i :: 0 <= i < |a| && i < |b| && a[i].payload.Some? ==> b[i] == a[i]
  }

  ghost predicate Emitted(c: Completed, r: Range, cmds: seq<Command>) {
    exists slots :: Emit(c.requester, r, slots) in cmds && Extends(c.slots, slots)
  }

  /** Every pending range is still pending for its requester, with what it had, or was emitted. */
  ghost predicate Kept(was: map<Range, Completed>, now: map<Range, Completed>, cmds: seq<Command>) {
    forall r :: r in was ==>
      (r in now && now[r].requester == was[r].requester && Extends(was[r].slots, now[r].slots)) || Emitted(was[r], r, cmds)
  }

  lemma KeptRefl(m: map<Range, Completed>, cmds: seq<Command>)
    ensures Kept(m, m, cmds)
  {}

  lemma ExtendsTrans(a: seq<Slot>, b: seq<Slot>, c: seq<Slot>)
    requires Extends(a, b) && Extends(b, c)
    ensures Extends(a, c)
  {
    assert |a| == |HeadersOf(a)| == |b|;
  }

  lemma EmittedMore(c: Completed, r: Range, a: seq<Command>, m: seq<Command>, b: seq<Command>)
    requires Emitted(c, r, m)
    ensures Emitted(c, r, a + m + b)
  {
    var slots :| Emit(c.requester, r, slots) in m && Extends(c.slots, slots);
    assert Emit(c.requester, r, slots) in a + m + b;
  }

  lemma KeptTrans(was: map<Range, Completed>, mid: map<Range, Completed>, now: map<Range, Completed>, a: seq<Command>, b: seq<Command>)
    requires Kept(was, mid, a) && Kept(mid, now, b)
    ensures Kept(was, now, a + b)
  {
    hide Extends;
    forall r | r in was
      ensures (r in now && now[r].requester == was[r].requester && Extends(was[r].slots, now[r].slots)) || Emitted(was[r], r, a + b)
    {
      if Emitted(was[r], r, a) {
        EmittedMore(was[r], r, [], a, b);
        assert [] + a + b == a + b;
      } else if Emitted(mid[r], r, b) {
        var slots :| Emit(mid[r].requester, r, slots) in b && Extends(mid[r].slots, slots);
        ExtendsTrans(was[r].slots, mid[r].slots, slots);
        assert Emit(was[r].requester, r, slots) in a + b;
      } else {
        ExtendsTrans(was[r].slots, mid[r].slots, now[r].slots);
      }
    }
  }

  lemma KeptLater(was: map<Range, Completed>, now: map<Range, Completed>, a: seq<Command>, cmds: seq<Command>)
    requires Kept(was, now, cmds)
    ensures Kept(was, now, a + cmds)
  {
    KeptRefl(was, a);
    KeptTrans(was, was, now, a, cmds);
  }

  lemma KeptFilled(was: map<Range, Completed>, m: map<Range, Completed>, id: BodyId, body: Body)
    requires Kept(was, m, [])
    ensures Kept(was, FilledAll(m, id, body), [])
  {
    var none: seq<Command> := [];
    assert Kept(m, FilledAll(m, id, body), none);
    KeptTrans(was, m, FilledAll(m, id, body), none, none);
    assert none + none == none;
  }

  lemma KeptEmitted(was: map<Range, Completed>, now: map<Range, Completed>, cmds: seq<Command>)
    requires forall r :: r in was && r in now ==> now[r] == was[r]
    requires forall r :: r in was && r !in now ==> Emit(was[r].requester, r, was[r].slots) in cmds
    ensures Kept(was, now, cmds)
  {
    forall r | r in was && r !in now ensures Emitted(was[r], r, cmds) {
      assert Extends(was[r].slots, was[r].slots);
    }
  }

  /** The command emits one complete range as it stands. */
  ghost predicate EmitsOne(c: Command, pending: map<Range, Completed>) {
    c.Emit? && c.range in pending && Complete(pending[c.range]) && c == Emit(pending[c.range].requester, c.range, pending[c.range].slots)
  }

  ghost function CompleteRanges(pending: map<Range, Completed>): set<Range> {
    set r | r in pending && Complete(pending[r])
  }

  lemma FilledMatching(pending: map<Range, Completed>, id: BodyId, body: Body)
    requires Matching(pending) && body.id == id
    ensures Matching(FilledAll(pending, id, body))
  {}

  lemma FilledWanted(pending: map<Range, Completed>, reqs: map<BodyId, Option<SelfRequest>>, id: BodyId, body: Body)
    requires Wanted(pending, reqs)
    ensures Wanted(FilledAll(pending, id, body), reqs - {id})
  {}

  lemma InitiatedRemove(reqs: map<BodyId, Option<SelfRequest>>, id: BodyId)
    requires id in reqs
    ensures |Initiated(reqs - {id})| == |Initiated(reqs)| - (if reqs[id].Some? then 1 else 0)
  {
    assert Initiated(reqs - {id}) == Initiated(reqs) - {id};
  }

  lemma InitiatedSet(reqs: map<BodyId, Option<SelfRequest>>, id: BodyId, q: SelfRequest)
    requires id in reqs
    ensures Initiated(reqs[id := Some(q)]) == Initiated(reqs) + {id} && (id in Initiated(reqs) <==> reqs[id].Some?)
    ensures |Initiated(reqs[id := Some(q)])| == |Initiated(reqs)| + (if reqs[id].Some? then 0 else 1)
  {
    assert Initiated(reqs[id := Some(q)]) == Initiated(reqs) + {id};
  }

  lemma IncompleteUnfinished(pending: map<Range, Completed>)
    requires forall r :: r in pending ==> !Complete(pending[r])
    ensures Unfinished(pending)
  {}

  lemma CompleteEmits(pending: map<Range, Completed>, r: Range)
    requires r in pending && Complete(pending[r])
    ensures EmitsOne(Emit(pending[r].requester, r, pending[r].slots), pending)
  {}

  lemma EmitsGood(cmds: seq<Command>, pending: map<Range, Completed>)
    requires Matching(pending) && forall c :: c in cmds ==> EmitsOne(c, pending)
    ensures GoodEmits(cmds) && Internal(cmds)
  {
    forall i | 0 <= i < |cmds| ensures GoodEmit(cmds[i]) {
      assert EmitsOne(cmds[i], pending);
    }
  }

  lemma FewerPending(pending: map<Range, Completed>, gone: set<Range>, reqs: map<BodyId, Option<SelfRequest>>)
    requires Matching(pending) && Wanted(pending, reqs)
    ensures Matching(pending - gone) && Wanted(pending - gone, reqs)
  {}

  class BlockSync {
    var headersReq: map<Range, SelfRequest>
    var payloadReq: map<BodyId, Option<SelfRequest>>
    var inFlight: int
    var pending: map<Range, Completed>
    var mode: Requester

    ghost predicate Consistent()
      reads this
    {
      && inFlight == |Initiated(payloadReq)| <= 10
      && Matching(pending) && Wanted(pending, payloadReq)
      && headersReq.Keys !! pending.Keys
    }

    ghost predicate Valid()
      reads this
    {
      Consistent() && Saturated(payloadReq, inFlight) && Unfinished(pending)
    }

    constructor ()
      ensures Valid() && headersReq == map[] && payloadReq == map[] && pending == map[] && mode == StateSync
    {
      headersReq, payloadReq, inFlight, pending, mode := map[], map[], 0, map[], StateSync;
    }

    /** Starts a range request; a change of requester drops everything outstanding. */
    method HandleSelfRequest(requester: Requester, range: Range) returns (cmds: seq<Command>)
      requires Valid()
      modifies this
      ensures Valid() && GoodEmits(cmds)
      ensures range.numBlocks > 0 ==> range in headersReq || range in pending
      ensures range.numBlocks > 0 && requester != old(mode) ==>
                mode == requester && headersReq.Keys == {range} && payloadReq == map[] && pending == map[]
      ensures range.numBlocks == 0 || requester == old(mode) ==>
                mode == old(mode) && payloadReq == old(payloadReq) && pending == old(pending) && headersReq - {range} == old(headersReq) - {range}
      ensures range.numBlocks == 0 || (requester == old(mode) && (range in old(headersReq) || range in old(pending))) ==>
                cmds == [] && headersReq == old(headersReq)
      ensures range.numBlocks > 0 && (requester != old(mode) || (range !in old(headersReq) && range !in old(pending))) ==>
                range in headersReq && headersReq[range] == SelfRequest(requester, None) && cmds == [FetchHeaders(range)]
    {
      cmds := [];
      if range.numBlocks == 0 {
        return;
      }
      if requester != mode {
        headersReq, payloadReq, inFlight, pending := map[], map[], 0, map[];
        mode := requester;
      }
      if range in headersReq || range in pending {
        return;
      }
      headersReq := headersReq[range := SelfRequest(requester, None)];
      cmds := [FetchHeaders(range)];
    }

    /** Forgets a range; payload requests stay, another range may need them. */
    method HandleSelfCancelRequest(requester: Requester, range: Range)
      requires Valid()
      modifies this`headersReq, this`pending
      ensures Valid()
      ensures range in headersReq ==> headersReq[range].requester != requester
      ensures range in pending ==> pending[range].requester != requester
      ensures headersReq - {range} == old(headersReq) - {range} && pending - {range} == old(pending) - {range}
      ensures forall h :: range in old(headersReq) && old(headersReq)[range] == h && h.requester != requester ==>
                range in headersReq && headersReq[range] == h
      ensures forall c :: range in old(pending) && old(pending)[range] == c && c.requester != requester ==>
                range in pending && pending[range] == c
    {
      if range in headersReq && headersReq[range].requester == requester {
        headersReq := headersReq - {range};
      }
      if range in pending && pending[range].requester == requester {
        pending := pending - {range};
      }
    }

    /** Emits the given complete ranges. */
    method EmitRanges(all: set<Range>) returns (cmds: seq<Command>)
      requires forall r :: r in all ==> r in pending && Complete(pending[r])
      modifies this`pending
      ensures pending == old(pending) - all && |cmds| == |all|
      ensures forall c :: c in cmds ==> EmitsOne(c, old(pending))
      ensures forall r :: r in all ==> Emit(old(pending)[r].requester, r, old(pending)[r].slots) in cmds
    {
      hide Complete;
      hide EmitsOne;
      cmds := [];
      var todo := all;
      while todo != {}
        invariant todo <= all && |cmds| + |todo| == |all|
        invariant pending == old(pending) - (all - todo) && forall c :: c in cmds ==> EmitsOne(c, old(pending))
        invariant forall r :: r in all && r !in todo ==> Emit(old(pending)[r].requester, r, old(pending)[r].slots) in cmds
      {
        var r :| r in todo;
        var ch := pending[r];
        CompleteEmits(old(pending), r);
        pending := pending - {r};
        cmds := cmds + [Emit(ch.requester, r, ch.slots)];
        todo := todo - {r};
      }
      assert all - todo == all;
    }

    /** Emits every range whose payloads are all there. */
    method HandleCompletedRanges() returns (cmds: seq<Command>)
      requires Consistent()
      modifies this`pending
      ensures Consistent() && Unfinished(pending) && GoodEmits(cmds)
      ensures pending == map r | r in old(pending) && !Complete(old(pending)[r]) :: old(pending)[r]
      ensures forall r :: r in CompleteRanges(old(pending)) ==> Emit(old(pending)[r].requester, r, old(pending)[r].slots) in cmds
      ensures forall c :: c in cmds ==> EmitsOne(c, old(pending))
      ensures |cmds| == |CompleteRanges(old(pending))| && Kept(old(pending), pending, cmds) && Internal(cmds)
    {
      hide GoodEmits;
      hide Matching;
      hide Wanted;
      hide Complete;
      hide Kept;
      hide Internal;
      hide EmitsOne;
      var all := set r | r in pending && Complete(pending[r]);
      cmds := EmitRanges(all);
      EmitsGood(cmds, old(pending));
      FewerPending(old(pending), all, payloadReq);
      IncompleteUnfinished(pending);
      KeptEmitted(old(pending), pending, cmds);
    }

    /** Hands a body to every range that misses it and closes its request. */
    method Deliver(id: BodyId, body: Body)
      requires Consistent() && id in payloadReq && body.id == id
      modifies this`payloadReq, this`inFlight, this`pending
      ensures Consistent() && payloadReq == old(payloadReq) - {id} && pending == FilledAll(old(pending), id, body)
    {
      hide Matching;
      hide Wanted;
      FilledMatching(pending, id, body);
      FilledWanted(pending, payloadReq, id, body);
      InitiatedRemove(payloadReq, id);
      if payloadReq[id].Some? {
        inFlight := inFlight - 1;
      }
      payloadReq := payloadReq - {id};
      pending := FilledAll(pending, id, body);
    }

    /** A body known to the caches or to a pending range. */
    method GetCachedPayload(id: BodyId, cache: BodyId -> Option<Body>) returns (p: Option<Body>)
      requires Matching(pending) && (cache(id).Some? ==> cache(id).value.id == id)
      ensures p.Some? ==> p.value.id == id
      ensures p.None? <==> cache(id).None? && forall r, i :: r in pending && 0 <= i < |pending[r].slots| && pending[r].slots[i].header.bodyId == id ==> pending[r].slots[i].payload.None?
    {
      if cache(id).Some? {
        return cache(id);
      }
      var todo := pending.Keys;
      while todo != {}
        invariant todo <= pending.Keys
        invariant forall r, i :: r in pending && r !in todo && 0 <= i < |pending[r].slots| && pending[r].slots[i].header.bodyId == id ==> pending[r].slots[i].payload.None?
      {
        var r :| r in todo;
        for i := 0 to |pending[r].slots|
          invariant forall k :: 0 <= k < i && pending[r].slots[k].header.bodyId == id ==> pending[r].slots[k].payload.None?
        {
          if pending[r].slots[i].header.bodyId == id && pending[r].slots[i].payload.Some? {
            assert BodiesMatch(pending[r].slots);
            return pending[r].slots[i].payload;
          }
        }
        todo := todo - {r};
      }
      p := None;
    }

    /** Serves payload requests from what is already known. */
    method Hydrate(cache: BodyId -> Option<Body>) returns (cmds: seq<Command>)
      requires Consistent() && forall id :: cache(id).Some? ==> cache(id).value.id == id
      modifies this`payloadReq, this`inFlight, this`pending
      ensures Consistent() && GoodEmits(cmds)
      ensures forall id :: id in payloadReq ==> id in old(payloadReq) && payloadReq[id] == old(payloadReq)[id] && cache(id).None?
      ensures pending.Keys == old(pending).Keys && Kept(old(pending), pending, [])
      ensures forall id :: FetchPayload(id) !in cmds
      ensures Internal(cmds)
      ensures forall id :: id in old(payloadReq) && id !in payloadReq && old(payloadReq)[id].Some? && old(payloadReq)[id].value.peer.Some? ==>
                ResetTimeout(Payload(id)) in cmds
    {
      hide Matching;
      hide Wanted;
      hide Kept;
      cmds := [];
      KeptRefl(pending, []);
      assert Internal(cmds);
      hide Internal;
      var todo := payloadReq.Keys;
      while todo != {}
        invariant Consistent() && GoodEmits(cmds) && todo <= payloadReq.Keys
        invariant pending.Keys == old(pending).Keys && Kept(old(pending), pending, [])
        invariant forall id :: id in payloadReq ==> id in old(payloadReq) && payloadReq[id] == old(payloadReq)[id]
        invariant forall id :: id in payloadReq && id !in todo ==> cache(id).None?
        invariant forall id :: FetchPayload(id) !in cmds
        invariant Internal(cmds)
        invariant forall id :: id in old(payloadReq) && id !in payloadReq && old(payloadReq)[id].Some? && old(payloadReq)[id].value.peer.Some? ==>
                    ResetTimeout(Payload(id)) in cmds
      {
        var id :| id in todo;
        var p := GetCachedPayload(id, cache);
        if p.Some? {
          if payloadReq[id].Some? && payloadReq[id].value.peer.Some? {
            InternalAppend(cmds, ResetTimeout(Payload(id)));
            cmds := cmds + [ResetTimeout(Payload(id))];
          }
          KeptFilled(old(pending), pending, id, p.value);
          Deliver(id, p.value);
        }
        todo := todo - {id};
      }
    }

    /** Initiates one waiting payload request. */
    method InitiateOne(target: BodyId)
      requires Consistent() && target in payloadReq && payloadReq[target].None? && inFlight < 10
      modifies this`payloadReq, this`inFlight
      ensures Consistent() && inFlight == old(inFlight) + 1
      ensures payloadReq == old(payloadReq)[target := Some(SelfRequest(mode, None))]
      ensures Initiated(payloadReq) == Initiated(old(payloadReq)) + {target}
    {
      hide Matching;
      hide Wanted;
      InitiatedSet(payloadReq, target, SelfRequest(mode, None));
      SameKeysWanted(pending, payloadReq, target, SelfRequest(mode, None));
      payloadReq := payloadReq[target := Some(SelfRequest(mode, None))];
      inFlight := inFlight + 1;
    }

    /** Initiates waiting payload requests up to the limit. */
    method Initiate() returns (cmds: seq<Command>)
      requires Consistent()
      modifies this`payloadReq, this`inFlight
      ensures Consistent() && Saturated(payloadReq, inFlight) && GoodEmits(cmds)
      ensures payloadReq.Keys == old(payloadReq).Keys
      ensures forall p :: p in payloadReq ==>
                if p in Initiated(old(payloadReq)) then payloadReq[p] == old(payloadReq)[p]
                else payloadReq[p] == None || payloadReq[p] == Some(SelfRequest(mode, None))
      ensures forall p :: FetchPayload(p) in cmds <==> p in Initiated(payloadReq) && p !in Initiated(old(payloadReq))
      ensures Internal(cmds)
    {
      hide Matching;
      hide Wanted;
      cmds := [];
      assert Internal(cmds);
      hide Internal;
      while inFlight < MAX_PAYLOAD_REQUESTS
        invariant Consistent() && GoodEmits(cmds) && payloadReq.Keys == old(payloadReq).Keys
        invariant forall p :: p in payloadReq ==>
                    if p in Initiated(old(payloadReq)) then payloadReq[p] == old(payloadReq)[p]
                    else payloadReq[p] == None || payloadReq[p] == Some(SelfRequest(mode, None))
        invariant forall p :: FetchPayload(p) in cmds <==> p in Initiated(payloadReq) && p !in Initiated(old(payloadReq))
        invariant Internal(cmds)
        decreases MAX_PAYLOAD_REQUESTS - inFlight
      {
        var waiting := set p | p in payloadReq && payloadReq[p].None?;
        if waiting == {} {
          forall p | p in payloadReq ensures payloadReq[p].Some? {
            assert p !in waiting;
          }
          break;
        }
        var target :| target in waiting;
        InitiateOne(target);
        InternalAppend(cmds, FetchPayload(target));
        cmds := cmds + [FetchPayload(target)];
      }
    }

    /** Serves, initiates and emits until nothing more can be done now. */
    method TryInitiatePayloadRequests(cache: BodyId -> Option<Body>) returns (cmds: seq<Command>)
      requires Consistent() && forall id :: cache(id).Some? ==> cache(id).value.id == id
      modifies this`payloadReq, this`inFlight, this`pending
      ensures Valid() && GoodEmits(cmds) && Internal(cmds)
      ensures payloadReq.Keys <= old(payloadReq).Keys && Kept(old(pending), pending, cmds)
      ensures forall p :: p in Initiated(payloadReq) && p !in Initiated(old(payloadReq)) ==> FetchPayload(p) in cmds
    {
      hide Matching;
      hide Wanted;
      hide GoodEmit;
      hide Kept;
      ghost var was := pending;
      var served := Hydrate(cache);
      ghost var mid := pending;
      var started := Initiate();
      var emitted := HandleCompletedRanges();
      KeptLater(mid, pending, served + started, emitted);
      cmds := served + started + emitted;
      KeptTrans(was, mid, pending, [], cmds);
      assert [] + cmds == cmds;
    }

    /** Files a payload request for every header whose body is not requested yet. */
    method AddRequests(headers: seq<Header>)
      modifies this`payloadReq
      ensures payloadReq == WithRequests(old(payloadReq), headers)
    {
      ghost var reqs := payloadReq;
      for k := 0 to |headers|
        modifies this`payloadReq
        invariant payloadReq == WithRequests(reqs, headers[..k])
      {
        assert headers[..k + 1] == headers[..k] + [headers[k]];
        if headers[k].bodyId !in payloadReq {
          payloadReq := payloadReq[headers[k].bodyId := None];
        }
      }
      assert headers[..|headers|] == headers;
    }

    /** Moves a range with verified headers on to waiting for payloads. */
    method AcceptHeaders(range: Range, headers: seq<Header>)
      requires Consistent() && range in headersReq && Chain(range, headers)
      modifies this`headersReq, this`payloadReq, this`pending
      ensures Consistent() && headersReq == old(headersReq) - {range}
      ensures pending == old(pending)[range := Completed(mode, EmptySlots(headers))]
      ensures payloadReq == WithRequests(old(payloadReq), headers) && Initiated(payloadReq) == Initiated(old(payloadReq))
    {
      hide Matching;
      hide Wanted;
      hide Chain;
      hide WithRequests;
      hide Initiated;
      AcceptedHeaders(pending, payloadReq, range, headers, mode);
      headersReq := headersReq - {range};
      AddRequests(headers);
      pending := pending[range := Completed(mode, EmptySlots(headers))];
    }

    /** A headers response, from the ledger when there is no sender. */
    method HandleHeadersResponse(sender: Option<NodeId>, range: Range, headers: Option<seq<Header>>, peer: Option<NodeId>, cache: BodyId -> Option<Body>)
        returns (cmds: seq<Command>)
      requires Valid() && forall id :: cache(id).Some? ==> cache(id).value.id == id
      modifies this
      ensures Valid() && GoodEmits(cmds)
      ensures range !in old(headersReq) ==> cmds == [] && pending == old(pending) && payloadReq == old(payloadReq)
      ensures forall p :: p in Initiated(payloadReq) && p !in Initiated(old(payloadReq)) ==> FetchPayload(p) in cmds
      ensures range in headersReq <==> range in old(headersReq) && (headers.None? || !Chain(range, headers.value))
      ensures headersReq - {range} == old(headersReq) - {range}
      ensures range in old(headersReq) && range !in headersReq ==>
                Kept(old(pending)[range := Completed(mode, EmptySlots(headers.value))], pending, cmds)
      ensures range in headersReq ==> Kept(old(pending), pending, cmds)
      ensures range in old(headersReq) && LedgerMiss(sender, old(headersReq)[range], headers.Some?) ==>
                headersReq[range].peer == peer && Addressed(Headers(range), peer, cmds)
      ensures range in headersReq && !LedgerMiss(sender, old(headersReq)[range], headers.Some?) ==>
                headersReq == old(headersReq) && Internal(cmds)
      ensures range in old(headersReq) && range !in headersReq ==> (ResetTimeout(Headers(range)) in cmds <==> sender.Some?)
    {
      hide Matching;
      hide Wanted;
      hide GoodEmit;
      hide Chain;
      hide Kept;
      cmds := [];
      if range !in headersReq {
        return;
      }
      var req := headersReq[range];
      if headers.Some? {
        var ok := VerifyBlockHeaders(range, headers.value);
        if ok {
          AcceptHeaders(range, headers.value);
          if sender.Some? {
            cmds := Reset(Headers(range));
          }
        }
      } else if sender.None? && req.peer.None? {
        headersReq := headersReq[range := req.(peer := peer)];
        cmds := Resend(Headers(range), peer);
      }
      ghost var mid := pending;
      var more := TryInitiatePayloadRequests(cache);
      KeptLater(mid, pending, cmds, more);
      cmds := cmds + more;
    }

    method Reset(request: Request) returns (cmds: seq<Command>)
      ensures cmds == [ResetTimeout(request)] && GoodEmits(cmds)
    {
      cmds := [ResetTimeout(request)];
    }

    /** Asks a peer, if there is one, and arms the timeout either way. */
    method Resend(request: Request, peer: Option<NodeId>) returns (cmds: seq<Command>)
      ensures cmds == (if peer.Some? then [SendRequest(peer.value, request)] else []) + [ScheduleTimeout(request)]
      ensures GoodEmits(cmds) && Addressed(request, peer, cmds)
    {
      cmds := (if peer.Some? then [SendRequest(peer.value, request)] else []) + [ScheduleTimeout(request)];
    }

    /** Re-addresses an initiated payload request. */
    method Readdress(id: BodyId, peer: Option<NodeId>) returns (cmds: seq<Command>)
      requires Consistent() && id in payloadReq && payloadReq[id].Some?
      modifies this`payloadReq
      ensures Consistent() && GoodEmits(cmds) && Addressed(Payload(id), peer, cmds)
      ensures payloadReq == old(payloadReq)[id := Some(old(payloadReq)[id].value.(peer := peer))]
    {
      hide Matching;
      hide Wanted;
      var q := payloadReq[id].value.(peer := peer);
      InitiatedSet(payloadReq, id, q);
      SameKeysWanted(pending, payloadReq, id, q);
      payloadReq := payloadReq[id := Some(q)];
      cmds := Resend(Payload(id), peer);
    }

    /** A payload response, from the ledger when there is no sender. */
    method HandlePayloadResponse(sender: Option<NodeId>, id: BodyId, body: Option<Body>, peer: Option<NodeId>, cache: BodyId -> Option<Body>)
        returns (cmds: seq<Command>)
      requires Valid() && (body.Some? ==> body.value.id == id) && forall i :: cache(i).Some? ==> cache(i).value.id == i
      modifies this
      ensures Valid() && GoodEmits(cmds) && headersReq == old(headersReq)
      ensures id !in old(payloadReq) || old(payloadReq)[id].None? ==> cmds == [] && pending == old(pending) && payloadReq == old(payloadReq)
      ensures id in old(payloadReq) && old(payloadReq)[id].Some? && body.Some? ==>
                id !in payloadReq && Kept(FilledAll(old(pending), id, body.value), pending, cmds)
      ensures body.None? ==> Kept(old(pending), pending, cmds)
      ensures id in old(payloadReq) && old(payloadReq)[id].Some? ==>
                if LedgerMiss(sender, old(payloadReq)[id].value, body.Some?) then Addressed(Payload(id), peer, cmds)
                else Internal(cmds) && (body.Some? && sender.Some? ==> ResetTimeout(Payload(id)) in cmds)
    {
      hide Matching;
      hide Wanted;
      hide GoodEmit;
      hide Kept;
      cmds := [];
      KeptRefl(pending, []);
      if id !in payloadReq || payloadReq[id].None? {
        return;
      }
      if body.Some? {
        Deliver(id, body.value);
        if sender.Some? {
          cmds := Reset(Payload(id));
        }
      } else if sender.None? && payloadReq[id].value.peer.None? {
        cmds := Readdress(id, peer);
      }
      ghost var filled := pending;
      var more := Advance(cache);
      KeptLater(filled, pending, cmds, more);
      cmds := cmds + more;
    }

    /** Emits what is complete, then serves, initiates and emits again. */
    method Advance(cache: BodyId -> Option<Body>) returns (cmds: seq<Command>)
      requires Consistent() && forall i :: cache(i).Some? ==> cache(i).value.id == i
      modifies this`payloadReq, this`inFlight, this`pending
      ensures Valid() && GoodEmits(cmds) && Internal(cmds)
      ensures payloadReq.Keys <= old(payloadReq).Keys && Kept(old(pending), pending, cmds)
    {
      hide Matching;
      hide Wanted;
      hide GoodEmit;
      hide Kept;
      ghost var was := pending;
      var emitted := HandleCompletedRanges();
      ghost var mid := pending;
      var more := TryInitiatePayloadRequests(cache);
      KeptTrans(was, mid, pending, emitted, more);
      cmds := emitted + more;
    }

    /** A request timed out: it is sent to another peer. */
    method HandleTimeout(request: Request, peer: Option<NodeId>) returns (cmds: seq<Command>)
      requires Valid()
      modifies this`headersReq, this`payloadReq
      ensures Valid() && GoodEmits(cmds)
      ensures headersReq.Keys == old(headersReq).Keys && Initiated(payloadReq) == Initiated(old(payloadReq))
      ensures request.Headers? && request.range in headersReq ==> headersReq[request.range].peer == peer && Addressed(request, peer, cmds)
      ensures request.Payload? && request.id in payloadReq && payloadReq[request.id].Some? ==>
                payloadReq[request.id].value.peer == peer && Addressed(request, peer, cmds)
      ensures (request.Headers? && request.range !in headersReq) || (request.Payload? && request.id !in Initiated(payloadReq)) ==>
                cmds == [] && headersReq == old(headersReq) && payloadReq == old(payloadReq)
      ensures request.Headers? ==> headersReq - {request.range} == old(headersReq) - {request.range} && payloadReq == old(payloadReq)
      ensures request.Payload? ==> headersReq == old(headersReq) && payloadReq - {request.id} == old(payloadReq) - {request.id}
    {
      hide Matching;
      hide Wanted;
      cmds := [];
      match request
      case Headers(range) =>
        if range in headersReq {
          headersReq := headersReq[range := headersReq[range].(peer := peer)];
          cmds := Resend(request, peer);
        }
      case Payload(id) =>
        if id in payloadReq && payloadReq[id].Some? {
          cmds := Readdress(id, peer);
        }
    }
  }

  function EmptySlots(headers: seq<Header>): (s: seq<Slot>)
    ensures |s| == |headers| && HeadersOf(s) == headers
    ensures forall i :: 0 <= i < |headers| ==> s[i] == Slot(headers[i], None)
  {
    seq(|headers|, i requires 0 <= i < |headers| => Slot(headers[i], None))
  }

  /** A waiting entry for every body that has none. */
  function WithRequests(reqs: map<BodyId, Option<SelfRequest>>, headers: seq<Header>): map<BodyId, Option<SelfRequest>> {
    if headers == [] then reqs
    else
      var r, id := WithRequests(reqs, headers[..|headers| - 1]), headers[|headers| - 1].bodyId;
      if id in r then r else r[id := None]
  }

  ghost function BodyIds(headers: seq<Header>): set<BodyId> {
    set k | 0 <= k < |headers| :: headers[k].bodyId
  }

  lemma BodyIdsSnoc(headers: seq<Header>, h: Header)
    ensures BodyIds(headers + [h]) == BodyIds(headers) + {h.bodyId}
  {
    var all := headers + [h];
    forall id | id in BodyIds(headers) ensures id in BodyIds(all) {
      var k :| 0 <= k < |headers| && headers[k].bodyId == id;
      assert all[k].bodyId == id;
    }
    assert all[|headers|].bodyId == h.bodyId;
  }

  lemma {:induction false} WithRequestsKeys(reqs: map<BodyId, Option<SelfRequest>>, headers: seq<Header>)
    ensures var r := WithRequests(reqs, headers);
            && r.Keys == reqs.Keys + BodyIds(headers)
            && (forall id :: id in reqs ==> r[id] == reqs[id])
            && (forall id :: id in r && id !in reqs ==> r[id].None?)
  {
    if headers != [] {
      var n := |headers| - 1;
      WithRequestsKeys(reqs, headers[..n]);
      assert headers == headers[..n] + [headers[n]];
      BodyIdsSnoc(headers[..n], headers[n]);
    }
  }

  lemma AcceptedHeaders(pending: map<Range, Completed>, reqs: map<BodyId, Option<SelfRequest>>, range: Range, headers: seq<Header>, mode: Requester)
    requires Matching(pending) && Wanted(pending, reqs) && Chain(range, headers)
    ensures var pending' := pending[range := Completed(mode, EmptySlots(headers))];
            var reqs' := WithRequests(reqs, headers);
            Matching(pending') && Wanted(pending', reqs') && Initiated(reqs') == Initiated(reqs)
  {
    WithRequestsKeys(reqs, headers);
    var pending' := pending[range := Completed(mode, EmptySlots(headers))];
    forall r | r in pending' ensures BodiesMatch(pending'[r].slots) {
      if r != range {
        assert BodiesMatch(pending[r].slots);
      }
    }
    var reqs' := WithRequests(reqs, headers);
    forall i | 0 <= i < |headers| ensures headers[i].bodyId in reqs' {
      assert headers[i].bodyId in BodyIds(headers);
    }
  }

  lemma SameKeysWanted(pending: map<Range, Completed>, reqs: map<BodyId, Option<SelfRequest>>, id: BodyId, q: SelfRequest)
    requires Wanted(pending, reqs) && id in reqs
    ensures Wanted(pending, reqs[id := Some(q)])
  {}
}
