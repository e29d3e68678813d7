/** Double-signing safety of every run. */
module VotingSafety {
  import opened Wrappers
  import opened SafetyWatermarks
  import opened VotingRuns

  // ---- what the watermarks know about past votes ----

  /** A vote is at or below the vote watermark; at the watermark it is the high tip whenever a timeout
      could still vote for that tip. */
  ghost predicate Covered(w: Watermarks, v: Vote) {
    && v.round <= w.vote
    && (v.round == w.vote && w.tip.Some? && (w.noEndorse < w.vote || w.tip.value.blockRound == w.vote) ==> v.id == w.tip.value.id)
  }

  /** The part of `Covered` that survives a restart, where the start round counts as no-endorsed. */
  ghost predicate CoveredDurably(w: Watermarks, v: Vote) {
    && v.round <= w.vote
    && (v.round == w.vote && w.tip.Some? && w.tip.value.blockRound == w.vote ==> v.id == w.tip.value.id)
  }

  ghost predicate TipLow(w: Watermarks) {
    w.tip.Some? ==> w.tip.value.blockRound <= w.vote
  }

  ghost predicate Clean(msgs: seq<Message>) {
    OneBlockPerRound(msgs) && NoEndorseAfterVote(msgs)
  }

  ghost predicate SchedOk(l: Live, msgs: seq<Message>) {
    l.sched.Ready? ==>
      && Covered(l.w, l.sched.vote)
      && (forall m, v :: m in msgs && Casts(m, v) && v.round == l.sched.vote.round ==> v.id == l.sched.vote.id)
  }

  ghost predicate LiveInv(l: Live, msgs: seq<Message>) {
    && l.w.vote <= l.Current() && TipLow(l.w)
    && (forall m, v :: m in msgs && Casts(m, v) ==> Covered(l.w, v))
    && (forall m :: m in msgs && m.NoEndorseMsg? ==> m.round <= l.w.noEndorse)
    && SchedOk(l, msgs)
    && Clean(msgs)
  }

  ghost predicate DurableInv(d: Option<Watermarks>, msgs: seq<Message>) {
    && Clean(msgs)
    && match d
       case None => forall m :: m in msgs ==> m.TimeoutMsg? && m.tipVote.None?
       case Some(w) =>
         && TipLow(w)
         && (forall m, v :: m in msgs && Casts(m, v) ==> CoveredDurably(w, v))
         && (forall m :: m in msgs && m.NoEndorseMsg? ==> m.round <= w.noEndorse)
  }

  lemma LiveDurable(l: Live, msgs: seq<Message>)
    requires LiveInv(l, msgs)
    ensures DurableInv(Some(l.w), msgs)
  {}

  // ---- one action ----

  /** Appending a message that agrees with everything signed before. */
  lemma CleanAppend(msgs: seq<Message>, m: Message)
    requires Clean(msgs)
    requires forall a, u, v :: a in msgs && Casts(a, u) && Casts(m, v) && u.round == v.round ==> u.id == v.id
    requires m.NoEndorseMsg? ==> forall a, v :: a in msgs && Casts(a, v) ==> v.round < m.round
    requires m.NoEndorseMsg? ==> forall a :: a in msgs && a.NoEndorseMsg? ==> a.round < m.round
    ensures Clean(msgs + [m])
  {}

  lemma ActSafe(l: Live, a: Action, msgs: seq<Message>)
    requires LiveInv(l, msgs) && Allowed(l, a)
    ensures Act(l, a).Did? && LiveInv(Act(l, a).live, msgs + Act(l, a).out)
  {
    match a
    case Certificate(round, qc) =>
      assert msgs + [] == msgs;
    case Proposal(tcTip, tip, afterGap) =>
      VoteSafe(l, tcTip, tip, afterGap, msgs);
    case VoteTimer =>
      TimerSafe(l, msgs);
    case LocalTimeout =>
      TimeoutSafe(l, msgs);
    case RoundRecovery(tipId) =>
      RecoverySafe(l, tipId, msgs);
  }

  lemma TimerSafe(l: Live, msgs: seq<Message>)
    requires LiveInv(l, msgs)
    ensures var e := Act(l, VoteTimer); e.Did? && LiveInv(e.live, msgs + e.out)
  {
    assert msgs + [] == msgs;
    if l.sched.Ready? {
      CleanAppend(msgs, VoteMsg(l.sched.vote));
    }
    hide Clean;
  }

  lemma RecoverySafe(l: Live, tipId: BlockId, msgs: seq<Message>)
    requires LiveInv(l, msgs)
    ensures var e := Act(l, RoundRecovery(tipId)); e.Did? && LiveInv(e.live, msgs + e.out)
  {
    assert msgs + [] == msgs;
    if SafeToNoEndorse(l.w, l.Current()) {
      CleanAppend(msgs, NoEndorseMsg(l.Current(), tipId));
    }
    hide Clean;
  }

  lemma VoteSafe(l: Live, tcTip: Option<BlockId>, tip: Tip, afterGap: bool, msgs: seq<Message>)
    requires LiveInv(l, msgs) && tip.blockRound <= l.Current()
    ensures var e := TryVote(l, tcTip, tip, afterGap); e.Did? && LiveInv(e.live, msgs + e.out)
  {
    assert msgs + [] == msgs;
    if SafeToVote(l.w, l.Current(), tcTip) {
      CleanAppend(msgs, VoteMsg(Vote(l.Current(), tip.id)));
    }
  }

  lemma TimeoutSafe(l: Live, msgs: seq<Message>)
    requires LiveInv(l, msgs)
    ensures var e := Act(l, LocalTimeout); e.Did? && LiveInv(e.live, msgs + e.out)
  {
    var m := TimeoutMsg(l.Current(), EmbeddedVote(l.w, l.Current()));
    CleanAppend(msgs, m);
    hide OneBlockPerRound;
    hide NoEndorseAfterVote;
  }

  lemma {:induction false} ActsSafe(l: Live, actions: seq<Action>, msgs: seq<Message>)
    requires LiveInv(l, msgs) && Acts(l, actions).Some?
    ensures Acts(l, actions).value.Did?
    ensures LiveInv(Acts(l, actions).value.live, msgs + Acts(l, actions).value.out)
  {
    if actions == [] {
      assert msgs + [] == msgs;
    } else {
      var k := |actions| - 1;
      ActsSafe(l, actions[..k], msgs);
      var e := Acts(l, actions[..k]).value;
      ActSafe(e.live, actions[k], msgs + e.out);
      assert (msgs + e.out) + Act(e.live, actions[k]).out == msgs + (e.out + Act(e.live, actions[k]).out);
    }
  }

  // ---- starting and stopping ----

  lemma StartSafe(hc: Round, qc: Round, d: Option<Watermarks>, msgs: seq<Message>)
    requires DurableInv(d, msgs) && Gate(hc, d)
    ensures LiveInv(Started(hc, qc, d), msgs)
  {}

  /** Dropping one message keeps what was proved about the rest. */
  lemma CleanDrop(a: seq<Message>, m: Message, b: seq<Message>)
    requires Clean(a + [m] + b)
    ensures Clean(a + b)
  {
    var all, some := a + [m] + b, a + b;
    forall i | 0 <= i < |some| ensures some[i] == all[if i < |a| then i else i + 1] {}
  }

  lemma LiveDrop(l: Live, a: seq<Message>, m: Message, b: seq<Message>)
    requires LiveInv(l, a + [m] + b)
    ensures LiveInv(l, a + b)
  {
    var all, some := a + [m] + b, a + b;
    CleanDrop(a, m, b);
    forall i | 0 <= i < |some| ensures some[i] == all[if i < |a| then i else i + 1] {}
  }

  lemma DurableDrop(d: Option<Watermarks>, a: seq<Message>, m: Message, b: seq<Message>)
    requires DurableInv(d, a + [m] + b)
    ensures DurableInv(d, a + b)
  {
    var all, some := a + [m] + b, a + b;
    CleanDrop(a, m, b);
    forall i | 0 <= i < |some| ensures some[i] == all[if i < |a| then i else i + 1] {}
  }

  lemma DurablePrefix(d: Option<Watermarks>, a: seq<Message>, b: seq<Message>)
    requires DurableInv(d, a + b)
    ensures DurableInv(d, a)
  {
    forall i | 0 <= i < |a| ensures (a + b)[i] == a[i] {}
  }

  // ---- every reachable node ----

  function Out(s: Stage): seq<Message> {
    if s.Updated? || s.Persisted? || s.Booting? then s.out else []
  }

  ghost predicate NodeInv(n: Node) {
    && !n.stage.Panicked?
    && DurableInv(n.durable, n.sent)
    && (n.live.Some? ==> LiveInv(n.live.value, n.sent + Out(n.stage)))
    && (n.stage.Updated? || n.stage.Persisted? || n.stage.Booting? ==> n.live.Some?)
    && (n.stage.Persisted? ==> n.durable == Some(n.live.value.w))
    && (n.stage.Booting? ==> DurableInv(n.durable, n.sent + n.stage.out))
    && (n.stage.Quiet? && n.live.None? ==> n.restored == n.durable)
    && (n.stage.Down? ==> n.live.None?)
  }

  lemma DispatchSafe(n: Node, l: Live, actions: seq<Action>)
    requires DurableInv(n.durable, n.sent) && LiveInv(l, n.sent)
    ensures Dispatch(n, l, actions).Some? ==>
              var m := Dispatch(n, l, actions).value;
              m.stage.Updated? && NodeInv(m)
  {
    if Acts(l, actions).Some? {
      ActsSafe(l, actions, n.sent);
    }
  }

  /** What going live emits: one timeout of the start round. */
  lemma StartupActs(l: Live)
    requires l.sched.Unscheduled? && l.w.vote <= l.Current()
    ensures var m := TimeoutMsg(l.Current(), EmbeddedVote(l.w, l.Current()));
            Acts(l, STARTUP) == Some(Did(Live(TimedOut(l.w, l.Current()), l.hc, TimerFired), [m]))
  {
    ActsSnoc(l, [], VoteTimer);
    assert [] + [VoteTimer] == [VoteTimer];
    var e := Acts(l, [VoteTimer]).value;
    assert e.out == [] && e.live == l.(sched := TimerFired);
    var out := [TimeoutMsg(l.Current(), EmbeddedVote(l.w, l.Current()))];
    assert [] + out == out;
    ActsSnoc(l, [VoteTimer], LocalTimeout);
    assert STARTUP == [VoteTimer] + [LocalTimeout];
  }

  /** Going live is held back exactly when the start-up timeout would be refused. */
  lemma GateExact(hc: Round, qc: Round, d: Option<Watermarks>)
    ensures Gate(hc, d) <==> exists l', out :: Acts(Started(hc, qc, d), STARTUP) == Some(Did(l', out))
    ensures !Gate(hc, d) ==> Acts(Started(hc, qc, d), STARTUP) == Some(Panic)
  {
    var l := Started(hc, qc, d);
    if Gate(hc, d) {
      StartupActs(l);
    } else {
      ActsSnoc(l, [], VoteTimer);
      assert [] + [VoteTimer] == [VoteTimer] && STARTUP[..1] == [VoteTimer];
    }
  }

  /** What a restart publishes before any durable write is already covered by the durable watermarks. */
  lemma BootCovered(n: Node, hc: Round, qc: Round)
    requires DurableInv(n.durable, n.sent) && Gate(hc, n.durable)
    ensures var l := Started(hc, qc, n.durable);
            DurableInv(n.durable, n.sent + [TimeoutMsg(hc + 1, EmbeddedVote(l.w, hc + 1))])
  {}

  lemma ActsSnoc(l: Live, actions: seq<Action>, a: Action)
    requires Acts(l, actions).Some? && Acts(l, actions).value.Did?
    ensures var e := Acts(l, actions).value;
            Allowed(e.live, a) && Act(e.live, a).Did? ==>
              Acts(l, actions + [a]) == Some(Did(Act(e.live, a).live, e.out + Act(e.live, a).out))
  {}

  lemma BootSafe(n: Node, hc: Round, qc: Round)
    requires NodeInv(n) && Next(n, BootLive(hc, qc)).Some?
    ensures NodeInv(Next(n, BootLive(hc, qc)).value)
  {
    StartSafe(hc, qc, n.durable, n.sent);
    BootCovered(n, hc, qc);
    hide LiveInv;
    StartLow(hc, qc, n.durable);
    hide DurableInv;
    hide Started;
    StartupActs(Started(hc, qc, n.durable));
    DispatchSafe(n, Started(hc, qc, n.durable), STARTUP);
  }

  lemma StartLow(hc: Round, qc: Round, d: Option<Watermarks>)
    requires Gate(hc, d)
    ensures var l := Started(hc, qc, d); l.sched.Unscheduled? && l.w.vote <= l.Current() && l.hc == hc
  {}

  lemma PersistSafe(n: Node)
    requires NodeInv(n) && n.stage.Updated? && n.live.Some?
    ensures NodeInv(Next(n, Persist).value)
  {
    LiveDurable(n.live.value, n.sent + n.stage.out);
    hide LiveInv;
    DurablePrefix(Some(n.live.value.w), n.sent, n.stage.out);
    hide DurableInv;
  }

  lemma NextSafe(n: Node, s: Step)
    requires NodeInv(n) && Next(n, s).Some?
    ensures NodeInv(Next(n, s).value)
  {
    hide LiveInv;
    hide DurableInv;
    assert n.sent + [] == n.sent;
    match s
    case BootLive(hc, qc) =>
      BootSafe(n, hc, qc);
    case GoLive(actions) =>
      StartSafe(n.hc, n.qc, n.restored, n.sent);
      DispatchSafe(n, Started(n.hc, n.qc, n.restored), STARTUP + actions);
    case Handle(actions) =>
      DispatchSafe(n, n.live.value, actions);
    case Persist =>
      PersistSafe(n);
    case Publish(sent) =>
      PublishSafe(n, sent);
    case _ =>
  }

  lemma PublishSafe(n: Node, sent: bool)
    requires NodeInv(n) && (n.stage.Persisted? || n.stage.Booting?) && n.stage.out != []
    ensures NodeInv(Next(n, Publish(sent)).value)
  {
    var m, rest, l := n.stage.out[0], n.stage.out[1..], n.live.value;
    assert n.sent + n.stage.out == n.sent + [m] + rest;
    if n.stage.Persisted? {
      LiveDurable(l, n.sent + n.stage.out);
    }
    DurablePrefix(n.durable, n.sent + [m], rest);
    LiveDrop(l, n.sent, m, rest);
    DurableDrop(n.durable, n.sent, m, rest);
  }

  lemma {:induction false} RunSafe(steps: seq<Step>)
    requires Run(INIT, steps).Some?
    ensures NodeInv(Run(INIT, steps).value)
  {
    if steps != [] {
      RunSafe(steps[..|steps| - 1]);
      NextSafe(Run(INIT, steps[..|steps| - 1]).value, steps[|steps| - 1]);
    }
  }

  /** Over every run, with crashes at any stage and restarts from any forkpoint: all published votes of a
      round name one block, no no-endorsement follows a vote of its round, and no guard panics. */
  lemma NoDoubleSigning(steps: seq<Step>)
    requires Run(INIT, steps).Some?
    ensures var n := Run(INIT, steps).value;
            OneBlockPerRound(n.sent) && NoEndorseAfterVote(n.sent) && !n.stage.Panicked?
  {
    RunSafe(steps);
  }

  // ---- the high tip ----

  /** The high tip is of a round above the highest certified one. */
  ghost predicate TipFresh(w: Watermarks) {
    w.tip.Some? ==> w.qcRound < w.tip.value.blockRound
  }

  lemma {:induction false} ActsTip(l: Live, actions: seq<Action>)
    requires TipFresh(l.w) && Acts(l, actions).Some? && Acts(l, actions).value.Did?
    ensures TipFresh(Acts(l, actions).value.live.w) && l.w.qcRound <= Acts(l, actions).value.live.w.qcRound
  {
    if actions != [] {
      ActsTip(l, actions[..|actions| - 1]);
    }
  }

  ghost predicate NodeTip(n: Node) {
    && (n.durable.Some? ==> TipFresh(n.durable.value))
    && (n.restored.Some? ==> TipFresh(n.restored.value))
    && (n.live.Some? ==> TipFresh(n.live.value.w))
  }

  lemma NextTip(n: Node, s: Step)
    requires NodeTip(n) && Next(n, s).Some?
    ensures NodeTip(Next(n, s).value)
  {
    hide Acts;
    match s
    case BootLive(hc, qc) =>
      var l := Started(hc, qc, n.durable);
      if Acts(l, STARTUP).Some? && Acts(l, STARTUP).value.Did? {
        ActsTip(l, STARTUP);
      }
    case GoLive(actions) =>
      var l := Started(n.hc, n.qc, n.restored);
      if Acts(l, STARTUP + actions).Some? && Acts(l, STARTUP + actions).value.Did? {
        ActsTip(l, STARTUP + actions);
      }
    case Handle(actions) =>
      var l := n.live.value;
      if Acts(l, actions).Some? && Acts(l, actions).value.Did? {
        ActsTip(l, actions);
      }
    case _ =>
  }

  lemma {:induction false} RunTip(steps: seq<Step>)
    requires Run(INIT, steps).Some?
    ensures NodeTip(Run(INIT, steps).value)
  {
    hide NodeTip;
    if steps == [] {
      InitTip();
    } else {
      RunTip(steps[..|steps| - 1]);
      NextTip(Run(INIT, steps[..|steps| - 1]).value, steps[|steps| - 1]);
    }
  }

  lemma InitTip()
    ensures NodeTip(INIT)
  {}

  /** Over every run a timeout only votes for a block that is not certified yet, as far as the node knows. */
  lemma EmbeddedUncertified(steps: seq<Step>)
    requires Run(INIT, steps).Some? && Run(INIT, steps).value.live.Some?
    ensures var l := Run(INIT, steps).value.live.value;
            EmbeddedVote(l.w, l.Current()).Some? ==>
              && l.w.tip.Some? && EmbeddedVote(l.w, l.Current()).value == l.w.tip.value.id
              && l.w.qcRound < l.w.tip.value.blockRound <= l.w.vote
  {
    RunTip(steps);
    RunSafe(steps);
  }
}
