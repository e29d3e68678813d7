/** Votes in a round that the node has no-endorsed.

    Such a vote is for a proposal whose timeout certificate names the very tip of the no-endorsement. The
    watermarks remember one no-endorsement only, so a restart below an older one forgets it. The lemmas say
    exactly which restarts are harmless. */
module EndorseGate {
  import opened Wrappers
  import opened SafetyWatermarks
  import opened VotingRuns
  import opened VotingSafety
  import opened TimeoutGate

  /** A proposal the node decided to vote for, and the tip its timeout certificate names. */
  datatype Ballot = Ballot(round: Round, id: BlockId, tcTip: Option<BlockId>)

  /** The proposal of `a`, when it raises the vote watermark. */
  function Decided(l: Live, a: Action): set<Ballot> {
    if a.Proposal? && Act(l, a).Did? && l.w.vote < Act(l, a).live.w.vote then {Ballot(l.Current(), a.tip.id, a.tcTip)} else {}
  }

  function Decisions(l: Live, actions: seq<Action>): set<Ballot> {
    if actions == [] then {}
    else
      var k := |actions| - 1;
      var before := Acts(l, actions[..k]);
      Decisions(l, actions[..k]) + if before.Some? && before.value.Did? then Decided(before.value.live, actions[k]) else {}
  }

  function StepBallots(n: Node, s: Step): set<Ballot> {
    match s
    case BootLive(hc, qc) => Decisions(Started(hc, qc, n.durable), STARTUP)
    case GoLive(actions) => Decisions(Started(n.hc, n.qc, n.restored), STARTUP + actions)
    case Handle(actions) => if n.live.Some? then Decisions(n.live.value, actions) else {}
    case _ => {}
  }

  /** Every ballot of a run, crashes and restarts included. */
  function Ballots(n: Node, steps: seq<Step>): set<Ballot> {
    if steps == [] then {}
    else
      var k := |steps| - 1;
      Ballots(n, steps[..k]) + if Run(n, steps[..k]).Some? then StepBallots(Run(n, steps[..k]).value, steps[k]) else {}
  }

  /** A vote, direct or in a timeout, of a round no-endorsed before it is for a proposal whose timeout
      certificate names the no-endorsed tip. */
  ghost predicate Endorsed(msgs: seq<Message>, cast: set<Ballot>) {
    forall i, j, v :: 0 <= i < j < |msgs| && msgs[i].NoEndorseMsg? && Casts(msgs[j], v) && v.round == msgs[i].round ==>
      Ballot(v.round, v.id, Some(msgs[i].tip)) in cast
  }

  // ---- what the watermarks know about past no-endorsements ----

  ghost predicate Backed(msgs: seq<Message>, cast: set<Ballot>, v: Vote) {
    forall m :: m in msgs && m.NoEndorseMsg? && m.round == v.round ==> Ballot(v.round, v.id, Some(m.tip)) in cast
  }

  /** The no-endorsement at the watermark is remembered, unless its round is closed; a high tip voted for in
      its own round is backed. */
  ghost predicate Recorded(w: Watermarks, msgs: seq<Message>, cast: set<Ballot>) {
    && (forall m :: m in msgs && m.NoEndorseMsg? && m.round == w.noEndorse ==> m.tip == w.noEndorseTip || m.round <= w.vote)
    && (w.tip.Some? && w.tip.value.blockRound == w.vote ==> Backed(msgs, cast, Vote(w.vote, w.tip.value.id)))
    && Endorsed(msgs, cast)
  }

  /** No-endorsements below the watermark are of closed rounds. */
  ghost predicate OlderClosed(w: Watermarks, hc: Round, msgs: seq<Message>) {
    forall m :: m in msgs && m.NoEndorseMsg? && m.round < w.noEndorse ==> m.round <= Max(w.vote, hc)
  }

  ghost predicate LiveEndorsed(l: Live, msgs: seq<Message>, cast: set<Ballot>) {
    && Recorded(l.w, msgs, cast)
    && OlderClosed(l.w, l.hc, msgs)
    && (l.sched.Ready? ==> Backed(msgs, cast, l.sched.vote))
  }

  ghost predicate DurableEndorsed(d: Option<Watermarks>, msgs: seq<Message>, cast: set<Ballot>) {
    if d.Some? then Recorded(d.value, msgs, cast) else Endorsed(msgs, cast)
  }

  lemma EndorsedAppend(msgs: seq<Message>, m: Message, cast: set<Ballot>)
    requires Endorsed(msgs, cast)
    requires forall v :: Casts(m, v) ==> Backed(msgs, cast, v)
    ensures Endorsed(msgs + [m], cast)
  {
    var all := msgs + [m];
    forall i, j, v | 0 <= i < j < |all| && all[i].NoEndorseMsg? && Casts(all[j], v) && v.round == all[i].round
      ensures Ballot(v.round, v.id, Some(all[i].tip)) in cast
    {
      assert all[i] == msgs[i] && all[i] in msgs;
    }
  }

  lemma MoreBallots(l: Live, msgs: seq<Message>, cast: set<Ballot>, more: set<Ballot>)
    requires LiveEndorsed(l, msgs, cast)
    ensures LiveEndorsed(l, msgs, cast + more)
  {}

  // ---- one action ----

  /** A vote the watermarks allow in the current round is backed by its own ballot. */
  lemma VoteBacked(l: Live, tcTip: Option<BlockId>, id: BlockId, msgs: seq<Message>, cast: set<Ballot>)
    requires LiveInv(l, msgs) && LiveEndorsed(l, msgs, cast) && SafeToVote(l.w, l.Current(), tcTip)
    ensures Backed(msgs, cast + {Ballot(l.Current(), id, tcTip)}, Vote(l.Current(), id))
  {
    hide Endorsed;
    hide Clean;
    hide Covered;
  }

  lemma VoteEndorsed(l: Live, a: Action, msgs: seq<Message>, cast: set<Ballot>)
    requires LiveInv(l, msgs) && LiveEndorsed(l, msgs, cast) && a.Proposal? && Act(l, a).Did?
    ensures LiveEndorsed(Act(l, a).live, msgs + Act(l, a).out, cast + Decided(l, a))
  {
    hide LiveInv;
    hide Endorsed;
    assert msgs + [] == msgs;
    MoreBallots(l, msgs, cast, Decided(l, a));
    if SafeToVote(l.w, l.Current(), a.tcTip) {
      VoteBacked(l, a.tcTip, a.tip.id, msgs, cast);
      var m := VoteMsg(Vote(l.Current(), a.tip.id));
      EndorsedAppend(msgs, m, cast + Decided(l, a));
      VoteRecorded(l, a, msgs, cast + Decided(l, a));
    }
  }

  lemma VoteRecorded(l: Live, a: Action, msgs: seq<Message>, cast: set<Ballot>)
    requires LiveEndorsed(l, msgs, cast) && a.Proposal? && Act(l, a).Did? && SafeToVote(l.w, l.Current(), a.tcTip)
    requires var v := Vote(l.Current(), a.tip.id); Backed(msgs, cast, v) && Endorsed(msgs + [VoteMsg(v)], cast)
    ensures LiveEndorsed(Act(l, a).live, msgs + Act(l, a).out, cast)
  {
    hide Endorsed;
    assert msgs + [] == msgs;
  }

  lemma CertificateEndorsed(l: Live, round: Round, qc: Round, msgs: seq<Message>, cast: set<Ballot>)
    requires LiveEndorsed(l, msgs, cast)
    ensures var e := Act(l, Certificate(round, qc)); e.Did? && LiveEndorsed(e.live, msgs + e.out, cast)
  {
    hide Endorsed;
    assert msgs + [] == msgs;
  }

  lemma TimerEndorsed(l: Live, msgs: seq<Message>, cast: set<Ballot>)
    requires LiveEndorsed(l, msgs, cast)
    ensures var e := Act(l, VoteTimer); e.Did? && LiveEndorsed(e.live, msgs + e.out, cast)
  {
    assert msgs + [] == msgs;
    if l.sched.Ready? {
      EndorsedAppend(msgs, VoteMsg(l.sched.vote), cast);
    }
    hide Endorsed;
  }

  /** A vote in a timeout of a no-endorsed round is the high tip, voted for in that round. */
  lemma TimeoutEndorsed(l: Live, msgs: seq<Message>, cast: set<Ballot>)
    requires LiveInv(l, msgs) && LiveEndorsed(l, msgs, cast)
    ensures var e := Act(l, LocalTimeout); e.Did? && LiveEndorsed(e.live, msgs + e.out, cast)
  {
    var m := TimeoutMsg(l.Current(), EmbeddedVote(l.w, l.Current()));
    hide Clean;
    hide Covered;
    EndorsedAppend(msgs, m, cast);
    hide Endorsed;
  }

  lemma RecoveryEndorsed(l: Live, tipId: BlockId, msgs: seq<Message>, cast: set<Ballot>)
    requires LiveInv(l, msgs) && LiveEndorsed(l, msgs, cast)
    ensures var e := Act(l, RoundRecovery(tipId)); e.Did? && LiveEndorsed(e.live, msgs + e.out, cast)
  {
    assert msgs + [] == msgs;
    hide Clean;
    if SafeToNoEndorse(l.w, l.Current()) {
      EndorsedAppend(msgs, NoEndorseMsg(l.Current(), tipId), cast);
    }
    hide Endorsed;
  }

  lemma ActEndorsed(l: Live, a: Action, msgs: seq<Message>, cast: set<Ballot>)
    requires LiveInv(l, msgs) && LiveEndorsed(l, msgs, cast) && Allowed(l, a)
    ensures Act(l, a).Did? && LiveEndorsed(Act(l, a).live, msgs + Act(l, a).out, cast + Decided(l, a))
  {
    ActSafe(l, a, msgs);
    hide LiveInv;
    hide LiveEndorsed;
    assert !a.Proposal? ==> Decided(l, a) == {} && cast + {} == cast;
    hide Decided;
    match a
    case Certificate(round, qc) =>
      CertificateEndorsed(l, round, qc, msgs, cast);
    case Proposal(tcTip, tip, afterGap) =>
      VoteEndorsed(l, a, msgs, cast);
    case VoteTimer =>
      TimerEndorsed(l, msgs, cast);
    case LocalTimeout =>
      TimeoutEndorsed(l, msgs, cast);
    case RoundRecovery(tipId) =>
      RecoveryEndorsed(l, tipId, msgs, cast);
  }

  lemma {:induction false} ActsEndorsed(l: Live, actions: seq<Action>, msgs: seq<Message>, cast: set<Ballot>)
    requires LiveInv(l, msgs) && LiveEndorsed(l, msgs, cast) && Acts(l, actions).Some?
    ensures Acts(l, actions).value.Did?
    ensures LiveEndorsed(Acts(l, actions).value.live, msgs + Acts(l, actions).value.out, cast + Decisions(l, actions))
  {
    hide LiveInv;
    hide LiveEndorsed;
    if actions == [] {
      assert msgs + [] == msgs && cast + {} == cast;
    } else {
      var k := |actions| - 1;
      ActsSafe(l, actions[..k], msgs);
      ActsEndorsed(l, actions[..k], msgs, cast);
      var e := Acts(l, actions[..k]).value;
      var c := cast + Decisions(l, actions[..k]);
      ActEndorsed(e.live, actions[k], msgs + e.out, c);
      assert (msgs + e.out) + Act(e.live, actions[k]).out == msgs + (e.out + Act(e.live, actions[k]).out);
      assert c + Decided(e.live, actions[k]) == cast + Decisions(l, actions);
    }
  }

  // ---- starting and stopping ----

  /** The restart condition: every published no-endorsement older than the recorded one is of a round the node
      starts at or above. */
  ghost predicate Recalls(n: Node, hc: Round) {
    n.durable.Some? ==> forall m :: m in n.sent && m.NoEndorseMsg? && m.round < n.durable.value.noEndorse ==> m.round <= hc + 1
  }

  lemma StartEndorsed(n: Node, hc: Round, qc: Round, cast: set<Ballot>)
    requires DurableInv(n.durable, n.sent) && DurableEndorsed(n.durable, n.sent, cast) && Gate(hc, n.durable) && Recalls(n, hc)
    ensures LiveEndorsed(Started(hc, qc, n.durable), n.sent, cast)
  {
    hide Endorsed;
    hide Clean;
    hide CoveredDurably;
  }

  lemma EndorsedDrop(a: seq<Message>, m: Message, b: seq<Message>, cast: set<Ballot>)
    requires Endorsed(a + [m] + b, cast)
    ensures Endorsed(a + b, cast) && Endorsed(a + [m], cast)
  {
    var all, some := a + [m] + b, a + b;
    forall i | 0 <= i < |some| ensures some[i] == all[if i < |a| then i else i + 1] {}
    forall i | 0 <= i < |a + [m]| ensures (a + [m])[i] == all[i] {}
  }

  lemma RecordedDrop(w: Watermarks, a: seq<Message>, m: Message, b: seq<Message>, cast: set<Ballot>)
    requires Recorded(w, a + [m] + b, cast)
    ensures Recorded(w, a + b, cast) && Recorded(w, a + [m], cast)
  {
    EndorsedDrop(a, m, b, cast);
    hide Endorsed;
  }

  lemma LiveEndorsedDrop(l: Live, a: seq<Message>, m: Message, b: seq<Message>, cast: set<Ballot>)
    requires LiveEndorsed(l, a + [m] + b, cast)
    ensures LiveEndorsed(l, a + b, cast)
  {
    RecordedDrop(l.w, a, m, b, cast);
    hide Recorded;
  }

  ghost predicate NodeEndorsed(n: Node, cast: set<Ballot>) {
    && DurableEndorsed(n.durable, n.sent, cast)
    && (n.live.Some? ==> LiveEndorsed(n.live.value, n.sent + Out(n.stage), cast))
    && (n.stage.Booting? ==> DurableEndorsed(n.durable, n.sent + n.stage.out, cast))
  }

  lemma DurableMore(d: Option<Watermarks>, msgs: seq<Message>, cast: set<Ballot>, more: set<Ballot>)
    requires DurableEndorsed(d, msgs, cast)
    ensures DurableEndorsed(d, msgs, cast + more)
  {}

  lemma DispatchEndorsed(n: Node, l: Live, actions: seq<Action>, cast: set<Ballot>)
    requires DurableEndorsed(n.durable, n.sent, cast) && LiveInv(l, n.sent) && LiveEndorsed(l, n.sent, cast)
    ensures Dispatch(n, l, actions).Some? ==>
              Dispatch(n, l, actions).value.stage.Updated? && NodeEndorsed(Dispatch(n, l, actions).value, cast + Decisions(l, actions))
  {
    hide LiveInv;
    hide LiveEndorsed;
    DurableMore(n.durable, n.sent, cast, Decisions(l, actions));
    hide DurableEndorsed;
    if Acts(l, actions).Some? {
      ActsEndorsed(l, actions, n.sent, cast);
    }
  }

  /** A timeout published before any durable write leaves the recorded no-endorsement as it was. */
  lemma BootRecorded(d: Option<Watermarks>, l: Live, sent: seq<Message>, m: Message, cast: set<Ballot>)
    requires DurableEndorsed(d, sent, cast) && LiveEndorsed(l, sent + [m], cast) && m.TimeoutMsg?
    ensures DurableEndorsed(d, sent + [m], cast)
  {
    hide Endorsed;
  }

  lemma BootEndorsed(n: Node, hc: Round, qc: Round, cast: set<Ballot>)
    requires NodeInv(n) && NodeEndorsed(n, cast) && Recalls(n, hc) && Next(n, BootLive(hc, qc)).Some?
    ensures NodeEndorsed(Next(n, BootLive(hc, qc)).value, cast + StepBallots(n, BootLive(hc, qc)))
  {
    hide LiveEndorsed;
    hide DurableEndorsed;
    var l := Started(hc, qc, n.durable);
    StartSafe(hc, qc, n.durable, n.sent);
    StartEndorsed(n, hc, qc, cast);
    hide LiveInv;
    hide DurableInv;
    hide Started;
    hide Decisions;
    var m := BootResult(n, hc, qc);
    DispatchEndorsed(n, l, STARTUP, cast);
    var c := cast + Decisions(l, STARTUP);
    DurableMore(n.durable, n.sent, cast, Decisions(l, STARTUP));
    BootRecorded(n.durable, Next(n, BootLive(hc, qc)).value.live.value, n.sent, m, c);
  }

  lemma PublishEndorsed(n: Node, sent: bool, cast: set<Ballot>)
    requires NodeInv(n) && NodeEndorsed(n, cast) && (n.stage.Persisted? || n.stage.Booting?) && n.stage.out != []
    ensures NodeEndorsed(Next(n, Publish(sent)).value, cast)
  {
    hide LiveInv;
    hide DurableInv;
    var m, rest, l := n.stage.out[0], n.stage.out[1..], n.live.value;
    assert n.sent + n.stage.out == n.sent + [m] + rest;
    assert DurableEndorsed(n.durable, n.sent + [m] + rest, cast);
    LiveEndorsedDrop(l, n.sent, m, rest, cast);
    hide LiveEndorsed;
    if n.durable.Some? {
      RecordedDrop(n.durable.value, n.sent, m, rest, cast);
    } else {
      EndorsedDrop(n.sent, m, rest, cast);
    }
    hide Recorded;
    hide Endorsed;
  }

  lemma PersistEndorsed(n: Node, cast: set<Ballot>)
    requires NodeEndorsed(n, cast) && n.stage.Updated? && n.live.Some?
    ensures NodeEndorsed(Next(n, Persist).value, cast)
  {
    RecordedPrefix(n.live.value.w, n.sent, n.stage.out, cast);
    hide Recorded;
    hide Endorsed;
  }

  lemma RecordedPrefix(w: Watermarks, a: seq<Message>, b: seq<Message>, cast: set<Ballot>)
    requires Recorded(w, a + b, cast)
    ensures Recorded(w, a, cast)
  {
    forall i | 0 <= i < |a| ensures (a + b)[i] == a[i] {}
  }

  // ---- every reachable node ----

  ghost predicate RecallingStep(n: Node, s: Step) {
    && (s.BootLive? ==> Recalls(n, s.hc))
    && (s.GoLive? ==> Recalls(n, n.hc))
  }

  /** Every go-live of the run meets the restart condition. */
  ghost predicate RecallingRun(n: Node, steps: seq<Step>)
    requires Run(n, steps).Some?
  {
    steps == [] ||
    (Run(n, steps[..|steps| - 1]).Some? &&
     RecallingRun(n, steps[..|steps| - 1]) && RecallingStep(Run(n, steps[..|steps| - 1]).value, steps[|steps| - 1]))
  }

  lemma NextEndorsed(n: Node, s: Step, cast: set<Ballot>)
    requires NodeInv(n) && NodeEndorsed(n, cast) && RecallingStep(n, s) && Next(n, s).Some?
    ensures NodeEndorsed(Next(n, s).value, cast + StepBallots(n, s))
  {
    hide LiveEndorsed;
    hide DurableEndorsed;
    hide Decisions;
    assert n.sent + [] == n.sent && cast + {} == cast;
    match s
    case BootLive(hc, qc) =>
      BootEndorsed(n, hc, qc, cast);
    case GoLive(actions) =>
      StartSafe(n.hc, n.qc, n.restored, n.sent);
      StartEndorsed(n, n.hc, n.qc, cast);
      hide LiveInv;
      hide DurableInv;
      DispatchEndorsed(n, Started(n.hc, n.qc, n.restored), STARTUP + actions, cast);
    case Handle(actions) =>
      hide LiveInv;
      hide DurableInv;
      DispatchEndorsed(n, n.live.value, actions, cast);
    case Persist =>
      PersistEndorsed(n, cast);
    case Publish(sent) =>
      PublishEndorsed(n, sent, cast);
    case _ =>
  }

  lemma {:induction false} RecallingRunSafe(n: Node, steps: seq<Step>, cast: set<Ballot>)
    requires NodeInv(n) && NodeEndorsed(n, cast) && Run(n, steps).Some? && RecallingRun(n, steps)
    ensures NodeInv(Run(n, steps).value) && NodeEndorsed(Run(n, steps).value, cast + Ballots(n, steps))
  {
    hide NodeInv;
    hide NodeEndorsed;
    hide RecallingStep;
    hide StepBallots;
    if steps == [] {
      assert cast + {} == cast;
    } else {
      var k := |steps| - 1;
      RecallingRunSafe(n, steps[..k], cast);
      var m, c := Run(n, steps[..k]).value, cast + Ballots(n, steps[..k]);
      NextSafe(m, steps[k]);
      NextEndorsed(m, steps[k], c);
      assert c + StepBallots(m, steps[k]) == cast + Ballots(n, steps);
    }
  }

  /** In a run whose go-lives all meet the restart condition, every published vote of a round no-endorsed before
      it is for a proposal whose timeout certificate names the no-endorsed tip. */
  lemma EndorsedHolds(steps: seq<Step>)
    requires Run(INIT, steps).Some? && RecallingRun(INIT, steps)
    ensures Endorsed(Run(INIT, steps).value.sent, Ballots(INIT, steps))
  {
    RecallingRunSafe(INIT, steps, {});
    assert {} + Ballots(INIT, steps) == Ballots(INIT, steps);
  }

  // ---- the condition is necessary ----

  lemma RecallingSnoc(n: Node, steps: seq<Step>, s: Step)
    requires Run(n, steps).Some? && RecallingRun(n, steps) && !s.BootLive? && !s.GoLive?
    requires Run(n, steps + [s]).Some?
    ensures RecallingRun(n, steps + [s])
    ensures Ballots(n, steps + [s]) == Ballots(n, steps) + StepBallots(Run(n, steps).value, s)
  {
    assert (steps + [s])[..|steps|] == steps;
  }

  lemma {:induction false} RecallingConcat(n: Node, a: seq<Step>, b: seq<Step>)
    requires Run(n, a).Some? && Run(Run(n, a).value, b).Some?
    ensures Run(n, a + b) == Run(Run(n, a).value, b)
    ensures Ballots(n, a + b) == Ballots(n, a) + Ballots(Run(n, a).value, b)
    ensures RecallingRun(n, a) && RecallingRun(Run(n, a).value, b) ==> RecallingRun(n, a + b)
    decreases |b|
  {
    hide StepBallots;
    hide RecallingStep;
    if b == [] {
      assert a + b == a;
    } else {
      var k := |b| - 1;
      RecallingConcat(n, a, b[..k]);
      assert (a + b)[..|a + b| - 1] == a + b[..k];
    }
  }

  lemma {:induction false} UnusedId(cast: set<Ballot>) returns (id: BlockId)
    ensures forall b :: b in cast ==> b.id < id
  {
    if cast == {} {
      id := 0;
    } else {
      var b :| b in cast;
      var rest := UnusedId(cast - {b});
      id := Max(rest, b.id + 1);
      assert forall x :: x in cast ==> x == b || x in cast - {b};
    }
  }

  lemma TwoActs(l: Live, a: Action, b: Action)
    requires Allowed(l, a) && Act(l, a).Did? && Allowed(Act(l, a).live, b) && Act(Act(l, a).live, b).Did?
    ensures var e := Act(Act(l, a).live, b); Acts(l, [a, b]) == Some(Did(e.live, Act(l, a).out + e.out))
    ensures Decisions(l, [a, b]) == Decided(l, a) + Decided(Act(l, a).live, b)
  {
    hide Act;
    hide Allowed;
    hide Decided;
    assert [a, b][..1] == [a] && [a][..0] == [];
    assert Acts(l, []) == Some(Did(l, [])) && [] + Act(l, a).out == Act(l, a).out;
    assert Acts(l, [a]) == Some(Act(l, a));
    assert Decisions(l, []) == {} && Decisions(l, [a]) == Decided(l, a);
  }

  /** The vote of round `r` for a proposal without a timeout certificate. */
  lemma PlainVote(l: Live, r: Round, id: BlockId)
    requires l.hc + 1 < r && l.w.vote < r && r != l.w.noEndorse && l.sched.TimerFired?
    ensures var actions := [Certificate(r - 1, 0), Proposal(None, Tip(id, r), true)];
            && Acts(l, actions).Some? && Acts(l, actions).value.Did? && Acts(l, actions).value.out == [VoteMsg(Vote(r, id))]
            && Decisions(l, actions) == {Ballot(r, id, None)}
  {
    hide Acts;
    hide Decisions;
    TwoActs(l, Certificate(r - 1, 0), Proposal(None, Tip(id, r), true));
  }

  /** A live, quiet node that has forgotten the published no-endorsement `m` can be led to vote in its round for
      a proposal that names no tip. */
  lemma ForgottenVotes(n: Node, m: Message, cast: set<Ballot>) returns (steps: seq<Step>)
    requires n.stage.Quiet? && n.live.Some? && m in n.sent && m.NoEndorseMsg?
    requires var l := n.live.value; l.hc + 1 < m.round && l.w.vote < m.round && m.round != l.w.noEndorse && l.sched.TimerFired?
    ensures Run(n, steps).Some? && RecallingRun(n, steps)
    ensures !Endorsed(Run(n, steps).value.sent, cast + Ballots(n, steps))
  {
    var r, l := m.round, n.live.value;
    var id := UnusedId(cast);
    var actions := [Certificate(r - 1, 0), Proposal(None, Tip(id, r), true)];
    PlainVote(l, r, id);
    hide Acts;
    hide Decisions;
    RunSnoc(n, [], Handle(actions));
    RecallingSnoc(n, [], Handle(actions));
    steps := [] + [Handle(actions)];
    RunSnoc(n, steps, Persist);
    RecallingSnoc(n, steps, Persist);
    steps := steps + [Persist];
    RunSnoc(n, steps, Publish(true));
    RecallingSnoc(n, steps, Publish(true));
    steps := steps + [Publish(true)];
    assert Ballots(n, steps) == {Ballot(r, id, None)};
    Unendorsed(n.sent, m, Vote(r, id), cast + Ballots(n, steps));
  }

  lemma Unendorsed(sent: seq<Message>, m: Message, v: Vote, cast: set<Ballot>)
    requires m in sent && m.NoEndorseMsg? && m.round == v.round && Ballot(v.round, v.id, Some(m.tip)) !in cast
    ensures !Endorsed(sent + [VoteMsg(v)], cast)
  {
    var all := sent + [VoteMsg(v)];
    var i :| 0 <= i < |sent| && sent[i] == m;
    assert all[i] == m && all[|sent|] == VoteMsg(v);
    assert Casts(all[|sent|], v);
  }

  /** Nothing that follows `b`, through go-lives that meet the restart condition, breaks the property. */
  ghost predicate KeepsEndorsed(b: Node, cast: set<Ballot>) {
    forall steps :: Run(b, steps).Some? && RecallingRun(b, steps) ==> Endorsed(Run(b, steps).value.sent, cast + Ballots(b, steps))
  }

  lemma RecallingKeeps(b: Node, cast: set<Ballot>)
    requires NodeInv(b) && NodeEndorsed(b, cast)
    ensures KeepsEndorsed(b, cast)
  {
    hide NodeInv;
    forall steps | Run(b, steps).Some? && RecallingRun(b, steps) ensures Endorsed(Run(b, steps).value.sent, cast + Ballots(b, steps)) {
      RecallingRunSafe(b, steps, cast);
    }
  }

  /** A start at `hc` that forgets a no-endorsement, made quiet by `steps` from `b`, can be led to break the
      property. */
  lemma ForgetfulBreaks(n: Node, hc: Round, qc: Round, b: Node, steps: seq<Step>, cast: set<Ballot>)
    requires !Recalls(n, hc) && Gate(hc, n.durable)
    requires Run(b, steps).Some? && RecallingRun(b, steps)
    requires var l, q := Started(hc, qc, n.durable), Run(b, steps).value;
             n.sent <= q.sent && q.stage.Quiet? && q.live == Some(Live(TimedOut(l.w, hc + 1), hc, TimerFired))
    ensures !KeepsEndorsed(b, cast)
  {
    var m :| m in n.sent && m.NoEndorseMsg? && hc + 1 < m.round < n.durable.value.noEndorse;
    var q := Run(b, steps).value;
    assert m in q.sent;
    var c := cast + Ballots(b, steps);
    var tail := ForgottenVotes(q, m, c);
    RecallingConcat(b, steps, tail);
    assert c + Ballots(q, tail) == cast + Ballots(b, steps + tail);
  }

  lemma PublishFinishRecalls(b: Node, m: Message)
    requires b.stage == Booting([m])
    ensures Run(b, [Publish(true), Finish]).Some? && RecallingRun(b, [Publish(true), Finish])
  {
    PublishFinish(b, m);
    RunSnoc(b, [], Publish(true));
    RecallingSnoc(b, [], Publish(true));
    assert [] + [Publish(true)] == [Publish(true)];
    RunSnoc(b, [Publish(true)], Finish);
    assert [Publish(true)] + [Finish] == [Publish(true), Finish];
    RecallingSnoc(b, [Publish(true)], Finish);
  }

  /** The restart condition is exact: a restart that goes live while opening keeps the property in every
      continuation if and only if it recalls every no-endorsement older than the recorded one. */
  lemma RecallExact(n: Node, hc: Round, qc: Round, cast: set<Ballot>)
    requires NodeInv(n) && NodeEndorsed(n, cast) && n.stage.Down? && Gate(hc, n.durable)
    ensures Next(n, BootLive(hc, qc)).Some?
    ensures Recalls(n, hc) <==> KeepsEndorsed(Next(n, BootLive(hc, qc)).value, cast + StepBallots(n, BootLive(hc, qc)))
  {
    hide NodeEndorsed;
    hide StepBallots;
    var m := BootResult(n, hc, qc);
    hide Started;
    hide Acts;
    var b, c := Next(n, BootLive(hc, qc)).value, cast + StepBallots(n, BootLive(hc, qc));
    if Recalls(n, hc) {
      NextSafe(n, BootLive(hc, qc));
      NextEndorsed(n, BootLive(hc, qc), cast);
      RecallingKeeps(b, c);
    } else {
      PublishFinish(b, m);
      PublishFinishRecalls(b, m);
      ForgetfulBreaks(n, hc, qc, b, [Publish(true), Finish], c);
    }
  }

  function PersistOne(g: Node, m: Message): (n: Node)
    requires g.stage == Updated([m]) && g.live.Some?
    ensures Next(g, Persist) == Some(n)
  {
    g.(stage := Persisted([m]), durable := Some(g.live.value.w))
  }

  function PublishOne(g: Node, m: Message): (n: Node)
    requires g.stage == Updated([m]) && g.live.Some?
    ensures Next(PersistOne(g, m), Publish(true)) == Some(n) && Next(n, Finish) == Some(n.(stage := Quiet))
  {
    assert [m][1..] == [];
    PersistOne(g, m).(stage := Persisted([]), sent := g.sent + [m])
  }

  lemma RunNothing(n: Node)
    ensures Run(n, []) == Some(n) && RecallingRun(n, []) && Ballots(n, []) == {}
  {}

  lemma QuietSnoc(n: Node, steps: seq<Step>, s: Step, before: Node, after: Node)
    requires Run(n, steps) == Some(before) && RecallingRun(n, steps) && Next(before, s) == Some(after)
    requires s.Persist? || s.Publish? || s.Finish? || s.Crash?
    ensures Run(n, steps + [s]) == Some(after) && RecallingRun(n, steps + [s]) && Ballots(n, steps + [s]) == Ballots(n, steps)
  {
    hide Next;
    RunSnoc(n, steps, s);
    RecallingSnoc(n, steps, s);
  }

  /** Writing and publishing the one message of an event leaves a quiet node. */
  lemma Written(g: Node, m: Message)
    requires g.stage == Updated([m]) && g.live.Some?
    ensures Run(g, [Persist, Publish(true), Finish]).Some? && RecallingRun(g, [Persist, Publish(true), Finish])
    ensures Ballots(g, [Persist, Publish(true), Finish]) == {}
    ensures Run(g, [Persist, Publish(true), Finish]).value ==
            g.(stage := Quiet, durable := Some(g.live.value.w), sent := g.sent + [m])
  {
    hide Next;
    hide Run;
    hide RecallingRun;
    hide Ballots;
    var n1, n2 := PersistOne(g, m), PublishOne(g, m);
    var s1, s2 := [Persist], [Persist, Publish(true)];
    RunNothing(g);
    QuietSnoc(g, [], Persist, g, n1);
    assert [] + [Persist] == s1;
    QuietSnoc(g, s1, Publish(true), n1, n2);
    assert s1 + [Publish(true)] == s2;
    QuietSnoc(g, s2, Finish, n2, n2.(stage := Quiet));
    assert s2 + [Finish] == [Persist, Publish(true), Finish];
  }

  /** The same condition is exact for a node that goes live after a sync, whatever the first event brings. */
  lemma LateRecallExact(n: Node, cast: set<Ballot>)
    requires NodeInv(n) && NodeEndorsed(n, cast) && n.stage.Quiet? && n.live.None? && Gate(n.hc, n.restored)
    ensures Recalls(n, n.hc) <==>
            forall actions :: Next(n, GoLive(actions)).Some? ==>
              KeepsEndorsed(Next(n, GoLive(actions)).value, cast + StepBallots(n, GoLive(actions)))
  {
    hide NodeEndorsed;
    hide StepBallots;
    hide KeepsEndorsed;
    var m, g := LateResult(n);
    hide Started;
    hide Acts;
    if Recalls(n, n.hc) {
      forall actions | Next(n, GoLive(actions)).Some?
        ensures KeepsEndorsed(Next(n, GoLive(actions)).value, cast + StepBallots(n, GoLive(actions)))
      {
        NextSafe(n, GoLive(actions));
        NextEndorsed(n, GoLive(actions), cast);
        RecallingKeeps(Next(n, GoLive(actions)).value, cast + StepBallots(n, GoLive(actions)));
      }
    } else {
      LateQuiet(g);
      ForgetfulBreaks(n, n.hc, n.qc, g, [Persist, Publish(true), Finish], cast + StepBallots(n, GoLive([])));
    }
  }

  lemma LateQuiet(g: Node)
    requires Run(g, [Persist, Publish(true), Finish]).Some?
    ensures RecallingRun(g, [Persist, Publish(true), Finish])
  {
    var steps := [Persist, Publish(true), Finish];
    assert steps[..2] == [Persist, Publish(true)] && [Persist, Publish(true)][..1] == [Persist];
    assert [Persist][..0] == [] && RecallingRun(g, []);
    assert RecallingRun(g, [Persist]);
    assert RecallingRun(g, steps[..2]);
  }

  // ---- in terms of what a restarting node can read ----

  /** The recorded no-endorsement is at most one round above the start round. */
  predicate Near(d: Option<Watermarks>, hc: Round) {
    d.Some? ==> d.value.noEndorse <= hc + 2
  }

  ghost predicate NearStep(n: Node, s: Step) {
    && (s.BootLive? ==> Near(n.durable, s.hc))
    && (s.GoLive? ==> Near(n.durable, n.hc))
  }

  ghost predicate NearRun(steps: seq<Step>)
    requires Run(INIT, steps).Some?
  {
    steps == [] ||
    (NearRun(steps[..|steps| - 1]) && NearStep(Run(INIT, steps[..|steps| - 1]).value, steps[|steps| - 1]))
  }

  lemma {:induction false} NearRunRecalls(steps: seq<Step>)
    requires Run(INIT, steps).Some? && NearRun(steps)
    ensures RecallingRun(INIT, steps)
  {
    if steps != [] {
      NearRunRecalls(steps[..|steps| - 1]);
    }
  }

  /** If every go-live starts at most one round below the recorded no-endorsement, no vote contradicts a
      no-endorsement, whatever crashes. */
  lemma NearRunHolds(steps: seq<Step>)
    requires Run(INIT, steps).Some? && NearRun(steps)
    ensures Endorsed(Run(INIT, steps).value.sent, Ballots(INIT, steps))
  {
    NearRunRecalls(steps);
    EndorsedHolds(steps);
  }

  // ---- and no weaker reading of the disk is safe ----

  /** No-endorsing round `r` in an event, written and published. */
  function RecoveryEvent(r: Round, tip: BlockId): seq<Step>
    requires r > 0
  {
    [Handle([Certificate(r - 1, 0), RoundRecovery(tip)])] + [Persist, Publish(true), Finish]
  }

  lemma RecoveryActs(l: Live, r: Round, tip: BlockId)
    requires l.hc + 1 < r && Max(l.w.noEndorse, l.w.vote) < r
    ensures var actions := [Certificate(r - 1, 0), RoundRecovery(tip)];
            && Acts(l, actions) == Some(Did(Live(NoEndorsed(Certified(l.w, 0), r, tip), r - 1, l.sched), [NoEndorseMsg(r, tip)]))
            && Decisions(l, actions) == {}
  {
    hide Acts;
    hide Decisions;
    TwoActs(l, Certificate(r - 1, 0), RoundRecovery(tip));
    assert [] + [NoEndorseMsg(r, tip)] == [NoEndorseMsg(r, tip)];
  }

  lemma RecoveryResult(n: Node, r: Round, tip: BlockId)
    requires n.stage.Quiet? && n.live.Some?
    requires var l := n.live.value; l.hc + 1 < r && Max(l.w.noEndorse, l.w.vote) < r
    ensures Run(n, RecoveryEvent(r, tip)).Some? && RecallingRun(n, RecoveryEvent(r, tip))
    ensures var l := n.live.value;
            var w := NoEndorsed(Certified(l.w, 0), r, tip);
            Run(n, RecoveryEvent(r, tip)).value ==
            n.(live := Some(Live(w, r - 1, l.sched)), durable := Some(w), sent := n.sent + [NoEndorseMsg(r, tip)])
  {
    var l := n.live.value;
    var h := Handle([Certificate(r - 1, 0), RoundRecovery(tip)]);
    RecoveryActs(l, r, tip);
    hide Acts;
    RunSnoc(n, [], h);
    RecallingSnoc(n, [], h);
    assert [] + [h] == [h];
    Written(Next(n, h).value, NoEndorseMsg(r, tip));
    RecallingConcat(n, [h], [Persist, Publish(true), Finish]);
  }

  /** A first start at `hc`, made quiet. */
  lemma FirstStart(hc: Round) returns (steps: seq<Step>, sent: seq<Message>)
    ensures Run(INIT, steps).Some? && RecallingRun(INIT, steps)
    ensures Run(INIT, steps).value == INIT.(stage := Quiet, live := Some(Live(Fresh(hc, 0), hc, TimerFired)), sent := sent)
  {
    InitInv();
    hide NodeInv;
    var m := BootResult(INIT, hc, 0);
    assert TimedOut(Fresh(hc, 0), hc + 1) == Fresh(hc, 0);
    hide Acts;
    var b := Next(INIT, BootLive(hc, 0)).value;
    RunSnoc(INIT, [], BootLive(hc, 0));
    assert [] + [BootLive(hc, 0)] == [BootLive(hc, 0)] && [BootLive(hc, 0)][..0] == [];
    assert RecallingRun(INIT, [BootLive(hc, 0)]);
    PublishFinish(b, m);
    PublishFinishRecalls(b, m);
    RecallingConcat(INIT, [BootLive(hc, 0)], [Publish(true), Finish]);
    steps, sent := [BootLive(hc, 0)] + [Publish(true), Finish], [] + [m];
  }

  /** A start at `hc` that no-endorses rounds `hc + 2` and `e` and then dies. */
  lemma TwoRecoveries(hc: Round, e: Round) returns (steps: seq<Step>)
    requires hc + 2 < e
    ensures Run(INIT, steps).Some? && RecallingRun(INIT, steps)
    ensures var n := Run(INIT, steps).value;
            && n.stage.Down? && n.durable.Some? && n.durable.value.noEndorse == e && n.durable.value.vote == hc + 1
            && NoEndorseMsg(hc + 2, GENESIS_ID) in n.sent
  {
    var sent;
    steps, sent := FirstStart(hc);
    hide RecoveryEvent;
    hide Run;
    hide RecallingRun;
    hide Ballots;
    var n := Run(INIT, steps).value;
    RecoveryResult(n, hc + 2, GENESIS_ID);
    RecallingConcat(INIT, steps, RecoveryEvent(hc + 2, GENESIS_ID));
    steps := steps + RecoveryEvent(hc + 2, GENESIS_ID);
    n := Run(INIT, steps).value;
    assert NoEndorseMsg(hc + 2, GENESIS_ID) in n.sent;
    RecoveryResult(n, e, GENESIS_ID);
    RecallingConcat(INIT, steps, RecoveryEvent(e, GENESIS_ID));
    steps := steps + RecoveryEvent(e, GENESIS_ID);
    RunSnoc(INIT, steps, Crash);
    RecallingSnoc(INIT, steps, Crash);
    steps := steps + [Crash];
  }

  /** For every start round and every recorded no-endorsement further ahead, some safe run leaves exactly that
      on disk, and a restart there can be led to vote against an older no-endorsement. */
  lemma NearIsTight(hc: Round, e: Round) returns (steps: seq<Step>)
    requires hc + 2 < e
    ensures Run(INIT, steps).Some? && RecallingRun(INIT, steps)
    ensures var n := Run(INIT, steps).value;
            && n.stage.Down? && n.durable.Some? && n.durable.value.noEndorse == e && Gate(hc, n.durable)
            && Next(n, BootLive(hc, 0)).Some?
            && !KeepsEndorsed(Next(n, BootLive(hc, 0)).value, Ballots(INIT, steps + [BootLive(hc, 0)]))
  {
    steps := TwoRecoveries(hc, e);
    var n := Run(INIT, steps).value;
    assert !Recalls(n, hc);
    hide KeepsEndorsed;
    hide NodeEndorsed;
    hide NodeInv;
    hide StepBallots;
    InitEndorsed();
    RecallingRunSafe(INIT, steps, {});
    assert {} + Ballots(INIT, steps) == Ballots(INIT, steps);
    RecallExact(n, hc, 0, Ballots(INIT, steps));
    assert (steps + [BootLive(hc, 0)])[..|steps|] == steps;
  }

  lemma InitEndorsed()
    ensures NodeInv(INIT) && NodeEndorsed(INIT, {})
  {}

  // ---- votes that must be cast ----

  /** From every live node that a run reaches, a proposal of the current round is voted for if and only if the
      round is above the vote watermark and, where it was no-endorsed, the timeout certificate names its tip:
      the event then emits the vote or schedules it, and otherwise changes nothing. */
  lemma VotedExactly(steps: seq<Step>, tcTip: Option<BlockId>, tip: Tip, afterGap: bool)
    requires Run(INIT, steps).Some? && Run(INIT, steps).value.live.Some?
    ensures var l := Run(INIT, steps).value.live.value;
            var e, v := Act(l, Proposal(tcTip, tip, afterGap)), Vote(l.Current(), tip.id);
            && e.Did?
            && (MayVote(l, tcTip) ==>
                 && e.live.w.vote == l.Current() && (e.live.w.tip == Some(tip) <==> l.w.qcRound < tip.blockRound)
                 && ((e.out == [VoteMsg(v)] && e.live.sched.Unscheduled?) || (e.out == [] && e.live.sched == Ready(v)))
                 && (e.out == [VoteMsg(v)] <==> afterGap || l.sched.TimerFired?))
            && (!MayVote(l, tcTip) ==> e == Did(l, []))
  {
    RunSafe(steps);
  }

  /** A vote that the timer held back is the vote the next timer publishes. */
  lemma HeldBackVote(steps: seq<Step>, tcTip: Option<BlockId>, tip: Tip)
    requires Run(INIT, steps).Some? && Run(INIT, steps).value.live.Some?
    requires var l := Run(INIT, steps).value.live.value;
             MayVote(l, tcTip) && !l.sched.TimerFired? && tip.blockRound <= l.Current()
    ensures var l := Run(INIT, steps).value.live.value;
            var e := Acts(l, [Proposal(tcTip, tip, false), VoteTimer]);
            e.Some? && e.value.Did? && e.value.out == [VoteMsg(Vote(l.Current(), tip.id))]
  {
    hide Acts;
    hide Decisions;
    VotedExactly(steps, tcTip, tip, false);
    hide Run;
    TwoActs(Run(INIT, steps).value.live.value, Proposal(tcTip, tip, false), VoteTimer);
  }

  /** Any run that reaches a quiet live node which may vote continues to one that has published the vote. */
  lemma VotePublished(steps: seq<Step>, tcTip: Option<BlockId>, tip: Tip) returns (tail: seq<Step>)
    requires Run(INIT, steps).Some? && Run(INIT, steps).value.live.Some? && Run(INIT, steps).value.stage.Quiet?
    requires var l := Run(INIT, steps).value.live.value; MayVote(l, tcTip) && tip.blockRound <= l.Current()
    ensures Run(INIT, steps + tail).Some?
    ensures var n := Run(INIT, steps).value;
            Run(INIT, steps + tail).value.sent == n.sent + [VoteMsg(Vote(n.live.value.Current(), tip.id))]
  {
    var n, a := Run(INIT, steps).value, [Proposal(tcTip, tip, true)];
    VotedExactly(steps, tcTip, tip, true);
    hide Run;
    ActsSnoc(n.live.value, [], a[0]);
    var out := [VoteMsg(Vote(n.live.value.Current(), tip.id))];
    assert [] + a == a && [] + out == out;
    hide Acts;
    tail := [Handle(a)] + [Persist, Publish(true), Finish];
    RunSnoc(INIT, steps, Handle(a));
    Written(Next(n, Handle(a)).value, out[0]);
    RecallingConcat(INIT, steps + [Handle(a)], [Persist, Publish(true), Finish]);
    assert steps + [Handle(a)] + [Persist, Publish(true), Finish] == steps + tail;
  }
}
