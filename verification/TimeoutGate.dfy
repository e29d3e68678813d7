/** When a no-endorsement can follow a timeout of the same round.

    The start-up timeout of a node that goes live while opening is published without a durable write.
    If the node dies before its next event and then goes live below that round, nothing on disk
    remembers the timeout. The lemmas say exactly which restarts are harmless. */
module TimeoutGate {
  import opened Wrappers
  import opened SafetyWatermarks
  import opened VotingRuns
  import opened VotingSafety

  /** Every published timeout is at or below the no-endorsement guard. */
  ghost predicate TimeoutsLow(w: Watermarks, msgs: seq<Message>) {
    forall m :: m in msgs && m.TimeoutMsg? ==> m.round <= Max(w.noEndorse, w.vote)
  }

  ghost predicate LiveTimeouts(l: Live, msgs: seq<Message>) {
    TimeoutsLow(l.w, msgs) && NoEndorseAfterTimeout(msgs)
  }

  /** The restart condition: the merged watermarks still cover every timeout ever published. */
  ghost predicate Covers(n: Node, hc: Round, qc: Round) {
    TimeoutsLow(Started(hc, qc, n.durable).w, n.sent)
  }

  ghost predicate CoveredStep(n: Node, s: Step) {
    && (s.BootLive? ==> Covers(n, s.hc, s.qc))
    && (s.GoLive? ==> Covers(n, n.hc, n.qc))
  }

  /** Every go-live of the run meets the restart condition. */
  ghost predicate CoveredRun(n: Node, steps: seq<Step>)
    requires Run(n, steps).Some?
  {
    steps == [] ||
    (Run(n, steps[..|steps| - 1]).Some? &&
     CoveredRun(n, steps[..|steps| - 1]) && CoveredStep(Run(n, steps[..|steps| - 1]).value, steps[|steps| - 1]))
  }

  // ---- the condition suffices ----

  lemma TimeoutAppend(msgs: seq<Message>, m: Message)
    requires NoEndorseAfterTimeout(msgs)
    requires m.NoEndorseMsg? ==> forall a :: a in msgs && a.TimeoutMsg? ==> a.round < m.round
    ensures NoEndorseAfterTimeout(msgs + [m])
  {}

  lemma ActTimeouts(l: Live, a: Action, msgs: seq<Message>)
    requires LiveInv(l, msgs) && LiveTimeouts(l, msgs) && Allowed(l, a)
    ensures Act(l, a).Did? && LiveTimeouts(Act(l, a).live, msgs + Act(l, a).out)
  {
    ActSafe(l, a, msgs);
    hide LiveInv;
    var out := Act(l, a).out;
    assert msgs + [] == msgs;
    if out != [] {
      assert out == [out[0]];
      TimeoutAppend(msgs, out[0]);
    }
  }

  lemma {:induction false} ActsTimeouts(l: Live, actions: seq<Action>, msgs: seq<Message>)
    requires LiveInv(l, msgs) && LiveTimeouts(l, msgs) && Acts(l, actions).Some?
    ensures Acts(l, actions).value.Did?
    ensures LiveTimeouts(Acts(l, actions).value.live, msgs + Acts(l, actions).value.out)
  {
    if actions == [] {
      assert msgs + [] == msgs;
    } else {
      var k := |actions| - 1;
      ActsTimeouts(l, actions[..k], msgs);
      ActsSafe(l, actions[..k], msgs);
      var e := Acts(l, actions[..k]).value;
      ActTimeouts(e.live, actions[k], msgs + e.out);
      assert (msgs + e.out) + Act(e.live, actions[k]).out == msgs + (e.out + Act(e.live, actions[k]).out);
    }
  }

  ghost predicate NodeTimeouts(n: Node) {
    && NoEndorseAfterTimeout(n.sent)
    && (n.live.Some? ==> LiveTimeouts(n.live.value, n.sent + Out(n.stage)))
  }

  lemma DispatchTimeouts(n: Node, l: Live, actions: seq<Action>)
    requires LiveInv(l, n.sent) && LiveTimeouts(l, n.sent)
    ensures Dispatch(n, l, actions).Some? ==> NodeTimeouts(Dispatch(n, l, actions).value)
  {
    hide LiveInv;
    if Acts(l, actions).Some? {
      ActsTimeouts(l, actions, n.sent);
    }
  }

  lemma TimeoutDrop(a: seq<Message>, m: Message, b: seq<Message>)
    requires NoEndorseAfterTimeout(a + [m] + b)
    ensures NoEndorseAfterTimeout(a + b) && NoEndorseAfterTimeout(a + [m])
  {
    var all, some := a + [m] + b, a + b;
    forall i | 0 <= i < |some| ensures some[i] == all[if i < |a| then i else i + 1] {}
    forall i | 0 <= i < |a + [m]| ensures (a + [m])[i] == all[i] {}
  }

  lemma PublishTimeouts(n: Node, sent: bool)
    requires NodeInv(n) && NodeTimeouts(n) && (n.stage.Persisted? || n.stage.Booting?) && n.stage.out != []
    ensures NodeTimeouts(Next(n, Publish(sent)).value)
  {
    hide LiveInv;
    hide DurableInv;
    var m, rest := n.stage.out[0], n.stage.out[1..];
    assert n.sent + n.stage.out == n.sent + [m] + rest;
    TimeoutDrop(n.sent, m, rest);
  }

  lemma NextTimeouts(n: Node, s: Step)
    requires NodeInv(n) && NodeTimeouts(n) && CoveredStep(n, s) && Next(n, s).Some?
    ensures NodeTimeouts(Next(n, s).value)
  {
    hide LiveInv;
    hide DurableInv;
    assert n.sent + [] == n.sent;
    match s
    case BootLive(hc, qc) =>
      StartSafe(hc, qc, n.durable, n.sent);
      DispatchTimeouts(n, Started(hc, qc, n.durable), STARTUP);
    case GoLive(actions) =>
      StartSafe(n.hc, n.qc, n.restored, n.sent);
      DispatchTimeouts(n, Started(n.hc, n.qc, n.restored), STARTUP + actions);
    case Handle(actions) =>
      DispatchTimeouts(n, n.live.value, actions);
    case Publish(sent) =>
      PublishTimeouts(n, sent);
    case _ =>
  }

  lemma {:induction false} CoveredRunSafe(n: Node, steps: seq<Step>)
    requires NodeInv(n) && NodeTimeouts(n) && Run(n, steps).Some? && CoveredRun(n, steps)
    ensures NodeInv(Run(n, steps).value) && NodeTimeouts(Run(n, steps).value)
  {
    hide NodeInv;
    hide NodeTimeouts;
    if steps != [] {
      var k := |steps| - 1;
      CoveredRunSafe(n, steps[..k]);
      NextSafe(Run(n, steps[..k]).value, steps[k]);
      NextTimeouts(Run(n, steps[..k]).value, steps[k]);
    }
  }

  /** In a run whose go-lives all meet the restart condition, no no-endorsement follows a timeout of its round. */
  lemma NoEndorseAfterTimeoutHolds(steps: seq<Step>)
    requires Run(INIT, steps).Some? && CoveredRun(INIT, steps)
    ensures NoEndorseAfterTimeout(Run(INIT, steps).value.sent)
  {
    CoveredRunSafe(INIT, steps);
  }

  // ---- the condition is necessary ----

  lemma RunSnoc(n: Node, steps: seq<Step>, s: Step)
    requires Run(n, steps).Some?
    ensures Run(n, steps + [s]) == Next(Run(n, steps).value, s)
  {}

  lemma CoveredSnoc(n: Node, steps: seq<Step>, s: Step)
    requires Run(n, steps).Some? && CoveredRun(n, steps) && !s.BootLive? && !s.GoLive?
    requires Run(n, steps + [s]).Some?
    ensures CoveredRun(n, steps + [s])
  {}

  /** A live, quiet node whose guard is below a published timeout `t` can be led to no-endorse round `t`. */
  lemma GapViolates(n: Node, t: Round) returns (steps: seq<Step>)
    requires n.stage.Quiet? && n.live.Some? && Max(n.live.value.w.noEndorse, n.live.value.w.vote) < t && n.live.value.hc < t - 1
    requires exists m :: m in n.sent && m.TimeoutMsg? && m.round == t
    ensures Run(n, steps).Some? && CoveredRun(n, steps)
    ensures !NoEndorseAfterTimeout(Run(n, steps).value.sent)
  {
    var l := n.live.value;
    var actions := [Certificate(t - 1, 0)] + [RoundRecovery(GENESIS_ID)];
    ActsSnoc(l, [], Certificate(t - 1, 0));
    assert [] + [Certificate(t - 1, 0)] == [Certificate(t - 1, 0)];
    ActsSnoc(l, [Certificate(t - 1, 0)], RoundRecovery(GENESIS_ID));
    var out := [NoEndorseMsg(t, GENESIS_ID)];
    assert Acts(l, actions).value.out == out;
    steps := [];
    var n1 := Next(n, Handle(actions)).value;
    RunSnoc(n, steps, Handle(actions));
    CoveredSnoc(n, steps, Handle(actions));
    steps := steps + [Handle(actions)];
    RunSnoc(n, steps, Persist);
    CoveredSnoc(n, steps, Persist);
    steps := steps + [Persist];
    RunSnoc(n, steps, Publish(true));
    CoveredSnoc(n, steps, Publish(true));
    steps := steps + [Publish(true)];
    Disordered(n.sent, t);
  }

  lemma Disordered(sent: seq<Message>, t: Round)
    requires exists m :: m in sent && m.TimeoutMsg? && m.round == t
    ensures !NoEndorseAfterTimeout(sent + [NoEndorseMsg(t, GENESIS_ID)])
  {
    var all := sent + [NoEndorseMsg(t, GENESIS_ID)];
    var m :| m in sent && m.TimeoutMsg? && m.round == t;
    var i :| 0 <= i < |sent| && sent[i] == m;
    assert all[i] == m && all[|sent|] == NoEndorseMsg(t, GENESIS_ID);
  }

  /** Publishing the one start-up message leaves a quiet node. */
  lemma PublishFinish(b: Node, m: Message)
    requires b.stage == Booting([m])
    ensures Run(b, [Publish(true), Finish]) == Some(b.(stage := Quiet, sent := b.sent + [m]))
    ensures CoveredRun(b, [Publish(true), Finish])
  {
    var p := Next(b, Publish(true)).value;
    assert p == b.(stage := Booting([]), sent := b.sent + [m]);
    RunSnoc(b, [], Publish(true));
    CoveredSnoc(b, [], Publish(true));
    assert [] + [Publish(true)] == [Publish(true)];
    RunSnoc(b, [Publish(true)], Finish);
    CoveredSnoc(b, [Publish(true)], Finish);
    assert [Publish(true)] + [Finish] == [Publish(true), Finish];
  }

  /** Going live while opening emits the start-up timeout. */
  lemma BootResult(n: Node, hc: Round, qc: Round) returns (m: Message)
    requires NodeInv(n) && n.stage.Down? && Gate(hc, n.durable)
    ensures var l := Started(hc, qc, n.durable);
            && m.TimeoutMsg? && m.round == hc + 1
            && Next(n, BootLive(hc, qc)) == Some(n.(stage := Booting([m]), live := Some(Live(TimedOut(l.w, hc + 1), hc, TimerFired))))
  {
    var l := Started(hc, qc, n.durable);
    StartSafe(hc, qc, n.durable, n.sent);
    hide DurableInv;
    StartupActs(l);
    m := TimeoutMsg(hc + 1, EmbeddedVote(l.w, hc + 1));
  }

  lemma {:induction false} RunConcat(n: Node, a: seq<Step>, b: seq<Step>)
    requires Run(n, a).Some? && Run(Run(n, a).value, b).Some?
    ensures Run(n, a + b) == Run(Run(n, a).value, b)
    ensures CoveredRun(n, a) && CoveredRun(Run(n, a).value, b) ==> CoveredRun(n, a + b)
    decreases |b|
  {
    if b == [] {
      assert a + b == a;
    } else {
      var k := |b| - 1;
      RunConcat(n, a, b[..k]);
      assert (a + b)[..|a + b| - 1] == a + b[..k];
    }
  }

  /** Nothing that follows `b`, through go-lives that meet the restart condition, breaks the property. */
  ghost predicate Keeps(b: Node) {
    forall steps :: Run(b, steps).Some? && CoveredRun(b, steps) ==> NoEndorseAfterTimeout(Run(b, steps).value.sent)
  }

  lemma CoveredKeeps(b: Node)
    requires NodeInv(b) && NodeTimeouts(b)
    ensures Keeps(b)
  {
    hide NodeInv;
    forall steps | Run(b, steps).Some? && CoveredRun(b, steps) ensures NoEndorseAfterTimeout(Run(b, steps).value.sent) {
      CoveredRunSafe(b, steps);
    }
  }

  /** The restart condition is exact: a restart that goes live while opening keeps the property in every
      covered continuation if and only if the merged watermarks cover every published timeout. */
  lemma RestartConditionExact(n: Node, hc: Round, qc: Round)
    requires NodeInv(n) && NodeTimeouts(n) && n.stage.Down? && Gate(hc, n.durable)
    ensures Next(n, BootLive(hc, qc)).Some?
    ensures Covers(n, hc, qc) <==> Keeps(Next(n, BootLive(hc, qc)).value)
  {
    var m := BootResult(n, hc, qc);
    var b := Next(n, BootLive(hc, qc)).value;
    if Covers(n, hc, qc) {
      NextSafe(n, BootLive(hc, qc));
      NextTimeouts(n, BootLive(hc, qc));
      CoveredKeeps(b);
    } else {
      PublishFinish(b, m);
      UncoveredBreaks(n, Started(hc, qc, n.durable), b, [Publish(true), Finish]);
    }
  }

  /** A start `l` below a published timeout, made quiet by `steps` from `b`, can be led to break the property. */
  lemma UncoveredBreaks(n: Node, l: Live, b: Node, steps: seq<Step>)
    requires !TimeoutsLow(l.w, n.sent) && l.hc + 1 == l.Current() <= l.w.noEndorse && l.w.vote <= l.w.noEndorse
    requires Run(b, steps).Some? && CoveredRun(b, steps)
    requires var q := Run(b, steps).value; n.sent <= q.sent && q.stage.Quiet? && q.live == Some(Live(TimedOut(l.w, l.Current()), l.hc, TimerFired))
    ensures !Keeps(b)
  {
    var t :| t in n.sent && t.TimeoutMsg? && t.round > Max(l.w.noEndorse, l.w.vote);
    var q := Run(b, steps).value;
    assert t in q.sent;
    var tail := GapViolates(q, t.round);
    RunConcat(b, steps, tail);
  }

  /** Going live later, after a sync, emits the same timeout, and writes before it publishes. */
  lemma LateResult(n: Node) returns (m: Message, g: Node)
    requires NodeInv(n) && n.stage.Quiet? && n.live.None? && Gate(n.hc, n.restored)
    ensures Next(n, GoLive([])) == Some(g)
    ensures var l := Started(n.hc, n.qc, n.durable);
            var w := TimedOut(l.w, n.hc + 1);
            && Run(g, [Persist, Publish(true), Finish]) ==
               Some(n.(stage := Quiet, live := Some(Live(w, n.hc, TimerFired)), durable := Some(w), sent := n.sent + [m]))
            && CoveredRun(g, [Persist, Publish(true), Finish])
  {
    var l := Started(n.hc, n.qc, n.durable);
    StartSafe(n.hc, n.qc, n.durable, n.sent);
    hide DurableInv;
    StartupActs(l);
    assert STARTUP + [] == STARTUP;
    m := TimeoutMsg(n.hc + 1, EmbeddedVote(l.w, n.hc + 1));
    var w := TimedOut(l.w, n.hc + 1);
    g := n.(stage := Updated([m]), live := Some(Live(w, n.hc, TimerFired)));
    RunSnoc(g, [], Persist);
    CoveredSnoc(g, [], Persist);
    assert [] + [Persist] == [Persist];
    RunSnoc(g, [Persist], Publish(true));
    CoveredSnoc(g, [Persist], Publish(true));
    assert [Persist] + [Publish(true)] == [Persist, Publish(true)];
    RunSnoc(g, [Persist, Publish(true)], Finish);
    CoveredSnoc(g, [Persist, Publish(true)], Finish);
    assert [Persist, Publish(true)] + [Finish] == [Persist, Publish(true), Finish];
  }

  /** The same condition is exact for a node that goes live after a sync, whatever the first event brings. */
  lemma LateStartExact(n: Node)
    requires NodeInv(n) && NodeTimeouts(n) && n.stage.Quiet? && n.live.None? && Gate(n.hc, n.restored)
    ensures Covers(n, n.hc, n.qc) <==> forall actions :: Next(n, GoLive(actions)).Some? ==> Keeps(Next(n, GoLive(actions)).value)
  {
    var m, g := LateResult(n);
    if Covers(n, n.hc, n.qc) {
      forall actions | Next(n, GoLive(actions)).Some? ensures Keeps(Next(n, GoLive(actions)).value) {
        NextSafe(n, GoLive(actions));
        NextTimeouts(n, GoLive(actions));
        CoveredKeeps(Next(n, GoLive(actions)).value);
      }
    } else {
      UncoveredBreaks(n, Started(n.hc, n.qc, n.durable), g, [Persist, Publish(true), Finish]);
      assert !Keeps(Next(n, GoLive([])).value);
    }
  }

  lemma InitInv()
    ensures NodeInv(INIT)
  {}

  /** A start-up at round `hc + 1` that is published, after which the node dies with nothing on disk. */
  lemma UnrecordedTimeout(hc: Round) returns (steps: seq<Step>, m: Message)
    ensures m.TimeoutMsg? && m.round == hc + 1
    ensures Run(INIT, steps) == Some(INIT.(sent := [m]))
  {
    InitInv();
    hide NodeInv;
    m := BootResult(INIT, hc, 0);
    hide Started;
    hide Acts;
    var b := Next(INIT, BootLive(hc, 0)).value;
    RunSnoc(INIT, [], BootLive(hc, 0));
    PublishFinish(b, m);
    RunConcat(INIT, [] + [BootLive(hc, 0)], [Publish(true), Finish]);
    steps := [] + [BootLive(hc, 0)] + [Publish(true), Finish];
    RunSnoc(INIT, steps, Crash);
    steps := steps + [Crash];
    assert [] + [m] == [m];
  }

  /** A run that no-endorses a round it has already timed out. */
  lemma TimeoutThenNoEndorse() returns (steps: seq<Step>)
    ensures Run(INIT, steps).Some? && !NoEndorseAfterTimeout(Run(INIT, steps).value.sent)
  {
    var before, t := UnrecordedTimeout(5);
    var n := Run(INIT, before).value;
    RunSafe(before);
    hide NodeInv;
    var m := BootResult(n, 0, 0);
    var b := Next(n, BootLive(0, 0)).value;
    PublishFinish(b, m);
    var q := Run(b, [Publish(true), Finish]).value;
    assert t in q.sent;
    var tail := GapViolates(q, 6);
    RunConcat(b, [Publish(true), Finish], tail);
    RunSnoc(INIT, before, BootLive(0, 0));
    RunConcat(INIT, before + [BootLive(0, 0)], [Publish(true), Finish] + tail);
    steps := before + [BootLive(0, 0)] + ([Publish(true), Finish] + tail);
  }
}
