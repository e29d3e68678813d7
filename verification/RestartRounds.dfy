/** The restart condition in terms of what a restarting node can read: its durable watermarks, the round it
    starts at, and the highest round it has ever gone live at while opening. */
module RestartRounds {
  import opened Wrappers
  import opened SafetyWatermarks
  import opened VotingRuns
  import opened VotingSafety
  import opened TimeoutGate

  /** The highest start-up timeout of the go-lives while opening; zero before the first. */
  function HighestBoot(steps: seq<Step>): nat {
    if steps == [] then 0
    else
      var s, before := steps[|steps| - 1], HighestBoot(steps[..|steps| - 1]);
      if s.BootLive? then Max(before, s.hc + 1) else before
  }

  function GuardOf(d: Option<Watermarks>): nat {
    if d.Some? then Max(d.value.noEndorse, d.value.vote) else 0
  }

  /** Starting at `hc` is not below the highest start-up timeout, or that timeout is on disk. */
  predicate Remembered(highest: nat, d: Option<Watermarks>, hc: Round) {
    highest <= hc + 1 || highest <= GuardOf(d)
  }

  // ---- where published timeouts can lie ----

  ghost predicate VotedBelow(msgs: seq<Message>, vote: Round) {
    forall m :: m in msgs && m.TimeoutMsg? ==> m.round <= vote
  }

  /** A published timeout was written before, or is a start-up timeout. */
  ghost predicate Bounded(n: Node, highest: nat) {
    && (forall m :: m in n.sent && m.TimeoutMsg? ==> m.round <= highest || (n.durable.Some? && m.round <= n.durable.value.vote))
    && (n.live.Some? && n.durable.Some? ==> n.durable.value.vote <= n.live.value.w.vote)
    && ((n.stage.Updated? || n.stage.Persisted?) && n.live.Some? ==> VotedBelow(n.stage.out, n.live.value.w.vote))
    && (n.stage.Booting? ==> VotedBelow(n.stage.out, highest))
  }

  /** Within an event the vote watermark only rises, to at least every timeout the event emits. */
  lemma {:induction false} ActsRise(l: Live, actions: seq<Action>)
    requires Acts(l, actions).Some? && Acts(l, actions).value.Did?
    ensures var e := Acts(l, actions).value; l.w.vote <= e.live.w.vote && VotedBelow(e.out, e.live.w.vote)
  {
    if actions != [] {
      ActsRise(l, actions[..|actions| - 1]);
    }
  }

  lemma NextBounded(n: Node, s: Step, highest: nat)
    requires NodeInv(n) && Bounded(n, highest) && Next(n, s).Some?
    ensures Bounded(Next(n, s).value, if s.BootLive? then Max(highest, s.hc + 1) else highest)
  {
    hide LiveInv;
    hide Acts;
    match s
    case BootLive(hc, qc) =>
      var m := BootResult(n, hc, qc);
    case GoLive(actions) =>
      StartSafe(n.hc, n.qc, n.restored, n.sent);
      DispatchSafe(n, Started(n.hc, n.qc, n.restored), STARTUP + actions);
      ActsRise(Started(n.hc, n.qc, n.restored), STARTUP + actions);
    case Handle(actions) =>
      assert n.sent + [] == n.sent;
      DispatchSafe(n, n.live.value, actions);
      ActsRise(n.live.value, actions);
    case _ =>
  }

  lemma {:induction false} RunBounded(steps: seq<Step>)
    requires Run(INIT, steps).Some?
    ensures Bounded(Run(INIT, steps).value, HighestBoot(steps))
  {
    hide Bounded;
    hide NodeInv;
    if steps == [] {
      InitBounded();
    } else {
      var k := |steps| - 1;
      RunBounded(steps[..k]);
      RunSafe(steps[..k]);
      NextBounded(Run(INIT, steps[..k]).value, steps[k], HighestBoot(steps[..k]));
    }
  }

  lemma InitBounded()
    ensures Bounded(INIT, 0)
  {}

  /** Remembering covers every published timeout, and covering a published one means remembering it. */
  lemma RememberedCovers(n: Node, highest: nat, hc: Round, qc: Round)
    requires Bounded(n, highest)
    ensures Remembered(highest, n.durable, hc) ==> Covers(n, hc, qc)
    ensures (exists m :: m in n.sent && m.TimeoutMsg? && m.round == highest) && Covers(n, hc, qc) ==> Remembered(highest, n.durable, hc)
  {}

  // ---- over whole runs ----

  ghost predicate RememberedStep(n: Node, highest: nat, s: Step) {
    && (s.BootLive? ==> Remembered(highest, n.durable, s.hc))
    && (s.GoLive? ==> Remembered(highest, n.durable, n.hc))
  }

  /** At every go-live the highest earlier start-up timeout is remembered. */
  ghost predicate RememberedRun(steps: seq<Step>)
    requires Run(INIT, steps).Some?
  {
    steps == [] ||
    var before := steps[..|steps| - 1];
    RememberedRun(before) && RememberedStep(Run(INIT, before).value, HighestBoot(before), steps[|steps| - 1])
  }

  lemma {:induction false} RememberedRunCovered(steps: seq<Step>)
    requires Run(INIT, steps).Some? && RememberedRun(steps)
    ensures CoveredRun(INIT, steps)
  {
    if steps != [] {
      var before, s := steps[..|steps| - 1], steps[|steps| - 1];
      RememberedRunCovered(before);
      RunBounded(before);
      var n := Run(INIT, before).value;
      if s.BootLive? {
        RememberedCovers(n, HighestBoot(before), s.hc, s.qc);
      } else if s.GoLive? {
        RememberedCovers(n, HighestBoot(before), n.hc, n.qc);
      }
    }
  }

  /** Over every run that remembers, no no-endorsement follows a timeout of its round. */
  lemma RememberedRunHolds(steps: seq<Step>)
    requires Run(INIT, steps).Some? && RememberedRun(steps)
    ensures CoveredRun(INIT, steps) && NoEndorseAfterTimeout(Run(INIT, steps).value.sent)
  {
    RememberedRunCovered(steps);
    NoEndorseAfterTimeoutHolds(steps);
  }

  /** No go-live starts below an earlier go-live while opening: forkpoints never go back. */
  ghost predicate ForwardRun(steps: seq<Step>)
    requires Run(INIT, steps).Some?
  {
    steps == [] ||
    var before, s := steps[..|steps| - 1], steps[|steps| - 1];
    && ForwardRun(before)
    && (s.BootLive? ==> HighestBoot(before) <= s.hc + 1)
    && (s.GoLive? ==> HighestBoot(before) <= Run(INIT, before).value.hc + 1)
  }

  lemma {:induction false} ForwardRunRemembers(steps: seq<Step>)
    requires Run(INIT, steps).Some? && ForwardRun(steps)
    ensures RememberedRun(steps)
  {
    if steps != [] {
      ForwardRunRemembers(steps[..|steps| - 1]);
    }
  }

  /** If forkpoints never go back, no no-endorsement follows a timeout of its round, whatever crashes. */
  lemma ForwardRunHolds(steps: seq<Step>)
    requires Run(INIT, steps).Some? && ForwardRun(steps)
    ensures NoEndorseAfterTimeout(Run(INIT, steps).value.sent)
  {
    ForwardRunRemembers(steps);
    RememberedRunHolds(steps);
  }

  // ---- and exactly then ----

  ghost predicate Delivered(n: Node, t: Round) {
    exists m :: m in n.sent && m.TimeoutMsg? && m.round == t
  }

  /** After any safe run whose highest start-up timeout went out, a restart while opening keeps the property in
      every continuation if and only if it remembers that timeout. */
  lemma RestartRoundExact(steps: seq<Step>, hc: Round, qc: Round)
    requires Run(INIT, steps).Some? && CoveredRun(INIT, steps)
    requires var n := Run(INIT, steps).value; n.stage.Down? && Gate(hc, n.durable) && Delivered(n, HighestBoot(steps))
    ensures var n := Run(INIT, steps).value;
            && Next(n, BootLive(hc, qc)).Some?
            && (Remembered(HighestBoot(steps), n.durable, hc) <==> Keeps(Next(n, BootLive(hc, qc)).value))
  {
    hide Keeps;
    var n := Run(INIT, steps).value;
    CoveredRunSafe(INIT, steps);
    RunBounded(steps);
    RememberedCovers(n, HighestBoot(steps), hc, qc);
    RestartConditionExact(n, hc, qc);
  }

  /** The same for a node that goes live after a sync. */
  lemma LateRoundExact(steps: seq<Step>)
    requires Run(INIT, steps).Some? && CoveredRun(INIT, steps)
    requires var n := Run(INIT, steps).value;
             n.stage.Quiet? && n.live.None? && Gate(n.hc, n.restored) && Delivered(n, HighestBoot(steps))
    ensures var n := Run(INIT, steps).value;
            Remembered(HighestBoot(steps), n.durable, n.hc) <==>
            forall actions :: Next(n, GoLive(actions)).Some? ==> Keeps(Next(n, GoLive(actions)).value)
  {
    hide Keeps;
    var n := Run(INIT, steps).value;
    CoveredRunSafe(INIT, steps);
    RunBounded(steps);
    RememberedCovers(n, HighestBoot(steps), n.hc, n.qc);
    LateStartExact(n);
  }
}
