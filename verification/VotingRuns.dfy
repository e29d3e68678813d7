/** A node over whole runs: handled events, durable writes, publishing, crashes at any stage and
    restarts from any forkpoint. */
module VotingRuns {
  import opened Wrappers
  import opened SafetyWatermarks

  datatype Vote = Vote(round: Round, id: BlockId)

  /** The signed messages that matter here; a timeout may carry a vote for the high tip. */
  datatype Message =
    | VoteMsg(vote: Vote)
    | TimeoutMsg(round: Round, tipVote: Option<BlockId>)
    | NoEndorseMsg(round: Round, tip: BlockId)

  datatype Scheduled = Unscheduled | TimerFired | Ready(vote: Vote)

  /** Live consensus: watermarks, round of the high certificate, and the vote held back by the pace timer. */
  datatype Live = Live(w: Watermarks, hc: Round, sched: Scheduled) {
    function Current(): Round {
      hc + 1
    }
  }

  /** What one part of an event makes the consensus state do. */
  datatype Action =
    | Certificate(round: Round, qc: Round)
    | Proposal(tcTip: Option<BlockId>, tip: Tip, afterGap: bool)
    | VoteTimer
    | LocalTimeout
    | RoundRecovery(tipId: BlockId)

  datatype Effect = Panic | Did(live: Live, out: seq<Message>)

  function Act(l: Live, a: Action): Effect {
    match a
    case Certificate(round, qc) =>
      if round <= l.hc then Did(l, []) else Did(l.(w := Certified(l.w, qc), hc := round), [])
    case Proposal(tcTip, tip, afterGap) =>
      TryVote(l, tcTip, tip, afterGap)
    case VoteTimer =>
      if l.sched.Ready? then Did(l.(sched := Unscheduled), [VoteMsg(l.sched.vote)]) else Did(l.(sched := TimerFired), [])
    case LocalTimeout =>
      if l.Current() < l.w.vote then Panic
      else Did(l.(w := TimedOut(l.w, l.Current())), [TimeoutMsg(l.Current(), EmbeddedVote(l.w, l.Current()))])
    case RoundRecovery(tipId) =>
      if SafeToNoEndorse(l.w, l.Current()) then Did(l.(w := NoEndorsed(l.w, l.Current(), tipId)), [NoEndorseMsg(l.Current(), tipId)])
      else Did(l, [])
  }

  function TryVote(l: Live, tcTip: Option<BlockId>, tip: Tip, afterGap: bool): Effect {
    var r := l.Current();
    if !SafeToVote(l.w, r, tcTip) then Did(l, [])
    else
      var w, v := Voted(l.w, r, tip), Vote(r, tip.id);
      if l.sched.TimerFired? then Did(Live(w, l.hc, Unscheduled), [VoteMsg(v)])
      else if l.sched.Ready? && l.sched.vote.round >= r then Panic
      else if afterGap then Did(Live(w, l.hc, Unscheduled), [VoteMsg(v)])
      else Did(Live(w, l.hc, Ready(v)), [])
  }

  function EmbeddedVote(w: Watermarks, round: Round): Option<BlockId> {
    if w.tip.Some? && TimeoutVotes(w, round) then Some(w.tip.value.id) else None
  }

  /** Validated proposals never name a block of a later round. */
  predicate Allowed(l: Live, a: Action) {
    a.Proposal? ==> a.tip.blockRound <= l.Current()
  }

  /** The actions of one event, in order; `None` when an action is not allowed. */
  function Acts(l: Live, actions: seq<Action>): Option<Effect> {
    if actions == [] then Some(Did(l, []))
    else
      var before := Acts(l, actions[..|actions| - 1]);
      var a := actions[|actions| - 1];
      if before.None? || before.value.Panic? then before
      else if !Allowed(before.value.live, a) then None
      else
        match Act(before.value.live, a)
        case Panic => Some(Panic)
        case Did(l', out) => Some(Did(l', before.value.out + out))
  }

  // ---- the node ----

  datatype Stage =
    | Down
    | Quiet
    | Updated(out: seq<Message>)
    | Persisted(out: seq<Message>)
    | Booting(out: seq<Message>)
    | Panicked

  datatype Node = Node(
    durable: Option<Watermarks>,
    sent: seq<Message>,
    stage: Stage,
    live: Option<Live>,
    restored: Option<Watermarks>,
    hc: Round,
    qc: Round)

  datatype Step =
    | BootSync(hc: Round, qc: Round)
    | BootLive(hc: Round, qc: Round)
    | Resync(hc: Round, qc: Round)
    | GoLive(actions: seq<Action>)
    | Handle(actions: seq<Action>)
    | Persist
    | Publish(sent: bool)
    | Finish
    | Crash

  const INIT := Node(None, [], Down, None, None, 0, 0)

  /** Going live is held back while the restored vote watermark is above the start round. */
  predicate Gate(hc: Round, restored: Option<Watermarks>) {
    restored.Some? ==> restored.value.vote <= hc + 1
  }

  function Started(hc: Round, qc: Round, restored: Option<Watermarks>): Live {
    var w := Fresh(hc, qc);
    Live(if restored.Some? then Merged(w, restored.value) else w, hc, Unscheduled)
  }

  /** Going live fires the vote timer and the round timer once. */
  const STARTUP := [VoteTimer, LocalTimeout]

  function Dispatch(n: Node, l: Live, actions: seq<Action>): Option<Node> {
    match Acts(l, actions)
    case None => None
    case Some(Panic) => Some(n.(stage := Panicked, live := None))
    case Some(Did(l', out)) => Some(n.(stage := Updated(out), live := Some(l')))
  }

  function Next(n: Node, s: Step): Option<Node> {
    match s
    case BootSync(hc, qc) =>
      if n.stage.Down? then Some(n.(stage := Quiet, restored := n.durable, hc := hc, qc := qc)) else None
    case BootLive(hc, qc) =>
      // The start-up commands are executed without a durable write in between.
      if !n.stage.Down? || !Gate(hc, n.durable) then None
      else
        var m := Dispatch(n, Started(hc, qc, n.durable), STARTUP);
        if m.Some? && m.value.stage.Updated? then Some(m.value.(stage := Booting(m.value.stage.out))) else m
    case Resync(hc, qc) =>
      if n.stage.Quiet? && n.live.None? then Some(n.(hc := hc, qc := qc)) else None
    case GoLive(actions) =>
      if n.stage.Quiet? && n.live.None? && Gate(n.hc, n.restored)
      then Dispatch(n, Started(n.hc, n.qc, n.restored), STARTUP + actions) else None
    case Handle(actions) =>
      if n.stage.Quiet? && n.live.Some? then Dispatch(n, n.live.value, actions) else None
    case Persist =>
      if n.stage.Updated? && n.live.Some? then Some(n.(durable := Some(n.live.value.w), stage := Persisted(n.stage.out))) else None
    case Publish(sent) =>
      if n.stage.Persisted? && n.stage.out != [] then
        Some(n.(stage := Persisted(n.stage.out[1..]), sent := if sent then n.sent + [n.stage.out[0]] else n.sent))
      else if n.stage.Booting? && n.stage.out != [] then
        Some(n.(stage := Booting(n.stage.out[1..]), sent := if sent then n.sent + [n.stage.out[0]] else n.sent))
      else None
    case Finish =>
      if (n.stage.Persisted? || n.stage.Booting?) && n.stage.out == [] then Some(n.(stage := Quiet)) else None
    case Crash =>
      if n.stage.Down? || n.stage.Panicked? then None else Some(n.(stage := Down, live := None))
  }

  /** A run; `None` when some step is not enabled. */
  function Run(n: Node, steps: seq<Step>): Option<Node> {
    if steps == [] then Some(n)
    else
      var m := Run(n, steps[..|steps| - 1]);
      if m.None? then None else Next(m.value, steps[|steps| - 1])
  }

  // ---- when a node votes ----

  /** The current round is above every vote, and a no-endorsement of it named the tip that the proposal's
      timeout certificate names. */
  ghost predicate MayVote(l: Live, tcTip: Option<BlockId>) {
    l.w.vote < l.Current() && (l.Current() == l.w.noEndorse ==> tcTip == Some(l.w.noEndorseTip))
  }

  // ---- what a node must never sign ----

  predicate Casts(m: Message, v: Vote) {
    match m
    case VoteMsg(u) => u == v
    case TimeoutMsg(r, id) => id == Some(v.id) && r == v.round
    case NoEndorseMsg(_, _) => false
  }

  /** All votes of one round, direct or embedded, name the same block. */
  ghost predicate OneBlockPerRound(msgs: seq<Message>) {
    forall a, b, u, v :: a in msgs && b in msgs && Casts(a, u) && Casts(b, v) && u.round == v.round ==> u.id == v.id
  }

  /** Every no-endorsement is for a round above all votes and all no-endorsements before it. */
  ghost predicate NoEndorseAfterVote(msgs: seq<Message>) {
    && (forall i, j, v :: 0 <= i < j < |msgs| && Casts(msgs[i], v) && msgs[j].NoEndorseMsg? ==> v.round < msgs[j].round)
    && (forall i, j :: 0 <= i < j < |msgs| && msgs[i].NoEndorseMsg? && msgs[j].NoEndorseMsg? ==> msgs[i].round < msgs[j].round)
  }

  /** Every no-endorsement is for a round above all timeouts before it. */
  ghost predicate NoEndorseAfterTimeout(msgs: seq<Message>) {
    forall i, j :: 0 <= i < j < |msgs| && msgs[i].TimeoutMsg? && msgs[j].NoEndorseMsg? ==> msgs[i].round < msgs[j].round
  }
}
