/** The safety watermarks that guard votes, no-endorsements, proposals and timeouts. */
module SafetyWatermarks {
  import opened Wrappers

  type Round = nat
  type BlockId = nat

  const GENESIS_ID: BlockId := 0

  /** A block a vote can name: its id and the round it was first proposed in. */
  datatype Tip = Tip(id: BlockId, blockRound: Round)

  /** The durable part of `Safety`; every round in it is a "highest so far". */
  datatype Watermarks = Watermarks(
    tip: Option<Tip>,
    qcRound: Round,
    vote: Round,
    noEndorse: Round,
    noEndorseTip: BlockId,
    propose: Round,
    recovery: Round)

  function Max(a: nat, b: nat): (m: nat) {
    if a > b then a else b
  }

  /** Watermarks for a node that starts behind a certificate of round `hc`: the current round counts as
      voted, no-endorsed and proposed. */
  function Fresh(hc: Round, qc: Round): Watermarks {
    Watermarks(None, qc, hc + 1, hc + 1, GENESIS_ID, hc + 1, hc + 1)
  }

  /** A high tip counts only above the certified round. */
  function Above(tip: Option<Tip>, qc: Round): Option<Tip> {
    if tip.Some? && tip.value.blockRound <= qc then None else tip
  }

  function Certified(w: Watermarks, qc: Round): Watermarks {
    var q := Max(w.qcRound, qc);
    w.(qcRound := q, tip := Above(w.tip, q))
  }

  predicate SafeToVote(w: Watermarks, round: Round, tcTip: Option<BlockId>) {
    !(round == w.noEndorse && tcTip != Some(w.noEndorseTip)) && round > w.vote
  }

  function Voted(w: Watermarks, round: Round, tip: Tip): Watermarks {
    w.(vote := round, tip := Above(Some(tip), w.qcRound))
  }

  predicate SafeToNoEndorse(w: Watermarks, round: Round) {
    round > Max(w.noEndorse, w.vote)
  }

  function NoEndorsed(w: Watermarks, round: Round, tip: BlockId): Watermarks {
    w.(noEndorse := round, noEndorseTip := tip)
  }

  function TimedOut(w: Watermarks, round: Round): Watermarks {
    w.(vote := round)
  }

  /** Whether the timeout of `round` may carry a vote for the high tip. */
  predicate TimeoutVotes(w: Watermarks, round: Round) {
    w.noEndorse < round || (w.tip.Some? && w.tip.value.blockRound == round)
  }

  function Merged(s: Watermarks, o: Watermarks): Watermarks {
    var q := Max(s.qcRound, o.qcRound);
    Watermarks(
      if Above(o.tip, q).Some? && (s.tip.None? || o.tip.value.blockRound > s.tip.value.blockRound) then o.tip else s.tip,
      q,
      Max(s.vote, o.vote),
      Max(s.noEndorse, o.noEndorse),
      if o.noEndorse > s.noEndorse then o.noEndorseTip else s.noEndorseTip,
      Max(s.propose, o.propose),
      Max(s.recovery, o.recovery))
  }

  /** No watermark of `a` is above that of `b`. */
  predicate Below(a: Watermarks, b: Watermarks) {
    && a.qcRound <= b.qcRound && a.vote <= b.vote && a.noEndorse <= b.noEndorse
    && a.propose <= b.propose && a.recovery <= b.recovery
  }

  /** Merging is the least upper bound of the watermarks, so restoring never rolls one back. */
  lemma MergeLeastUpperBound(s: Watermarks, o: Watermarks, u: Watermarks)
    ensures Below(s, Merged(s, o)) && Below(o, Merged(s, o))
    ensures Below(s, u) && Below(o, u) ==> Below(Merged(s, o), u)
    ensures var m := Merged(s, o);
            && (s.noEndorse < o.noEndorse ==> m.noEndorseTip == o.noEndorseTip)
            && (s.noEndorse >= o.noEndorse ==> m.noEndorseTip == s.noEndorseTip)
    ensures var m := Merged(s, o);
            && (m.tip == s.tip || m.tip == o.tip)
            && (s.tip.Some? ==> m.tip.Some? && s.tip.value.blockRound <= m.tip.value.blockRound)
            && (o.tip.Some? && m.qcRound < o.tip.value.blockRound ==> m.tip.Some? && o.tip.value.blockRound <= m.tip.value.blockRound)
            && (m.tip != s.tip ==> m.tip.Some? && m.qcRound < m.tip.value.blockRound)
  {}

  /** Every guarded operation only moves watermarks up, and every action it allows is closed afterwards. */
  lemma OperationsMonotone(w: Watermarks, round: Round, qc: Round, tip: Tip, id: BlockId, tc: Option<BlockId>)
    ensures Below(w, Certified(w, qc))
    ensures SafeToVote(w, round, tc) ==>
              Below(w, Voted(w, round, tip)) && !SafeToVote(Voted(w, round, tip), round, tc) && !SafeToNoEndorse(Voted(w, round, tip), round)
    ensures SafeToNoEndorse(w, round) ==> Below(w, NoEndorsed(w, round, id)) && !SafeToNoEndorse(NoEndorsed(w, round, id), round)
    ensures w.vote <= round ==> Below(w, TimedOut(w, round)) && !SafeToVote(TimedOut(w, round), round, tc)
    ensures w.vote <= round ==> !SafeToNoEndorse(TimedOut(w, round), round)
  {}

  class Safety {
    var maybeHighTip: Option<Tip>
    var highCertificateQcRound: Round
    var highestVote: Round
    var highestNoEndorse: Round
    var highestNoEndorseTip: BlockId
    var highestPropose: Round
    var highestRecoveryRequest: Round

    /** The durable copy of the watermarks. */
    function Snapshot(): Watermarks
      reads this
    {
      Watermarks(maybeHighTip, highCertificateQcRound, highestVote, highestNoEndorse, highestNoEndorseTip, highestPropose, highestRecoveryRequest)
    }

    constructor FromCertificate(hc: Round, qc: Round)
      ensures Snapshot() == Fresh(hc, qc)
    {
      maybeHighTip, highCertificateQcRound := None, qc;
      highestVote, highestNoEndorse, highestNoEndorseTip := hc + 1, hc + 1, GENESIS_ID;
      highestPropose, highestRecoveryRequest := hc + 1, hc + 1;
    }

    constructor FromSnapshot(snap: Watermarks)
      ensures Snapshot() == snap
    {
      maybeHighTip, highCertificateQcRound := snap.tip, snap.qcRound;
      highestVote, highestNoEndorse, highestNoEndorseTip := snap.vote, snap.noEndorse, snap.noEndorseTip;
      highestPropose, highestRecoveryRequest := snap.propose, snap.recovery;
    }

    method ProcessCertificate(qc: Round)
      modifies this
      ensures Snapshot() == Certified(old(Snapshot()), qc)
    {
      if qc > highCertificateQcRound {
        highCertificateQcRound := qc;
      }
      if maybeHighTip.Some? && maybeHighTip.value.blockRound <= highCertificateQcRound {
        maybeHighTip := None;
      }
    }

    predicate IsSafeToVote(round: Round, tcTip: Option<BlockId>)
      reads this
      ensures IsSafeToVote(round, tcTip) <==> SafeToVote(Snapshot(), round, tcTip)
      ensures IsSafeToVote(round, tcTip) <==>
              highestVote < round && (round == highestNoEndorse ==> tcTip == Some(highestNoEndorseTip))
    {
      if round == highestNoEndorse && (tcTip.None? || tcTip.value != highestNoEndorseTip) then false
      else round > highestVote
    }

    method Vote(round: Round, tcTip: Option<BlockId>, tip: Tip)
      requires IsSafeToVote(round, tcTip)
      modifies this
      ensures Snapshot() == Voted(old(Snapshot()), round, tip)
    {
      highestVote := round;
      if tip.blockRound > highCertificateQcRound {
        maybeHighTip := Some(tip);
      } else {
        maybeHighTip := None;
      }
    }

    method NoEndorse(round: Round, tip: BlockId)
      requires SafeToNoEndorse(Snapshot(), round)
      modifies this
      ensures Snapshot() == NoEndorsed(old(Snapshot()), round, tip)
    {
      highestNoEndorse, highestNoEndorseTip := round, tip;
    }

    method Timeout(round: Round) returns (safeToVote: bool)
      requires highestVote <= round
      modifies this
      ensures Snapshot() == TimedOut(old(Snapshot()), round)
      ensures safeToVote <==> TimeoutVotes(old(Snapshot()), round)
    {
      highestVote := round;
      safeToVote := highestNoEndorse < round || (maybeHighTip.Some? && maybeHighTip.value.blockRound == round);
    }

    method MergeVotes(o: Safety)
      modifies this`highCertificateQcRound, this`highestVote, this`highestNoEndorse, this`highestNoEndorseTip
      ensures highCertificateQcRound == Max(old(highCertificateQcRound), old(o.highCertificateQcRound))
      ensures highestVote == Max(old(highestVote), old(o.highestVote))
      ensures highestNoEndorse == Max(old(highestNoEndorse), old(o.highestNoEndorse))
      ensures highestNoEndorseTip == if old(o.highestNoEndorse > highestNoEndorse) then old(o.highestNoEndorseTip) else old(highestNoEndorseTip)
    {
      if o.highCertificateQcRound > highCertificateQcRound {
        highCertificateQcRound := o.highCertificateQcRound;
      }
      if o.highestVote > highestVote {
        highestVote := o.highestVote;
      }
      if o.highestNoEndorse > highestNoEndorse {
        highestNoEndorse, highestNoEndorseTip := o.highestNoEndorse, o.highestNoEndorseTip;
      }
    }

    method MergeRest(o: Safety)
      modifies this`highestPropose, this`highestRecoveryRequest, this`maybeHighTip
      ensures highestPropose == Max(old(highestPropose), old(o.highestPropose))
      ensures highestRecoveryRequest == Max(old(highestRecoveryRequest), old(o.highestRecoveryRequest))
      ensures maybeHighTip ==
              if Above(old(o.maybeHighTip), highCertificateQcRound).Some?
                 && (old(maybeHighTip).None? || old(o.maybeHighTip).value.blockRound > old(maybeHighTip).value.blockRound)
              then old(o.maybeHighTip) else old(maybeHighTip)
    {
      if o.highestPropose > highestPropose {
        highestPropose := o.highestPropose;
      }
      if o.highestRecoveryRequest > highestRecoveryRequest {
        highestRecoveryRequest := o.highestRecoveryRequest;
      }
      if o.maybeHighTip.Some? && o.maybeHighTip.value.blockRound > highCertificateQcRound {
        if maybeHighTip.None? || o.maybeHighTip.value.blockRound > maybeHighTip.value.blockRound {
          maybeHighTip := o.maybeHighTip;
        }
      }
    }

    /** Folds other watermarks over these; each part only reads what the others leave alone. */
    method Merge(o: Safety)
      modifies this
      ensures Snapshot() == Merged(old(Snapshot()), old(o.Snapshot()))
    {
      MergeVotes(o);
      MergeRest(o);
    }
  }
}
