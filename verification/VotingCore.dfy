/** The signing handlers of live consensus, in place on the watermarks and the held-back vote. */
module VotingCore {
  import opened Wrappers
  import opened SafetyWatermarks
  import opened VotingRuns

  class ConsensusVoting {
    const safety: Safety
    var hcRound: Round
    var scheduled: Scheduled

    ghost function View(): Live
      reads this, safety
    {
      Live(safety.Snapshot(), hcRound, scheduled)
    }

    /** Goes live behind a certificate, folding restored watermarks over the fresh ones. */
    constructor (hc: Round, qc: Round, restored: Option<Watermarks>)
      ensures fresh(safety) && View() == Started(hc, qc, restored)
    {
      var s := new Safety.FromCertificate(hc, qc);
      if restored.Some? {
        var o := new Safety.FromSnapshot(restored.value);
        s.Merge(o);
      }
      safety, hcRound, scheduled := s, hc, Unscheduled;
    }

    method ProcessCertificate(round: Round, qc: Round)
      modifies this, safety
      ensures Act(old(View()), Certificate(round, qc)) == Did(View(), [])
      ensures hcRound == Max(old(hcRound), round)
    {
      if round <= hcRound {
        return;
      }
      safety.ProcessCertificate(qc);
      hcRound := round;
    }

    /** Votes for a proposal of the current round if the watermarks allow it: at once, or when the pace
        timer fires. */
    method TryToVote(tcTip: Option<BlockId>, tip: Tip, afterGap: bool) returns (out: seq<Message>)
      requires scheduled.Ready? ==> scheduled.vote.round <= safety.highestVote
      modifies this, safety
      ensures Act(old(View()), Proposal(tcTip, tip, afterGap)) == Did(View(), out)
      ensures MayVote(old(View()), tcTip) ==>
                && safety.highestVote == hcRound + 1
                && ((out == [VoteMsg(Vote(hcRound + 1, tip.id))] && scheduled == Unscheduled)
                    || (out == [] && scheduled == Ready(Vote(hcRound + 1, tip.id))))
      ensures !MayVote(old(View()), tcTip) ==> out == [] && View() == old(View())
    {
      out := [];
      var round := hcRound + 1;
      if !safety.IsSafeToVote(round, tcTip) {
        return;
      }
      safety.Vote(round, tcTip, tip);
      var v := Vote(round, tip.id);
      if scheduled.TimerFired? || afterGap {
        out := SendVote(v);
      } else {
        scheduled := Ready(v);
      }
    }

    method SendVote(v: Vote) returns (out: seq<Message>)
      modifies this`scheduled
      ensures scheduled == Unscheduled && out == [VoteMsg(v)]
    {
      scheduled := Unscheduled;
      out := [VoteMsg(v)];
    }

    method HandleVoteTimer() returns (out: seq<Message>)
      modifies this`scheduled
      ensures Act(old(View()), VoteTimer) == Did(View(), out)
      ensures forall v :: old(scheduled) == Ready(v) ==> out == [VoteMsg(v)] && scheduled == Unscheduled
      ensures !old(scheduled).Ready? ==> out == [] && scheduled == TimerFired
    {
      if !scheduled.Ready? {
        scheduled := TimerFired;
        return [];
      }
      out := SendVote(scheduled.vote);
    }

    /** Times out the current round; the timeout votes for the high tip when the watermarks allow it. */
    method LocalTimeoutRound() returns (out: seq<Message>)
      requires safety.highestVote <= hcRound + 1
      modifies safety
      ensures Act(old(View()), LocalTimeout) == Did(View(), out)
      ensures |out| == 1 && out[0].TimeoutMsg? && out[0].round == hcRound + 1
      ensures out[0].tipVote.Some? <==>
              old(safety.maybeHighTip).Some?
              && (old(safety.highestNoEndorse) <= hcRound || old(safety.maybeHighTip).value.blockRound == hcRound + 1)
      ensures out[0].tipVote.Some? ==> out[0].tipVote.value == old(safety.maybeHighTip).value.id
    {
      var round := hcRound + 1;
      var safe := safety.Timeout(round);
      var id := if safety.maybeHighTip.Some? && safe then Some(safety.maybeHighTip.value.id) else None;
      out := [TimeoutMsg(round, id)];
    }

    method HandleRoundRecovery(tipId: BlockId) returns (out: seq<Message>)
      modifies safety
      ensures Act(old(View()), RoundRecovery(tipId)) == Did(View(), out)
      ensures out == [NoEndorseMsg(hcRound + 1, tipId)] <==> old(safety.highestNoEndorse) <= hcRound && old(safety.highestVote) <= hcRound
    {
      var round := hcRound + 1;
      if SafeToNoEndorse(safety.Snapshot(), round) {
        safety.NoEndorse(round, tipId);
        return [NoEndorseMsg(round, tipId)];
      }
      out := [];
    }
  }
}
