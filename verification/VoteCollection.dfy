/** Collecting votes into quorum certificates, and why two certificates of a round agree. */
module VoteCollection {
  import opened Wrappers
  import VotingRuns
  import VotingSafety

  /** Validators are numbered; a number past the end of the stake list is not a member. */
  type NodeId = nat

  datatype Vote = Vote(id: nat, round: nat, epoch: nat)

  type Signature = nat

  datatype Certificate = Certificate(vote: Vote, signers: set<NodeId>)

  ghost function Members(addrs: seq<NodeId>): set<NodeId> {
    set a | a in addrs
  }

  // ---- stake ----

  /** The stake of the members of `s` numbered below `k`. */
  ghost function StakeTo(s: set<NodeId>, stakes: seq<nat>, k: nat): nat
    requires k <= |stakes|
  {
    if k == 0 then 0 else StakeTo(s, stakes, k - 1) + if k - 1 in s then stakes[k - 1] else 0
  }

  ghost function Stake(s: set<NodeId>, stakes: seq<nat>): nat {
    StakeTo(s, stakes, |stakes|)
  }

  ghost function Total(stakes: seq<nat>): nat {
    if stakes == [] then 0 else Total(stakes[..|stakes| - 1]) + stakes[|stakes| - 1]
  }

  lemma {:induction false} StakeAdd(s: set<NodeId>, x: NodeId, stakes: seq<nat>, k: nat)
    requires k <= |stakes| && x !in s
    ensures StakeTo(s + {x}, stakes, k) == StakeTo(s, stakes, k) + if x < k then stakes[x] else 0
  {
    if k != 0 {
      StakeAdd(s, x, stakes, k - 1);
    }
  }

  /** Inclusion and exclusion. */
  lemma {:induction false} StakeUnion(a: set<NodeId>, b: set<NodeId>, stakes: seq<nat>, k: nat)
    requires k <= |stakes|
    ensures StakeTo(a, stakes, k) + StakeTo(b, stakes, k) == StakeTo(a + b, stakes, k) + StakeTo(a * b, stakes, k)
  {
    if k != 0 {
      StakeUnion(a, b, stakes, k - 1);
    }
  }

  lemma {:induction false} StakeMonotone(a: set<NodeId>, b: set<NodeId>, stakes: seq<nat>, k: nat)
    requires k <= |stakes| && a <= b
    ensures StakeTo(a, stakes, k) <= StakeTo(b, stakes, k)
  {
    if k != 0 {
      StakeMonotone(a, b, stakes, k - 1);
    }
  }

  lemma {:induction false} StakeBelowTotal(s: set<NodeId>, stakes: seq<nat>, k: nat)
    requires k <= |stakes|
    ensures StakeTo(s, stakes, k) <= Total(stakes[..k])
  {
    if k != 0 {
      StakeBelowTotal(s, stakes, k - 1);
      assert stakes[..k][..k - 1] == stakes[..k - 1];
    }
  }

  /** More than two thirds of the stake. */
  ghost predicate Supermajority(s: set<NodeId>, stakes: seq<nat>) {
    3 * Stake(s, stakes) > 2 * Total(stakes)
  }

  lemma SupermajorityMonotone(a: set<NodeId>, b: set<NodeId>, stakes: seq<nat>)
    requires a <= b
    ensures Supermajority(a, stakes) ==> Supermajority(b, stakes)
  {
    StakeMonotone(a, b, stakes, |stakes|);
  }

  /** Two supermajorities share a member outside any set that holds less than a third of the stake. */
  lemma QuorumsIntersect(a: set<NodeId>, b: set<NodeId>, faulty: set<NodeId>, stakes: seq<nat>) returns (n: NodeId)
    requires Supermajority(a, stakes) && Supermajority(b, stakes) && 3 * Stake(faulty, stakes) < Total(stakes)
    ensures n in a && n in b && n !in faulty
  {
    StakeUnion(a, b, stakes, |stakes|);
    StakeBelowTotal(a + b, stakes, |stakes|);
    assert stakes[..|stakes|] == stakes;
    if a * b <= faulty {
      StakeMonotone(a * b, faulty, stakes, |stakes|);
      assert false;
    }
    n :| n in a * b && n !in faulty;
  }

  method TotalStake(stakes: seq<nat>) returns (t: nat)
    ensures t == Total(stakes)
  {
    t := 0;
    for i := 0 to |stakes|
      invariant t == Total(stakes[..i])
    {
      assert stakes[..i + 1][..i] == stakes[..i];
      t := t + stakes[i];
    }
    assert stakes[..|stakes|] == stakes;
  }

  /** The stake behind a list of nodes; a repeated node is an error, a non-member counts for nothing. */
  method CalculateCurrentStake(addrs: seq<NodeId>, stakes: seq<nat>) returns (sum: Option<nat>)
    ensures sum.None? <==> exists i, j :: 0 <= i < j < |addrs| && addrs[i] == addrs[j]
    ensures sum.Some? ==> sum.value == Stake(Members(addrs), stakes)
  {
    var seen, total := {}, 0;
    StakeNone(stakes, |stakes|);
    for t := 0 to |addrs|
      invariant seen == Members(addrs[..t])
      invariant forall i, j :: 0 <= i < j < t ==> addrs[i] != addrs[j]
      invariant total == Stake(seen, stakes)
    {
      var a := addrs[t];
      assert addrs[..t + 1] == addrs[..t] + [a];
      if a in seen {
        return None;
      }
      StakeAdd(seen, a, stakes, |stakes|);
      seen := seen + {a};
      if a < |stakes| {
        total := total + stakes[a];
      }
    }
    assert addrs[..|addrs|] == addrs;
    sum := Some(total);
  }

  lemma {:induction false} StakeNone(stakes: seq<nat>, k: nat)
    requires k <= |stakes|
    ensures StakeTo({}, stakes, k) == 0
  {
    if k != 0 {
      StakeNone(stakes, k - 1);
    }
  }

  /** Whether the nodes hold more than two thirds of the stake. */
  method HasSuperMajorityVotes(addrs: seq<NodeId>, stakes: seq<nat>) returns (ok: bool)
    ensures ok <==> (forall i, j :: 0 <= i < j < |addrs| ==> addrs[i] != addrs[j]) && Supermajority(Members(addrs), stakes)
  {
    var total := TotalStake(stakes);
    var sum := CalculateCurrentStake(addrs, stakes);
    ok := sum.Some? && sum.value >= total * 2 / 3 + 1;
  }

  // ---- collecting ----

  /** Votes of one round by what they say, and the nodes caught with a bad signature. */
  datatype RoundVotes = RoundVotes(votes: map<Vote, map<NodeId, Signature>>, invalid: set<NodeId>)

  /** Building a signature collection: it needs every signer's key, and names the signers whose own
      signature does not verify. */
  datatype Aggregation = Collected | UnknownSigner | BadSignatures(bad: set<NodeId>)

  type Verifier = (NodeId, Vote, Signature) -> bool

  function Aggregate(entries: map<NodeId, Signature>, keys: set<NodeId>, vote: Vote, verify: Verifier): Aggregation {
    if exists n :: n in entries && n !in keys then UnknownSigner
    else if Bad(entries, vote, verify) == {} then Collected else BadSignatures(Bad(entries, vote, verify))
  }

  function Bad(entries: map<NodeId, Signature>, vote: Vote, verify: Verifier): set<NodeId> {
    set n | n in entries && !verify(n, vote, entries[n])
  }

  /** The nodes of a bucket whose signature verifies. */
  ghost function Sound(entries: map<NodeId, Signature>, vote: Vote, verify: Verifier): set<NodeId> {
    set n | n in entries && verify(n, vote, entries[n])
  }

  /** The signers dropped from a bucket: all with a bad signature, once its members alone, good or bad, carry a
      supermajority. */
  ghost function Dropped(bucket: map<NodeId, Signature>, vote: Vote, stakes: seq<nat>, keys: set<NodeId>, verify: Verifier): set<NodeId> {
    if bucket.Keys <= keys && Supermajority(bucket.Keys, stakes) then Bad(bucket, vote, verify) else {}
  }

  lemma MembersSnoc(list: seq<NodeId>, n: NodeId)
    ensures Members(list + [n]) == Members(list) + {n}
  {}

  method KeysOf(m: map<NodeId, Signature>) returns (list: seq<NodeId>)
    ensures Members(list) == m.Keys && forall i, j :: 0 <= i < j < |list| ==> list[i] != list[j]
  {
    list := [];
    var todo := m.Keys;
    while todo != {}
      invariant todo <= m.Keys && Members(list) == m.Keys - todo
      invariant forall i, j :: 0 <= i < j < |list| ==> list[i] != list[j]
    {
      var n :| n in todo;
      assert n !in Members(list);
      MembersSnoc(list, n);
      list := list + [n];
      todo := todo - {n};
    }
  }

  /** Aggregates a bucket, dropping bad signatures and trying again while a supermajority is left. Succeeds
      exactly if the bucket holds members only and its good signatures carry a supermajority. */
  method Settle(bucket: map<NodeId, Signature>, bad0: set<NodeId>, vote: Vote, stakes: seq<nat>, keys: set<NodeId>, verify: Verifier)
      returns (rpv: map<NodeId, Signature>, invalid: set<NodeId>, ok: bool)
    ensures rpv.Keys <= bucket.Keys && forall n :: n in rpv ==> rpv[n] == bucket[n]
    ensures ok <==> bucket.Keys <= keys && Supermajority(Sound(bucket, vote, verify), stakes)
    ensures var bad := Dropped(bucket, vote, stakes, keys, verify); rpv == bucket - bad && invalid == bad0 + bad
    ensures ok ==> Supermajority(rpv.Keys, stakes) && forall n :: n in rpv ==> verify(n, vote, rpv[n])
  {
    hide Supermajority;
    hide Sound;
    rpv, invalid, ok := bucket, bad0, false;
    ghost var good, bad1, again := Sound(bucket, vote, verify), Bad(bucket, vote, verify), false;
    assert bucket - {} == bucket && bad0 + {} == bad0;
    while true
      invariant !ok && Sound(rpv, vote, verify) == good
      invariant !again ==> rpv == bucket && invalid == bad0
      invariant again ==> bucket.Keys <= keys && Supermajority(bucket.Keys, stakes)
      invariant again ==> rpv == bucket - bad1 && invalid == bad0 + bad1 && Bad(rpv, vote, verify) == {}
      decreases |rpv|
    {
      var addrs := KeysOf(rpv);
      var enough := HasSuperMajorityVotes(addrs, stakes);
      assert enough <==> Supermajority(rpv.Keys, stakes);
      SoundMembers(rpv, vote, verify);
      SupermajorityMonotone(good, rpv.Keys, stakes);
      if !enough {
        return;
      }
      var sc := Aggregate(rpv, keys, vote, verify);
      match sc {
        case Collected =>
          CollectedSound(rpv, keys, vote, verify);
          ok := true;
          return;
        case BadSignatures(bad) =>
          DropBad(rpv, vote, verify);
          FewerEntries(rpv, bad);
          invalid := invalid + bad;
          rpv := rpv - bad;
          again := true;
        case UnknownSigner =>
          return;
      }
    }
  }

  lemma SoundMembers(entries: map<NodeId, Signature>, vote: Vote, verify: Verifier)
    ensures Sound(entries, vote, verify) <= entries.Keys
  {}

  /** Without the bad signatures the good ones are left. */
  lemma DropBad(entries: map<NodeId, Signature>, vote: Vote, verify: Verifier)
    ensures var rest := entries - Bad(entries, vote, verify);
            Bad(rest, vote, verify) == {} && Sound(rest, vote, verify) == Sound(entries, vote, verify)
  {}

  class VoteState {
    var pendingVotes: map<nat, RoundVotes>
    var earliestRound: nat
    ghost var received: set<(NodeId, Vote, Signature)>

    /** Every pending entry is a vote message that was received from that node. */
    ghost predicate Valid()
      reads this
    {
      forall r, v, n :: r in pendingVotes && v in pendingVotes[r].votes && n in pendingVotes[r].votes[v] ==>
        (n, v, pendingVotes[r].votes[v][n]) in received
    }

    constructor (round: nat)
      ensures Valid() && earliestRound == round && pendingVotes == map[] && received == {}
    {
      pendingVotes, earliestRound, received := map[], round, {};
    }

    /** The bucket a vote joins. */
    function Bucket(vote: Vote): map<NodeId, Signature>
      reads this`pendingVotes
    {
      if vote.round in pendingVotes && vote in pendingVotes[vote.round].votes then pendingVotes[vote.round].votes[vote] else map[]
    }

    function Invalid(round: nat): set<NodeId>
      reads this`pendingVotes
    {
      if round in pendingVotes then pendingVotes[round].invalid else {}
    }

    /** Stores a bucket and the invalid voters of its round. */
    method Store(vote: Vote, bucket: map<NodeId, Signature>, invalid: set<NodeId>)
      requires Valid() && forall n :: n in bucket ==> (n, vote, bucket[n]) in received
      modifies this`pendingVotes
      ensures Valid() && Bucket(vote) == bucket && Invalid(vote.round) == invalid
      ensures forall r :: r != vote.round ==> (r in pendingVotes <==> r in old(pendingVotes)) && (r in pendingVotes ==> pendingVotes[r] == old(pendingVotes)[r])
      ensures forall v :: v != vote ==> Bucket(v) == old(Bucket(v))
    {
      var rs := if vote.round in pendingVotes then pendingVotes[vote.round] else RoundVotes(map[], {});
      pendingVotes := pendingVotes[vote.round := RoundVotes(rs.votes[vote := bucket], invalid)];
    }

    /** Takes in a vote and returns a certificate exactly when the good signatures for it, this one
        included, carry a supermajority. */
    method ProcessVote(author: NodeId, vote: Vote, sig: Signature, stakes: seq<nat>, keys: set<NodeId>, verify: Verifier)
        returns (qc: Option<Certificate>)
      requires Valid()
      modifies this
      ensures Valid() && received == old(received) + {(author, vote, sig)}
      ensures qc.Some? <==>
                var bucket := old(Bucket(vote))[author := sig];
                && old(earliestRound) <= vote.round && author !in old(Invalid(vote.round)) && bucket.Keys <= keys
                && Supermajority(Sound(bucket, vote, verify), stakes)
      ensures qc.Some? ==>
                && qc.value.vote == vote && Supermajority(qc.value.signers, stakes)
                && (forall n :: n in qc.value.signers ==> Signed(received, verify, n, vote))
      ensures earliestRound == if qc.Some? then vote.round + 1 else old(earliestRound)
      ensures old(earliestRound) <= vote.round && author !in old(Invalid(vote.round)) ==>
                var bucket := old(Bucket(vote))[author := sig];
                var bad := Dropped(bucket, vote, stakes, keys, verify);
                Bucket(vote) == bucket - bad && Invalid(vote.round) == old(Invalid(vote.round)) + bad
      ensures vote.round < old(earliestRound) || author in old(Invalid(vote.round)) ==>
                Bucket(vote) == old(Bucket(vote)) && Invalid(vote.round) == old(Invalid(vote.round))
      ensures forall v :: v != vote ==> Bucket(v) == old(Bucket(v))
      ensures forall r :: r != vote.round ==> Invalid(r) == old(Invalid(r))
    {
      received := received + {(author, vote, sig)};
      if vote.round < earliestRound {
        return None;
      }
      var rpv, invalid := Bucket(vote), Invalid(vote.round);
      if author in invalid {
        Store(vote, rpv, invalid);
        return None;
      }
      rpv := rpv[author := sig];
      var ok;
      rpv, invalid, ok := Settle(rpv, invalid, vote, stakes, keys, verify);
      Store(vote, rpv, invalid);
      if ok {
        earliestRound := vote.round + 1;
        return Some(Certificate(vote, rpv.Keys));
      }
      qc := None;
    }

    /** Closes the rounds below `newRound`: their votes and invalid voters are forgotten, all others stay. */
    method StartNewRound(newRound: nat)
      requires Valid()
      modifies this`pendingVotes, this`earliestRound
      ensures Valid() && earliestRound == newRound
      ensures forall r :: r in pendingVotes ==> newRound <= r
      ensures forall v :: Bucket(v) == if newRound <= v.round then old(Bucket(v)) else map[]
      ensures forall r :: Invalid(r) == if newRound <= r then old(Invalid(r)) else {}
    {
      earliestRound := newRound;
      var rounds := pendingVotes.Keys;
      while rounds != {}
        modifies this`pendingVotes
        invariant rounds <= pendingVotes.Keys
        invariant forall r :: r in pendingVotes ==> r in old(pendingVotes) && pendingVotes[r] == old(pendingVotes)[r]
        invariant forall r :: r in old(pendingVotes) && (newRound <= r || r in rounds) ==> r in pendingVotes
        invariant forall r :: r in pendingVotes && r !in rounds ==> newRound <= r
      {
        var r :| r in rounds;
        rounds := rounds - {r};
        if r < newRound {
          pendingVotes := pendingVotes - {r};
        }
      }
    }
  }

  lemma CollectedSound(entries: map<NodeId, Signature>, keys: set<NodeId>, vote: Vote, verify: Verifier)
    requires Aggregate(entries, keys, vote, verify) == Collected
    ensures entries.Keys <= keys && entries.Keys == Sound(entries, vote, verify)
    ensures forall n :: n in entries ==> verify(n, vote, entries[n])
  {
    forall n | n in entries ensures verify(n, vote, entries[n]) {
      assert n !in Bad(entries, vote, verify);
    }
  }

  lemma FewerEntries(m: map<NodeId, Signature>, bad: set<NodeId>)
    requires bad != {} && bad <= m.Keys
    ensures |m - bad| < |m|
  {}

  /** A good vote signature of this node was received. */
  ghost predicate Signed(received: set<(NodeId, Vote, Signature)>, verify: Verifier, n: NodeId, vote: Vote) {
    exists s :: (n, vote, s) in received && verify(n, vote, s)
  }

  // ---- certificates of one round ----

  /** An honest node's good vote signatures are votes its run has published. */
  ghost predicate Honest(run: seq<VotingRuns.Step>, received: set<(NodeId, Vote, Signature)>, verify: Verifier, n: NodeId) {
    && VotingRuns.Run(VotingRuns.INIT, run).Some?
    && forall v: Vote :: Signed(received, verify, n, v) ==> Published(run, v)
  }

  ghost predicate Published(run: seq<VotingRuns.Step>, v: Vote)
    requires VotingRuns.Run(VotingRuns.INIT, run).Some?
  {
    exists m :: m in VotingRuns.Run(VotingRuns.INIT, run).value.sent && VotingRuns.Casts(m, VotingRuns.Vote(v.round, v.id))
  }

  /** A certificate as `ProcessVote` returns it. */
  ghost predicate Backed(qc: Certificate, stakes: seq<nat>, received: set<(NodeId, Vote, Signature)>, verify: Verifier) {
    Supermajority(qc.signers, stakes) && forall n :: n in qc.signers ==> Signed(received, verify, n, qc.vote)
  }

  /** With less than a third of the stake faulty and the rest following the voting rules through any
      crashes and restarts, any two certificates of one round name the same block, whoever collected them. */
  lemma CertificatesAgree(a: Certificate, b: Certificate, stakes: seq<nat>, faulty: set<NodeId>, runs: NodeId -> seq<VotingRuns.Step>,
                          recA: set<(NodeId, Vote, Signature)>, recB: set<(NodeId, Vote, Signature)>, verify: Verifier)
    requires Backed(a, stakes, recA, verify) && Backed(b, stakes, recB, verify) && a.vote.round == b.vote.round
    requires 3 * Stake(faulty, stakes) < Total(stakes)
    requires forall n :: n !in faulty ==> Honest(runs(n), recA, verify, n) && Honest(runs(n), recB, verify, n)
    ensures a.vote.id == b.vote.id
  {
    var n := QuorumsIntersect(a.signers, b.signers, faulty, stakes);
    assert Honest(runs(n), recA, verify, n) && Honest(runs(n), recB, verify, n);
    assert Published(runs(n), a.vote) && Published(runs(n), b.vote);
    VotingSafety.NoDoubleSigning(runs(n));
  }
}
