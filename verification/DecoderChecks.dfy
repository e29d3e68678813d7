/** The decoder's debug checks, as conditions on its state: all of them follow from its invariant. */
module DecoderChecks {
  import opened DecoderState

  datatype Kind = ActiveBuffer | UsableBuffer | UsedBuffer | InactivatedBuffer | RedundantBuffer

  function KindOf(b: Buffer): Kind {
    if b.weight > 1 then ActiveBuffer
    else if b.weight == 1 && !b.used then UsableBuffer
    else if b.weight == 1 && b.used then UsedBuffer
    else if |b.ids| > 0 then InactivatedBuffer
    else RedundantBuffer
  }

  predicate IsPaired(b: Buffer) {
    KindOf(b) == UsedBuffer && |b.ids| == 1
  }

  ghost predicate ElementsMatch(st: State) {
    && (forall i: nat, j: nat {:trigger j in st.bufs[i].ids} :: i < |st.bufs| && j in st.bufs[i].ids ==> j < |st.syms| && Names(st.syms[j], i))
    && (forall j: nat, i: nat {:trigger Names(st.syms[j], i)} :: j < |st.syms| && Names(st.syms[j], i) ==> i < |st.bufs| && j in st.bufs[i].ids)
  }

  /** A used buffer has weight one and exactly one symbol that is not inactivated, a used one; the buffer
      of a used symbol is used. */
  ghost predicate UsedMatch(st: State) {
    && (forall i :: 0 <= i < |st.bufs| && st.bufs[i].used ==>
          st.bufs[i].weight == 1 && UsedAlone(st, i))
    && (forall j :: 0 <= j < |st.syms| && st.syms[j].Used? ==> st.syms[j].buf < |st.bufs| && KindOf(st.bufs[st.syms[j].buf]) == UsedBuffer)
  }

  ghost predicate UsedAlone(st: State, i: nat)
    requires i < |st.bufs|
  {
    exists j: nat :: j < |st.syms| && st.syms[j].Used? && Live(st.bufs[i].ids, st.syms) == {j}
  }

  ghost predicate ActiveUsableMatch(st: State) {
    && (forall i :: 0 <= i < |st.bufs| ==> st.bufs[i].weight == |Live(st.bufs[i].ids, st.syms)|)
    && (forall i :: i in st.activeUsable <==> 0 <= i < |st.bufs| && (KindOf(st.bufs[i]) == ActiveBuffer || KindOf(st.bufs[i]) == UsableBuffer))
    && (forall i :: i in st.activeUsable ==> st.activeUsable[i] == st.bufs[i].weight)
  }

  ghost predicate InactivatedMatch(st: State) {
    && (forall i :: i in st.inactivated <==> 0 <= i < |st.bufs| && KindOf(st.bufs[i]) == InactivatedBuffer)
    && (forall i :: i in st.inactivated ==> st.inactivated[i] == |st.bufs[i].ids|)
  }

  ghost function RedundantBuffers(st: State): set<nat> {
    set i: nat | i < |st.bufs| && KindOf(st.bufs[i]) == RedundantBuffer
  }

  ghost function PairedBuffers(st: State): set<nat> {
    set i: nat | i < |st.bufs| && IsPaired(st.bufs[i]) && LoneSource(st.bufs[i].ids, st.numSource)
  }

  lemma {:induction false} ImageCount(syms: seq<Symbol>, s: set<nat>)
    requires forall j :: j in s ==> j < |syms| && syms[j].Used?
    requires forall i, j :: i in s && j in s && syms[i].buf == syms[j].buf ==> i == j
    ensures |set j | j in s :: syms[j].buf| == |s|
    decreases |s|
  {
    if s != {} {
      var j :| j in s;
      ImageCount(syms, s - {j});
      assert (set i | i in s :: syms[i].buf) == (set i | i in s - {j} :: syms[i].buf) + {syms[j].buf};
    }
  }

  lemma PairedBufferSource(st: State, i: nat)
    requires Inv(st) && i in PairedBuffers(st)
    ensures exists j :: j in PairedSources(st.numSource, st.bufs, st.syms) && st.syms[j].buf == i
  {
    var j := UsedRow(st.bufs, st.syms, i);
    var u :| u in st.bufs[i].ids && u < st.numSource && st.bufs[i].ids == {u};
    assert j in PairedSources(st.numSource, st.bufs, st.syms);
  }

  lemma PairedSourceBuffer(st: State, j: nat)
    requires Inv(st) && j in PairedSources(st.numSource, st.bufs, st.syms)
    ensures st.syms[j].buf in PairedBuffers(st)
  {}

  /** Counting recovered sources by buffer or by symbol gives the same number. */
  lemma PairedCount(st: State)
    requires Inv(st)
    ensures |PairedBuffers(st)| == st.paired
  {
    var s := PairedSources(st.numSource, st.bufs, st.syms);
    SourcesApart(st, s);
    ImageCount(st.syms, s);
    var image := set j | j in s :: st.syms[j].buf;
    forall i | i in PairedBuffers(st) ensures i in image {
      PairedBufferSource(st, i);
    }
    forall i | i in image ensures i in PairedBuffers(st) {
      var j :| j in s && st.syms[j].buf == i;
      PairedSourceBuffer(st, j);
    }
    CountedPaired(st);
    hide Inv;
    assert image == PairedBuffers(st);
  }

  lemma CountedPaired(st: State)
    requires Inv(st)
    ensures st.paired == |PairedSources(st.numSource, st.bufs, st.syms)|
  {}

  lemma SourcesApart(st: State, s: set<nat>)
    requires s == PairedSources(st.numSource, st.bufs, st.syms)
    ensures forall i, j :: i in s && j in s && st.syms[i].buf == st.syms[j].buf ==> i == j
  {}

  lemma WeightsMatch(st: State)
    requires Inv(st)
    ensures ElementsMatch(st) && ActiveUsableMatch(st) && InactivatedMatch(st)
  {}

  lemma UsedMatches(st: State)
    requires Inv(st)
    ensures UsedMatch(st)
  {
    forall i | 0 <= i < |st.bufs| && st.bufs[i].used ensures st.bufs[i].weight == 1 && UsedAlone(st, i) {
      var j := UsedRow(st.bufs, st.syms, i);
    }
  }

  lemma RedundantMatches(st: State)
    requires Inv(st)
    ensures st.redundant == |RedundantBuffers(st)|
  {
    forall i | 0 <= i < |st.bufs| && st.bufs[i].ids == {} ensures st.bufs[i].weight == 0 {
      assert st.bufs[i].weight + Bit(i in {}) == |Live(st.bufs[i].ids, st.syms)| + Bit(i in {});
    }
    assert RedundantBuffers(st) == Empties(st.bufs);
  }

  /** All six checks hold in every state that satisfies the invariant. */
  lemma ChecksHold(st: State)
    requires Inv(st)
    ensures ElementsMatch(st) && UsedMatch(st) && ActiveUsableMatch(st) && InactivatedMatch(st)
    ensures st.redundant == |RedundantBuffers(st)| && st.paired == |PairedBuffers(st)|
  {
    hide Inv;
    WeightsMatch(st);
    UsedMatches(st);
    RedundantMatches(st);
    PairedCount(st);
  }
}
