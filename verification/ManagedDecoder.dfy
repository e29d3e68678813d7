/** The decoder together with its payload buffers, and the round trip through the encoder. */
module ManagedRaptor {
  import opened Gf2
  import opened DecoderState
  import opened RaptorCode
  import opened CodeParameters
  import opened RaptorDecoder
  import opened Completeness
  import opened Elimination
  import opened Substitution
  import opened RaptorEncoder
  import opened BufferWeightMaps
  import opened Wrappers

  // ---- what a set of received symbols says ----

  /** The intermediate symbols `x` satisfy every constraint row and every received equation. */
  ghost predicate Explains(p: Params, ids: seq<nat>, data: seq<Payload>, n: nat, x: seq<Payload>)
    requires p.Valid() && |data| == |ids|
  {
    && Shaped(x, p.L(), n)
    && Constrained(p, x, n)
    && forall t :: 0 <= t < |ids| ==> Sum(LtRow(p, ids[t]), x, n) == data[t]
  }

  /** Two assignments with the same first `k` symbols. */
  ghost predicate SameSource(k: nat, x: seq<Payload>, y: seq<Payload>) {
    k <= |x| && k <= |y| && x[..k] == y[..k]
  }

  /** Everything that explains the received symbols has the same source symbols. */
  ghost predicate SourceDetermined(p: Params, ids: seq<nat>, data: seq<Payload>, n: nat)
    requires p.Valid() && |data| == |ids|
  {
    forall x, y :: Explains(p, ids, data, n, x) && Explains(p, ids, data, n, y) ==> SameSource(p.k, x, y)
  }

  /** Everything that explains the received symbols has a rival with a different source. */
  ghost predicate SourceAmbiguous(p: Params, ids: seq<nat>, data: seq<Payload>, n: nat)
    requires p.Valid() && |data| == |ids|
  {
    forall x :: Explains(p, ids, data, n, x) ==> exists y :: Explains(p, ids, data, n, y) && !SameSource(p.k, x, y)
  }

  /** The constraint rows followed by the received rows. */
  ghost function SystemRows(p: Params, ids: seq<nat>): (rows: seq<set<nat>>)
    requires p.Valid()
    ensures |rows| == p.s + p.h + |ids|
    ensures forall i :: 0 <= i < p.s + p.h ==> rows[i] == ConstraintRow(p, i)
    ensures forall i :: p.s + p.h <= i < |rows| ==> rows[i] == LtRow(p, ids[i - p.s - p.h])
  {
    seq(p.s + p.h, i requires 0 <= i < p.s + p.h => ConstraintRow(p, i)) +
    seq(|ids|, t requires 0 <= t < |ids| => LtRow(p, ids[t]))
  }

  ghost function SystemPayloads(p: Params, data: seq<Payload>, n: nat): (pay: seq<Payload>)
    ensures |pay| == p.s + p.h + |data|
    ensures forall i :: 0 <= i < p.s + p.h ==> pay[i] == Zero(n)
    ensures forall i :: p.s + p.h <= i < |pay| ==> pay[i] == data[i - p.s - p.h]
  {
    seq(p.s + p.h, _ => Zero(n)) + data
  }

  lemma SolvesExplains(p: Params, ids: seq<nat>, data: seq<Payload>, n: nat, x: seq<Payload>)
    requires p.Valid() && |data| == |ids| && Shaped(x, p.L(), n)
    requires Solves(x, SystemRows(p, ids), SystemPayloads(p, data, n), n)
    ensures Explains(p, ids, data, n, x)
  {
    hide ConstraintRow;
    hide LtRow;
    hide SumTo;
    hide Params.Valid;
    var rows, pay, m := SystemRows(p, ids), SystemPayloads(p, data, n), p.s + p.h;
    forall i: nat | i < m ensures Sum(ConstraintRow(p, i), x, n) == Zero(n) {
      assert Sum(rows[i], x, n) == pay[i];
    }
    forall t: nat | t < |ids| ensures Sum(LtRow(p, ids[t]), x, n) == data[t] {
      assert Sum(rows[m + t], x, n) == pay[m + t];
    }
  }

  lemma ExplainsSolves(p: Params, ids: seq<nat>, data: seq<Payload>, n: nat, x: seq<Payload>)
    requires p.Valid() && |data| == |ids|
    requires Explains(p, ids, data, n, x)
    ensures Solves(x, SystemRows(p, ids), SystemPayloads(p, data, n), n)
  {
    hide ConstraintRow;
    hide LtRow;
    hide SumTo;
    hide Sum;
    hide Params.Valid;
    hide SystemRows;
    hide SystemPayloads;
    var rows, pay, m := SystemRows(p, ids), SystemPayloads(p, data, n), p.s + p.h;
    forall i: nat | i < |rows| ensures Sum(rows[i], x, n) == pay[i] {
      if i < m {
        assert Sum(ConstraintRow(p, i), x, n) == Zero(n);
      } else {
        assert Sum(LtRow(p, ids[i - m]), x, n) == data[i - m];
      }
    }
  }

  lemma SystemGrows(p: Params, ids: seq<nat>, data: seq<Payload>, n: nat, id: nat, d: Payload)
    requires p.Valid() && |data| == |ids|
    ensures SystemRows(p, ids + [id]) == SystemRows(p, ids) + [LtRow(p, id)]
    ensures SystemPayloads(p, data + [d], n) == SystemPayloads(p, data, n) + [d]
  {
    hide ConstraintRow;
    hide LtRow;
    var rows, rows' := SystemRows(p, ids) + [LtRow(p, id)], SystemRows(p, ids + [id]);
    forall i | 0 <= i < |rows'| ensures rows'[i] == rows[i] {
      if i >= p.s + p.h {
        var t := i - (p.s + p.h);
        assert rows'[p.s + p.h + t] == LtRow(p, (ids + [id])[t]);
      }
    }
  }

  /** The whole source follows from what was received one substitution at a time. */
  ghost predicate Substitutable(p: Params, ids: seq<nat>)
    requires p.Valid()
  {
    forall j: nat :: j < p.k ==> Derivable(SystemRows(p, ids), j)
  }

  // ---- soundness and completeness of a decoder state ----

  /** The state stands for exactly the system that was received. */
  ghost predicate Represents(p: Params, st: State, pay: seq<Payload>, ids: seq<nat>, data: seq<Payload>, n: nat) {
    && p.Valid() && |ids| == |data|
    && Inv(st) && st.numSource == p.k && |st.syms| == p.L()
    && SameSolutions(SystemRows(p, ids), SystemPayloads(p, data, n), RowsOf(st.bufs), pay, p.L(), n)
  }

  lemma ExplainsRow(p: Params, st: State, pay: seq<Payload>, ids: seq<nat>, data: seq<Payload>, n: nat, x: seq<Payload>)
    requires Represents(p, st, pay, ids, data, n) && Shaped(x, p.L(), n)
    ensures Explains(p, ids, data, n, x) <==> Solves(x, RowsOf(st.bufs), pay, n)
  {
    hide Inv;
    hide Explains;
    hide Solves;
    hide Params.Valid;
    if Explains(p, ids, data, n, x) {
      ExplainsSolves(p, ids, data, n, x);
    }
    if Solves(x, RowsOf(st.bufs), pay, n) {
      SolvesExplains(p, ids, data, n, x);
    }
  }

  /** Giving up means that what was received does not determine the source. */
  lemma StuckAmbiguous(p: Params, st: State, pay: seq<Payload>, ids: seq<nat>, data: seq<Payload>, n: nat)
    requires Represents(p, st, pay, ids, data, n) && n != 0
    requires st.activeUsable == map[] && Stalled(st) && st.paired != st.numSource
    ensures SourceAmbiguous(p, ids, data, n)
  {
    hide Inv;
    hide Solves;
    hide Stalled;
    hide SameSolutions;
    forall x | Explains(p, ids, data, n, x) ensures exists y :: Explains(p, ids, data, n, y) && !SameSource(p.k, x, y) {
      ExplainsRow(p, st, pay, ids, data, n, x);
      var y := StuckSecondSolution(st, x, pay, n);
      ExplainsRow(p, st, pay, ids, data, n, y);
      DifferentSource(p, x, y, n);
    }
  }

  lemma DifferentSource(p: Params, x: seq<Payload>, y: seq<Payload>, n: nat)
    requires p.Valid() && Shaped(x, p.L(), n) && Shaped(y, p.L(), n)
    requires Constrained(p, x, n) && Constrained(p, y, n) && x != y
    ensures !SameSource(p.k, x, y)
  {
    hide Constrained;
    hide Params.Valid;
    if SameSource(p.k, x, y) {
      forall j | 0 <= j < p.k ensures x[j] == y[j] {
        assert x[..p.k][j] == y[..p.k][j];
      }
      SourcesDetermine(p, x, y, n, p.s + p.h);
    }
  }

  /** Source symbol `j` is alone in its used buffer. */
  ghost predicate PairedAt(st: State, j: nat) {
    j < |st.syms| && st.syms[j].Used? && st.syms[j].buf < |st.bufs| && st.bufs[st.syms[j].buf].ids == {j}
  }

  /** The payloads of the first `m` source symbols, all recovered. */
  ghost function Recovered(st: State, pay: seq<Payload>, m: nat): (xs: seq<Payload>)
    requires |pay| == |st.bufs| && forall j :: 0 <= j < m ==> PairedAt(st, j)
    ensures |xs| == m
    ensures forall j :: 0 <= j < m ==> PairedAt(st, j) && xs[j] == pay[st.syms[j].buf]
  {
    seq(m, j requires 0 <= j < m && PairedAt(st, j) => pay[st.syms[j].buf])
  }

  /** Whatever explains the received symbols has the recovered source symbols. */
  lemma RecoveredSources(p: Params, st: State, pay: seq<Payload>, ids: seq<nat>, data: seq<Payload>, n: nat, x: seq<Payload>)
    requires Represents(p, st, pay, ids, data, n) && |pay| == |st.bufs|
    requires forall j :: 0 <= j < p.k ==> PairedAt(st, j)
    requires Explains(p, ids, data, n, x)
    ensures p.k <= |x| && x[..p.k] == Recovered(st, pay, p.k)
  {
    hide Inv;
    hide Solves;
    ExplainsRow(p, st, pay, ids, data, n, x);
    forall j | 0 <= j < p.k ensures x[j] == Recovered(st, pay, p.k)[j] {
      assert PairedAt(st, j);
      PairedValue(st, j, x, pay, n);
    }
  }

  // ---- the managed decoder ----

  class ManagedDecoder {
    const numSourceSymbols: nat
    const symbolLen: nat
    const decoder: Decoder
    const bufferSet: BufferSet
    ghost var ids: seq<nat>
    ghost var data: seq<Payload>
    /** Whether some attempt started at the threshold or above. */
    ghost var eager: bool

    /** On active symbols the rows are still the received ones, and only eager attempts inactivate symbols. */
    ghost predicate Traced()
      reads this, decoder
    {
      && decoder.params.Valid()
      && Kept(SystemRows(decoder.params, ids), RowsOf(decoder.bufs), Actives(decoder.syms))
      && (!eager ==> Inactives(decoder.syms) == {})
      && (eager ==> InactivationThreshold() <= |decoder.bufs|)
    }

    /** The decoder's rows and payloads have exactly the solutions that explain what was received. */
    ghost predicate Valid()
      reads this, decoder, decoder.activeUsable, decoder.inactivated, bufferSet
    {
      && decoder.params.Valid() && decoder.params.k == numSourceSymbols && bufferSet.symbolLen == symbolLen > 0
      && decoder.Valid(bufferSet)
      && |ids| == |data| && |decoder.bufs| == decoder.params.s + decoder.params.h + |ids|
      && decoder.Equivalent(bufferSet, SystemRows(decoder.params, ids), SystemPayloads(decoder.params, data, symbolLen))
      && Traced()
    }

    constructor (p: Params, symbolLen: nat)
      requires p.Valid() && symbolLen > 0
      ensures Valid() && fresh(decoder) && fresh(decoder.activeUsable) && fresh(decoder.inactivated) && fresh(bufferSet)
      ensures decoder.params == p && this.symbolLen == symbolLen && ids == [] && data == [] && !eager
    {
      hide Inv;
      hide ConstraintRow;
      hide Solves;
      hide BufferWeightMap.Valid;
      hide Params.Valid;
      numSourceSymbols, this.symbolLen := p.k, symbolLen;
      var d := new Decoder(p);
      var bs := new BufferSet(p.s + p.h, symbolLen);
      decoder, bufferSet, ids, data, eager := d, bs, [], [], false;
      assert RowsOf(d.bufs) == SystemRows(p, []);
      assert bs.buffers == SystemPayloads(p, [], symbolLen);
    }

    /** Registers a received payload. */
    method ReceivedEncodedSymbol(payload: Payload, id: nat)
      requires Valid() && |payload| == symbolLen && id < MAX_TRIPLES && |decoder.bufs| < MAX_BUFFERS
      modifies this, decoder, decoder.activeUsable, decoder.inactivated, bufferSet
      ensures Valid() && ids == old(ids) + [id] && data == old(data) + [payload] && eager == old(eager)
    {
      hide Inv;
      hide ConstraintRow;
      hide LtRow;
      hide SameSolutions;
      hide BufferWeightMap.Valid;
      hide Params.Valid;
      hide Kept;
      hide Steady;
      ghost var p, n := decoder.params, symbolLen;
      ghost var rows, pay, was := RowsOf(decoder.bufs), bufferSet.buffers, decoder.syms;
      bufferSet.PushBuffer(payload);
      decoder.ReceivedEncodedSymbol(bufferSet, id);
      SystemGrows(p, ids, data, n, id, payload);
      SameSolutionsAppend(SystemRows(p, ids), SystemPayloads(p, data, n), rows, pay, LtRow(p, id), payload, p.L(), n);
      SameSolutionsTrans(SystemRows(p, ids + [id]), SystemPayloads(p, data + [payload], n), rows + [LtRow(p, id)], pay + [payload],
                         RowsOf(decoder.bufs), bufferSet.buffers, p.L(), n);
      KeptReceived(SystemRows(p, ids), rows, LtRow(p, id), was, RowsOf(decoder.bufs), decoder.syms);
      ids, data := ids + [id], data + [payload];
    }

    function InactivationThreshold(): (t: nat)
      ensures numSourceSymbols <= t && 2 * t <= 3 * numSourceSymbols < 2 * t + 2
    {
      384 * numSourceSymbols / 256
    }

    /** Buffers that are not redundant. */
    function Usable(): int
      reads decoder
    {
      |decoder.bufs| - decoder.redundant
    }

    /** Every source symbol that follows from `rows` one substitution at a time is recovered. */
    ghost predicate Substituted(rows: seq<set<nat>>)
      reads decoder
    {
      forall j: nat :: j < numSourceSymbols && Derivable(rows, j) ==> j in PairedSources(decoder.params.k, decoder.bufs, decoder.syms)
    }

    /** Substitution in the rows as they are recovers nothing more; nor does substitution in the rows as received,
        before the first eager attempt. */
    ghost predicate SubstitutionClosed()
      reads this, decoder
    {
      && decoder.params.Valid()
      && Substituted(RowsOf(decoder.bufs))
      && (!eager ==> Substituted(SystemRows(decoder.params, ids)))
      && (!eager && Substitutable(decoder.params, ids) ==> decoder.Done())
    }

    /** Advances the decode state machine. Success means the source is determined; failure above the
        threshold means it is not: whatever explains the received symbols has a rival with a different
        source. */
    method TryDecode() returns (done: bool)
      requires Valid()
      modifies this`eager, decoder, decoder.activeUsable, decoder.inactivated, bufferSet
      ensures Valid() && |decoder.bufs| == |old(decoder.bufs)| && Usable() <= old(Usable())
      ensures done <==> decoder.Done()
      ensures done ==> SourceDetermined(decoder.params, ids, data, symbolLen)
      ensures !done && InactivationThreshold() <= old(Usable()) ==> SourceAmbiguous(decoder.params, ids, data, symbolLen)
      ensures InactivationThreshold() <= old(Usable()) && (exists x :: Explains(decoder.params, ids, data, symbolLen, x)) ==>
                (done <==> SourceDetermined(decoder.params, ids, data, symbolLen))
      ensures eager == (old(eager) || InactivationThreshold() <= old(Usable()))
      ensures SubstitutionClosed()
    {
      hide Inv;
      hide Params.Valid;
      hide SameSolutions;
      hide Explains;
      hide BufferWeightMap.Valid;
      hide DecoderState.PairedSources;
      ghost var p, n := decoder.params, symbolLen;
      ghost var rows, pay, was := RowsOf(decoder.bufs), bufferSet.buffers, decoder.syms;
      eager := eager || InactivationThreshold() <= Usable();
      done := decoder.TryDecode(bufferSet, InactivationThreshold());
      SameSolutionsTrans(SystemRows(p, ids), SystemPayloads(p, data, n), rows, pay, RowsOf(decoder.bufs), bufferSet.buffers, p.L(), n);
      ghost var st, pay' := decoder.St(), bufferSet.buffers;
      KeptNarrowed(SystemRows(p, ids), rows, was, RowsOf(st.bufs), st.syms, eager);
      SubstitutionDone(st, SystemRows(p, ids), eager);
      assert Represents(p, st, pay', ids, data, n);
      if done {
        DoneDetermined(p, st, pay', ids, data, n);
      } else if decoder.Stuck() {
        StuckAmbiguous(p, st, pay', ids, data, n);
      }
    }

    /** The recovered source symbols laid end to end, or nothing while one is missing. */
    method ReconstructSourceData() returns (out: Option<seq<bv8>>)
      requires Valid()
      ensures out.Some? <==> decoder.Done()
      ensures out.Some? ==> forall x :: Explains(decoder.params, ids, data, symbolLen, x) ==>
                numSourceSymbols <= |x| && out.value == Flatten(x[..numSourceSymbols])
    {
      hide ManagedDecoder.Traced;
      hide SystemRows;
      hide SystemPayloads;
      hide RowsOf;
      hide Inv;
      hide Params.Valid;
      hide SameSolutions;
      hide Explains;
      hide BufferWeightMap.Valid;
      ghost var p, n, st, pay := decoder.params, symbolLen, decoder.St(), bufferSet.buffers;
      assert Represents(p, st, pay, ids, data, n);
      var acc := [];
      for i := 0 to numSourceSymbols
        invariant forall j :: 0 <= j < i ==> PairedAt(st, j)
        invariant acc == Flatten(Recovered(st, pay, i))
      {
        var id := decoder.SourceSymbolToBufferId(i);
        if id.None? {
          MissingSource(st, i);
          return None;
        }
        assert PairedAt(st, i);
        ghost var xs := Recovered(st, pay, i + 1);
        assert xs[..i] == Recovered(st, pay, i);
        assert bufferSet.Index(id.value) == st.syms[i].buf;
        acc := acc + bufferSet.buffers[bufferSet.Index(id.value)];
      }
      AllPaired(st);
      forall x | Explains(p, ids, data, n, x) ensures p.k <= |x| && acc == Flatten(x[..p.k]) {
        RecoveredSources(p, st, pay, ids, data, n, x);
      }
      out := Some(acc);
    }
  }

  lemma KeptReceived(sys: seq<set<nat>>, rows: seq<set<nat>>, row: set<nat>, was: seq<Symbol>, rows': seq<set<nat>>, syms: seq<Symbol>)
    requires Kept(sys, rows, Actives(was)) && Steady(rows + [row], was, rows', syms)
    ensures Kept(sys + [row], rows', Actives(syms))
    ensures Inactives(was) == {} ==> Inactives(syms) == {}
  {
    KeptTrans(sys + [row], rows + [row], rows', Actives(was), Actives(syms));
  }

  lemma KeptNarrowed(sys: seq<set<nat>>, rows: seq<set<nat>>, was: seq<Symbol>, rows': seq<set<nat>>, syms: seq<Symbol>, harder: bool)
    requires Kept(sys, rows, Actives(was)) && Narrowed(rows, was, rows', syms, harder)
    ensures Kept(sys, rows', Actives(syms))
    ensures !harder && Inactives(was) == {} ==> Inactives(syms) == {}
  {
    KeptTrans(sys, rows, rows', Actives(was), Actives(syms));
  }

  /** What an attempt leaves: done, or nothing to peel or reactivate. */
  lemma SubstitutionDone(st: State, sys: seq<set<nat>>, eager: bool)
    requires Inv(st) && Kept(sys, RowsOf(st.bufs), Actives(st.syms)) && (!eager ==> Inactives(st.syms) == {})
    requires st.paired != st.numSource ==> !HasOne(st.activeUsable) && !HasOne(st.inactivated)
    ensures forall j: nat :: j < st.numSource && Derivable(RowsOf(st.bufs), j) ==> j in PairedSources(st.numSource, st.bufs, st.syms)
    ensures !eager ==> forall j: nat :: j < st.numSource && Derivable(sys, j) ==> j in PairedSources(st.numSource, st.bufs, st.syms)
    ensures !eager && (forall j: nat :: j < st.numSource ==> Derivable(sys, j)) ==> st.paired == st.numSource
  {
    hide Inv;
    hide Kept;
    hide Derivable;
    hide HasOne;
    forall j: nat | j < st.numSource && (Derivable(RowsOf(st.bufs), j) || (!eager && Derivable(sys, j)))
      ensures j in PairedSources(st.numSource, st.bufs, st.syms)
    {
      if st.paired == st.numSource {
        DonePaired(st, j);
      } else if Derivable(RowsOf(st.bufs), j) {
        RowsClosed(st, j);
        AlonePaired(st, j);
      } else {
        DerivableRecovered(st, sys, j);
      }
    }
    if !eager && forall j: nat :: j < st.numSource ==> Derivable(sys, j) {
      forall j | 0 <= j < st.numSource ensures PairedAt(st, j) {
        assert Derivable(sys, j);
      }
      AllPaired(st);
    }
  }

  lemma MissingSource(st: State, i: nat)
    requires Inv(st) && i < st.numSource && i !in PairedSources(st.numSource, st.bufs, st.syms)
    ensures st.paired != st.numSource
  {
    if st.paired == st.numSource {
      DonePaired(st, i);
    }
  }

  lemma AllPaired(st: State)
    requires Inv(st) && forall j :: 0 <= j < st.numSource ==> PairedAt(st, j)
    ensures st.paired == st.numSource
  {
    var p := PairedSources(st.numSource, st.bufs, st.syms);
    forall j: nat | j < st.numSource ensures j in p {
      assert PairedAt(st, j);
    }
    assert p == Below(st.numSource);
  }

  lemma DoneDetermined(p: Params, st: State, pay: seq<Payload>, ids: seq<nat>, data: seq<Payload>, n: nat)
    requires Represents(p, st, pay, ids, data, n) && |pay| == |st.bufs| && st.paired == st.numSource
    ensures SourceDetermined(p, ids, data, n)
  {
    hide Inv;
    hide Explains;
    hide SameSolutions;
    forall j | 0 <= j < p.k ensures PairedAt(st, j) {
      DonePaired(st, j);
    }
    forall x, y | Explains(p, ids, data, n, x) && Explains(p, ids, data, n, y) ensures SameSource(p.k, x, y) {
      RecoveredSources(p, st, pay, ids, data, n, x);
      RecoveredSources(p, st, pay, ids, data, n, y);
    }
  }

  /** Adding the same equation to two equivalent systems keeps them equivalent. */
  lemma SameSolutionsAppend(r0: seq<set<nat>>, p0: seq<Payload>, r1: seq<set<nat>>, p1: seq<Payload>, row: set<nat>, d: Payload, l: nat, n: nat)
    requires SameSolutions(r0, p0, r1, p1, l, n) && |p0| == |r0| && |p1| == |r1|
    ensures SameSolutions(r0 + [row], p0 + [d], r1 + [row], p1 + [d], l, n)
  {
    forall x | Shaped(x, l, n) ensures Solves(x, r0 + [row], p0 + [d], n) <==> Solves(x, r1 + [row], p1 + [d], n) {
      SolvesAppend(x, r0, p0, row, d, n);
      SolvesAppend(x, r1, p1, row, d, n);
    }
  }

  lemma SolvesAppend(x: seq<Payload>, rows: seq<set<nat>>, pay: seq<Payload>, row: set<nat>, d: Payload, n: nat)
    requires Shaped(x, |x|, n) && |pay| == |rows|
    ensures Solves(x, rows + [row], pay + [d], n) <==> Solves(x, rows, pay, n) && Sum(row, x, n) == d
  {
    hide SumTo;
    var rows', pay' := rows + [row], pay + [d];
    if Solves(x, rows', pay', n) {
      assert Sum(rows'[|rows|], x, n) == pay'[|rows|];
      forall i | 0 <= i < |rows| ensures Sum(rows[i], x, n) == pay[i] {
        assert Sum(rows'[i], x, n) == pay'[i];
      }
    }
  }

  method NewManagedDecoder(numSourceSymbols: int, symbolLen: int, t: Tables) returns (m: Option<ManagedDecoder>)
    requires t.Valid()
    ensures m.Some? <==> SOURCE_SYMBOLS_MIN <= numSourceSymbols <= SOURCE_SYMBOLS_MAX && symbolLen > 0
    ensures m.Some? ==> m.value.Valid() && m.value.ids == [] && m.value.symbolLen == symbolLen
    ensures m.Some? ==> IsCode(t, numSourceSymbols, m.value.decoder.params)
    ensures m.Some? ==> fresh(m.value) && fresh(m.value.decoder) && fresh(m.value.bufferSet)
    ensures m.Some? ==> fresh(m.value.decoder.activeUsable) && fresh(m.value.decoder.inactivated)
  {
    hide Tables.Valid;
    hide IsCode;
    var code := NewCodeParameters(t, numSourceSymbols);
    if code.None? || symbolLen <= 0 {
      return None;
    }
    var d := new ManagedDecoder(code.value, symbolLen);
    m := Some(d);
  }

  // ---- round trip ----

  lemma MulStep(a: nat, n: nat)
    ensures (a + 1) * n == a * n + n
  {}

  lemma {:induction false} FlattenLength(xs: seq<Payload>, n: nat)
    requires Shaped(xs, |xs|, n)
    ensures |Flatten(xs)| == |xs| * n
  {
    if xs != [] {
      FlattenLength(xs[..|xs| - 1], n);
      MulStep(|xs| - 1, n);
    }
  }

  /** The source with zeros up to `k` symbols. */
  ghost function Padded(src: seq<bv8>, n: nat, k: nat): seq<bv8>
    requires |src| <= k * n
  {
    src + Zero(k * n - |src|)
  }

  /** What an encoder's intermediate symbols lay end to end. */
  lemma SourcePadded(e: Encoder)
    requires e.Valid()
    ensures |e.src| <= e.params.k * e.symbolLen
    ensures Flatten(e.Intermediates()[..e.params.k]) == Padded(e.src, e.symbolLen, e.params.k)
  {
    var xs := e.Intermediates()[..e.params.k];
    FlattenLength(xs, e.symbolLen);
    var z: nat :| Flatten(xs) == e.src + Zero(z);
  }

  lemma ExplainsGrows(p: Params, ids: seq<nat>, data: seq<Payload>, n: nat, x: seq<Payload>, id: nat)
    requires p.Valid() && |data| == |ids| && Explains(p, ids, data, n, x)
    ensures Explains(p, ids + [id], data + [Sum(LtRow(p, id), x, n)], n, x)
  {
    hide LtRow;
    hide Constrained;
    hide Params.Valid;
  }

  lemma ExplainsNothing(e: Encoder)
    requires e.Valid()
    ensures Explains(e.params, [], [], e.symbolLen, e.Intermediates())
  {}

  /** The decoder has received only what the encoder sent. */
  ghost predicate Linked(e: Encoder, m: ManagedDecoder)
    reads m, m.decoder, m.decoder.activeUsable, m.decoder.inactivated, m.bufferSet
  {
    && e.Valid() && m.Valid() && m.decoder.params == e.params && m.symbolLen == e.symbolLen
    && Explains(e.params, m.ids, m.data, e.symbolLen, e.Intermediates())
  }

  lemma LinkedStart(e: Encoder, m: ManagedDecoder)
    requires e.Valid() && m.Valid() && m.ids == [] && m.decoder.params == e.params && m.symbolLen == e.symbolLen
    ensures Linked(e, m) && |m.decoder.bufs| == e.params.s + e.params.h
  {
    ExplainsNothing(e);
  }

  /** One encoded symbol from the encoder to the decoder. */
  method Send(e: Encoder, m: ManagedDecoder, id: nat)
    requires Linked(e, m) && id < MAX_TRIPLES && |m.decoder.bufs| < MAX_BUFFERS
    modifies m, m.decoder, m.decoder.activeUsable, m.decoder.inactivated, m.bufferSet
    ensures Linked(e, m) && m.ids == old(m.ids) + [id] && |m.decoder.bufs| == |old(m.decoder.bufs)| + 1
  {
    hide Explains;
    hide Params.Valid;
    hide Constrained;
    hide LtRow;
    hide Inv;
    hide SameSolutions;
    hide BufferWeightMap.Valid;
    var dst := new bv8[e.symbolLen](_ => 0);
    assert dst[..] == Zero(e.symbolLen);
    e.EncodeSymbol(dst, id);
    XorZero(Sum(LtRow(e.params, id), e.Intermediates(), e.symbolLen));
    ExplainsGrows(e.params, m.ids, m.data, e.symbolLen, e.Intermediates(), id);
    m.ReceivedEncodedSymbol(dst[..], id);
  }

  lemma {:induction false} FlattenInjective(xs: seq<Payload>, ys: seq<Payload>, n: nat)
    requires Shaped(xs, |xs|, n) && Shaped(ys, |xs|, n) && Flatten(xs) == Flatten(ys)
    ensures xs == ys
  {
    if xs != [] {
      var k := |xs| - 1;
      FlattenLength(xs[..k], n);
      FlattenLength(ys[..k], n);
      var fx, fy := Flatten(xs[..k]), Flatten(ys[..k]);
      assert Flatten(xs)[..k * n] == fx && Flatten(ys)[..k * n] == fy;
      assert Flatten(xs)[k * n..] == xs[k] && Flatten(ys)[k * n..] == ys[k];
      FlattenInjective(xs[..k], ys[..k], n);
      assert xs == xs[..k] + [xs[k]] && ys == ys[..k] + [ys[k]];
    }
  }

  /** Intermediate symbols of a different message that would have sent the same symbols. */
  ghost predicate Rival(p: Params, ids: seq<nat>, n: nat, x: seq<Payload>, y: seq<Payload>)
    requires p.Valid() && Shaped(x, p.L(), n)
  {
    && Shaped(y, p.L(), n) && Constrained(p, y, n)
    && (forall t :: 0 <= t < |ids| ==> Sum(LtRow(p, ids[t]), y, n) == Sum(LtRow(p, ids[t]), x, n))
    && Flatten(y[..p.k]) != Flatten(x[..p.k])
  }

  ghost predicate HasRival(p: Params, ids: seq<nat>, n: nat, x: seq<Payload>)
    requires p.Valid() && Shaped(x, p.L(), n)
  {
    exists y :: Rival(p, ids, n, x, y)
  }

  lemma RivalExplains(p: Params, ids: seq<nat>, data: seq<Payload>, n: nat, x: seq<Payload>, y: seq<Payload>)
    requires p.Valid() && |data| == |ids| && Explains(p, ids, data, n, x)
    ensures Rival(p, ids, n, x, y) <==> Explains(p, ids, data, n, y) && !SameSource(p.k, x, y)
  {
    hide LtRow;
    hide Constrained;
    hide Params.Valid;
    hide SumTo;
    if Shaped(y, p.L(), n) && Flatten(y[..p.k]) == Flatten(x[..p.k]) {
      FlattenInjective(y[..p.k], x[..p.k], n);
    }
  }

  /** What was received leaves a rival exactly when it does not determine the source. */
  lemma RivalAmbiguous(p: Params, ids: seq<nat>, data: seq<Payload>, n: nat, x: seq<Payload>)
    requires p.Valid() && |data| == |ids| && Explains(p, ids, data, n, x)
    ensures SourceAmbiguous(p, ids, data, n) ==> HasRival(p, ids, n, x)
    ensures SourceDetermined(p, ids, data, n) ==> !HasRival(p, ids, n, x)
  {
    assert Shaped(x, p.L(), n);
    hide Explains;
    hide Rival;
    hide Params.Valid;
    forall y ensures Rival(p, ids, n, x, y) <==> Explains(p, ids, data, n, y) && !SameSource(p.k, x, y) {
      RivalExplains(p, ids, data, n, x, y);
    }
  }

  /** Tries to decode, and reads the source back on success. Before the first attempt at the threshold it fails
      only if substitution does not reach the whole source. With `usable` at the threshold or above, it fails
      only if a different message would have sent the same symbols; it succeeds only if none would. */
  method Attempt(e: Encoder, m: ManagedDecoder) returns (out: Option<seq<bv8>>, usable: int)
    requires Linked(e, m)
    modifies m`eager, m.decoder, m.decoder.activeUsable, m.decoder.inactivated, m.bufferSet
    ensures Linked(e, m) && |m.decoder.bufs| == |old(m.decoder.bufs)|
    ensures out.Some? <==> m.decoder.Done()
    ensures out.Some? ==> |e.src| <= e.params.k * e.symbolLen && out.value == Padded(e.src, e.symbolLen, e.params.k)
    ensures m.Usable() <= usable == old(m.Usable())
    ensures out.None? && m.InactivationThreshold() <= usable ==> HasRival(e.params, m.ids, e.symbolLen, e.Intermediates())
    ensures out.None? && !m.eager ==> !Substitutable(e.params, m.ids)
    ensures m.eager ==> m.InactivationThreshold() <= |m.decoder.bufs|
    ensures out.Some? ==> !HasRival(e.params, m.ids, e.symbolLen, e.Intermediates())
  {
    hide Explains;
    hide Params.Valid;
    hide Constrained;
    hide Inv;
    hide SameSolutions;
    hide BufferWeightMap.Valid;
    hide SourceAmbiguous;
    hide SourceDetermined;
    hide HasRival;
    hide Substitutable;
    hide ManagedDecoder.Substituted;
    usable := m.Usable();
    var done := m.TryDecode();
    RivalAmbiguous(e.params, m.ids, m.data, e.symbolLen, e.Intermediates());
    if !done {
      return None, usable;
    }
    out := m.ReconstructSourceData();
    SourcePadded(e);
    hide Padded;
    hide Flatten;
    hide Sum;
    assert out.value == Flatten(e.Intermediates()[..m.numSourceSymbols]);
  }

  /** Sends encoded symbols, in any order and with any repeats, until the decoder reports success. `usable` is
      what the last attempt had to work with. */
  method RoundTrip(e: Encoder, m: ManagedDecoder, ids: seq<nat>) returns (out: Option<seq<bv8>>, usable: int)
    requires e.Valid() && m.Valid() && m.ids == [] && m.decoder.params == e.params && m.symbolLen == e.symbolLen
    requires forall t :: 0 <= t < |ids| ==> ids[t] < MAX_TRIPLES
    requires e.params.s + e.params.h + |ids| <= MAX_BUFFERS
    modifies m, m.decoder, m.decoder.activeUsable, m.decoder.inactivated, m.bufferSet
    ensures m.Valid() && m.ids <= ids && (out.Some? ==> !HasRival(e.params, m.ids, e.symbolLen, e.Intermediates()))
    ensures out.Some? ==> |e.src| <= e.params.k * e.symbolLen && out.value == Padded(e.src, e.symbolLen, e.params.k)
    ensures out.None? ==> m.ids == ids
    ensures out.None? && ids != [] ==>
              && !m.decoder.Done() && m.Usable() <= usable
              && (m.InactivationThreshold() <= usable ==> HasRival(e.params, ids, e.symbolLen, e.Intermediates()))
              && (|SystemRows(e.params, ids)| < m.InactivationThreshold() ==> !Substitutable(e.params, ids))
  {
    hide Linked;
    hide ManagedDecoder.Valid;
    hide Encoder.Valid;
    hide HasRival;
    hide Substitutable;
    hide SystemRows;
    hide ManagedDecoder.InactivationThreshold;
    hide Padded;
    LinkedStart(e, m);
    LinkedFacts(e, m);
    out, usable := None, 0;
    for t := 0 to |ids|
      invariant Linked(e, m) && m.Valid() && out.None? && m.ids == ids[..t] && |m.decoder.bufs| == e.params.s + e.params.h + t
      invariant t > 0 ==>
                  && !m.decoder.Done() && m.Usable() <= usable
                  && (m.InactivationThreshold() <= usable ==> HasRival(e.params, m.ids, e.symbolLen, e.Intermediates()))
                  && (e.params.s + e.params.h + t < m.InactivationThreshold() ==> !Substitutable(e.params, m.ids))
    {
      Send(e, m, ids[t]);
      out, usable := Attempt(e, m);
      LinkedFacts(e, m);
      if out.Some? {
        return;
      }
    }
    assert ids[..|ids|] == ids;
  }

  lemma LinkedFacts(e: Encoder, m: ManagedDecoder)
    requires Linked(e, m)
    ensures m.Valid() && e.Sized() && e.params.Valid() && Shaped(e.Intermediates(), e.params.L(), e.symbolLen)
  {}

  /** The most buffers the constraint rows of any code take. */
  const MAX_REDUNDANT: nat := ENOUGH_LDPC + HALF_MAX

  /** Intermediate symbols of the padded message. */
  ghost predicate Encodes(p: Params, n: nat, src: seq<bv8>, x: seq<Payload>)
    requires p.Valid()
  {
    && Shaped(x, p.L(), n) && Constrained(p, x, n)
    && |src| <= p.k * n && Flatten(x[..p.k]) == Padded(src, n, p.k)
  }

  /** A different message of the same length would have sent the same symbols. */
  ghost predicate Confusable(p: Params, n: nat, src: seq<bv8>, ids: seq<nat>)
    requires p.Valid()
  {
    exists x :: Encodes(p, n, src, x) && HasRival(p, ids, n, x)
  }

  lemma EncoderEncodes(e: Encoder)
    requires e.Valid()
    ensures e.params.Valid() && Encodes(e.params, e.symbolLen, e.src, e.Intermediates())
  {
    SourcePadded(e);
  }

  /** A message from its bytes to its bytes: encoder and decoder are built independently, from the message
      and from its number of symbols, and meet only in the symbols sent. Failure of an attempt with enough
      to work with means that what was sent does not tell the message from another one. */
  method Transfer(t: Tables, src: seq<bv8>, symbolLen: nat, ids: seq<nat>)
      returns (out: Option<seq<bv8>>, m: Option<ManagedDecoder>, usable: int)
    requires t.Valid() && forall i :: 0 <= i < |ids| ==> ids[i] < MAX_TRIPLES
    requires MAX_REDUNDANT + |ids| <= MAX_BUFFERS
    ensures m.None? <==> symbolLen == 0 || NumSourceSymbols(|src|, symbolLen) > SOURCE_SYMBOLS_MAX
    ensures m.Some? ==> m.value.Valid() && IsCode(t, NumSourceSymbols(|src|, symbolLen), m.value.decoder.params)
    ensures out.Some? ==> m.Some? && |src| <= NumSourceSymbols(|src|, symbolLen) * symbolLen
    ensures out.Some? ==> out.value == Padded(src, symbolLen, NumSourceSymbols(|src|, symbolLen))
    ensures out.None? && m.Some? && ids != [] ==>
              && m.value.ids == ids && !m.value.decoder.Done() && m.value.Usable() <= usable
              && (m.value.InactivationThreshold() <= usable ==> Confusable(m.value.decoder.params, symbolLen, src, ids))
              && (|SystemRows(m.value.decoder.params, ids)| < m.value.InactivationThreshold() ==> !Substitutable(m.value.decoder.params, ids))
  {
    hide Tables.Valid;
    hide ManagedDecoder.Valid;
    hide Encoder.Valid;
    hide Padded;
    hide Substitutable;
    hide HasRival;
    hide Encodes;
    out, m, usable := None, None, 0;
    var e := NewEncoder(src, symbolLen, t);
    if e.None? {
      return;
    }
    var k := NumSourceSymbols(|src|, symbolLen);
    CodeSmall(t, k, e.value.params);
    m := NewManagedDecoder(k, symbolLen, t);
    CodeUnique(t, k, m.value.decoder.params, e.value.params);
    hide IsCode;
    EncoderEncodes(e.value);
    out, usable := RoundTrip(e.value, m.value, ids);
  }
}
