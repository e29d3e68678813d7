/** Decoding by substitution: whatever follows from the received rows one symbol at a time is recovered. */
module Substitution {
  import opened Gf2
  import opened DecoderState
  import opened Elimination
  import opened Completeness
  import Matrix

  /** A derivation: each symbol of `order` is the only one of some row that is not among those before it. */
  ghost predicate Derivation(rows: seq<set<nat>>, order: seq<nat>) {
    forall t :: 0 <= t < |order| ==> Follows(rows, order[..t], order[t])
  }

  ghost predicate Follows(rows: seq<set<nat>>, known: seq<nat>, j: nat) {
    exists i :: 0 <= i < |rows| && Yields(rows[i], known, j)
  }

  ghost predicate Yields(row: set<nat>, known: seq<nat>, j: nat) {
    j in row && forall u :: u in row ==> u == j || u in known
  }

  /** Symbol `j` follows from the rows by repeated single-symbol substitution. */
  ghost predicate Derivable(rows: seq<set<nat>>, j: nat) {
    exists order :: Derivation(rows, order) && j in order
  }

  /** No row meets `open` in exactly one symbol. */
  ghost predicate Closed(rows: seq<set<nat>>, open: set<nat>) {
    forall i, j :: 0 <= i < |rows| && j in rows[i] ==> rows[i] * open != {j}
  }

  lemma {:induction false} DerivationCloses(rows: seq<set<nat>>, open: set<nat>, order: seq<nat>)
    requires Closed(rows, open) && Derivation(rows, order)
    ensures forall j :: j in order ==> j !in open
  {
    if order != [] {
      var k := |order| - 1;
      var before, j := order[..k], order[k];
      DerivationPrefix(rows, order, k);
      DerivationCloses(rows, open, before);
      var i :| 0 <= i < |rows| && Yields(rows[i], order[..k], order[k]);
      assert rows[i] * open <= {j} && rows[i] * open != {j};
      assert rows[i] * open == {} && j in rows[i];
      assert order == before + [j];
    }
  }

  /** A closed set of open symbols holds no derivable one. */
  lemma ClosedDerivable(rows: seq<set<nat>>, open: set<nat>, j: nat)
    requires Closed(rows, open) && Derivable(rows, j)
    ensures j !in open
  {
    var order :| Derivation(rows, order) && j in order;
    DerivationCloses(rows, open, order);
  }

  /** A row with exactly one active symbol can be peeled. */
  lemma SingleActive(st: State, i: nat, j: nat)
    requires Inv(st) && i < |st.bufs| && st.bufs[i].ids * Actives(st.syms) == {j}
    ensures HasOne(st.activeUsable)
  {
    var ids := st.bufs[i].ids;
    assert j in ids && j in Actives(st.syms);
    assert j in Live(ids, st.syms);
    if st.bufs[i].used {
      var s := UsedRow(st.bufs, st.syms, i);
      assert false;
    } else {
      forall u | u in Live(ids, st.syms) ensures u == j {
        UnusedRow(st.bufs, st.syms, i, u);
        assert u in ids * Actives(st.syms);
      }
      assert Live(ids, st.syms) == {j};
      assert i in st.activeUsable && st.activeUsable[i] == 1;
    }
  }

  /** With nothing left to peel, what is derivable from rows that agree on the active symbols is not active. */
  lemma DerivableSettled(st: State, rows: seq<set<nat>>, j: nat)
    requires Inv(st) && !HasOne(st.activeUsable) && Kept(rows, RowsOf(st.bufs), Actives(st.syms)) && Derivable(rows, j)
    ensures j !in Actives(st.syms)
  {
    hide Inv;
    var open := Actives(st.syms);
    forall i, u | 0 <= i < |rows| && u in rows[i] ensures rows[i] * open != {u} {
      assert RowsOf(st.bufs)[i] * open == rows[i] * open;
      if st.bufs[i].ids * open == {u} {
        SingleActive(st, i, u);
      }
    }
    ClosedDerivable(rows, open, j);
  }

  /** With no symbol inactivated, a used source symbol is recovered. */
  lemma UsedRecovered(st: State, j: nat)
    requires Inv(st) && Inactives(st.syms) == {} && j < st.numSource && j !in Actives(st.syms)
    ensures j in PairedSources(st.numSource, st.bufs, st.syms)
  {
    assert j !in Inactives(st.syms) && st.syms[j].Used?;
    var i := st.syms[j].buf;
    assert Names(st.syms[j], i);
    var s := UsedRow(st.bufs, st.syms, i);
    var ids := st.bufs[i].ids;
    forall u | u in ids ensures u in Live(ids, st.syms) {
      assert u < |st.syms| && u !in Inactives(st.syms);
    }
    assert j in Live(ids, st.syms) && ids == {j};
  }

  /** With nothing left to peel and nothing inactivated, every derivable source symbol is recovered. */
  lemma DerivableRecovered(st: State, rows: seq<set<nat>>, j: nat)
    requires Inv(st) && !HasOne(st.activeUsable) && Inactives(st.syms) == {}
    requires Kept(rows, RowsOf(st.bufs), Actives(st.syms)) && Derivable(rows, j) && j < st.numSource
    ensures j in PairedSources(st.numSource, st.bufs, st.syms)
  {
    hide Inv;
    DerivableSettled(st, rows, j);
    UsedRecovered(st, j);
  }

  // ---- the rows as they are now ----

  /** The recovered symbols: alone in their row. */
  ghost function Alone(bufs: seq<Buffer>): set<nat> {
    set i: nat, j: nat | i < |bufs| && j in bufs[i].ids && bufs[i].ids == {j} :: j
  }

  /** A row whose only symbol is not yet its own can be peeled or reactivated. */
  lemma LoneRowUsed(st: State, i: nat, j: nat)
    requires Inv(st) && !HasOne(st.activeUsable) && !HasOne(st.inactivated) && i < |st.bufs| && st.bufs[i].ids == {j}
    ensures j < |st.syms| && st.syms[j] == Used(i)
  {
    assert j in st.bufs[i].ids && Names(st.syms[j], i);
    if st.syms[j].Active? {
      assert st.bufs[i].ids * Actives(st.syms) == {j};
      SingleActive(st, i, j);
      assert false;
    } else if st.syms[j].Inactivated? {
      LoneInactivated(st, i, j);
      assert false;
    }
  }

  lemma LoneInactivated(st: State, i: nat, j: nat)
    requires Inv(st) && i < |st.bufs| && st.bufs[i].ids == {j} && j < |st.syms| && st.syms[j].Inactivated?
    ensures HasOne(st.inactivated)
  {
    assert Live(st.bufs[i].ids, st.syms) == {};
    assert i in st.inactivated && st.inactivated[i] == |{j}| == 1;
  }

  /** After every attempt that is not done the rows, as they are now, are closed under substitution. */
  lemma RowsClosed(st: State, j: nat)
    requires Inv(st) && !HasOne(st.activeUsable) && !HasOne(st.inactivated) && Derivable(RowsOf(st.bufs), j)
    ensures j in Alone(st.bufs)
  {
    var order :| Derivation(RowsOf(st.bufs), order) && j in order;
    DerivedAlone(st, order);
  }

  lemma {:induction false} DerivedAlone(st: State, order: seq<nat>)
    requires Inv(st) && !HasOne(st.activeUsable) && !HasOne(st.inactivated) && Derivation(RowsOf(st.bufs), order)
    ensures forall j :: j in order ==> j in Alone(st.bufs)
  {
    hide Inv;
    if order != [] {
      var rows, k := RowsOf(st.bufs), |order| - 1;
      var before, j := order[..k], order[k];
      DerivationPrefix(rows, order, k);
      DerivedAlone(st, before);
      var i :| 0 <= i < |rows| && Yields(rows[i], order[..k], order[k]);
      forall u | u in rows[i] ensures u == j {
        if u != j {
          assert u in before && u in Alone(st.bufs);
          AloneElsewhere(st, i, u, j);
        }
      }
      assert rows[i] == {j} && st.bufs[i].ids == {j};
      assert order == before + [j];
    }
  }

  lemma DerivationPrefix(rows: seq<set<nat>>, order: seq<nat>, k: nat)
    requires Derivation(rows, order) && k <= |order|
    ensures Derivation(rows, order[..k])
  {
    var before := order[..k];
    forall t | 0 <= t < k ensures Follows(rows, before[..t], before[t]) {
      assert before[..t] == order[..t] && before[t] == order[t] && Follows(rows, order[..t], order[t]);
    }
  }

  /** A recovered symbol is in no row with another symbol. */
  lemma AloneElsewhere(st: State, i: nat, u: nat, j: nat)
    requires Inv(st) && !HasOne(st.activeUsable) && !HasOne(st.inactivated) && i < |st.bufs|
    requires u in st.bufs[i].ids && j in st.bufs[i].ids && u in Alone(st.bufs)
    ensures u == j
  {
    var b: nat :| b < |st.bufs| && st.bufs[b].ids == {u};
    LoneRowUsed(st, b, u);
    assert Names(st.syms[u], i);
  }

  /** A recovered source symbol is alone in its row, and conversely once nothing is left to peel. */
  lemma AlonePaired(st: State, j: nat)
    requires Inv(st) && !HasOne(st.activeUsable) && !HasOne(st.inactivated) && j < st.numSource
    ensures j in Alone(st.bufs) <==> j in PairedSources(st.numSource, st.bufs, st.syms)
  {
    if j in Alone(st.bufs) {
      var i: nat :| i < |st.bufs| && st.bufs[i].ids == {j};
      LoneRowUsed(st, i, j);
    }
    if j in PairedSources(st.numSource, st.bufs, st.syms) {
      assert j in st.bufs[st.syms[j].buf].ids;
    }
  }

  // ---- why an elimination ends it ----

  /** Received rows, the additions an elimination of the first four makes and the one that drops symbol 0, and
      what they leave. */
  const MIXED_ROWS: seq<set<nat>> := [{0, 1}, {0, 2, 3}, {1, 2, 3}, {0, 1}, {0}]
  const MIXING_OPS := [Matrix.RowOp(1, 0), Matrix.RowOp(3, 0), Matrix.RowOp(0, 1), Matrix.RowOp(2, 1), Matrix.RowOp(0, 4)]
  const MIXED_STATE := State(2,
    [Buffer({2, 3}, 0, false), Buffer({1, 2, 3}, 0, false), Buffer({}, 0, false), Buffer({}, 0, false), Buffer({0}, 1, true)],
    [Used(4), Inactivated({1}), Inactivated({0, 1}), Inactivated({0, 1})],
    map[], map[0 := 2, 1 := 3], 2, 1)

  lemma ReplayStep(rows: seq<set<nat>>, ops: seq<Matrix.RowOp>, op: Matrix.RowOp, before: seq<set<nat>>, row: set<nat>)
    requires Matrix.OpsInRange(ops, |rows|) && Matrix.Replay(rows, ops) == before
    requires op.i < |rows| && op.j < |rows| && op.i != op.j && SymDiff(before[op.i], before[op.j]) == row
    ensures Matrix.OpsInRange(ops + [op], |rows|) && Matrix.Replay(rows, ops + [op]) == before[op.i := row]
  {
    Matrix.ReplaySnoc(rows, ops, op);
  }

  lemma MixingSums()
    ensures SymDiff({0, 2, 3}, {0, 1}) == {1, 2, 3} && SymDiff({0, 1}, {0, 1}) == {}
    ensures SymDiff({0, 1}, {1, 2, 3}) == {0, 2, 3} && SymDiff({1, 2, 3}, {1, 2, 3}) == {}
    ensures SymDiff({0, 2, 3}, {0}) == {2, 3}
  {}

  lemma ReplayNothing(rows: seq<set<nat>>)
    ensures Matrix.OpsInRange([], |rows|) && Matrix.Replay(rows, []) == rows
  {}

  lemma FirstColumn()
    ensures Matrix.OpsInRange(MIXING_OPS[..2], 5)
    ensures Matrix.Replay(MIXED_ROWS, MIXING_OPS[..2]) == [{0, 1}, {1, 2, 3}, {1, 2, 3}, {}, {0}]
  {
    hide Matrix.Replay;
    var rows, a, b := MIXED_ROWS, MIXING_OPS[0], MIXING_OPS[1];
    var r1: seq<set<nat>> := [{0, 1}, {1, 2, 3}, {1, 2, 3}, {0, 1}, {0}];
    ReplayNothing(rows);
    MixingSums();
    hide SymDiff;
    assert MIXING_OPS[..0] == [] && MIXING_OPS[..0] + [a] == MIXING_OPS[..1] && MIXING_OPS[..1] + [b] == MIXING_OPS[..2];
    ReplayStep(rows, MIXING_OPS[..0], a, rows, {1, 2, 3});
    assert rows[1 := {1, 2, 3}] == r1;
    ReplayStep(rows, MIXING_OPS[..1], b, r1, {});
  }

  lemma SecondColumn()
    ensures Matrix.OpsInRange(MIXING_OPS[..4], 5)
    ensures Matrix.Replay(MIXED_ROWS, MIXING_OPS[..4]) == [{0, 2, 3}, {1, 2, 3}, {}, {}, {0}]
  {
    hide Matrix.Replay;
    var rows, c, d := MIXED_ROWS, MIXING_OPS[2], MIXING_OPS[3];
    var r2: seq<set<nat>> := [{0, 1}, {1, 2, 3}, {1, 2, 3}, {}, {0}];
    var r3: seq<set<nat>> := [{0, 2, 3}, {1, 2, 3}, {1, 2, 3}, {}, {0}];
    FirstColumn();
    MixingSums();
    hide SymDiff;
    assert MIXING_OPS[..2] + [c] == MIXING_OPS[..3] && MIXING_OPS[..3] + [d] == MIXING_OPS[..4];
    ReplayStep(rows, MIXING_OPS[..2], c, r2, {0, 2, 3});
    assert r2[0 := {0, 2, 3}] == r3;
    ReplayStep(rows, MIXING_OPS[..3], d, r3, {});
  }

  lemma MixingReplay()
    ensures Matrix.OpsInRange(MIXING_OPS, 5) && Matrix.Replay(MIXED_ROWS, MIXING_OPS) == [{2, 3}, {1, 2, 3}, {}, {}, {0}]
  {
    hide Matrix.Replay;
    var r4: seq<set<nat>> := [{0, 2, 3}, {1, 2, 3}, {}, {}, {0}];
    SecondColumn();
    MixingSums();
    hide SymDiff;
    assert MIXING_OPS[..4] + [MIXING_OPS[4]] == MIXING_OPS;
    ReplayStep(MIXED_ROWS, MIXING_OPS[..4], MIXING_OPS[4], r4, {2, 3});
  }

  lemma MixedDerives()
    ensures Derivable(MIXED_ROWS, 1)
  {
    var rows, order := MIXED_ROWS, [0, 1];
    assert order[..0] == [] && order[..1] == [0];
    assert Yields(rows[4], [], 0) && Yields(rows[0], [0], 1);
    assert Follows(rows, order[..0], order[0]) && Follows(rows, order[..1], order[1]);
    assert Derivation(rows, order) && 1 in order;
  }

  lemma MixedIncidence()
    ensures Incidence(MIXED_STATE.bufs, MIXED_STATE.syms, {}, 0)
  {}

  lemma MixedWeights()
    ensures Weighed(MIXED_STATE.bufs, MIXED_STATE.syms, {}, {}) && UsedPairing(MIXED_STATE.bufs, MIXED_STATE.syms)
  {
    var bufs, syms := MIXED_STATE.bufs, MIXED_STATE.syms;
    assert Live(bufs[0].ids, syms) == {} && Live(bufs[1].ids, syms) == {} && Live(bufs[2].ids, syms) == {};
    assert Live(bufs[3].ids, syms) == {} && Live(bufs[4].ids, syms) == {0};
    assert syms[0] == Used(4);
  }

  lemma MixedFiled()
    ensures Filed(MIXED_STATE) && MIXED_STATE.paired == |PairedSources(2, MIXED_STATE.bufs, MIXED_STATE.syms)|
  {
    assert Empties(MIXED_STATE.bufs) == {2, 3};
    assert PairedSources(2, MIXED_STATE.bufs, MIXED_STATE.syms) == {0};
  }

  lemma MixedInv()
    ensures Inv(MIXED_STATE)
  {
    MixedIncidence();
    hide Incidence;
    MixedWeights();
    hide Weighed;
    hide UsedPairing;
    MixedFiled();
    hide Filed;
    hide PairedSources;
  }

  lemma MixedRows()
    ensures RowsOf(MIXED_STATE.bufs) == [{2, 3}, {1, 2, 3}, {}, {}, {0}]
  {}

  lemma MixedOpen()
    ensures !HasOne(MIXED_STATE.activeUsable) && !HasOne(MIXED_STATE.inactivated)
    ensures 1 !in PairedSources(MIXED_STATE.numSource, MIXED_STATE.bufs, MIXED_STATE.syms)
  {}

  /** After an elimination substitution in the received rows can reach more than is recovered: a state with every
      invariant, obtained from the received rows by row additions, and nothing left to peel or reactivate, in
      which source symbol 1 is not recovered although it follows from the received rows. */
  lemma MixingHides()
    ensures Inv(MIXED_STATE) && !HasOne(MIXED_STATE.activeUsable) && !HasOne(MIXED_STATE.inactivated)
    ensures Matrix.OpsInRange(MIXING_OPS, |MIXED_ROWS|) && RowsOf(MIXED_STATE.bufs) == Matrix.Replay(MIXED_ROWS, MIXING_OPS)
    ensures 1 < MIXED_STATE.numSource && Derivable(MIXED_ROWS, 1)
    ensures 1 !in PairedSources(MIXED_STATE.numSource, MIXED_STATE.bufs, MIXED_STATE.syms)
  {
    hide Inv;
    hide HasOne;
    hide PairedSources;
    hide Derivable;
    hide Matrix.Replay;
    hide RowsOf;
    MixedInv();
    MixedRows();
    MixedOpen();
    MixingReplay();
    MixedDerives();
  }
}
