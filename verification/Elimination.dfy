/** How matrix rows over column numbers mirror decoder rows over symbol numbers. */
module Elimination {
  import opened Gf2
  import opened DecoderState
  import opened RaptorCode
  import Matrix

  ghost function Mapped(row: set<nat>, cols: seq<nat>): (r: set<nat>)
    requires forall c :: c in row ==> c < |cols|
    ensures forall c :: c in row ==> cols[c] in r
  {
    set c | c in row :: cols[c]
  }

  /** Matrix row `i` is the row of buffer `list[i]`, with columns for symbols. */
  ghost predicate Mirrors(bufs: seq<Buffer>, list: seq<nat>, cols: seq<nat>, rows: seq<set<nat>>) {
    && |rows| == |list|
    && (forall i :: 0 <= i < |list| ==> list[i] < |bufs| && MirrorsRow(bufs[list[i]].ids, cols, rows[i]))
  }

  ghost predicate MirrorsRow(ids: set<nat>, cols: seq<nat>, row: set<nat>) {
    (forall c :: c in row ==> c < |cols|) && ids == Mapped(row, cols)
  }

  /** A row addition on the matrix mirrors one on the buffers. */
  lemma MirrorsStep(bufs: seq<Buffer>, list: seq<nat>, cols: seq<nat>, rows: seq<set<nat>>, i: nat, j: nat)
    requires Distinct(list) && Distinct(cols) && Mirrors(bufs, list, cols, rows)
    requires i < |list| && j < |list| && i != j
    ensures list[i] < |bufs| && list[j] < |bufs| && list[i] != list[j]
    ensures Mirrors(AddRow(bufs, list[i], list[j]), list, cols, rows[i := SymDiff(rows[i], rows[j])])
  {}

  /** The symbols listed by the filed buffers. */
  ghost function Spanned(bufs: seq<Buffer>, m: map<nat, nat>): set<nat> {
    set b, j | b in m && b < |bufs| && j in bufs[b].ids :: j
  }

  /** Elimination has nothing to work with, or fewer equations than unknowns. */
  ghost predicate Stalled(st: State) {
    st.inactivated == map[] || |st.inactivated| < |Spanned(st.bufs, st.inactivated)|
  }

  /** Rewriting buffers that were not empty can only add empty ones. */
  lemma EmptiesGrow(bufs: seq<Buffer>, bufs': seq<Buffer>, list: seq<nat>)
    requires |bufs'| == |bufs|
    requires forall b :: 0 <= b < |bufs| && b !in list ==> bufs'[b] == bufs[b]
    requires forall b :: b in list ==> b < |bufs| && bufs[b].ids != {}
    ensures |Empties(bufs')| >= |Empties(bufs)|
    ensures (exists b :: b in list && bufs'[b].ids == {}) ==> |Empties(bufs')| > |Empties(bufs)|
  {
    var e, e' := Empties(bufs), Empties(bufs');
    assert e <= e';
    CardSubset(e, e');
    if b :| b in list && bufs'[b].ids == {} {
      CardSubset(e + {b}, e');
    }
  }

  lemma CardSubset(a: set<nat>, b: set<nat>)
    requires a <= b
    ensures |a| <= |b|
  {
    assert b == a + (b - a);
  }

  /** Whether some filed buffer has weight one. */
  ghost predicate HasOne(m: map<nat, nat>) {
    exists b :: b in m && m[b] == 1
  }

  /** Reduced rows with at least one unknown either include an empty row or a single symbol. */
  lemma EliminationProgress(bufs: seq<Buffer>, list: seq<nat>, cols: seq<nat>, rows: seq<set<nat>>, rank: nat)
    requires Mirrors(bufs, list, cols, rows) && 0 < |cols| <= |list|
    requires |Matrix.NonEmpty(rows)| == rank <= |cols|
    requires rank == |cols| ==> forall i :: 0 <= i < |rows| ==> |rows[i]| <= 1
    ensures exists b :: b in list && b < |bufs| && (bufs[b].ids == {} || |bufs[b].ids| == 1)
  {
    if rank == |cols| {
      var i :| i in Matrix.NonEmpty(rows);
      var c :| c in rows[i];
      SingletonSet(rows[i], c);
      assert MirrorsRow(bufs[list[i]].ids, cols, rows[i]);
      assert bufs[list[i]].ids == {cols[c]};
    } else {
      var all := Below(|rows|);
      assert Matrix.NonEmpty(rows) != all;
      var i :| i in all && i !in Matrix.NonEmpty(rows);
      assert MirrorsRow(bufs[list[i]].ids, cols, rows[i]);
      assert bufs[list[i]].ids == {};
    }
  }

  lemma ElementsTail(list: seq<nat>, t: nat)
    requires Distinct(list) && t < |list|
    ensures list[t] in Elements(list[t..]) && Elements(list[t + 1..]) == Elements(list[t..]) - {list[t]}
  {}

  /** After elimination either a single symbol is exposed or a redundant buffer has appeared. */
  lemma EliminationOutcome(st: State, st': State, list: seq<nat>)
    requires Inv(st) && Inv(st') && |st'.bufs| == |st.bufs| && Elements(list) == st.inactivated.Keys
    requires forall b :: 0 <= b < |st.bufs| && b !in list ==> st'.bufs[b] == st.bufs[b]
    requires forall b :: b in Elements(list) ==> b < |st.bufs| && st'.bufs[b].weight == 0
    requires exists b :: b in list && b < |st.bufs| && (st'.bufs[b].ids == {} || |st'.bufs[b].ids| == 1)
    ensures st'.redundant >= st.redundant
    ensures HasOne(st'.inactivated) || st'.redundant > st.redundant
  {
    forall b | b in list ensures b < |st.bufs| && st.bufs[b].ids != {} {
      assert b in Elements(list);
    }
    EmptiesGrow(st.bufs, st'.bufs, list);
    var b :| b in list && b < |st.bufs| && (st'.bufs[b].ids == {} || |st'.bufs[b].ids| == 1);
    assert b in Elements(list);
    if st'.bufs[b].ids != {} {
      assert b in st'.inactivated && st'.inactivated[b] == 1;
    }
  }

  lemma LaggingWeights(st: State, todo: set<nat>)
    requires MidGauss(st, todo)
    ensures forall b :: b in todo ==> b < |st.bufs| && st.bufs[b].weight == 0
  {}

  /** The listed symbols are counted by the symbol list. */
  lemma SpannedCount(bufs: seq<Buffer>, m: map<nat, nat>, n: nat, list: seq<nat>, cols: seq<nat>)
    requires Distinct(list) && Distinct(cols) && Elements(list) == m.Keys
    requires forall i :: 0 <= i < |list| ==> list[i] < |bufs| && bufs[list[i]].ids != {}
    requires forall i, j :: 0 <= i < |list| && j in bufs[list[i]].ids ==> j < n
    requires forall j :: j in cols <==> j < n && exists b :: b in list && b < |bufs| && j in bufs[b].ids
    ensures |m| == |list| && |Spanned(bufs, m)| == |cols|
    ensures forall i, j :: 0 <= i < |list| && j in bufs[list[i]].ids ==> j in cols
    ensures list != [] ==> cols != []
  {
    DistinctCount(list);
    DistinctCount(cols);
    assert |m| == |m.Keys|;
    forall b, j | b in list && b < |bufs| && j in bufs[b].ids ensures j in cols {}
    assert Spanned(bufs, m) == Elements(cols) by {
      forall j | j in Elements(cols) ensures j in Spanned(bufs, m) {
        var b :| b in list && b < |bufs| && j in bufs[b].ids;
        assert b in Elements(list);
      }
    }
    if list != [] {
      var j :| j in bufs[list[0]].ids;
      assert j in cols;
    }
  }

  lemma RedundantBound(st: State)
    requires Inv(st)
    ensures st.redundant <= |st.bufs|
  {
    CardSubset(Empties(st.bufs), Below(|st.bufs|));
  }
}
