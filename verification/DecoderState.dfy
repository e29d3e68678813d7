/** The symbol-level state of the Raptor decoder and its structural invariants.

    The decoder keeps, for every buffer, the set of intermediate symbols XORed into it, and for every
    symbol that is not yet used, the set of buffers that list it. The lemmas here say what one
    elementary step does to each invariant; the `Decoder` class performs the steps. */
module DecoderState {
  import opened Gf2

  datatype Buffer = Buffer(ids: set<nat>, weight: nat, used: bool)

  datatype Symbol = Active(bufs: set<nat>) | Inactivated(bufs: set<nat>) | Used(buf: nat)

  datatype State = State(
    numSource: nat,
    bufs: seq<Buffer>,
    syms: seq<Symbol>,
    activeUsable: map<nat, nat>,
    inactivated: map<nat, nat>,
    redundant: nat,
    paired: nat)

  /** The rows of the linear system the buffers stand for. */
  ghost function RowsOf(bufs: seq<Buffer>): (r: seq<set<nat>>)
    ensures |r| == |bufs|
    ensures forall i :: 0 <= i < |bufs| ==> r[i] == bufs[i].ids
  {
    seq(|bufs|, i requires 0 <= i < |bufs| => bufs[i].ids)
  }

  /** Whether a symbol's own bookkeeping names buffer `i`. */
  predicate Names(sym: Symbol, i: nat) {
    match sym
    case Active(bs) => i in bs
    case Inactivated(bs) => i in bs
    case Used(b) => i == b
  }

  /** Both directions of the buffer/symbol incidence agree. While an operation is under way, the
      buffers in `stale` may still list symbol `s`, which is already used elsewhere. */
  ghost predicate Incidence(bufs: seq<Buffer>, syms: seq<Symbol>, stale: set<nat>, s: nat) {
    && (forall i: nat, j: nat {:trigger j in bufs[i].ids} :: i < |bufs| && j in bufs[i].ids ==>
          j < |syms| && (Names(syms[j], i) || (j == s && i in stale)))
    && (forall j: nat, i: nat {:trigger Names(syms[j], i)} :: j < |syms| && Names(syms[j], i) ==>
          i < |bufs| && j in bufs[i].ids)
    && (forall i :: i in stale ==> i < |bufs| && s in bufs[i].ids)
  }

  /** The symbols of a row that are active or used. */
  ghost function Live(ids: set<nat>, syms: seq<Symbol>): (r: set<nat>)
    ensures r <= ids
  {
    set j | j in ids && j < |syms| && !syms[j].Inactivated?
  }

  function Bit(b: bool): nat {
    if b then 1 else 0
  }

  /** Stored weights count live symbols; those in `plus` are one too high, in `minus` one too low. */
  ghost predicate Weighed(bufs: seq<Buffer>, syms: seq<Symbol>, plus: set<nat>, minus: set<nat>) {
    forall i :: 0 <= i < |bufs| ==>
      bufs[i].weight + Bit(i in minus) == |Live(bufs[i].ids, syms)| + Bit(i in plus)
  }

  /** Used buffers and used symbols are matched one to one. */
  ghost predicate UsedPairing(bufs: seq<Buffer>, syms: seq<Symbol>) {
    && (forall i :: 0 <= i < |bufs| && bufs[i].used ==> bufs[i].weight == 1 && Used(i) in syms)
    && (forall j :: 0 <= j < |syms| && syms[j].Used? ==> syms[j].buf < |bufs| && bufs[syms[j].buf].used)
  }

  ghost predicate FiledActive(bufs: seq<Buffer>, m: map<nat, nat>) {
    && (forall i :: i in m <==> 0 <= i < |bufs| && bufs[i].weight != 0 && !bufs[i].used)
    && (forall i :: i in m ==> m[i] == bufs[i].weight)
  }

  ghost predicate FiledInactivated(bufs: seq<Buffer>, m: map<nat, nat>) {
    && (forall i :: i in m <==> 0 <= i < |bufs| && bufs[i].weight == 0 && bufs[i].ids != {})
    && (forall i :: i in m ==> m[i] == |bufs[i].ids|)
  }

  ghost function Empties(bufs: seq<Buffer>): set<nat> {
    set i: nat | i < |bufs| && bufs[i].ids == {}
  }

  /** The recovered source symbols: used, and alone in their buffer. */
  ghost function PairedSources(numSource: nat, bufs: seq<Buffer>, syms: seq<Symbol>): set<nat> {
    set j: nat | j < numSource && j < |syms| && syms[j].Used? && syms[j].buf < |bufs| && bufs[syms[j].buf].ids == {j}
  }

  ghost predicate Filed(st: State) {
    && FiledActive(st.bufs, st.activeUsable)
    && FiledInactivated(st.bufs, st.inactivated)
    && st.redundant == |Empties(st.bufs)|
  }

  ghost predicate Inv(st: State) {
    && st.numSource <= |st.syms|
    && Incidence(st.bufs, st.syms, {}, 0)
    && Weighed(st.bufs, st.syms, {}, {})
    && UsedPairing(st.bufs, st.syms)
    && Filed(st)
    && st.paired == |PairedSources(st.numSource, st.bufs, st.syms)|
  }

  // ---- elementary consequences ----

  lemma SingletonSet(a: set<nat>, j: nat)
    requires |a| == 1 && j in a
    ensures a == {j}
  {
    assert |a - {j}| == 0;
    assert a == {j} + (a - {j});
  }

  /** A used buffer holds its own symbol and otherwise only inactivated ones. */
  lemma UsedRow(bufs: seq<Buffer>, syms: seq<Symbol>, i: nat) returns (s: nat)
    requires Incidence(bufs, syms, {}, 0) && Weighed(bufs, syms, {}, {}) && UsedPairing(bufs, syms)
    requires i < |bufs| && bufs[i].used
    ensures s < |syms| && syms[s] == Used(i) && s in bufs[i].ids
    ensures Live(bufs[i].ids, syms) == {s}
  {
    s :| 0 <= s < |syms| && syms[s] == Used(i);
    assert Names(syms[s], i);
    assert s in Live(bufs[i].ids, syms);
    SingletonSet(Live(bufs[i].ids, syms), s);
  }

  /** An unused buffer lists no used symbol. */
  lemma UnusedRow(bufs: seq<Buffer>, syms: seq<Symbol>, i: nat, j: nat)
    requires Incidence(bufs, syms, {}, 0) && UsedPairing(bufs, syms)
    requires i < |bufs| && !bufs[i].used && j in bufs[i].ids
    ensures j < |syms| && !syms[j].Used?
  {}

  // ---- adding one row to another ----

  function AddRow(bufs: seq<Buffer>, a: nat, b: nat): (r: seq<Buffer>)
    requires a < |bufs| && b < |bufs|
    ensures |r| == |bufs|
  {
    bufs[a := bufs[a].(ids := SymDiff(bufs[a].ids, bufs[b].ids))]
  }

  /** Buffer `a` toggled in the lists of the inactivated symbols of `ids`. */
  function Toggled(syms: seq<Symbol>, ids: set<nat>, a: nat): (r: seq<Symbol>)
    ensures |r| == |syms|
    ensures forall j :: 0 <= j < |syms| ==>
              r[j] == if j in ids && syms[j].Inactivated? then Inactivated(SymDiff(syms[j].bufs, {a})) else syms[j]
  {
    seq(|syms|, j requires 0 <= j < |syms| =>
      if j in ids && syms[j].Inactivated? then Inactivated(SymDiff(syms[j].bufs, {a})) else syms[j])
  }

  /** What row `b` may hold when it is added to row `a`: inactivated symbols, and possibly the symbol
      `s` it has just become the used buffer of, which is stale in `a`. */
  ghost predicate Reducer(bufs: seq<Buffer>, syms: seq<Symbol>, a: nat, b: nat, stale: set<nat>, s: nat)
    requires a < |bufs| && b < |bufs|
  {
    && a != b && b !in stale
    && (a in stale <==> s in bufs[b].ids)
    && (a in stale ==> s in bufs[a].ids && s < |syms| && syms[s] == Used(b))
    && (forall j :: j in bufs[b].ids && j < |syms| ==> syms[j].Inactivated? || (j == s && a in stale))
  }

  lemma AddRowIncidence(bufs: seq<Buffer>, syms: seq<Symbol>, a: nat, b: nat, stale: set<nat>, s: nat)
    requires Incidence(bufs, syms, stale, s)
    requires a < |bufs| && b < |bufs| && Reducer(bufs, syms, a, b, stale, s)
    ensures Incidence(AddRow(bufs, a, b), Toggled(syms, bufs[b].ids, a), stale - {a}, s)
  {
    var bufs', syms' := AddRow(bufs, a, b), Toggled(syms, bufs[b].ids, a);
    forall i, j | 0 <= i < |bufs'| && 0 <= j < |syms'|
      ensures j in bufs'[i].ids <==> Names(syms'[j], i) || (j == s && i in stale - {a})
    {
      assert j in bufs[i].ids <==> Names(syms[j], i) || (j == s && i in stale);
      assert j in bufs[b].ids <==> Names(syms[j], b) || (j == s && b in stale);
    }
    forall j: nat, i: nat {:trigger Names(syms'[j], i)} | j < |syms'| && Names(syms'[j], i) ensures i < |bufs'| {
      assert i == a || Names(syms[j], i);
    }
  }

  /** Toggling keeps every symbol's kind, so live symbols stay live. */
  lemma ToggledLive(ids: set<nat>, syms: seq<Symbol>, row: set<nat>, a: nat)
    ensures Live(ids, Toggled(syms, row, a)) == Live(ids, syms)
  {}

  /** The row that was added loses the stale symbol from its live part and nothing else. */
  lemma AddRowLive(bufs: seq<Buffer>, syms: seq<Symbol>, a: nat, b: nat, stale: set<nat>, s: nat)
    requires a < |bufs| && b < |bufs| && Reducer(bufs, syms, a, b, stale, s)
    requires forall i, j :: 0 <= i < |bufs| && j in bufs[i].ids ==> j < |syms|
    ensures Live(SymDiff(bufs[a].ids, bufs[b].ids), syms) == Live(bufs[a].ids, syms) - (if a in stale then {s} else {})
    ensures a in stale ==> s in Live(bufs[a].ids, syms)
  {}

  // ---- counting ----

  /** Two sets that differ at most in `a`. */
  lemma CardAt(e: set<nat>, e': set<nat>, a: nat)
    requires e - {a} == e' - {a}
    ensures |e'| + Bit(a in e) == |e| + Bit(a in e')
  {
    assert e == (e - {a}) + (if a in e then {a} else {});
    assert e' == (e' - {a}) + (if a in e' then {a} else {});
  }

  lemma EmptiesUpdate(bufs: seq<Buffer>, a: nat, buf: Buffer)
    requires a < |bufs|
    ensures |Empties(bufs[a := buf])| + Bit(bufs[a].ids == {}) == |Empties(bufs)| + Bit(buf.ids == {})
  {
    var e, e' := Empties(bufs), Empties(bufs[a := buf]);
    assert a in e <==> bufs[a].ids == {};
    assert a in e' <==> buf.ids == {};
    assert e - {a} == e' - {a};
    CardAt(e, e', a);
  }

  lemma EmptiesAppend(bufs: seq<Buffer>, buf: Buffer)
    ensures |Empties(bufs + [buf])| == |Empties(bufs)| + Bit(buf.ids == {})
  {
    var e, e' := Empties(bufs), Empties(bufs + [buf]);
    assert e' == e + (if buf.ids == {} then {|bufs|} else {});
  }

  // ---- peeling ----

  /** Half-way through a peel: symbol `s` has been handed to buffer `r`, and the buffers in `stale`
      still have to be reduced. */
  ghost predicate MidPeel(st: State, r: nat, s: nat, stale: set<nat>) {
    && st.numSource <= |st.syms|
    && r < |st.bufs| && s < |st.syms| && r !in stale
    && Incidence(st.bufs, st.syms, stale, s)
    && Weighed(st.bufs, st.syms, {}, {})
    && UsedPairing(st.bufs, st.syms)
    && Filed(st)
    && st.syms[s] == Used(r) && st.bufs[r].used
    && (forall a :: a in stale ==> a < |st.bufs| && !st.bufs[a].used)
    && st.paired == |PairedSources(st.numSource, st.bufs, st.syms) - {s}|
  }

  function PeelStart(st: State, r: nat, s: nat): (st': State)
    requires r < |st.bufs| && s < |st.syms|
  {
    st.(bufs := st.bufs[r := st.bufs[r].(used := true)],
        syms := st.syms[s := Used(r)],
        activeUsable := st.activeUsable - {r})
  }

  lemma PeelStartIncidence(bufs: seq<Buffer>, syms: seq<Symbol>, r: nat, s: nat, bufs': seq<Buffer>)
    requires Incidence(bufs, syms, {}, 0)
    requires r < |bufs| && s < |syms| && !syms[s].Used? && r in syms[s].bufs
    requires RowsOf(bufs') == RowsOf(bufs)
    ensures Incidence(bufs', syms[s := Used(r)], syms[s].bufs - {r}, s)
  {
    var syms', stale := syms[s := Used(r)], syms[s].bufs - {r};
    assert |bufs'| == |RowsOf(bufs')| == |bufs|;
    forall i | 0 <= i < |bufs| ensures bufs'[i].ids == bufs[i].ids {
      assert RowsOf(bufs')[i] == RowsOf(bufs)[i];
    }
    forall i: nat, j: nat {:trigger j in bufs'[i].ids} | i < |bufs'| && j in bufs'[i].ids
      ensures j < |syms'| && (Names(syms'[j], i) || (j == s && i in stale))
    {
      assert j in bufs[i].ids;
      assert Names(syms[j], i);
    }
    forall j: nat, i: nat {:trigger Names(syms'[j], i)} | j < |syms'| && Names(syms'[j], i) ensures i < |bufs'| && j in bufs'[i].ids {
      assert Names(syms[j], i);
    }
    forall i | i in stale ensures i < |bufs'| && s in bufs'[i].ids {
      assert Names(syms[s], i);
    }
  }

  /** Using an active symbol keeps what is live. */
  lemma ActiveUsedLive(ids: set<nat>, syms: seq<Symbol>, s: nat, r: nat)
    requires s < |syms| && syms[s].Active?
    ensures Live(ids, syms[s := Used(r)]) == Live(ids, syms)
  {}

  /** Making `r` the used buffer of an unused symbol keeps the matching. */
  lemma UsedPairingExtend(bufs: seq<Buffer>, syms: seq<Symbol>, r: nat, s: nat)
    requires UsedPairing(bufs, syms)
    requires r < |bufs| && s < |syms| && !syms[s].Used?
    ensures UsedPairing(bufs[r := bufs[r].(weight := 1, used := true)], syms[s := Used(r)])
  {
    var bufs', syms' := bufs[r := bufs[r].(weight := 1, used := true)], syms[s := Used(r)];
    forall i | 0 <= i < |bufs'| && bufs'[i].used ensures Used(i) in syms' {
      if i == r {
        assert syms'[s] == Used(r);
      } else {
        var j :| 0 <= j < |syms| && syms[j] == Used(i);
        assert syms'[j] == Used(i);
      }
    }
  }

  /** The buffers that list an active symbol are unused. */
  lemma ActiveHolderUnused(bufs: seq<Buffer>, syms: seq<Symbol>, s: nat, a: nat)
    requires Incidence(bufs, syms, {}, 0) && Weighed(bufs, syms, {}, {}) && UsedPairing(bufs, syms)
    requires s < |syms| && syms[s].Active? && a in syms[s].bufs
    ensures a < |bufs| && s in bufs[a].ids && !bufs[a].used && bufs[a].weight != 0
  {
    assert Names(syms[s], a);
    assert s in Live(bufs[a].ids, syms);
    if bufs[a].used {
      var j := UsedRow(bufs, syms, a);
    }
  }

  /** Taking over an unpaired symbol adds at most that symbol to the recovered ones. */
  lemma PairedExtend(numSource: nat, bufs: seq<Buffer>, syms: seq<Symbol>, r: nat, s: nat, bufs': seq<Buffer>)
    requires r < |bufs| && s < |syms| && !syms[s].Used?
    requires RowsOf(bufs') == RowsOf(bufs)
    ensures PairedSources(numSource, bufs', syms[s := Used(r)]) - {s} == PairedSources(numSource, bufs, syms)
  {}

  /** Equal rows with equal live parts weigh the same. */
  lemma WeighedSame(bufs: seq<Buffer>, syms: seq<Symbol>, bufs': seq<Buffer>, syms': seq<Symbol>, plus: set<nat>, minus: set<nat>)
    requires Weighed(bufs, syms, plus, minus) && |bufs'| == |bufs|
    requires forall i :: 0 <= i < |bufs| ==> bufs'[i].weight == bufs[i].weight
    requires forall i :: 0 <= i < |bufs| ==> Live(bufs'[i].ids, syms') == Live(bufs[i].ids, syms)
    ensures Weighed(bufs', syms', plus, minus)
  {}

  lemma PeelStartFiled(st: State, r: nat, s: nat)
    requires Filed(st) && r in st.activeUsable && s < |st.syms|
    ensures Filed(PeelStart(st, r, s))
  {
    var bufs' := PeelStart(st, r, s).bufs;
    forall i | 0 <= i < |st.bufs| ensures bufs'[i].ids == st.bufs[i].ids && bufs'[i].weight == st.bufs[i].weight {}
    assert Empties(bufs') == Empties(st.bufs);
  }

  lemma PeelStartMid(st: State, r: nat, s: nat)
    requires Inv(st) && r in st.activeUsable && st.activeUsable[r] == 1
    requires s in st.bufs[r].ids && s < |st.syms| && st.syms[s].Active?
    ensures MidPeel(PeelStart(st, r, s), r, s, st.syms[s].bufs - {r})
    ensures RowsOf(PeelStart(st, r, s).bufs) == RowsOf(st.bufs)
    ensures forall i :: i in st.syms[s].bufs ==> i < |st.bufs|
  {
    assert r < |st.bufs| && st.bufs[r].weight == 1 && !st.bufs[r].used;
    hide FiledActive;
    hide FiledInactivated;
    hide Empties;
    var st' := PeelStart(st, r, s);
    assert Names(st.syms[s], r);
    assert RowsOf(st'.bufs) == RowsOf(st.bufs);
    PeelStartIncidence(st.bufs, st.syms, r, s, st'.bufs);
    assert Weighed(st'.bufs, st'.syms, {}, {}) by {
      forall i | 0 <= i < |st.bufs| ensures Live(st'.bufs[i].ids, st'.syms) == Live(st.bufs[i].ids, st.syms) {
        ActiveUsedLive(st.bufs[i].ids, st.syms, s, r);
      }
      WeighedSame(st.bufs, st.syms, st'.bufs, st'.syms, {}, {});
    }
    assert UsedPairing(st'.bufs, st'.syms) by {
      UsedPairingExtend(st.bufs, st.syms, r, s);
      assert st'.bufs == st.bufs[r := st.bufs[r].(weight := 1, used := true)];
    }
    forall a | a in st.syms[s].bufs ensures a < |st.bufs| && !st.bufs[a].used {
      ActiveHolderUnused(st.bufs, st.syms, s, a);
    }
    PeelStartFiled(st, r, s);
    PairedExtend(st.numSource, st.bufs, st.syms, r, s, st'.bufs);
  }

  /** Buffer `a` given the row `ids`, its weight lowered by one, and filed again. */
  function Refiled(st: State, a: nat, ids: set<nat>): (st': State)
    requires a < |st.bufs| && st.bufs[a].weight != 0
    ensures st'.bufs == st.bufs[a := Buffer(ids, st.bufs[a].weight - 1, st.bufs[a].used)]
    ensures st'.syms == st.syms && st'.paired == st.paired && st'.numSource == st.numSource && st'.redundant >= st.redundant
  {
    var w := st.bufs[a].weight - 1;
    var bufs' := st.bufs[a := Buffer(ids, w, st.bufs[a].used)];
    if w != 0 then
      st.(bufs := bufs', activeUsable := st.activeUsable[a := w])
    else if ids != {} then
      st.(bufs := bufs', activeUsable := st.activeUsable - {a}, inactivated := st.inactivated[a := |ids|])
    else
      st.(bufs := bufs', activeUsable := st.activeUsable - {a}, redundant := st.redundant + 1)
  }

  lemma RefiledFiled(st: State, a: nat, ids: set<nat>)
    requires Filed(st) && a in st.activeUsable
    requires st.bufs[a].ids != {} && (st.bufs[a].weight != 1 ==> ids != {})
    ensures Filed(Refiled(st, a, ids))
  {
    var st' := Refiled(st, a, ids);
    EmptiesUpdate(st.bufs, a, st'.bufs[a]);
    forall i | 0 <= i < |st.bufs| && i != a ensures st'.bufs[i] == st.bufs[i] {}
  }

  /** One reducee of a peel: add the reducing row and lower the weight. */
  function PeelStep(st: State, r: nat, a: nat): (st': State)
    requires a < |st.bufs| && r < |st.bufs| && st.bufs[a].weight != 0
    ensures st'.bufs == st.bufs[a := Buffer(SymDiff(st.bufs[a].ids, st.bufs[r].ids), st.bufs[a].weight - 1, st.bufs[a].used)]
    ensures st'.syms == Toggled(st.syms, st.bufs[r].ids, a) && st'.paired == st.paired && st'.numSource == st.numSource
  {
    Refiled(st, a, SymDiff(st.bufs[a].ids, st.bufs[r].ids)).(syms := Toggled(st.syms, st.bufs[r].ids, a))
  }

  /** The used row of a mid-way peel holds `s` and inactivated symbols only. */
  lemma MidPeelReducer(st: State, r: nat, s: nat, stale: set<nat>, a: nat)
    requires MidPeel(st, r, s, stale) && a in stale
    ensures a < |st.bufs| && r < |st.bufs| && a != r && Incidence(st.bufs, st.syms, stale, s)
    ensures Reducer(st.bufs, st.syms, a, r, stale, s)
    ensures a in st.activeUsable && st.activeUsable[a] == st.bufs[a].weight == |Live(st.bufs[a].ids, st.syms)| != 0
    ensures a !in st.inactivated
  {
    assert Names(st.syms[s], r);
    assert s in Live(st.bufs[r].ids, st.syms);
    SingletonSet(Live(st.bufs[r].ids, st.syms), s);
    assert s in st.bufs[a].ids;
    assert s in Live(st.bufs[a].ids, st.syms);
    forall j | j in st.bufs[r].ids && j < |st.syms| ensures st.syms[j].Inactivated? || j == s {
      assert st.syms[j].Inactivated? || j in Live(st.bufs[r].ids, st.syms);
    }
  }

  /** Used symbols survive toggling, and a row of an unused buffer is nobody's used row. */
  lemma ToggledPairing(bufs: seq<Buffer>, syms: seq<Symbol>, row: set<nat>, a: nat, buf: Buffer)
    requires UsedPairing(bufs, syms) && a < |bufs| && !bufs[a].used && !buf.used
    ensures UsedPairing(bufs[a := buf], Toggled(syms, row, a))
  {}

  lemma ToggledPaired(numSource: nat, bufs: seq<Buffer>, syms: seq<Symbol>, row: set<nat>, a: nat, buf: Buffer)
    requires UsedPairing(bufs, syms) && a < |bufs| && !bufs[a].used
    ensures PairedSources(numSource, bufs[a := buf], Toggled(syms, row, a)) == PairedSources(numSource, bufs, syms)
  {}

  /** Weights stay right when one buffer changes and is weighed afresh. */
  lemma WeighedAt(bufs: seq<Buffer>, syms: seq<Symbol>, plus: set<nat>, minus: set<nat>,
                  bufs': seq<Buffer>, syms': seq<Symbol>, plus': set<nat>, minus': set<nat>, a: nat)
    requires Weighed(bufs, syms, plus, minus) && |bufs'| == |bufs| && a < |bufs|
    requires forall i :: 0 <= i < |bufs| && i != a ==> bufs'[i] == bufs[i]
    requires forall i :: 0 <= i < |bufs| && i != a ==> Live(bufs[i].ids, syms') == Live(bufs[i].ids, syms)
    requires plus - {a} == plus' - {a} && minus - {a} == minus' - {a}
    requires bufs'[a].weight + Bit(a in minus') == |Live(bufs'[a].ids, syms')| + Bit(a in plus')
    ensures Weighed(bufs', syms', plus', minus')
  {
    forall i | 0 <= i < |bufs'|
      ensures bufs'[i].weight + Bit(i in minus') == |Live(bufs'[i].ids, syms')| + Bit(i in plus')
    {
      if i != a {
        assert bufs[i].weight + Bit(i in minus) == |Live(bufs[i].ids, syms)| + Bit(i in plus);
        assert i in plus <==> i in plus - {a};
        assert i in plus' <==> i in plus' - {a};
        assert i in minus <==> i in minus - {a};
        assert i in minus' <==> i in minus' - {a};
      }
    }
  }

  /** Adding a reducing row to `a` and lowering the weight keeps the weights right. */
  lemma PeelWeighed(bufs: seq<Buffer>, syms: seq<Symbol>, a: nat, r: nat, stale: set<nat>, s: nat, buf: Buffer)
    requires Weighed(bufs, syms, {}, {})
    requires forall i, j :: 0 <= i < |bufs| && j in bufs[i].ids ==> j < |syms|
    requires a < |bufs| && r < |bufs| && a in stale && Reducer(bufs, syms, a, r, stale, s)
    requires buf.ids == SymDiff(bufs[a].ids, bufs[r].ids) && buf.weight + 1 == bufs[a].weight
    ensures Weighed(bufs[a := buf], Toggled(syms, bufs[r].ids, a), {}, {})
  {
    var syms' := Toggled(syms, bufs[r].ids, a);
    forall i | 0 <= i < |bufs| ensures Live(bufs[i].ids, syms') == Live(bufs[i].ids, syms) {
      ToggledLive(bufs[i].ids, syms, bufs[r].ids, a);
    }
    ToggledLive(buf.ids, syms, bufs[r].ids, a);
    AddRowLive(bufs, syms, a, r, stale, s);
    assert bufs[a].weight + Bit(false) == |Live(bufs[a].ids, syms)| + Bit(false);
    WeighedAt(bufs, syms, {}, {}, bufs[a := buf], syms', {}, {}, a);
  }

  lemma PeelStepFiled(st: State, r: nat, s: nat, stale: set<nat>, a: nat)
    requires Filed(st) && a in st.activeUsable && r < |st.bufs| && a in stale
    requires st.bufs[a].weight == |Live(st.bufs[a].ids, st.syms)|
    requires forall i, j :: 0 <= i < |st.bufs| && j in st.bufs[i].ids ==> j < |st.syms|
    requires Reducer(st.bufs, st.syms, a, r, stale, s)
    ensures Filed(PeelStep(st, r, a))
  {
    var ids := SymDiff(st.bufs[a].ids, st.bufs[r].ids);
    AddRowLive(st.bufs, st.syms, a, r, stale, s);
    assert |Live(ids, st.syms)| == st.bufs[a].weight - 1;
    if st.bufs[a].weight != 1 {
      assert Live(ids, st.syms) != {};
    }
    RefiledFiled(st, a, ids);
  }

  lemma PeelStepIncidence(st: State, r: nat, s: nat, stale: set<nat>, a: nat)
    requires MidPeel(st, r, s, stale) && a in stale && st.bufs[a].weight != 0
    ensures Incidence(PeelStep(st, r, a).bufs, PeelStep(st, r, a).syms, stale - {a}, s)
  {
    MidPeelReducer(st, r, s, stale, a);
    AddRowIncidence(st.bufs, st.syms, a, r, stale, s);
    IncidenceIds(AddRow(st.bufs, a, r), PeelStep(st, r, a).bufs, PeelStep(st, r, a).syms, stale - {a}, s);
  }

  lemma PeelStepWeighed(st: State, r: nat, s: nat, stale: set<nat>, a: nat)
    requires MidPeel(st, r, s, stale) && a in stale && st.bufs[a].weight != 0
    ensures Weighed(PeelStep(st, r, a).bufs, PeelStep(st, r, a).syms, {}, {})
  {
    MidPeelReducer(st, r, s, stale, a);
    PeelWeighed(st.bufs, st.syms, a, r, stale, s, PeelStep(st, r, a).bufs[a]);
  }

  lemma PeelStepPairing(st: State, r: nat, s: nat, stale: set<nat>, a: nat)
    requires MidPeel(st, r, s, stale) && a in stale && st.bufs[a].weight != 0
    ensures UsedPairing(PeelStep(st, r, a).bufs, PeelStep(st, r, a).syms)
    ensures PairedSources(st.numSource, PeelStep(st, r, a).bufs, PeelStep(st, r, a).syms) ==
            PairedSources(st.numSource, st.bufs, st.syms)
  {
    ToggledPairing(st.bufs, st.syms, st.bufs[r].ids, a, PeelStep(st, r, a).bufs[a]);
    ToggledPaired(st.numSource, st.bufs, st.syms, st.bufs[r].ids, a, PeelStep(st, r, a).bufs[a]);
  }

  lemma PeelStepRows(st: State, r: nat, a: nat)
    requires a < |st.bufs| && r < |st.bufs| && st.bufs[a].weight != 0
    ensures RowsOf(PeelStep(st, r, a).bufs) == RowsOf(st.bufs)[a := SymDiff(st.bufs[a].ids, st.bufs[r].ids)]
  {}

  lemma PeelStepMid(st: State, r: nat, s: nat, stale: set<nat>, a: nat)
    requires MidPeel(st, r, s, stale) && a in stale && st.bufs[a].weight != 0
    ensures MidPeel(PeelStep(st, r, a), r, s, stale - {a})
  {
    hide Incidence;
    hide Weighed;
    hide UsedPairing;
    hide Filed;
    hide PairedSources;
    PeelStepIncidence(st, r, s, stale, a);
    PeelStepWeighed(st, r, s, stale, a);
    PeelStepPairing(st, r, s, stale, a);
    assert Filed(PeelStep(st, r, a)) by {
      MidPeelReducer(st, r, s, stale, a);
      PeelStepFiled(st, r, s, stale, a);
    }
  }

  /** Incidence depends on the rows only. */
  lemma IncidenceIds(bufs: seq<Buffer>, bufs': seq<Buffer>, syms: seq<Symbol>, stale: set<nat>, s: nat)
    requires Incidence(bufs, syms, stale, s) && |bufs'| == |bufs|
    requires forall i :: 0 <= i < |bufs| ==> bufs'[i].ids == bufs[i].ids
    ensures Incidence(bufs', syms, stale, s)
  {}

  /** With nothing stale left and the new pair counted, a peel is complete. */
  lemma PeelEnd(st: State, r: nat, s: nat)
    requires MidPeel(st, r, s, {})
    ensures Inv(st.(paired := st.paired + Bit(|st.bufs[r].ids| == 1 && s < st.numSource)))
  {
    assert Names(st.syms[s], r);
    assert Incidence(st.bufs, st.syms, {}, 0) by {
      IncidenceNoStale(st.bufs, st.syms, s);
    }
    var p := PairedSources(st.numSource, st.bufs, st.syms);
    CardAt(p - {s}, p, s);
    if |st.bufs[r].ids| == 1 {
      SingletonSet(st.bufs[r].ids, s);
    }
  }

  lemma IncidenceNoStale(bufs: seq<Buffer>, syms: seq<Symbol>, s: nat)
    requires Incidence(bufs, syms, {}, s)
    ensures Incidence(bufs, syms, {}, 0)
  {}

  // ---- reactivation ----

  /** Half-way through a reactivation: symbol `s` is alone in its used buffer `r`, and the buffers in
      `stale` still list it; their stored weights do not count it. */
  ghost predicate MidReact(st: State, r: nat, s: nat, stale: set<nat>) {
    && st.numSource <= |st.syms|
    && r < |st.bufs| && s < |st.syms| && r !in stale
    && Incidence(st.bufs, st.syms, stale, s)
    && Weighed(st.bufs, st.syms, {}, stale)
    && UsedPairing(st.bufs, st.syms)
    && Filed(st)
    && st.syms[s] == Used(r) && st.bufs[r].used && st.bufs[r].ids == {s}
    && st.paired == |PairedSources(st.numSource, st.bufs, st.syms) - {s}|
  }

  lemma MidReactUsed(st: State, r: nat, s: nat, stale: set<nat>)
    requires MidReact(st, r, s, stale)
    ensures s < |st.syms| && st.syms[s].Used?
  {}

  function ReactStart(st: State, r: nat, s: nat): (st': State)
    requires r < |st.bufs| && s < |st.syms|
  {
    st.(bufs := st.bufs[r := st.bufs[r].(weight := 1, used := true)],
        syms := st.syms[s := Used(r)],
        inactivated := st.inactivated - {r})
  }

  lemma ReactStartFiled(st: State, r: nat, s: nat)
    requires Filed(st) && r in st.inactivated && s < |st.syms|
    ensures Filed(ReactStart(st, r, s))
  {
    var bufs' := ReactStart(st, r, s).bufs;
    forall i | 0 <= i < |st.bufs| ensures bufs'[i].ids == st.bufs[i].ids {}
    assert Empties(bufs') == Empties(st.bufs);
  }

  /** Using an inactivated symbol makes it live wherever it is listed. */
  lemma InactivatedUsedLive(ids: set<nat>, syms: seq<Symbol>, s: nat, r: nat)
    requires s < |syms| && syms[s].Inactivated?
    ensures |Live(ids, syms[s := Used(r)])| == |Live(ids, syms)| + Bit(s in ids)
  {
    var l, l' := Live(ids, syms), Live(ids, syms[s := Used(r)]);
    assert s !in l;
    if s in ids {
      assert l' == l + {s};
    } else {
      assert l' == l;
    }
  }

  lemma ReactStartWeighed(bufs: seq<Buffer>, syms: seq<Symbol>, r: nat, s: nat)
    requires Incidence(bufs, syms, {}, 0) && Weighed(bufs, syms, {}, {})
    requires r < |bufs| && bufs[r].weight == 0 && s < |syms| && syms[s].Inactivated? && s in bufs[r].ids
    ensures Weighed(bufs[r := bufs[r].(weight := 1, used := true)], syms[s := Used(r)], {}, syms[s].bufs - {r})
  {
    var bufs', syms', stale := bufs[r := bufs[r].(weight := 1, used := true)], syms[s := Used(r)], syms[s].bufs - {r};
    forall i | 0 <= i < |bufs'|
      ensures bufs'[i].weight + Bit(i in stale) == |Live(bufs'[i].ids, syms')| + Bit(i in {})
    {
      InactivatedUsedLive(bufs[i].ids, syms, s, r);
      assert bufs[i].weight + Bit(i in {}) == |Live(bufs[i].ids, syms)| + Bit(i in {});
      assert s in bufs[i].ids <==> Names(syms[s], i);
    }
  }

  lemma ReactivatableRow(st: State, r: nat)
    requires Inv(st) && r in st.inactivated && st.inactivated[r] == 1
    ensures r < |st.bufs| && |st.bufs[r].ids| == 1 && forall j :: j in st.bufs[r].ids ==> j < |st.syms|
  {}

  lemma ReactStartMid(st: State, r: nat, s: nat)
    requires Inv(st) && r in st.inactivated && st.bufs[r].ids == {s}
    ensures s < |st.syms| && st.syms[s].Inactivated?
    ensures MidReact(ReactStart(st, r, s), r, s, st.syms[s].bufs - {r})
    ensures RowsOf(ReactStart(st, r, s).bufs) == RowsOf(st.bufs)
    ensures forall i :: i in st.syms[s].bufs ==> i < |st.bufs|
  {
    assert s in st.bufs[r].ids;
    assert Names(st.syms[s], r);
    assert st.syms[s].Inactivated? by {
      assert st.bufs[r].weight + Bit(false) == |Live(st.bufs[r].ids, st.syms)| + Bit(false);
      assert s !in Live(st.bufs[r].ids, st.syms);
    }
    var st' := ReactStart(st, r, s);
    assert RowsOf(st'.bufs) == RowsOf(st.bufs);
    PeelStartIncidence(st.bufs, st.syms, r, s, st'.bufs);
    ReactStartWeighed(st.bufs, st.syms, r, s);
    UsedPairingExtend(st.bufs, st.syms, r, s);
    forall a | a in st.syms[s].bufs ensures a < |st.bufs| {
      assert Names(st.syms[s], a);
    }
    ReactStartFiled(st, r, s);
    PairedExtend(st.numSource, st.bufs, st.syms, r, s, st'.bufs);
  }

  /** Whether a row names exactly one symbol, a source symbol. */
  ghost predicate LoneSource(ids: set<nat>, numSource: nat) {
    exists j :: j in ids && j < numSource && ids == {j}
  }

  /** One reducee of a reactivation: drop `s`, and file or count the buffer again. */
  ghost function ReactStep(st: State, s: nat, a: nat): (st': State)
    requires a < |st.bufs|
    ensures st'.bufs == st.bufs[a := st.bufs[a].(ids := st.bufs[a].ids - {s})]
    ensures st'.syms == st.syms && st'.numSource == st.numSource && st'.redundant >= st.redundant
  {
    var ids := st.bufs[a].ids - {s};
    var st1 := st.(bufs := st.bufs[a := st.bufs[a].(ids := ids)],
                   paired := st.paired + Bit(st.bufs[a].used && LoneSource(ids, st.numSource)));
    if st.bufs[a].weight != 0 then st1
    else if ids != {} then st1.(inactivated := st.inactivated[a := |ids|])
    else st1.(inactivated := st.inactivated - {a}, redundant := st.redundant + 1)
  }

  lemma ReactStepFiled(st: State, s: nat, a: nat)
    requires Filed(st) && a < |st.bufs| && s in st.bufs[a].ids
    requires st.bufs[a].weight != 0 ==> st.bufs[a].ids - {s} != {}
    ensures Filed(ReactStep(st, s, a))
  {
    var st' := ReactStep(st, s, a);
    EmptiesUpdate(st.bufs, a, st'.bufs[a]);
    forall i | 0 <= i < |st.bufs| && i != a ensures st'.bufs[i] == st.bufs[i] {}
  }

  /** Dropping the stale symbol clears the excess from the weight. */
  lemma ReactStepWeighed(bufs: seq<Buffer>, syms: seq<Symbol>, s: nat, stale: set<nat>, a: nat)
    requires Weighed(bufs, syms, {}, stale)
    requires a < |bufs| && a in stale && s in bufs[a].ids && s < |syms| && syms[s].Used?
    ensures Weighed(bufs[a := bufs[a].(ids := bufs[a].ids - {s})], syms, {}, stale - {a})
    ensures |Live(bufs[a].ids - {s}, syms)| == bufs[a].weight
  {
    var bufs' := bufs[a := bufs[a].(ids := bufs[a].ids - {s})];
    assert s in Live(bufs[a].ids, syms);
    assert Live(bufs'[a].ids, syms) == Live(bufs[a].ids, syms) - {s};
    assert bufs[a].weight + Bit(true) == |Live(bufs[a].ids, syms)| + Bit(false);
    WeighedAt(bufs, syms, {}, stale, bufs', syms, {}, stale - {a}, a);
  }

  lemma ReactStepIncidence(bufs: seq<Buffer>, syms: seq<Symbol>, r: nat, s: nat, stale: set<nat>, a: nat)
    requires Incidence(bufs, syms, stale, s) && a < |bufs| && s < |syms| && syms[s] == Used(r) && a != r
    ensures Incidence(bufs[a := bufs[a].(ids := bufs[a].ids - {s})], syms, stale - {a}, s)
  {}

  /** The symbol that row `ids` recovers if it is the used row of buffer `a`. */
  ghost function Recovers(numSource: nat, syms: seq<Symbol>, ids: set<nat>, a: nat): set<nat> {
    set u | u in ids && u < numSource && u < |syms| && syms[u] == Used(a) && ids == {u}
  }

  lemma RecoversCount(numSource: nat, bufs: seq<Buffer>, syms: seq<Symbol>, s: nat, stale: set<nat>, a: nat, ids: set<nat>)
    requires numSource <= |syms| && Incidence(bufs, syms, stale, s) && UsedPairing(bufs, syms)
    requires a < |bufs| && ids == bufs[a].ids - {s} && s < |syms| && syms[s] != Used(a)
    ensures |Recovers(numSource, syms, ids, a)| == Bit(bufs[a].used && LoneSource(ids, numSource))
  {
    var n := Recovers(numSource, syms, ids, a);
    forall u | u in n ensures bufs[a].used && LoneSource(ids, numSource) {
      assert bufs[syms[u].buf].used;
    }
    if bufs[a].used && LoneSource(ids, numSource) {
      var u :| u in ids && u < numSource && ids == {u};
      var j :| 0 <= j < |syms| && syms[j] == Used(a);
      assert Names(syms[j], a);
      assert j in ids;
      assert n == {u};
    } else {
      assert n == {};
    }
  }

  /** A used buffer that is left with one symbol recovers exactly that symbol. */
  lemma ReactStepPaired(numSource: nat, bufs: seq<Buffer>, syms: seq<Symbol>, r: nat, s: nat, a: nat)
    requires a < |bufs| && s in bufs[a].ids && s < |syms| && syms[s] == Used(r) && a != r
    ensures var bufs' := bufs[a := bufs[a].(ids := bufs[a].ids - {s})];
            |PairedSources(numSource, bufs', syms) - {s}| ==
            |PairedSources(numSource, bufs, syms) - {s}| + |Recovers(numSource, syms, bufs[a].ids - {s}, a)|
  {
    var ids := bufs[a].ids - {s};
    var bufs' := bufs[a := bufs[a].(ids := ids)];
    var p, p', n := PairedSources(numSource, bufs, syms) - {s}, PairedSources(numSource, bufs', syms) - {s}, Recovers(numSource, syms, ids, a);
    forall j | j in p ensures j in p' && j !in n {
      assert bufs[syms[j].buf].ids == {j};
    }
    forall j | j in p' ensures j in p || j in n {
      assert bufs'[syms[j].buf].ids == {j};
    }
    assert p' == p + n;
  }

  lemma ReactStepMid(st: State, r: nat, s: nat, stale: set<nat>, a: nat)
    requires MidReact(st, r, s, stale) && a in stale
    ensures MidReact(ReactStep(st, s, a), r, s, stale - {a})
  {
    var st' := ReactStep(st, s, a);
    assert a < |st.bufs| && s in st.bufs[a].ids;
    ReactStepIncidence(st.bufs, st.syms, r, s, stale, a);
    ReactStepWeighed(st.bufs, st.syms, s, stale, a);
    ReactStepPairing(st.bufs, st.syms, a, st'.bufs[a]);
    assert Filed(st') by {
      if st.bufs[a].weight != 0 {
        assert Live(st.bufs[a].ids - {s}, st.syms) != {};
      }
      ReactStepFiled(st, s, a);
    }
    ReactStepPaired(st.numSource, st.bufs, st.syms, r, s, a);
    RecoversCount(st.numSource, st.bufs, st.syms, s, stale, a, st.bufs[a].ids - {s});
  }

  /** The matching does not depend on the rows. */
  lemma ReactStepPairing(bufs: seq<Buffer>, syms: seq<Symbol>, a: nat, buf: Buffer)
    requires UsedPairing(bufs, syms) && a < |bufs| && buf.weight == bufs[a].weight && buf.used == bufs[a].used
    ensures UsedPairing(bufs[a := buf], syms)
  {}

  /** What a reducee of a reactivation looks like. */
  lemma ReactStepRows(st: State, r: nat, s: nat, a: nat)
    requires a < |st.bufs| && r < |st.bufs| && s in st.bufs[a].ids && st.bufs[r].ids == {s}
    ensures RowsOf(ReactStep(st, s, a).bufs) == RowsOf(st.bufs)[a := SymDiff(st.bufs[a].ids, st.bufs[r].ids)]
  {
    assert st.bufs[a].ids - {s} == SymDiff(st.bufs[a].ids, {s});
  }

  lemma MidReactReducer(st: State, r: nat, s: nat, stale: set<nat>, a: nat)
    requires MidReact(st, r, s, stale) && a in stale
    ensures a < |st.bufs| && r < |st.bufs| && a != r && s in st.bufs[a].ids && st.bufs[r].ids == {s}
    ensures st.bufs[a].weight == 0 ==> a in st.inactivated
    ensures st.bufs[a].used ==> st.bufs[a].weight == 1
    ensures forall j :: j in st.bufs[a].ids ==> j < |st.syms|
    ensures RowsOf(ReactStep(st, s, a).bufs) == RowsOf(st.bufs)[a := SymDiff(st.bufs[a].ids, st.bufs[r].ids)]
  {
    hide RowsOf;
    hide PairedSources;
    hide Empties;
    MidReactRow(st, r, s, stale, a);
    hide MidReact;
    ReactStepRows(st, r, s, a);
  }

  lemma MidReactRow(st: State, r: nat, s: nat, stale: set<nat>, a: nat)
    requires MidReact(st, r, s, stale) && a in stale
    ensures a < |st.bufs| && r < |st.bufs| && a != r && s in st.bufs[a].ids && st.bufs[r].ids == {s}
    ensures st.bufs[a].weight == 0 ==> a in st.inactivated
    ensures st.bufs[a].used ==> st.bufs[a].weight == 1
    ensures forall j :: j in st.bufs[a].ids ==> j < |st.syms|
  {
    hide PairedSources;
    hide Empties;
  }

  lemma ReactEnd(st: State, r: nat, s: nat)
    requires MidReact(st, r, s, {})
    ensures Inv(st.(paired := st.paired + Bit(s < st.numSource)))
  {
    IncidenceNoStale(st.bufs, st.syms, s);
    var p := PairedSources(st.numSource, st.bufs, st.syms);
    CardAt(p - {s}, p, s);
  }

  // ---- inactivation ----

  /** Half-way through an inactivation: the weights of the buffers in `todo` still count symbol `s`. */
  ghost predicate MidInactivate(st: State, s: nat, todo: set<nat>) {
    && st.numSource <= |st.syms|
    && Incidence(st.bufs, st.syms, {}, 0)
    && Weighed(st.bufs, st.syms, todo, {})
    && UsedPairing(st.bufs, st.syms)
    && Filed(st)
    && s < |st.syms| && st.syms[s].Inactivated?
    && (forall a :: a in todo ==> a in st.activeUsable && s in st.bufs[a].ids)
    && st.paired == |PairedSources(st.numSource, st.bufs, st.syms)|
  }

  lemma InactivateStartWeighed(bufs: seq<Buffer>, syms: seq<Symbol>, s: nat)
    requires Incidence(bufs, syms, {}, 0) && Weighed(bufs, syms, {}, {})
    requires s < |syms| && syms[s].Active?
    ensures Weighed(bufs, syms[s := Inactivated(syms[s].bufs)], syms[s].bufs, {})
  {
    var syms' := syms[s := Inactivated(syms[s].bufs)];
    forall i | 0 <= i < |bufs|
      ensures bufs[i].weight + Bit(i in {}) == |Live(bufs[i].ids, syms')| + Bit(i in syms[s].bufs)
    {
      assert bufs[i].weight + Bit(i in {}) == |Live(bufs[i].ids, syms)| + Bit(i in {});
      assert s in bufs[i].ids <==> Names(syms[s], i);
      assert Live(bufs[i].ids, syms') == Live(bufs[i].ids, syms) - {s};
      assert s in Live(bufs[i].ids, syms) <==> s in bufs[i].ids;
    }
  }

  lemma InactivateStartIncidence(bufs: seq<Buffer>, syms: seq<Symbol>, s: nat)
    requires Incidence(bufs, syms, {}, 0) && s < |syms| && syms[s].Active?
    ensures Incidence(bufs, syms[s := Inactivated(syms[s].bufs)], {}, 0)
  {
    var syms' := syms[s := Inactivated(syms[s].bufs)];
    forall j: nat, i: nat {:trigger Names(syms'[j], i)} | j < |syms'| && Names(syms'[j], i) ensures i < |bufs| && j in bufs[i].ids {
      assert Names(syms[j], i);
    }
    forall i: nat, j: nat {:trigger j in bufs[i].ids} | i < |bufs| && j in bufs[i].ids
      ensures j < |syms'| && (Names(syms'[j], i) || (j == 0 && i in {}))
    {
      assert Names(syms[j], i);
    }
  }

  lemma InactivateStartMid(st: State, s: nat)
    requires Inv(st) && s < |st.syms| && st.syms[s].Active?
    ensures MidInactivate(st.(syms := st.syms[s := Inactivated(st.syms[s].bufs)]), s, st.syms[s].bufs)
    ensures forall a :: a in st.syms[s].bufs ==> a < |st.bufs|
  {
    var syms' := st.syms[s := Inactivated(st.syms[s].bufs)];
    InactivateStartIncidence(st.bufs, st.syms, s);
    InactivateStartWeighed(st.bufs, st.syms, s);
    assert UsedPairing(st.bufs, syms') by {
      forall i | 0 <= i < |st.bufs| && st.bufs[i].used ensures Used(i) in syms' {
        var j :| 0 <= j < |st.syms| && st.syms[j] == Used(i);
        assert syms'[j] == Used(i);
      }
    }
    forall a | a in st.syms[s].bufs ensures a in st.activeUsable && s in st.bufs[a].ids {
      ActiveHolderUnused(st.bufs, st.syms, s, a);
    }
    assert PairedSources(st.numSource, st.bufs, syms') == PairedSources(st.numSource, st.bufs, st.syms);
  }

  lemma InactivateStepMid(st: State, s: nat, todo: set<nat>, a: nat)
    requires MidInactivate(st, s, todo) && a in todo && a < |st.bufs| && st.bufs[a].weight != 0
    ensures MidInactivate(Refiled(st, a, st.bufs[a].ids), s, todo - {a})
    ensures RowsOf(Refiled(st, a, st.bufs[a].ids).bufs) == RowsOf(st.bufs)
  {
    var st' := Refiled(st, a, st.bufs[a].ids);
    IncidenceIds(st.bufs, st'.bufs, st.syms, {}, 0);
    assert Weighed(st'.bufs, st'.syms, todo - {a}, {}) by {
      assert st.bufs[a].weight + Bit(false) == |Live(st.bufs[a].ids, st.syms)| + Bit(true);
      WeighedAt(st.bufs, st.syms, todo, {}, st'.bufs, st.syms, todo - {a}, {}, a);
    }
    RefiledPairing(st, a, st.bufs[a].ids);
    RefiledFiled(st, a, st.bufs[a].ids);
    PairedSameRows(st.numSource, st.bufs, a, st'.bufs[a], st.syms);
  }

  /** What is recovered depends on the rows only. */
  lemma PairedSameRows(numSource: nat, bufs: seq<Buffer>, a: nat, buf: Buffer, syms: seq<Symbol>)
    requires a < |bufs| && buf.ids == bufs[a].ids
    ensures PairedSources(numSource, bufs[a := buf], syms) == PairedSources(numSource, bufs, syms)
    ensures RowsOf(bufs[a := buf]) == RowsOf(bufs)
  {}

  lemma RefiledPairing(st: State, a: nat, ids: set<nat>)
    requires UsedPairing(st.bufs, st.syms) && a < |st.bufs| && st.bufs[a].weight != 0 && !st.bufs[a].used
    ensures UsedPairing(Refiled(st, a, ids).bufs, st.syms)
  {}

  lemma MidInactivateHolder(st: State, s: nat, todo: set<nat>, a: nat)
    requires MidInactivate(st, s, todo) && a in todo
    ensures a < |st.bufs| && a in st.activeUsable && st.activeUsable[a] == st.bufs[a].weight != 0
    ensures a !in st.inactivated
  {}

  lemma InactivateEnd(st: State, s: nat)
    requires MidInactivate(st, s, {})
    ensures Inv(st)
  {}

  // ---- elimination among inactivated buffers ----

  ghost predicate FiledLagging(bufs: seq<Buffer>, m: map<nat, nat>, todo: set<nat>) {
    && (forall i :: i in todo ==> i < |bufs| && bufs[i].weight == 0)
    && (forall i :: i in m <==> 0 <= i < |bufs| && bufs[i].weight == 0 && (i in todo || bufs[i].ids != {}))
    && (forall i :: i in m && i !in todo ==> m[i] == |bufs[i].ids|)
  }

  lemma LaggingRow(bufs: seq<Buffer>, m: map<nat, nat>, todo: set<nat>, a: nat, ids: set<nat>)
    requires FiledLagging(bufs, m, todo) && a in todo
    ensures a < |bufs| && FiledLagging(bufs[a := bufs[a].(ids := ids)], m, todo)
  {}

  lemma LaggingRefile(bufs: seq<Buffer>, m: map<nat, nat>, todo: set<nat>, a: nat)
    requires FiledLagging(bufs, m, todo) && a in todo
    ensures a in m && a < |bufs|
    ensures FiledLagging(bufs, if bufs[a].ids != {} then m[a := |bufs[a].ids|] else m - {a}, todo - {a})
  {}

  /** During elimination the filed weights and the redundant count of the buffers in `todo` lag behind
      their rows. */
  ghost predicate MidGauss(st: State, todo: set<nat>) {
    && st.numSource <= |st.syms|
    && Incidence(st.bufs, st.syms, {}, 0)
    && Weighed(st.bufs, st.syms, {}, {})
    && UsedPairing(st.bufs, st.syms)
    && FiledActive(st.bufs, st.activeUsable)
    && FiledLagging(st.bufs, st.inactivated, todo)
    && st.redundant == |Empties(st.bufs) - todo|
    && st.paired == |PairedSources(st.numSource, st.bufs, st.syms)|
  }

  lemma GaussStart(st: State)
    requires Inv(st)
    ensures MidGauss(st, st.inactivated.Keys)
  {}

  lemma GaussBuffer(st: State, b: nat)
    requires Inv(st) && b in st.inactivated
    ensures b < |st.bufs| && st.bufs[b].ids != {} && forall j :: j in st.bufs[b].ids ==> j < |st.syms|
  {}

  lemma GaussEnd(st: State)
    requires MidGauss(st, {})
    ensures Inv(st)
  {}

  /** A buffer of weight zero lists inactivated symbols only. */
  lemma InactivatedRow(bufs: seq<Buffer>, syms: seq<Symbol>, b: nat, j: nat)
    requires Incidence(bufs, syms, {}, 0) && Weighed(bufs, syms, {}, {})
    requires b < |bufs| && bufs[b].weight == 0 && j in bufs[b].ids
    ensures j < |syms| && syms[j].Inactivated?
  {
    assert bufs[b].weight + Bit(b in {}) == |Live(bufs[b].ids, syms)| + Bit(b in {});
    assert j !in Live(bufs[b].ids, syms);
  }

  function GaussStep(st: State, a: nat, b: nat): (st': State)
    requires a < |st.bufs| && b < |st.bufs|
    ensures st'.bufs == AddRow(st.bufs, a, b) && st'.syms == Toggled(st.syms, st.bufs[b].ids, a)
  {
    st.(bufs := AddRow(st.bufs, a, b), syms := Toggled(st.syms, st.bufs[b].ids, a))
  }

  lemma GaussStepIncidence(bufs: seq<Buffer>, syms: seq<Symbol>, a: nat, b: nat)
    requires Incidence(bufs, syms, {}, 0) && Weighed(bufs, syms, {}, {})
    requires a < |bufs| && b < |bufs| && a != b && bufs[b].weight == 0
    ensures Incidence(AddRow(bufs, a, b), Toggled(syms, bufs[b].ids, a), {}, 0)
    ensures Reducer(bufs, syms, a, b, {}, |syms|)
  {
    forall j | j in bufs[b].ids ensures j < |syms| && syms[j].Inactivated? {
      InactivatedRow(bufs, syms, b, j);
    }
    assert Incidence(bufs, syms, {}, |syms|);
    AddRowIncidence(bufs, syms, a, b, {}, |syms|);
    assert {} - {a} == {};
    IncidenceNoStale(AddRow(bufs, a, b), Toggled(syms, bufs[b].ids, a), |syms|);
  }

  lemma GaussStepWeighed(bufs: seq<Buffer>, syms: seq<Symbol>, a: nat, b: nat)
    requires Weighed(bufs, syms, {}, {})
    requires forall i, j :: 0 <= i < |bufs| && j in bufs[i].ids ==> j < |syms|
    requires a < |bufs| && b < |bufs| && Reducer(bufs, syms, a, b, {}, |syms|)
    ensures Weighed(AddRow(bufs, a, b), Toggled(syms, bufs[b].ids, a), {}, {})
  {
    var bufs', syms' := AddRow(bufs, a, b), Toggled(syms, bufs[b].ids, a);
    forall i | 0 <= i < |bufs| ensures Live(bufs[i].ids, syms') == Live(bufs[i].ids, syms) {
      ToggledLive(bufs[i].ids, syms, bufs[b].ids, a);
    }
    ToggledLive(bufs'[a].ids, syms, bufs[b].ids, a);
    AddRowLive(bufs, syms, a, b, {}, |syms|);
    assert bufs[a].weight + Bit(false) == |Live(bufs[a].ids, syms)| + Bit(false);
    WeighedAt(bufs, syms, {}, {}, bufs', syms', {}, {}, a);
  }

  /** Rows of lagging buffers may change without touching what is filed. */
  lemma GaussStepFiling(bufs: seq<Buffer>, a: nat, ids: set<nat>, todo: set<nat>, m: map<nat, nat>)
    requires a < |bufs| && a in todo && FiledActive(bufs, m)
    ensures var bufs' := bufs[a := bufs[a].(ids := ids)];
            Empties(bufs') - todo == Empties(bufs) - todo && FiledActive(bufs', m)
  {}

  lemma GaussStepLinear(st: State, todo: set<nat>, a: nat, b: nat)
    requires MidGauss(st, todo) && a in todo && b in todo && a != b
    ensures Incidence(AddRow(st.bufs, a, b), Toggled(st.syms, st.bufs[b].ids, a), {}, 0)
    ensures Weighed(AddRow(st.bufs, a, b), Toggled(st.syms, st.bufs[b].ids, a), {}, {})
  {
    GaussStepIncidence(st.bufs, st.syms, a, b);
    GaussStepWeighed(st.bufs, st.syms, a, b);
  }

  lemma GaussStepPairing(st: State, todo: set<nat>, a: nat, b: nat)
    requires MidGauss(st, todo) && a in todo && b in todo && a != b
    ensures UsedPairing(AddRow(st.bufs, a, b), Toggled(st.syms, st.bufs[b].ids, a))
    ensures PairedSources(st.numSource, AddRow(st.bufs, a, b), Toggled(st.syms, st.bufs[b].ids, a)) ==
            PairedSources(st.numSource, st.bufs, st.syms)
  {
    var buf := st.bufs[a].(ids := SymDiff(st.bufs[a].ids, st.bufs[b].ids));
    ToggledPairing(st.bufs, st.syms, st.bufs[b].ids, a, buf);
    ToggledPaired(st.numSource, st.bufs, st.syms, st.bufs[b].ids, a, buf);
  }

  lemma GaussStepMid(st: State, todo: set<nat>, a: nat, b: nat)
    requires MidGauss(st, todo) && a in todo && b in todo && a != b
    ensures MidGauss(GaussStep(st, a, b), todo)
  {
    hide Incidence;
    hide Weighed;
    hide UsedPairing;
    hide FiledActive;
    hide PairedSources;
    LaggingRow(st.bufs, st.inactivated, todo, a, SymDiff(st.bufs[a].ids, st.bufs[b].ids));
    hide FiledLagging;
    GaussStepLinear(st, todo, a, b);
    GaussStepPairing(st, todo, a, b);
    GaussStepFiling(st.bufs, a, SymDiff(st.bufs[a].ids, st.bufs[b].ids), todo, st.activeUsable);
  }

  lemma GaussReducer(st: State, todo: set<nat>, a: nat, b: nat)
    requires MidGauss(st, todo) && a in todo && b in todo && a != b
    ensures a < |st.bufs| && b < |st.bufs|
    ensures Incidence(st.bufs, st.syms, {}, |st.syms|) && Reducer(st.bufs, st.syms, a, b, {}, |st.syms|)
  {
    GaussStepIncidence(st.bufs, st.syms, a, b);
  }

  lemma GaussStepRows(st: State, a: nat, b: nat)
    requires a < |st.bufs| && b < |st.bufs|
    ensures RowsOf(GaussStep(st, a, b).bufs) == RowsOf(st.bufs)[a := SymDiff(st.bufs[a].ids, st.bufs[b].ids)]
  {}

  /** Files one eliminated buffer again. */
  function GaussRefile(st: State, a: nat): (st': State)
    requires a < |st.bufs|
    ensures st'.bufs == st.bufs && st'.syms == st.syms
  {
    if st.bufs[a].ids != {} then
      st.(inactivated := st.inactivated[a := |st.bufs[a].ids|])
    else
      st.(inactivated := st.inactivated - {a}, redundant := st.redundant + 1)
  }

  lemma GaussRefileMid(st: State, todo: set<nat>, a: nat)
    requires MidGauss(st, todo) && a in todo
    ensures a < |st.bufs| && a in st.inactivated
    ensures MidGauss(GaussRefile(st, a), todo - {a})
  {
    hide Incidence;
    hide Weighed;
    hide UsedPairing;
    hide FiledActive;
    hide PairedSources;
    hide FiledLagging;
    LaggingRefile(st.bufs, st.inactivated, todo, a);
    var e := Empties(st.bufs);
    CardAt(e - todo, e - (todo - {a}), a);
  }

  // ---- receiving ----

  /** A row being reduced on arrival: its weight counts its live symbols, and the only used symbols
      left in it are the pending ones. */
  ghost predicate MidReceive(syms: seq<Symbol>, ids: set<nat>, w: nat, pending: set<nat>) {
    && (forall j :: j in ids ==> j < |syms|)
    && w == |Live(ids, syms)|
    && (forall j :: j in pending <==> j in ids && j < |syms| && syms[j].Used?)
  }

  lemma NewBufferUnfiled(st: State)
    requires Inv(st)
    ensures |st.bufs| !in st.activeUsable && |st.bufs| !in st.inactivated
  {}

  lemma ReceiveUnused(st: State, ids: set<nat>, w: nat)
    requires Inv(st) && MidReceive(st.syms, ids, w, {})
    ensures forall j :: j in ids ==> j < |st.syms| && !st.syms[j].Used?
  {}

  /** `ReceiveStep` for a row of the decoder. */
  lemma ReceiveStepInv(st: State, ids: set<nat>, w: nat, pending: set<nat>, u: nat)
    requires Inv(st) && MidReceive(st.syms, ids, w, pending) && u in pending
    ensures u < |st.syms| && st.syms[u].Used? && st.syms[u].buf < |st.bufs| && w != 0
    ensures MidReceive(st.syms, SymDiff(ids, st.bufs[st.syms[u].buf].ids), w - 1, pending - {u})
  {
    ReceiveStep(st.bufs, st.syms, ids, w, pending, u);
  }

  lemma ReceiveNothing(syms: seq<Symbol>)
    ensures MidReceive(syms, {}, 0, {})
  {}

  lemma ReceiveAppend(syms: seq<Symbol>, ids: set<nat>, w: nat, pending: set<nat>, j: nat)
    requires MidReceive(syms, ids, w, pending) && j < |syms| && j !in ids
    ensures MidReceive(syms, ids + {j}, w + Bit(!syms[j].Inactivated?), if syms[j].Used? then pending + {j} else pending)
  {
    var l, l' := Live(ids, syms), Live(ids + {j}, syms);
    assert l' == l + (if syms[j].Inactivated? then {} else {j});
  }

  /** Adding the used buffer of a pending symbol removes that symbol and no other live one. */
  lemma ReceiveStep(bufs: seq<Buffer>, syms: seq<Symbol>, ids: set<nat>, w: nat, pending: set<nat>, u: nat)
    requires Incidence(bufs, syms, {}, 0) && Weighed(bufs, syms, {}, {}) && UsedPairing(bufs, syms)
    requires MidReceive(syms, ids, w, pending) && u in pending
    ensures u < |syms| && syms[u].Used? && syms[u].buf < |bufs| && w != 0
    ensures MidReceive(syms, SymDiff(ids, bufs[syms[u].buf].ids), w - 1, pending - {u})
  {
    var b := syms[u].buf;
    var s := UsedRow(bufs, syms, b);
    assert Names(syms[u], b);
    assert u in Live(bufs[b].ids, syms);
    var ids' := SymDiff(ids, bufs[b].ids);
    assert u in Live(ids, syms);
    assert Live(ids', syms) == Live(ids, syms) - {u} by {
      forall j ensures j in Live(ids', syms) <==> j in Live(ids, syms) && j != u {
        assert j in bufs[b].ids && j < |syms| && !syms[j].Inactivated? ==> j in Live(bufs[b].ids, syms);
      }
    }
    forall j | j in ids' ensures j < |syms| {
      assert j in ids || j in bufs[b].ids;
    }
    forall j ensures j in pending - {u} <==> j in ids' && j < |syms| && syms[j].Used? {
      if j in bufs[b].ids && j < |syms| && syms[j].Used? {
        assert j in Live(bufs[b].ids, syms);
      }
    }
  }

  /** Buffer `n` added to the lists of the symbols of `ids`. */
  function Pushed(syms: seq<Symbol>, ids: set<nat>, n: nat): (r: seq<Symbol>)
    ensures |r| == |syms|
    ensures forall j :: 0 <= j < |syms| ==> r[j] == if j in ids then Push(syms[j], n) else syms[j]
  {
    seq(|syms|, j requires 0 <= j < |syms| => if j in ids then Push(syms[j], n) else syms[j])
  }

  function Push(sym: Symbol, n: nat): Symbol {
    match sym
    case Active(bs) => Active(bs + {n})
    case Inactivated(bs) => Inactivated(bs + {n})
    case Used(_) => sym
  }

  function ReceiveEnd(st: State, ids: set<nat>, w: nat): (st': State)
    ensures st'.bufs == st.bufs + [Buffer(ids, w, false)]
    ensures st'.syms == Pushed(st.syms, ids, |st.bufs|)
    ensures st'.numSource == st.numSource && st'.paired == st.paired
  {
    var n := |st.bufs|;
    var st1 := st.(bufs := st.bufs + [Buffer(ids, w, false)], syms := Pushed(st.syms, ids, n));
    if w != 0 then st1.(activeUsable := st.activeUsable[n := w])
    else if ids != {} then st1.(inactivated := st.inactivated[n := |ids|])
    else st1.(redundant := st.redundant + 1)
  }

  lemma ReceiveIncidence(bufs: seq<Buffer>, syms: seq<Symbol>, buf: Buffer)
    requires Incidence(bufs, syms, {}, 0)
    requires forall j :: j in buf.ids ==> j < |syms| && !syms[j].Used?
    ensures Incidence(bufs + [buf], Pushed(syms, buf.ids, |bufs|), {}, 0)
  {
    var bufs', syms' := bufs + [buf], Pushed(syms, buf.ids, |bufs|);
    forall j: nat, i: nat {:trigger Names(syms'[j], i)} | j < |syms'| && Names(syms'[j], i)
      ensures i < |bufs'| && j in bufs'[i].ids
    {
      assert i == |bufs| || Names(syms[j], i);
    }
    forall i: nat, j: nat {:trigger j in bufs'[i].ids} | i < |bufs'| && j in bufs'[i].ids
      ensures j < |syms'| && (Names(syms'[j], i) || (j == 0 && i in {}))
    {
      if i < |bufs| {
        assert j in bufs[i].ids;
        assert Names(syms[j], i);
      }
    }
  }

  lemma PushedLive(ids: set<nat>, syms: seq<Symbol>, row: set<nat>, n: nat)
    ensures Live(ids, Pushed(syms, row, n)) == Live(ids, syms)
  {
    forall j: nat | j < |syms| ensures Pushed(syms, row, n)[j].Inactivated? == syms[j].Inactivated? {}
  }

  lemma ReceiveWeighed(bufs: seq<Buffer>, syms: seq<Symbol>, buf: Buffer)
    requires Weighed(bufs, syms, {}, {}) && buf.weight == |Live(buf.ids, syms)|
    ensures Weighed(bufs + [buf], Pushed(syms, buf.ids, |bufs|), {}, {})
  {
    var bufs', syms' := bufs + [buf], Pushed(syms, buf.ids, |bufs|);
    forall i | 0 <= i < |bufs'|
      ensures bufs'[i].weight + Bit(i in {}) == |Live(bufs'[i].ids, syms')| + Bit(i in {})
    {
      PushedLive(bufs'[i].ids, syms, buf.ids, |bufs|);
      assert i < |bufs| ==> bufs[i].weight + Bit(i in {}) == |Live(bufs[i].ids, syms)| + Bit(i in {});
    }
  }

  lemma ReceivePairing(numSource: nat, bufs: seq<Buffer>, syms: seq<Symbol>, buf: Buffer)
    requires UsedPairing(bufs, syms) && !buf.used
    requires forall j :: j in buf.ids ==> j < |syms| && !syms[j].Used?
    ensures UsedPairing(bufs + [buf], Pushed(syms, buf.ids, |bufs|))
    ensures PairedSources(numSource, bufs + [buf], Pushed(syms, buf.ids, |bufs|)) == PairedSources(numSource, bufs, syms)
  {
    var bufs', syms' := bufs + [buf], Pushed(syms, buf.ids, |bufs|);
    forall i | 0 <= i < |bufs'| && bufs'[i].used ensures bufs'[i].weight == 1 && Used(i) in syms' {
      var j :| 0 <= j < |syms| && syms[j] == Used(i);
      assert syms'[j] == Used(i);
    }
    forall j | 0 <= j < |syms'| ensures syms'[j].Used? <==> syms[j].Used? {}
    forall j | 0 <= j < |syms'| && syms'[j].Used? ensures syms'[j] == syms[j] {}
  }

  lemma ReceiveActive(bufs: seq<Buffer>, m: map<nat, nat>, buf: Buffer)
    requires FiledActive(bufs, m) && !buf.used
    ensures FiledActive(bufs + [buf], if buf.weight != 0 then m[|bufs| := buf.weight] else m)
  {}

  lemma ReceiveInactivated(bufs: seq<Buffer>, m: map<nat, nat>, buf: Buffer)
    requires FiledInactivated(bufs, m)
    ensures FiledInactivated(bufs + [buf], if buf.weight == 0 && buf.ids != {} then m[|bufs| := |buf.ids|] else m)
  {}

  lemma ReceiveEndFiled(st: State, ids: set<nat>, w: nat)
    requires Filed(st) && (w != 0 ==> ids != {})
    ensures Filed(ReceiveEnd(st, ids, w))
  {
    hide FiledActive;
    hide FiledInactivated;
    hide Empties;
    var buf := Buffer(ids, w, false);
    ReceiveActive(st.bufs, st.activeUsable, buf);
    ReceiveInactivated(st.bufs, st.inactivated, buf);
    EmptiesAppend(st.bufs, buf);
  }

  lemma ReceiveEndInv(st: State, ids: set<nat>, w: nat)
    requires Inv(st) && MidReceive(st.syms, ids, w, {})
    ensures Inv(ReceiveEnd(st, ids, w))
  {
    var buf := Buffer(ids, w, false);
    forall j | j in ids ensures j < |st.syms| && !st.syms[j].Used? {
      assert j !in {};
    }
    ReceiveIncidence(st.bufs, st.syms, buf);
    ReceiveWeighed(st.bufs, st.syms, buf);
    ReceivePairing(st.numSource, st.bufs, st.syms, buf);
    if w != 0 {
      assert Live(ids, st.syms) != {};
    }
    ReceiveEndFiled(st, ids, w);
  }

  // ---- progress ----

  ghost function Unused(syms: seq<Symbol>): set<nat> {
    set j: nat | j < |syms| && !syms[j].Used?
  }

  ghost function Actives(syms: seq<Symbol>): set<nat> {
    set j: nat | j < |syms| && syms[j].Active?
  }

  lemma ToggledUnused(syms: seq<Symbol>, row: set<nat>, a: nat)
    ensures Unused(Toggled(syms, row, a)) == Unused(syms)
    ensures Actives(Toggled(syms, row, a)) == Actives(syms)
  {
    forall j | 0 <= j < |syms|
      ensures Toggled(syms, row, a)[j].Used? == syms[j].Used? && Toggled(syms, row, a)[j].Active? == syms[j].Active?
    {}
  }

  /** A filed, unused buffer of positive weight lists an active symbol. */
  lemma UsableHasActive(st: State, r: nat)
    requires Inv(st) && r in st.activeUsable
    ensures r < |st.bufs| && exists j :: j in st.bufs[r].ids && j < |st.syms| && st.syms[j].Active?
  {
    assert st.bufs[r].weight + Bit(r in {}) == |Live(st.bufs[r].ids, st.syms)| + Bit(r in {});
    var j :| j in Live(st.bufs[r].ids, st.syms);
    UnusedRow(st.bufs, st.syms, r, j);
  }

  lemma InactivatedActives(syms: seq<Symbol>, s: nat)
    requires s < |syms| && syms[s].Active?
    ensures var syms' := syms[s := Inactivated(syms[s].bufs)];
            Unused(syms') == Unused(syms) && |Actives(syms')| == |Actives(syms)| - 1 && Actives(syms') <= Actives(syms)
  {
    assert Actives(syms[s := Inactivated(syms[s].bufs)]) == Actives(syms) - {s};
    assert s in Actives(syms);
  }

  lemma UsedUnused(syms: seq<Symbol>, s: nat, r: nat)
    requires s < |syms| && !syms[s].Used?
    ensures s in Unused(syms) && Unused(syms[s := Used(r)]) == Unused(syms) - {s}
    ensures |Unused(syms[s := Used(r)])| == |Unused(syms)| - 1
  {}

  /** The members of a set from `a` on: what a pass in ascending order still has to visit. */
  ghost function From(s: set<nat>, a: nat): set<nat> {
    set i | i in s && a <= i
  }

  lemma FromStep(s: set<nat>, a: nat)
    ensures From(s, a + 1) == From(s, a) - {a}
    ensures a in From(s, a) <==> a in s
  {}

  lemma FromEnds(s: set<nat>, n: nat)
    requires forall i :: i in s ==> i < n
    ensures From(s, 0) == s && From(s, n) == {}
  {}

  /** A peel step is a row addition followed by a decrement. */
  lemma PeelStepSplit(st: State, r: nat, a: nat)
    requires a < |st.bufs| && r < |st.bufs| && st.bufs[a].weight != 0
    ensures var mid := st.(bufs := AddRow(st.bufs, a, r), syms := Toggled(st.syms, st.bufs[r].ids, a));
            Refiled(mid, a, mid.bufs[a].ids) == PeelStep(st, r, a)
  {
    var mid := st.(bufs := AddRow(st.bufs, a, r), syms := Toggled(st.syms, st.bufs[r].ids, a));
    assert Refiled(mid, a, mid.bufs[a].ids).bufs == PeelStep(st, r, a).bufs;
  }

  // ---- construction ----

  /** The constraint buffers while they are filled: every symbol active, every weight the row's size. */
  ghost predicate Plain(bufs: seq<Buffer>, syms: seq<Symbol>) {
    && Incidence(bufs, syms, {}, 0)
    && (forall i :: 0 <= i < |bufs| ==> bufs[i].weight == |bufs[i].ids| && !bufs[i].used)
    && (forall j :: 0 <= j < |syms| ==> syms[j].Active?)
  }

  lemma PlainActive(bufs: seq<Buffer>, syms: seq<Symbol>)
    requires Plain(bufs, syms)
    ensures forall j :: 0 <= j < |syms| ==> syms[j].Active?
  {}

  function Appended(bufs: seq<Buffer>, b: nat, j: nat): (r: seq<Buffer>)
    requires b < |bufs|
    ensures |r| == |bufs|
  {
    bufs[b := Buffer(bufs[b].ids + {j}, bufs[b].weight + 1, bufs[b].used)]
  }

  lemma AppendedPlain(bufs: seq<Buffer>, syms: seq<Symbol>, b: nat, j: nat)
    requires Plain(bufs, syms) && b < |bufs| && j < |syms| && j !in bufs[b].ids
    ensures Plain(Appended(bufs, b, j), syms[j := Active(syms[j].bufs + {b})])
  {
    var bufs', syms' := Appended(bufs, b, j), syms[j := Active(syms[j].bufs + {b})];
    forall m: nat, i: nat {:trigger Names(syms'[m], i)} | m < |syms'| && Names(syms'[m], i)
      ensures i < |bufs'| && m in bufs'[i].ids
    {
      assert (m == j && i == b) || Names(syms[m], i);
    }
    forall i: nat, m: nat {:trigger m in bufs'[i].ids} | i < |bufs'| && m in bufs'[i].ids
      ensures m < |syms'| && (Names(syms'[m], i) || (m == 0 && i in {}))
    {
      assert (m == j && i == b) || m in bufs[i].ids;
      assert m in bufs[i].ids ==> Names(syms[m], i);
    }
  }

  /** A symbol's list is bounded by the rows that hold it. */
  lemma HoldersWithin(bufs: seq<Buffer>, syms: seq<Symbol>, j: nat, bound: nat)
    requires Plain(bufs, syms) && j < |syms|
    requires forall c :: bound <= c < |bufs| ==> j !in bufs[c].ids
    ensures forall c :: c in syms[j].bufs ==> c < bound
  {
    forall c | c in syms[j].bufs ensures c < bound {
      assert Names(syms[j], c);
    }
  }

  /** Filled and filed, the constraint buffers satisfy every invariant. */
  lemma PlainInv(st: State)
    requires Plain(st.bufs, st.syms) && st.numSource <= |st.syms|
    requires forall i :: 0 <= i < |st.bufs| ==> st.bufs[i].ids != {}
    requires FiledActive(st.bufs, st.activeUsable)
    requires st.inactivated == map[] && st.redundant == 0 && st.paired == 0
    ensures Inv(st)
  {
    forall i | 0 <= i < |st.bufs|
      ensures st.bufs[i].weight + Bit(i in {}) == |Live(st.bufs[i].ids, st.syms)| + Bit(i in {})
    {
      assert Live(st.bufs[i].ids, st.syms) == st.bufs[i].ids;
    }
    assert Empties(st.bufs) == {};
    assert PairedSources(st.numSource, st.bufs, st.syms) == {};
  }

  // ---- what the rows keep of the active symbols ----

  /** The rows agree on the symbols of `act`. */
  ghost predicate Kept(rows0: seq<set<nat>>, rows: seq<set<nat>>, act: set<nat>) {
    |rows| == |rows0| && forall i :: 0 <= i < |rows| ==> rows[i] * act == rows0[i] * act
  }

  /** No symbol changed its kind, other than to used. */
  ghost predicate Settled(syms0: seq<Symbol>, syms: seq<Symbol>) {
    && |syms| == |syms0|
    && forall j :: 0 <= j < |syms| ==>
         (syms[j].Active? ==> syms0[j].Active?) && (syms[j].Inactivated? ==> syms0[j].Inactivated?)
  }

  /** Symbols were only used up, and row additions left what is still active in each row as it was. */
  ghost predicate Steady(rows0: seq<set<nat>>, syms0: seq<Symbol>, rows: seq<set<nat>>, syms: seq<Symbol>) {
    Settled(syms0, syms) && Kept(rows0, rows, Actives(syms))
  }

  lemma KeptTrans(r0: seq<set<nat>>, r1: seq<set<nat>>, r2: seq<set<nat>>, a1: set<nat>, a2: set<nat>)
    requires Kept(r0, r1, a1) && Kept(r1, r2, a2) && a2 <= a1
    ensures Kept(r0, r2, a2)
  {
    forall i | 0 <= i < |r2| ensures r2[i] * a2 == r0[i] * a2 {
      assert r1[i] * a2 == r1[i] * a1 * a2 && r0[i] * a2 == r0[i] * a1 * a2;
    }
  }

  lemma SteadyTrans(r0: seq<set<nat>>, s0: seq<Symbol>, r1: seq<set<nat>>, s1: seq<Symbol>, r2: seq<set<nat>>, s2: seq<Symbol>)
    requires Steady(r0, s0, r1, s1) && Steady(r1, s1, r2, s2)
    ensures Steady(r0, s0, r2, s2)
  {
    hide Kept;
    KeptTrans(r0, r1, r2, Actives(s1), Actives(s2));
  }

  lemma SteadySame(rows: seq<set<nat>>, syms: seq<Symbol>)
    ensures Steady(rows, syms, rows, syms)
  {}

  lemma UsedSteady(rows: seq<set<nat>>, syms: seq<Symbol>, s: nat, r: nat)
    requires s < |syms|
    ensures Steady(rows, syms, rows, syms[s := Used(r)])
  {}

  /** Adding a reducing row changes no active symbol. */
  lemma AddedSteady(bufs: seq<Buffer>, syms: seq<Symbol>, a: nat, b: nat, stale: set<nat>, s: nat)
    requires a < |bufs| && b < |bufs| && Reducer(bufs, syms, a, b, stale, s)
    ensures Steady(RowsOf(bufs), syms, RowsOf(bufs)[a := SymDiff(bufs[a].ids, bufs[b].ids)], Toggled(syms, bufs[b].ids, a))
  {
    var rows, act := RowsOf(bufs), Actives(syms);
    ToggledUnused(syms, bufs[b].ids, a);
    assert bufs[b].ids * act == {};
    assert SymDiff(bufs[a].ids, bufs[b].ids) * act == bufs[a].ids * act;
  }

  /** Dropping a used symbol changes no active symbol. */
  lemma DroppedSteady(rows: seq<set<nat>>, syms: seq<Symbol>, a: nat, s: nat)
    requires a < |rows| && s < |syms| && syms[s].Used?
    ensures Steady(rows, syms, rows[a := SymDiff(rows[a], {s})], syms)
  {
    assert SymDiff(rows[a], {s}) * Actives(syms) == rows[a] * Actives(syms);
  }

  /** The same where symbols may have been inactivated too, though none unless `harder`. */
  ghost predicate Narrowed(rows0: seq<set<nat>>, syms0: seq<Symbol>, rows: seq<set<nat>>, syms: seq<Symbol>, harder: bool) {
    && Actives(syms) <= Actives(syms0) && Kept(rows0, rows, Actives(syms))
    && (!harder ==> Settled(syms0, syms))
  }

  lemma SteadyNarrowed(rows0: seq<set<nat>>, syms0: seq<Symbol>, rows: seq<set<nat>>, syms: seq<Symbol>, harder: bool)
    requires Steady(rows0, syms0, rows, syms)
    ensures Narrowed(rows0, syms0, rows, syms, harder)
  {}

  lemma InactivatedNarrowed(rows: seq<set<nat>>, syms0: seq<Symbol>, syms: seq<Symbol>)
    requires Actives(syms) <= Actives(syms0)
    ensures Narrowed(rows, syms0, rows, syms, true)
  {}

  lemma NarrowedTrans(r0: seq<set<nat>>, s0: seq<Symbol>, r1: seq<set<nat>>, s1: seq<Symbol>, r2: seq<set<nat>>, s2: seq<Symbol>, harder: bool)
    requires Narrowed(r0, s0, r1, s1, harder) && Narrowed(r1, s1, r2, s2, harder)
    ensures Narrowed(r0, s0, r2, s2, harder)
  {
    hide Kept;
    KeptTrans(r0, r1, r2, Actives(s1), Actives(s2));
  }

  /** The row of a used symbol holds no active one. */
  lemma UsedInactive(st: State, u: nat)
    requires Inv(st) && u < |st.syms| && st.syms[u].Used?
    ensures st.syms[u].buf < |st.bufs| && st.bufs[st.syms[u].buf].ids * Actives(st.syms) == {}
  {
    var i := st.syms[u].buf;
    var s := UsedRow(st.bufs, st.syms, i);
    forall j | j in st.bufs[i].ids && j != s ensures j !in Actives(st.syms) {
      assert j !in Live(st.bufs[i].ids, st.syms);
    }
  }

  lemma DiffActive(a: set<nat>, b: set<nat>, act: set<nat>)
    requires b * act == {}
    ensures SymDiff(a, b) * act == a * act
  {
    forall j | j in act ensures j !in b {
      assert j in b ==> j in b * act;
    }
  }

  /** A new row that agrees with `row` on the active symbols, linked in. */
  lemma ReceivedSteady(st: State, ids: set<nat>, w: nat, row: set<nat>)
    requires ids * Actives(st.syms) == row * Actives(st.syms)
    ensures var st' := ReceiveEnd(st, ids, w); Steady(RowsOf(st.bufs) + [row], st.syms, RowsOf(st'.bufs), st'.syms)
  {
    var st' := ReceiveEnd(st, ids, w);
    assert Actives(st'.syms) == Actives(st.syms);
    assert RowsOf(st'.bufs) == RowsOf(st.bufs) + [ids];
  }
}
