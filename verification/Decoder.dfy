/** The Raptor decoder: peeling, reactivation, inactivation and elimination over symbol bookkeeping,
    with every row operation mirrored on the payload buffers. */
module RaptorDecoder {
  import opened Gf2
  import opened DecoderState
  import opened RaptorCode
  import opened BufferWeightMaps
  import Matrix
  import opened Elimination
  import opened Wrappers

  /** A payload slot: one of the pre-allocated constraint slots, or one pushed per received symbol. */
  datatype BufferId = TempBuffer(index: nat) | ReceiveBuffer(index: nat)

  /** Buffer indices are 16 bits wide. */
  const MAX_BUFFERS := 0x10000

  class BufferSet {
    const numTemp: nat
    const symbolLen: nat
    var buffers: seq<Payload>

    ghost predicate Valid()
      reads this
    {
      numTemp <= |buffers| && forall i :: 0 <= i < |buffers| ==> |buffers[i]| == symbolLen
    }

    constructor (numTemp: nat, symbolLen: nat)
      ensures Valid() && this.numTemp == numTemp && this.symbolLen == symbolLen
      ensures buffers == seq(numTemp, _ => Zero(symbolLen))
    {
      this.numTemp, this.symbolLen := numTemp, symbolLen;
      buffers := seq(numTemp, _ => Zero(symbolLen));
    }

    function Index(id: BufferId): nat {
      match id
      case TempBuffer(i) => i
      case ReceiveBuffer(i) => numTemp + i
    }

    method PushBuffer(buf: Payload)
      requires Valid() && |buf| == symbolLen
      modifies this
      ensures Valid() && buffers == old(buffers) + [buf]
    {
      buffers := buffers + [buf];
    }

    /** Adds payload `b` to payload `a`, byte by byte. */
    method XorBuffers(a: BufferId, b: BufferId)
      requires Valid() && Index(a) < |buffers| && Index(b) < |buffers| && Index(a) != Index(b)
      modifies this
      ensures Valid()
      ensures buffers == old(buffers)[Index(a) := Xor(old(buffers)[Index(a)], old(buffers)[Index(b)])]
    {
      var ai, bi := Index(a), Index(b);
      var dst, src := buffers[ai], buffers[bi];
      for i := 0 to |dst|
        invariant |dst| == symbolLen
        invariant forall k :: 0 <= k < i ==> dst[k] == old(buffers)[ai][k] ^ src[k]
        invariant forall k :: i <= k < |dst| ==> dst[k] == old(buffers)[ai][k]
      {
        dst := dst[i := dst[i] ^ src[i]];
      }
      assert dst == Xor(old(buffers)[ai], src);
      buffers := buffers[ai := dst];
    }
  }

  ghost predicate RowsFilled(p: Params, bufs: seq<Buffer>, lo: nat, hi: nat, j: nat)
    requires p.Valid() && |bufs| == p.s + p.h && hi <= |bufs|
  {
    forall b :: lo <= b < hi ==> bufs[b].ids == Prefix(ConstraintRow(p, b), j)
  }

  lemma LdpcColumnFilled(p: Params, bufs: seq<Buffer>, i: nat, b0: nat, b1: nat, b2: nat)
    requires p.Valid() && |bufs| == p.s + p.h && i < p.k
    requires RowsFilled(p, bufs, 0, p.s, i) && RowsFilled(p, bufs, p.s, |bufs|, 0)
    requires b0 < b1 < b2 < p.s
    requires forall b: nat :: InTriple(p.s, i, b) <==> b == b0 || b == b1 || b == b2
    ensures var bufs' := Appended(Appended(Appended(bufs, b0, i), b1, i), b2, i);
            RowsFilled(p, bufs', 0, p.s, i + 1) && RowsFilled(p, bufs', p.s, |bufs'|, 0)
  {}

  /** Rows from `b` on hold only symbols below `j`. */
  ghost predicate BelowFrom(bufs: seq<Buffer>, b: nat, j: nat) {
    forall c, i :: b <= c < |bufs| && i in bufs[c].ids ==> i < j
  }

  lemma HalfCellFilled(p: Params, bufs: seq<Buffer>, h: nat, j: nat)
    requires p.Valid() && |bufs| == p.s + p.h && h < p.h && j < p.k + p.s
    requires RowsFilled(p, bufs, p.s, p.s + h, j + 1) && RowsFilled(p, bufs, p.s + h, |bufs|, j)
    ensures BelowFrom(bufs, p.s + h, j)
    ensures var bufs' := if h in p.words[j] then Appended(bufs, p.s + h, j) else bufs;
            RowsFilled(p, bufs', p.s, p.s + h + 1, j + 1) && RowsFilled(p, bufs', p.s + h + 1, |bufs'|, j)
  {}

  ghost predicate RowsDone(p: Params, bufs: seq<Buffer>, lo: nat, hi: nat)
    requires p.Valid() && |bufs| == p.s + p.h && hi <= |bufs|
  {
    forall b :: lo <= b < hi ==> bufs[b].ids == ConstraintRow(p, b)
  }

  lemma HalfIdentityFilled(p: Params, bufs: seq<Buffer>, i: nat)
    requires p.Valid() && |bufs| == p.s + p.h && i < p.h
    requires RowsDone(p, bufs, p.s, p.s + i)
    requires RowsFilled(p, bufs, p.s + i, |bufs|, p.k + p.s)
    ensures BelowFrom(bufs, p.s + i, p.k + p.s + i)
    ensures var bufs' := Appended(bufs, p.s + i, p.k + p.s + i);
            RowsDone(p, bufs', p.s, p.s + i + 1) && RowsFilled(p, bufs', p.s + i + 1, |bufs'|, p.k + p.s)
  {}

  /** The next thing `TryDecode` will attempt. */
  datatype Operation = Reactivate | Peeling | MaybeInactiveGaussian | InactivateSymbol | Finished {
    ghost function Rank(): nat {
      match this
      case Reactivate => 4
      case Peeling => 3
      case MaybeInactiveGaussian => 2
      case InactivateSymbol => 1
      case Finished => 0
    }
  }

  class Decoder {
    const params: Params
    var bufs: seq<Buffer>
    var syms: seq<Symbol>
    const activeUsable: BufferWeightMap
    const inactivated: BufferWeightMap
    var redundant: nat
    var paired: nat

    /** Builds the S + H constraint buffers. */
    constructor (p: Params)
      requires p.Valid()
      ensures params == p && fresh(activeUsable) && fresh(inactivated)
      ensures HeapsValid() && |syms| == p.L() && Inv(St())
      ensures |bufs| == p.s + p.h && redundant == 0 && paired == 0
      ensures forall i :: 0 <= i < |bufs| ==> bufs[i].ids == ConstraintRow(p, i)
      ensures forall j :: 0 <= j < |syms| ==> syms[j].Active?
    {
      params := p;
      bufs := seq(p.s + p.h, _ => Buffer({}, 0, false));
      syms := seq(p.L(), _ => Active({}));
      activeUsable := new BufferWeightMap();
      inactivated := new BufferWeightMap();
      redundant, paired := 0, 0;
      new;
      Build();
    }

    method Build()
      requires Sized() && HeapsValid()
      requires forall b :: 0 <= b < |bufs| ==> bufs[b].ids == {}
      requires activeUsable.contents == map[] && inactivated.contents == map[] && redundant == 0 && paired == 0
      modifies this`bufs, this`syms, activeUsable
      ensures HeapsValid() && |syms| == params.L() && Inv(St())
      ensures |bufs| == params.s + params.h
      ensures forall i :: 0 <= i < |bufs| ==> bufs[i].ids == ConstraintRow(params, i)
      ensures forall j :: 0 <= j < |syms| ==> syms[j].Active?
    {
      hide Plain;
      hide RowsFilled;
      hide Params.Valid;
      hide Inv;
      LdpcRows();
      HalfRows();
      HalfIdentities();
      forall b: nat | b < |bufs| ensures bufs[b].ids != {} {
        assert params.k + b in ConstraintRow(params, b);
      }
      FileAll();
      PlainInv(St());
      PlainActive(bufs, syms);
    }

    /** Links symbol `j` and buffer `b`; both ordered sets are appended to, so each new member must
        exceed the ones present. */
    method Append(b: nat, j: nat)
      requires Plain(bufs, syms) && b < |bufs| && j < |syms|
      requires forall i :: i in bufs[b].ids ==> i < j
      requires forall c :: c in syms[j].bufs ==> c < b
      modifies this`bufs, this`syms
      ensures Plain(bufs, syms) && |bufs| == |old(bufs)| && |syms| == |old(syms)|
      ensures bufs == Appended(old(bufs), b, j)
    {
      AppendedPlain(bufs, syms, b, j);
      bufs := bufs[b := Buffer(bufs[b].ids + {j}, bufs[b].weight + 1, bufs[b].used)];
      syms := syms[j := Active(syms[j].bufs + {b})];
    }

    /** The rows from `lo` up to `hi` hold exactly their members below `j`. */
    ghost predicate FilledTo(lo: nat, hi: nat, j: nat)
      requires params.Valid() && |bufs| == params.s + params.h && hi <= |bufs|
      reads this
    {
      RowsFilled(params, bufs, lo, hi, j)
    }

    ghost predicate Sized()
      reads this
    {
      params.Valid() && Plain(bufs, syms) && |bufs| == params.s + params.h && |syms| == params.L()
    }

    /** Links source symbol `i` to its three rows, in ascending row order. */
    method LdpcColumn(i: nat)
      requires Sized() && i < params.k
      requires FilledTo(0, params.s, i) && FilledTo(params.s, |bufs|, 0)
      modifies this`bufs, this`syms
      ensures Sized()
      ensures FilledTo(0, params.s, i + 1) && FilledTo(params.s, |bufs|, 0)
    {
      var b0, b1, b2 := SortedTriple(params.s, i);
      HoldersWithin(bufs, syms, i, 0);
      Append(b0, i);
      HoldersWithin(bufs, syms, i, b0 + 1);
      Append(b1, i);
      HoldersWithin(bufs, syms, i, b1 + 1);
      Append(b2, i);
      LdpcColumnFilled(params, old(bufs), i, b0, b1, b2);
    }

    /** Links every source symbol to its rows. */
    method LdpcColumns()
      requires Sized()
      requires forall b :: 0 <= b < |bufs| ==> bufs[b].ids == {}
      modifies this`bufs, this`syms
      ensures Sized()
      ensures FilledTo(0, params.s, params.k) && FilledTo(params.s, |bufs|, 0)
    {
      hide ConstraintRow;
      hide Params.Valid;
      hide Plain;
      forall b: nat | b < |bufs| ensures bufs[b].ids == Prefix(ConstraintRow(params, b), 0) {
        PrefixEmpty(ConstraintRow(params, b));
      }
      for i := 0 to params.k
        invariant Sized()
        invariant FilledTo(0, params.s, i) && FilledTo(params.s, |bufs|, 0)
      {
        LdpcColumn(i);
      }
    }

    /** Links each LDPC symbol to its own row. */
    method LdpcIdentities()
      requires Sized()
      requires FilledTo(0, params.s, params.k) && FilledTo(params.s, |bufs|, 0)
      modifies this`bufs, this`syms
      ensures Sized()
      ensures forall b :: 0 <= b < params.s ==> bufs[b].ids == ConstraintRow(params, b)
      ensures FilledTo(params.s, |bufs|, 0)
    {
      hide Plain;
      hide Params.Valid;
      for b := 0 to params.s
        invariant Sized()
        invariant forall c :: 0 <= c < b ==> bufs[c].ids == ConstraintRow(params, c)
        invariant FilledTo(b, params.s, params.k) && FilledTo(params.s, |bufs|, 0)
      {
        LdpcIdentity(b);
      }
    }

    /** The identity column of LDPC row `b`. */
    method LdpcIdentity(b: nat)
      requires Sized() && b < params.s && FilledTo(b, params.s, params.k) && FilledTo(params.s, |bufs|, 0)
      modifies this`bufs, this`syms
      ensures Sized() && forall c :: 0 <= c < |bufs| && c != b ==> bufs[c] == old(bufs)[c]
      ensures bufs[b].ids == ConstraintRow(params, b)
    {
      HoldersWithin(bufs, syms, params.k + b, b);
      ConstraintRowEnd(params, b);
      Append(b, params.k + b);
    }

    method LdpcRows()
      requires Sized()
      requires forall b :: 0 <= b < |bufs| ==> bufs[b].ids == {}
      modifies this`bufs, this`syms
      ensures Sized()
      ensures forall b :: 0 <= b < params.s ==> bufs[b].ids == ConstraintRow(params, b)
      ensures FilledTo(params.s, |bufs|, 0)
    {
      LdpcColumns();
      LdpcIdentities();
    }

    /** One cell of the Half matrix. */
    method HalfCell(h: nat, j: nat)
      requires Sized() && j < params.k + params.s && h < params.h
      requires BelowFrom(bufs, params.s + h, j)
      modifies this`bufs, this`syms
      ensures Sized()
      ensures bufs == if h in params.words[j] then Appended(old(bufs), params.s + h, j) else old(bufs)
    {
      assert j < |params.words|;
      hide Params.Valid;
      hide Plain;
      if h in params.words[j] {
        var b := params.s + h;
        HoldersWithin(bufs, syms, j, b);
        assert forall i :: i in bufs[b].ids ==> i < j;
        hide BelowFrom;
        Append(b, j);
      }
    }

    method HalfColumn(j: nat)
      requires Sized() && j < params.k + params.s
      requires FilledTo(params.s, |bufs|, j)
      modifies this`bufs, this`syms
      ensures Sized()
      ensures forall b :: 0 <= b < params.s ==> bufs[b] == old(bufs)[b]
      ensures FilledTo(params.s, |bufs|, j + 1)
    {
      hide Plain;
      hide Params.Valid;
      for h := 0 to params.h
        invariant Sized()
        invariant forall b :: 0 <= b < params.s ==> bufs[b] == old(bufs)[b]
        invariant FilledTo(params.s, params.s + h, j + 1) && FilledTo(params.s + h, |bufs|, j)
      {
        HalfCellFilled(params, bufs, h, j);
        HalfCell(h, j);
      }
    }

    method HalfRows()
      requires Sized()
      requires FilledTo(params.s, |bufs|, 0)
      modifies this`bufs, this`syms
      ensures Sized()
      ensures forall b :: 0 <= b < params.s ==> bufs[b] == old(bufs)[b]
      ensures FilledTo(params.s, |bufs|, params.k + params.s)
    {
      for j := 0 to params.k + params.s
        invariant Sized()
        invariant forall b :: 0 <= b < params.s ==> bufs[b] == old(bufs)[b]
        invariant FilledTo(params.s, |bufs|, j)
      {
        HalfColumn(j);
      }
    }

    method HalfIdentities()
      requires Sized()
      requires FilledTo(params.s, |bufs|, params.k + params.s)
      modifies this`bufs, this`syms
      ensures Sized()
      ensures forall b :: 0 <= b < params.s ==> bufs[b] == old(bufs)[b]
      ensures forall b :: params.s <= b < |bufs| ==> bufs[b].ids == ConstraintRow(params, b)
    {
      hide Plain;
      hide RowsFilled;
      hide Params.Valid;
      for i := 0 to params.h
        invariant Sized()
        invariant forall b :: 0 <= b < params.s ==> bufs[b] == old(bufs)[b]
        invariant RowsDone(params, bufs, params.s, params.s + i)
        invariant FilledTo(params.s + i, |bufs|, params.k + params.s)
      {
        HalfIdentityFilled(params, bufs, i);
        HalfIdentity(i);
      }
    }

    /** The identity column of Half row `i`. */
    method HalfIdentity(i: nat)
      requires Sized() && i < params.h
      requires BelowFrom(bufs, params.s + i, params.k + params.s + i)
      modifies this`bufs, this`syms
      ensures Sized()
      ensures bufs == Appended(old(bufs), params.s + i, params.k + params.s + i)
    {
      HoldersWithin(bufs, syms, params.k + params.s + i, params.s + i);
      Append(params.s + i, params.k + params.s + i);
    }

    /** Files every constraint buffer by its weight. */
    method FileAll()
      requires Sized() && HeapsValid()
      requires activeUsable.contents == map[] && inactivated.contents == map[] && redundant == 0 && paired == 0
      requires forall b :: 0 <= b < |bufs| ==> bufs[b].ids != {}
      modifies activeUsable
      ensures HeapsValid() && inactivated.contents == map[] && FiledActive(bufs, activeUsable.contents)
    {
      for i := 0 to |bufs|
        invariant HeapsValid() && inactivated.contents == map[]
        invariant forall b :: b in activeUsable.contents <==> 0 <= b < i
        invariant forall b :: 0 <= b < i ==> activeUsable.contents[b] == bufs[b].weight
      {
        assert bufs[i].ids != {} && bufs[i].weight == |bufs[i].ids|;
        activeUsable.Insert(i, bufs[i].weight);
      }
    }

    ghost function St(): State
      reads this, activeUsable, inactivated
    {
      State(params.k, bufs, syms, activeUsable.contents, inactivated.contents, redundant, paired)
    }

    ghost predicate HeapsValid()
      reads this, activeUsable, inactivated
    {
      activeUsable != inactivated && activeUsable.Valid() && inactivated.Valid()
    }

    ghost predicate Shape(bs: BufferSet)
      reads this, activeUsable, inactivated, bs
    {
      && HeapsValid() && |syms| == params.L()
      && bs.Valid() && |bs.buffers| == |bufs| && bs.numTemp == params.s + params.h
    }

    ghost predicate Valid(bs: BufferSet)
      reads this, activeUsable, inactivated, bs
    {
      Shape(bs) && Inv(St())
    }

    /** The current system has the same solutions as the one given. */
    ghost predicate Equivalent(bs: BufferSet, rows: seq<set<nat>>, pay: seq<Payload>)
      reads this, bs
    {
      SameSolutions(rows, pay, RowsOf(bufs), bs.buffers, params.L(), bs.symbolLen)
    }

    /** The current rows agree with the ones given on every symbol that is still active, and symbols were only
        used up. */
    ghost predicate SteadyFrom(rows: seq<set<nat>>, was: seq<Symbol>)
      reads this
    {
      Steady(rows, was, RowsOf(bufs), syms)
    }

    ghost predicate NarrowedFrom(rows: seq<set<nat>>, was: seq<Symbol>, harder: bool)
      reads this
    {
      Narrowed(rows, was, RowsOf(bufs), syms, harder)
    }

    function ToBufferId(i: nat): (id: BufferId) {
      if i < params.s + params.h then TempBuffer(i) else ReceiveBuffer(i - (params.s + params.h))
    }

    predicate Done()
      reads this
    {
      paired == params.k
    }

    /** The lowest active symbol of a buffer. */
    method FirstActive(b: nat) returns (s: nat)
      requires b < |bufs| && exists j :: j in bufs[b].ids && j < |syms| && syms[j].Active?
      ensures s in bufs[b].ids && s < |syms| && syms[s].Active?
      ensures forall j :: j in bufs[b].ids && j < s ==> !syms[j].Active?
    {
      for j := 0 to |syms|
        invariant forall i :: 0 <= i < j && i in bufs[b].ids ==> !syms[i].Active?
      {
        if j in bufs[b].ids && syms[j].Active? {
          return j;
        }
      }
      assert false;
    }

    /** Adds row `b` to row `a`, keeping the buffer lists of the inactivated symbols in step. */
    method XorRow(a: nat, b: nat, ghost stale: set<nat>, ghost s: nat)
      requires a < |bufs| && b < |bufs|
      requires Incidence(bufs, syms, stale, s) && Reducer(bufs, syms, a, b, stale, s)
      modifies this`bufs, this`syms
      ensures bufs == AddRow(old(bufs), a, b)
      ensures syms == Toggled(old(syms), old(bufs)[b].ids, a)
    {
      ghost var row := bufs[b].ids;
      for j := 0 to |syms|
        invariant |syms| == |old(syms)| && |bufs| == |old(bufs)|
        invariant bufs == old(bufs)[a := old(bufs)[a].(ids := bufs[a].ids)]
        invariant forall i :: i in bufs[a].ids <==> (i in old(bufs)[a].ids) != (i in row && i < j)
        invariant forall i :: 0 <= i < |syms| ==>
                    syms[i] == if i < j then Toggled(old(syms), row, a)[i] else old(syms)[i]
      {
        if j in bufs[b].ids {
          if !syms[j].Inactivated? {
            assert j in bufs[a].ids;
            bufs := bufs[a := bufs[a].(ids := bufs[a].ids - {j})];
          } else if j !in bufs[a].ids {
            assert !Names(old(syms)[j], a);
            bufs := bufs[a := bufs[a].(ids := bufs[a].ids + {j})];
            syms := syms[j := Inactivated(syms[j].bufs + {a})];
          } else {
            assert Names(old(syms)[j], a);
            bufs := bufs[a := bufs[a].(ids := bufs[a].ids - {j})];
            syms := syms[j := Inactivated(syms[j].bufs - {a})];
          }
        }
      }
      assert bufs[a].ids == SymDiff(old(bufs)[a].ids, row);
      assert syms == Toggled(old(syms), row, a);
    }

    /** Lowers a buffer's weight by one and files it again. */
    method DecrementBufferWeight(a: nat)
      requires HeapsValid()
      requires a < |bufs| && a in activeUsable.contents && activeUsable.contents[a] == bufs[a].weight
      requires a !in inactivated.contents && bufs[a].weight != 0
      modifies this`bufs, this`redundant, activeUsable, inactivated
      ensures HeapsValid()
      ensures St() == Refiled(old(St()), a, old(bufs)[a].ids)
      ensures redundant >= old(redundant)
    {
      bufs := bufs[a := bufs[a].(weight := bufs[a].weight - 1)];
      if bufs[a].weight > 0 {
        activeUsable.Update(a, bufs[a].weight);
        return;
      }
      var w := activeUsable.Remove(a);
      assert w == 1;
      if |bufs[a].ids| > 0 {
        inactivated.Insert(a, |bufs[a].ids|);
      } else {
        redundant := redundant + 1;
      }
    }

    /** Mirrors a row addition on the payloads. */
    method XorPayload(bs: BufferSet, a: nat, b: nat)
      requires bs.Valid() && bs.numTemp == params.s + params.h
      requires a < |bs.buffers| && b < |bs.buffers| && a != b
      modifies bs
      ensures bs.Valid()
      ensures bs.buffers == old(bs.buffers)[a := Xor(old(bs.buffers)[a], old(bs.buffers)[b])]
    {
      bs.XorBuffers(ToBufferId(a), ToBufferId(b));
    }

    // ---- peeling ----

    /** Hands the active symbol of usable buffer `r` over to it. */
    method UseActive(r: nat) returns (s: nat, reducees: set<nat>)
      requires HeapsValid() && Inv(St())
      requires r in activeUsable.contents && activeUsable.contents[r] == 1
      modifies this`bufs, this`syms, activeUsable
      ensures HeapsValid() && MidPeel(St(), r, s, reducees - {r})
      ensures RowsOf(bufs) == old(RowsOf(bufs)) && |syms| == |old(syms)|
      ensures |Unused(syms)| == |Unused(old(syms))| - 1
      ensures forall i :: i in reducees ==> i < |bufs|
      ensures SteadyFrom(old(RowsOf(bufs)), old(syms))
    {
      var w := activeUsable.Remove(r);
      UsableHasActive(old(St()), r);
      s := FirstActive(r);
      bufs := bufs[r := bufs[r].(used := true)];
      reducees := syms[s].bufs;
      syms := syms[s := Used(r)];
      assert St() == PeelStart(old(St()), r, s);
      PeelStartMid(old(St()), r, s);
      UsedUnused(old(syms), s, r);
      UsedSteady(RowsOf(bufs), old(syms), s, r);
    }

    /** Reduces buffer `a` by the used buffer `r` of symbol `s`. */
    method PeelReduce(bs: BufferSet, r: nat, s: nat, a: nat, ghost stale: set<nat>)
      requires Shape(bs) && MidPeel(St(), r, s, stale) && a in stale
      modifies this`bufs, this`syms, this`redundant, activeUsable, inactivated, bs
      ensures Shape(bs) && MidPeel(St(), r, s, stale - {a})
      ensures |bufs| == |old(bufs)| && Unused(syms) == Unused(old(syms))
      ensures Equivalent(bs, old(RowsOf(bufs)), old(bs.buffers))
      ensures SteadyFrom(old(RowsOf(bufs)), old(syms))
      ensures redundant >= old(redundant)
    {
      hide MidPeel;
      hide SameSolutions;
      hide BufferWeightMap.Valid;
      hide Incidence;
      hide Reducer;
      hide Steady;
      MidPeelReducer(St(), r, s, stale, a);
      AddedSteady(bufs, syms, a, r, stale, s);
      XorRow(a, r, stale, s);
      DecrementBufferWeight(a);
      XorPayload(bs, a, r);
      PeelStepSplit(old(St()), r, a);
      PeelStepMid(old(St()), r, s, stale, a);
      PeelStepRows(old(St()), r, a);
      RowAddition(old(RowsOf(bufs)), old(bs.buffers), a, r, params.L(), bs.symbolLen);
      ToggledUnused(old(syms), old(bufs)[r].ids, a);
    }

    /** One round of peeling. */
    method PeelOne(bs: BufferSet, r: nat)
      requires Valid(bs) && r in activeUsable.contents && activeUsable.contents[r] == 1
      modifies this, activeUsable, inactivated, bs
      ensures Valid(bs) && |bufs| == |old(bufs)|
      ensures |Unused(syms)| < |Unused(old(syms))|
      ensures Equivalent(bs, old(RowsOf(bufs)), old(bs.buffers))
      ensures SteadyFrom(old(RowsOf(bufs)), old(syms))
      ensures redundant >= old(redundant)
    {
      hide Inv;
      hide MidPeel;
      hide SameSolutions;
      hide Steady;
      hide BufferWeightMap.Valid;
      var s, reducees := UseActive(r);
      ghost var was := syms;
      PeelAll(bs, r, s, reducees);
      SteadyTrans(old(RowsOf(bufs)), old(syms), old(RowsOf(bufs)), was, RowsOf(bufs), syms);
      CountPeeled(r, s);
    }

    /** Reduces every other buffer that lists `s`. */
    method PeelAll(bs: BufferSet, r: nat, s: nat, reducees: set<nat>)
      requires Shape(bs) && MidPeel(St(), r, s, reducees - {r})
      requires forall i :: i in reducees ==> i < |bufs|
      modifies this`bufs, this`syms, this`redundant, activeUsable, inactivated, bs
      ensures Shape(bs) && MidPeel(St(), r, s, {})
      ensures |bufs| == |old(bufs)| && Unused(syms) == Unused(old(syms))
      ensures Equivalent(bs, old(RowsOf(bufs)), old(bs.buffers))
      ensures SteadyFrom(old(RowsOf(bufs)), old(syms))
      ensures redundant >= old(redundant)
    {
      hide MidPeel;
      hide Solves;
      hide BufferWeightMap.Valid;
      SteadySame(RowsOf(bufs), syms);
      hide Steady;
      FromEnds(reducees - {r}, |bufs|);
      for a := 0 to |bufs|
        invariant Shape(bs) && |bufs| == |old(bufs)|
        invariant redundant >= old(redundant)
        invariant MidPeel(St(), r, s, From(reducees - {r}, a))
        invariant Unused(syms) == Unused(old(syms))
        invariant Equivalent(bs, old(RowsOf(bufs)), old(bs.buffers))
        invariant SteadyFrom(old(RowsOf(bufs)), old(syms))
      {
        PeelVisit(bs, r, s, a, reducees, old(RowsOf(bufs)), old(bs.buffers), old(syms));
      }
    }

    /** Counts symbol `s` when its buffer holds nothing else. */
    method CountPeeled(r: nat, s: nat)
      requires r < |bufs| && MidPeel(St(), r, s, {})
      modifies this`paired
      ensures Inv(St())
    {
      hide Inv;
      hide MidPeel;
      PeelEnd(St(), r, s);
      ghost var st := St();
      if |bufs[r].ids| == 1 && s < params.k {
        paired := paired + 1;
      }
      assert St() == st.(paired := st.paired + Bit(|bufs[r].ids| == 1 && s < params.k));
    }

    /** The ascending pass of a peel reaches buffer `a`. */
    method PeelVisit(bs: BufferSet, r: nat, s: nat, a: nat, reducees: set<nat>, ghost rows: seq<set<nat>>, ghost pay: seq<Payload>,
                     ghost was: seq<Symbol>)
      requires Shape(bs) && MidPeel(St(), r, s, From(reducees - {r}, a))
      requires Equivalent(bs, rows, pay) && SteadyFrom(rows, was)
      modifies this`bufs, this`syms, this`redundant, activeUsable, inactivated, bs
      ensures Shape(bs) && MidPeel(St(), r, s, From(reducees - {r}, a + 1))
      ensures |bufs| == |old(bufs)| && Unused(syms) == Unused(old(syms))
      ensures Equivalent(bs, rows, pay) && SteadyFrom(rows, was)
      ensures redundant >= old(redundant)
    {
      hide Steady;
      FromStep(reducees - {r}, a);
      if a in reducees && a != r {
        PeelReduce(bs, r, s, a, From(reducees - {r}, a));
        SteadyTrans(rows, was, old(RowsOf(bufs)), old(syms), RowsOf(bufs), syms);
        SameSolutionsTrans(rows, pay, old(RowsOf(bufs)), old(bs.buffers), RowsOf(bufs), bs.buffers, params.L(), bs.symbolLen);
      } else {
        assert From(reducees - {r}, a) - {a} == From(reducees - {r}, a);
      }
    }

    method TryPeel(bs: BufferSet) returns (progress: bool)
      requires Valid(bs)
      modifies this, activeUsable, inactivated, bs
      ensures Valid(bs) && |bufs| == |old(bufs)|
      ensures Equivalent(bs, old(RowsOf(bufs)), old(bs.buffers))
      ensures SteadyFrom(old(RowsOf(bufs)), old(syms))
      ensures progress ==> |Unused(syms)| < |Unused(old(syms))|
      ensures !progress ==> St() == old(St()) && bs.buffers == old(bs.buffers)
      ensures Done() || !HasOne(activeUsable.contents)
      ensures redundant >= old(redundant)
    {
      hide Inv;
      hide Solves;
      hide BufferWeightMap.Valid;
      SteadySame(RowsOf(bufs), syms);
      hide Steady;
      progress := false;
      while !Done()
        invariant Valid(bs) && |bufs| == |old(bufs)|
        invariant redundant >= old(redundant)
        invariant Equivalent(bs, old(RowsOf(bufs)), old(bs.buffers))
        invariant SteadyFrom(old(RowsOf(bufs)), old(syms))
        invariant if progress then |Unused(syms)| < |Unused(old(syms))| else St() == old(St()) && bs.buffers == old(bs.buffers)
        decreases |Unused(syms)|
      {
        var r, w, ok := activeUsable.PeekMin();
        if !ok || w != 1 {
          break;
        }
        ghost var rows, was := RowsOf(bufs), syms;
        PeelOne(bs, r);
        SteadyTrans(old(RowsOf(bufs)), old(syms), rows, was, RowsOf(bufs), syms);
        progress := true;
      }
    }

    // ---- reactivation ----

    /** The lowest symbol of a row. */
    method First(ids: set<nat>, n: nat) returns (s: nat)
      requires ids != {} && forall j :: j in ids ==> j < n
      ensures s in ids && forall j :: j in ids ==> s <= j
    {
      for j := 0 to n
        invariant forall i :: i in ids ==> j <= i
      {
        if j in ids {
          return j;
        }
      }
      assert false;
    }

    /** Hands the only symbol of inactivated buffer `r` over to it. */
    method UseInactivated(r: nat) returns (s: nat, reducees: set<nat>)
      requires HeapsValid() && Inv(St())
      requires r in inactivated.contents && inactivated.contents[r] == 1
      modifies this`bufs, this`syms, inactivated
      ensures HeapsValid() && MidReact(St(), r, s, reducees - {r})
      ensures RowsOf(bufs) == old(RowsOf(bufs)) && |syms| == |old(syms)|
      ensures |Unused(syms)| == |Unused(old(syms))| - 1
      ensures forall i :: i in reducees ==> i < |bufs|
      ensures SteadyFrom(old(RowsOf(bufs)), old(syms))
    {
      hide Inv;
      hide MidReact;
      hide BufferWeightMap.Valid;
      ReactivatableRow(St(), r);
      var w := inactivated.Remove(r);
      s := First(bufs[r].ids, |syms|);
      SingletonSet(bufs[r].ids, s);
      ReactStartMid(old(St()), r, s);
      bufs := bufs[r := bufs[r].(weight := 1, used := true)];
      reducees := syms[s].bufs;
      syms := syms[s := Used(r)];
      assert St() == ReactStart(old(St()), r, s);
      UsedUnused(old(syms), s, r);
      UsedSteady(RowsOf(bufs), old(syms), s, r);
    }

    /** Drops symbol `s` from buffer `a`. */
    method ReactReduce(bs: BufferSet, r: nat, s: nat, a: nat, ghost stale: set<nat>)
      requires Shape(bs) && MidReact(St(), r, s, stale) && a in stale
      modifies this`bufs, this`redundant, this`paired, inactivated, bs
      ensures Shape(bs) && MidReact(St(), r, s, stale - {a})
      ensures |bufs| == |old(bufs)|
      ensures Equivalent(bs, old(RowsOf(bufs)), old(bs.buffers))
      ensures SteadyFrom(old(RowsOf(bufs)), old(syms))
      ensures redundant >= old(redundant)
    {
      hide MidReact;
      hide SameSolutions;
      hide BufferWeightMap.Valid;
      hide Steady;
      MidReactReducer(St(), r, s, stale, a);
      MidReactUsed(St(), r, s, stale);
      DroppedSteady(RowsOf(bufs), syms, a, s);
      ReactStepMid(St(), r, s, stale, a);
      DropSymbol(s, a);
      XorPayload(bs, a, r);
      RowAddition(old(RowsOf(bufs)), old(bs.buffers), a, r, params.L(), bs.symbolLen);
    }

    method DropSymbol(s: nat, a: nat)
      requires HeapsValid() && a < |bufs| && s in bufs[a].ids && forall j :: j in bufs[a].ids ==> j < |syms|
      requires bufs[a].weight == 0 ==> a in inactivated.contents
      requires bufs[a].used ==> bufs[a].weight == 1
      modifies this`bufs, this`redundant, this`paired, inactivated
      ensures HeapsValid() && St() == ReactStep(old(St()), s, a)
      ensures redundant >= old(redundant)
    {
      bufs := bufs[a := bufs[a].(ids := bufs[a].ids - {s})];
      if bufs[a].weight == 0 {
        if |bufs[a].ids| > 0 {
          inactivated.Update(a, |bufs[a].ids|);
        } else {
          var w := inactivated.Remove(a);
          redundant := redundant + 1;
        }
      }
      if bufs[a].weight == 1 && bufs[a].used && |bufs[a].ids| == 1 {
        var u := First(bufs[a].ids, |syms|);
        SingletonSet(bufs[a].ids, u);
        if u < params.k {
          paired := paired + 1;
        }
      }
    }

    /** The ascending pass of a reactivation reaches buffer `a`. */
    method ReactVisit(bs: BufferSet, r: nat, s: nat, a: nat, reducees: set<nat>, ghost rows: seq<set<nat>>, ghost pay: seq<Payload>,
                     ghost was: seq<Symbol>)
      requires Shape(bs) && MidReact(St(), r, s, From(reducees - {r}, a))
      requires Equivalent(bs, rows, pay) && SteadyFrom(rows, was)
      modifies this`bufs, this`redundant, this`paired, inactivated, bs
      ensures Shape(bs) && MidReact(St(), r, s, From(reducees - {r}, a + 1))
      ensures |bufs| == |old(bufs)|
      ensures Equivalent(bs, rows, pay) && SteadyFrom(rows, was)
      ensures redundant >= old(redundant)
    {
      hide MidReact;
      hide SameSolutions;
      hide BufferWeightMap.Valid;
      hide Steady;
      FromStep(reducees - {r}, a);
      if a in reducees && a != r {
        ReactReduce(bs, r, s, a, From(reducees - {r}, a));
        SteadyTrans(rows, was, old(RowsOf(bufs)), old(syms), RowsOf(bufs), syms);
        SameSolutionsTrans(rows, pay, old(RowsOf(bufs)), old(bs.buffers), RowsOf(bufs), bs.buffers, params.L(), bs.symbolLen);
      } else {
        assert From(reducees - {r}, a) - {a} == From(reducees - {r}, a);
      }
    }

    method ReactAll(bs: BufferSet, r: nat, s: nat, reducees: set<nat>)
      requires Shape(bs) && MidReact(St(), r, s, reducees - {r})
      requires forall i :: i in reducees ==> i < |bufs|
      modifies this`bufs, this`redundant, this`paired, inactivated, bs
      ensures Shape(bs) && MidReact(St(), r, s, {})
      ensures |bufs| == |old(bufs)|
      ensures Equivalent(bs, old(RowsOf(bufs)), old(bs.buffers))
      ensures SteadyFrom(old(RowsOf(bufs)), old(syms))
      ensures redundant >= old(redundant)
    {
      hide MidReact;
      hide Solves;
      hide BufferWeightMap.Valid;
      SteadySame(RowsOf(bufs), syms);
      hide Steady;
      FromEnds(reducees - {r}, |bufs|);
      for a := 0 to |bufs|
        invariant Shape(bs) && |bufs| == |old(bufs)|
        invariant redundant >= old(redundant)
        invariant MidReact(St(), r, s, From(reducees - {r}, a))
        invariant Equivalent(bs, old(RowsOf(bufs)), old(bs.buffers))
        invariant SteadyFrom(old(RowsOf(bufs)), old(syms))
      {
        ReactVisit(bs, r, s, a, reducees, old(RowsOf(bufs)), old(bs.buffers), old(syms));
      }
    }

    method CountReactivated(r: nat, s: nat)
      requires MidReact(St(), r, s, {})
      modifies this`paired
      ensures Inv(St())
    {
      hide Inv;
      hide MidReact;
      ReactEnd(St(), r, s);
      ghost var st := St();
      if s < params.k {
        paired := paired + 1;
      }
      assert St() == st.(paired := st.paired + Bit(s < params.k));
    }

    /** One round of reactivation. */
    method ReactOne(bs: BufferSet, r: nat)
      requires Valid(bs) && r in inactivated.contents && inactivated.contents[r] == 1
      modifies this, inactivated, bs
      ensures Valid(bs) && |bufs| == |old(bufs)|
      ensures |Unused(syms)| < |Unused(old(syms))|
      ensures Equivalent(bs, old(RowsOf(bufs)), old(bs.buffers))
      ensures SteadyFrom(old(RowsOf(bufs)), old(syms))
      ensures redundant >= old(redundant)
    {
      hide Inv;
      hide MidReact;
      hide SameSolutions;
      hide Steady;
      hide BufferWeightMap.Valid;
      var s, reducees := UseInactivated(r);
      ghost var was := syms;
      ReactAll(bs, r, s, reducees);
      SteadyTrans(old(RowsOf(bufs)), old(syms), old(RowsOf(bufs)), was, RowsOf(bufs), syms);
      CountReactivated(r, s);
    }

    method TryReactivateSymbols(bs: BufferSet) returns (progress: bool)
      requires Valid(bs)
      modifies this, inactivated, bs
      ensures Valid(bs) && |bufs| == |old(bufs)|
      ensures Equivalent(bs, old(RowsOf(bufs)), old(bs.buffers))
      ensures SteadyFrom(old(RowsOf(bufs)), old(syms))
      ensures progress ==> |Unused(syms)| < |Unused(old(syms))|
      ensures !progress ==> St() == old(St()) && bs.buffers == old(bs.buffers)
      ensures Done() || !HasOne(inactivated.contents)
      ensures redundant >= old(redundant)
    {
      hide Inv;
      hide Solves;
      hide BufferWeightMap.Valid;
      SteadySame(RowsOf(bufs), syms);
      hide Steady;
      progress := false;
      while !Done()
        invariant Valid(bs) && |bufs| == |old(bufs)|
        invariant redundant >= old(redundant)
        invariant Equivalent(bs, old(RowsOf(bufs)), old(bs.buffers))
        invariant SteadyFrom(old(RowsOf(bufs)), old(syms))
        invariant if progress then |Unused(syms)| < |Unused(old(syms))| else St() == old(St()) && bs.buffers == old(bs.buffers)
        decreases |Unused(syms)|
      {
        var r, w, ok := inactivated.PeekMin();
        if !ok || w != 1 {
          break;
        }
        ghost var rows, was := RowsOf(bufs), syms;
        ReactOne(bs, r);
        SteadyTrans(old(RowsOf(bufs)), old(syms), rows, was, RowsOf(bufs), syms);
        progress := true;
      }
    }

    // ---- inactivation ----

    /** Lowers the weight of every buffer that lists the inactivated symbol `s`. */
    method DiscountAll(s: nat, holders: set<nat>)
      requires HeapsValid() && MidInactivate(St(), s, holders)
      requires forall a :: a in holders ==> a < |bufs|
      modifies this`bufs, this`redundant, activeUsable, inactivated
      ensures HeapsValid() && MidInactivate(St(), s, {})
      ensures RowsOf(bufs) == old(RowsOf(bufs))
      ensures redundant >= old(redundant)
    {
      hide MidInactivate;
      hide BufferWeightMap.Valid;
      FromEnds(holders, |bufs|);
      for a := 0 to |bufs|
        invariant HeapsValid() && RowsOf(bufs) == old(RowsOf(bufs)) && |bufs| == |old(bufs)|
        invariant redundant >= old(redundant)
        invariant MidInactivate(St(), s, From(holders, a))
      {
        FromStep(holders, a);
        if a in holders {
          MidInactivateHolder(St(), s, From(holders, a), a);
          InactivateStepMid(St(), s, From(holders, a), a);
          DecrementBufferWeight(a);
        } else {
          assert From(holders, a) - {a} == From(holders, a);
        }
      }
    }

    method TryInactivateOneSymbol() returns (progress: bool)
      requires HeapsValid() && Inv(St())
      modifies this`bufs, this`syms, this`redundant, activeUsable, inactivated
      ensures HeapsValid() && Inv(St())
      ensures RowsOf(bufs) == old(RowsOf(bufs)) && |syms| == |old(syms)|
      ensures progress ==> Unused(syms) == Unused(old(syms)) && |Actives(syms)| < |Actives(old(syms))| && Actives(syms) <= Actives(old(syms))
      ensures !progress ==> St() == old(St())
      ensures !progress && activeUsable.contents != map[] ==> HasOne(activeUsable.contents)
      ensures redundant >= old(redundant)
    {
      hide Inv;
      hide MidInactivate;
      hide BufferWeightMap.Valid;
      var b, w, ok := activeUsable.PeekMin();
      if !ok || w <= 1 {
        return false;
      }
      UsableHasActive(St(), b);
      var s := FirstActive(b);
      var holders := syms[s].bufs;
      InactivateStartMid(St(), s);
      InactivatedActives(syms, s);
      syms := syms[s := Inactivated(holders)];
      DiscountAll(s, holders);
      InactivateEnd(St(), s);
      progress := true;
    }

    // ---- elimination among the inactivated buffers ----

    /** The symbols of the listed buffers, in ascending order. */
    method SymbolsOf(list: seq<nat>) returns (cols: seq<nat>)
      requires forall i :: 0 <= i < |list| ==> list[i] < |bufs|
      ensures Distinct(cols)
      ensures forall j :: j in cols <==> j < |syms| && exists b :: b in list && j in bufs[b].ids
    {
      cols := [];
      for j := 0 to |syms|
        invariant forall c :: 0 <= c < |cols| ==> cols[c] < j
        invariant Distinct(cols)
        invariant forall i :: i in cols <==> i < j && exists b :: b in list && i in bufs[b].ids
      {
        if exists b :: b in list && j in bufs[b].ids {
          cols := cols + [j];
        }
      }
    }

    /** The incidence matrix of the listed buffers and symbols. */
    method IncidenceMatrix(list: seq<nat>, cols: seq<nat>) returns (m: array2<bool>)
      requires forall i :: 0 <= i < |list| ==> list[i] < |bufs|
      requires forall i, j :: 0 <= i < |list| && j in bufs[list[i]].ids ==> j in cols
      ensures fresh(m) && m.Length0 == |list| && m.Length1 == |cols|
      ensures Mirrors(bufs, list, cols, Matrix.Rows(m))
    {
      m := new bool[|list|, |cols|];
      for i := 0 to |list|
        invariant forall h, c :: 0 <= h < i && 0 <= c < |cols| ==> m[h, c] == (cols[c] in bufs[list[h]].ids)
      {
        for j := 0 to |cols|
          invariant forall h, c :: 0 <= h < i && 0 <= c < |cols| ==> m[h, c] == (cols[c] in bufs[list[h]].ids)
          invariant forall c :: 0 <= c < j ==> m[i, c] == (cols[c] in bufs[list[i]].ids)
        {
          m[i, j] := cols[j] in bufs[list[i]].ids;
        }
      }
      forall i | 0 <= i < |list| ensures MirrorsRow(bufs[list[i]].ids, cols, Matrix.Rows(m)[i]) {
        var row := Matrix.Rows(m)[i];
        forall j | j in bufs[list[i]].ids ensures j in Mapped(row, cols) {
          assert j in cols;
          var c :| 0 <= c < |cols| && cols[c] == j;
          assert c in row;
        }
      }
    }

    /** One row operation of the elimination, on rows and payloads. */
    method EliminateStep(bs: BufferSet, a: nat, b: nat, ghost todo: set<nat>)
      requires Shape(bs) && MidGauss(St(), todo) && a in todo && b in todo && a != b
      modifies this`bufs, this`syms, bs
      ensures Shape(bs) && MidGauss(St(), todo)
      ensures a < |old(bufs)| && b < |old(bufs)| && bufs == AddRow(old(bufs), a, b)
      ensures Unused(syms) == Unused(old(syms)) && Actives(syms) == Actives(old(syms))
      ensures Equivalent(bs, old(RowsOf(bufs)), old(bs.buffers))
      ensures SteadyFrom(old(RowsOf(bufs)), old(syms))
    {
      hide MidGauss;
      hide SameSolutions;
      hide BufferWeightMap.Valid;
      hide Incidence;
      hide Reducer;
      hide Steady;
      GaussReducer(St(), todo, a, b);
      AddedSteady(bufs, syms, a, b, {}, |syms|);
      GaussStepMid(St(), todo, a, b);
      GaussStepRows(St(), a, b);
      ToggledUnused(syms, bufs[b].ids, a);
      XorRow(a, b, {}, |syms|);
      XorPayload(bs, a, b);
      assert St() == GaussStep(old(St()), a, b);
      RowAddition(old(RowsOf(bufs)), old(bs.buffers), a, b, params.L(), bs.symbolLen);
    }

    /** Performs one recorded row operation. */
    method EliminateOp(bs: BufferSet, list: seq<nat>, op: Matrix.RowOp, ghost cols: seq<nat>, ghost rows: seq<set<nat>>,
                       ghost rows0: seq<set<nat>>, ghost pay0: seq<Payload>, ghost was: seq<Symbol>)
      requires Shape(bs) && MidGauss(St(), Elements(list)) && Equivalent(bs, rows0, pay0) && SteadyFrom(rows0, was)
      requires Distinct(list) && Distinct(cols) && |rows| == |list| && Mirrors(bufs, list, cols, rows)
      requires op.i < |list| && op.j < |list| && op.i != op.j
      modifies this`bufs, this`syms, bs
      ensures Shape(bs) && MidGauss(St(), Elements(list)) && Equivalent(bs, rows0, pay0) && SteadyFrom(rows0, was)
      ensures Mirrors(bufs, list, cols, rows[op.i := SymDiff(rows[op.i], rows[op.j])])
      ensures |bufs| == |old(bufs)| && forall b :: 0 <= b < |bufs| && b !in list ==> bufs[b] == old(bufs)[b]
      ensures Unused(syms) == Unused(old(syms)) && Actives(syms) == Actives(old(syms))
    {
      hide MidGauss;
      hide SameSolutions;
      hide BufferWeightMap.Valid;
      hide Mirrors;
      hide Steady;
      MirrorsStep(bufs, list, cols, rows, op.i, op.j);
      EliminateStep(bs, list[op.i], list[op.j], Elements(list));
      SteadyTrans(rows0, was, old(RowsOf(bufs)), old(syms), RowsOf(bufs), syms);
      SameSolutionsTrans(rows0, pay0, old(RowsOf(bufs)), old(bs.buffers), RowsOf(bufs), bs.buffers, params.L(), bs.symbolLen);
    }

    /** Performs the recorded row operations, in order. */
    method EliminateRows(bs: BufferSet, list: seq<nat>, ops: seq<Matrix.RowOp>, ghost cols: seq<nat>, ghost rows: seq<set<nat>>)
      requires Shape(bs) && MidGauss(St(), Elements(list))
      requires Distinct(list) && Distinct(cols) && |rows| == |list| && Mirrors(bufs, list, cols, rows)
      requires Matrix.OpsInRange(ops, |list|)
      modifies this`bufs, this`syms, bs
      ensures Shape(bs) && MidGauss(St(), Elements(list))
      ensures Mirrors(bufs, list, cols, Matrix.Replay(rows, ops))
      ensures |bufs| == |old(bufs)| && forall b :: 0 <= b < |bufs| && b !in list ==> bufs[b] == old(bufs)[b]
      ensures Unused(syms) == Unused(old(syms)) && Actives(syms) == Actives(old(syms))
      ensures Equivalent(bs, old(RowsOf(bufs)), old(bs.buffers))
      ensures SteadyFrom(old(RowsOf(bufs)), old(syms))
    {
      hide MidGauss;
      hide Solves;
      hide BufferWeightMap.Valid;
      hide Mirrors;
      SteadySame(RowsOf(bufs), syms);
      hide Steady;
      for t := 0 to |ops|
        invariant Shape(bs) && MidGauss(St(), Elements(list))
        invariant Mirrors(bufs, list, cols, Matrix.Replay(rows, ops[..t]))
        invariant |bufs| == |old(bufs)| && forall b :: 0 <= b < |bufs| && b !in list ==> bufs[b] == old(bufs)[b]
        invariant Unused(syms) == Unused(old(syms)) && Actives(syms) == Actives(old(syms))
        invariant Equivalent(bs, old(RowsOf(bufs)), old(bs.buffers))
        invariant SteadyFrom(old(RowsOf(bufs)), old(syms))
      {
        Matrix.ReplaySnoc(rows, ops[..t], ops[t]);
        assert ops[..t + 1] == ops[..t] + [ops[t]];
        EliminateOp(bs, list, ops[t], cols, Matrix.Replay(rows, ops[..t]), old(RowsOf(bufs)), old(bs.buffers), old(syms));
      }
      assert ops[..|ops|] == ops;
    }

    /** Files every listed buffer again. */
    method RefileAll(list: seq<nat>)
      requires HeapsValid() && MidGauss(St(), Elements(list)) && Distinct(list)
      modifies this`redundant, inactivated
      ensures HeapsValid() && Inv(St())
    {
      hide MidGauss;
      hide Inv;
      hide BufferWeightMap.Valid;
      assert list[0..] == list;
      for t := 0 to |list|
        invariant HeapsValid() && MidGauss(St(), Elements(list[t..]))
      {
        var b := list[t];
        ElementsTail(list, t);
        GaussRefileMid(St(), Elements(list[t..]), b);
        if |bufs[b].ids| > 0 {
          inactivated.Update(b, |bufs[b].ids|);
        } else {
          var w := inactivated.Remove(b);
          redundant := redundant + 1;
        }
      }
      assert Elements(list[|list|..]) == {};
      GaussEnd(St());
    }

    /** Eliminates the symbols `cols` among the inactivated buffers `list`. */
    method Eliminate(bs: BufferSet, list: seq<nat>, cols: seq<nat>)
      requires Valid(bs) && Distinct(list) && Distinct(cols) && Elements(list) == inactivated.contents.Keys
      requires forall i :: 0 <= i < |list| ==> list[i] < |bufs|
      requires forall i, j :: 0 <= i < |list| && j in bufs[list[i]].ids ==> j in cols
      requires 0 < |cols| <= |list|
      modifies this, inactivated, bs
      ensures Valid(bs) && |bufs| == |old(bufs)|
      ensures Unused(syms) == Unused(old(syms)) && Actives(syms) == Actives(old(syms))
      ensures Equivalent(bs, old(RowsOf(bufs)), old(bs.buffers))
      ensures SteadyFrom(old(RowsOf(bufs)), old(syms))
      ensures redundant >= old(redundant) && (HasOne(inactivated.contents) || redundant > old(redundant))
    {
      hide Inv;
      hide MidGauss;
      hide SameSolutions;
      hide BufferWeightMap.Valid;
      hide Mirrors;
      hide Steady;
      hide HasOne;
      hide Distinct;
      hide Matrix.OpsInRange;
      hide Matrix.Reduced;
      hide Unused;
      hide Actives;
      hide RowsOf;
      var m := IncidenceMatrix(list, cols);
      ghost var rows := Matrix.Rows(m);
      var ops, rank, full := Matrix.EliminateFullPivot(m);
      GaussStart(St());
      EliminateRows(bs, list, ops, cols, rows);
      EliminationProgress(bufs, list, cols, Matrix.Rows(m), rank);
      LaggingWeights(St(), Elements(list));
      RefileAll(list);
      EliminationOutcome(old(St()), St(), list);
    }

    method TryInactiveGaussian(bs: BufferSet) returns (progress: bool)
      requires Valid(bs)
      modifies this, inactivated, bs
      ensures Valid(bs) && |bufs| == |old(bufs)|
      ensures Unused(syms) == Unused(old(syms)) && Actives(syms) == Actives(old(syms))
      ensures Equivalent(bs, old(RowsOf(bufs)), old(bs.buffers))
      ensures SteadyFrom(old(RowsOf(bufs)), old(syms))
      ensures progress ==> HasOne(inactivated.contents) || redundant > old(redundant)
      ensures !progress ==> St() == old(St()) && bs.buffers == old(bs.buffers) && Stalled(St())
      ensures redundant >= old(redundant)
    {
      hide Inv;
      hide Solves;
      hide BufferWeightMap.Valid;
      SteadySame(RowsOf(bufs), syms);
      hide Steady;
      var b, w, ok := inactivated.PeekMin();
      if !ok {
        return false;
      }
      if w == 1 {
        return true;
      }
      var list := inactivated.Enumerate();
      assert Elements(list) == inactivated.contents.Keys;
      forall i | 0 <= i < |list| ensures list[i] < |bufs| && bufs[list[i]].ids != {} && forall j :: j in bufs[list[i]].ids ==> j < |syms| {
        GaussBuffer(St(), list[i]);
      }
      var cols := SymbolsOf(list);
      SpannedCount(bufs, inactivated.contents, |syms|, list, cols);
      if |list| < |cols| {
        return false;
      }
      Eliminate(bs, list, cols);
      progress := true;
    }

    // ---- the decode loop ----

    /** Nothing is left to peel, reactivate, eliminate or inactivate. */
    ghost predicate Stuck()
      reads this, activeUsable, inactivated
    {
      activeUsable.contents == map[] && Stalled(St())
    }

    /** Runs reactivation, peeling, elimination and inactivation until every source symbol is
        recovered or nothing is left to try. */
    method TryDecode(bs: BufferSet, threshold: nat) returns (done: bool)
      requires Valid(bs) && params.k <= threshold
      modifies this, activeUsable, inactivated, bs
      ensures Valid(bs) && |bufs| == |old(bufs)|
      ensures Equivalent(bs, old(RowsOf(bufs)), old(bs.buffers))
      ensures done <==> Done()
      ensures !done && threshold <= |old(bufs)| - old(redundant) ==> Stuck()
      ensures !done ==> !HasOne(activeUsable.contents) && !HasOne(inactivated.contents)
      ensures NarrowedFrom(old(RowsOf(bufs)), old(syms), threshold <= |old(bufs)| - old(redundant))
      ensures redundant >= old(redundant)
    {
      hide Inv;
      hide SameSolutions;
      hide HasOne;
      hide Stalled;
      hide Actives;
      hide Unused;
      hide RowsOf;
      hide BufferSet.Valid;
      hide BufferWeightMap.Valid;
      var tryHarder := threshold <= |bufs| - redundant;
      var op := Reactivate;
      SameSolutionsRefl(RowsOf(bufs), bs.buffers, params.L(), bs.symbolLen);
      SteadySame(RowsOf(bufs), syms);
      SteadyNarrowed(RowsOf(bufs), syms, RowsOf(bufs), syms, tryHarder);
      hide Steady;
      hide Narrowed;
      while !Done() && op != Finished
        invariant Valid(bs) && |bufs| == |old(bufs)|
        invariant redundant >= old(redundant)
        invariant Equivalent(bs, old(RowsOf(bufs)), old(bs.buffers))
        invariant NarrowedFrom(old(RowsOf(bufs)), old(syms), tryHarder)
        invariant op != Reactivate ==> Done() || !HasOne(inactivated.contents)
        invariant op != Reactivate && op != Peeling ==> Done() || !HasOne(activeUsable.contents)
        invariant op == InactivateSymbol ==> Stalled(St())
        invariant op == Finished && tryHarder ==> Stuck()
        decreases |Unused(syms)|, |Actives(syms)|, |bufs| - redundant, Bit(!HasOne(inactivated.contents)), op.Rank()
      {
        RedundantBound(St());
        ghost var rows, pay, was := RowsOf(bufs), bs.buffers, syms;
        SameSolutionsRefl(rows, pay, params.L(), bs.symbolLen);
        SteadySame(rows, was);
        SteadyNarrowed(rows, was, rows, was, tryHarder);
        var progress;
        match op {
          case Reactivate =>
            progress := TryReactivateSymbols(bs);
            SteadyNarrowed(rows, was, RowsOf(bufs), syms, tryHarder);
            op := Peeling;
          case Peeling =>
            progress := TryPeel(bs);
            SteadyNarrowed(rows, was, RowsOf(bufs), syms, tryHarder);
            op := if progress then Reactivate else MaybeInactiveGaussian;
          case MaybeInactiveGaussian =>
            if !tryHarder {
              op := Finished;
            } else {
              progress := TryInactiveGaussian(bs);
              SteadyNarrowed(rows, was, RowsOf(bufs), syms, tryHarder);
              op := if progress then Reactivate else InactivateSymbol;
            }
          case InactivateSymbol =>
            if !tryHarder {
              op := Finished;
            } else {
              progress := TryInactivateOneSymbol();
              InactivatedNarrowed(rows, was, syms);
              op := if progress then Reactivate else Finished;
            }
        }
        SameSolutionsTrans(old(RowsOf(bufs)), old(bs.buffers), rows, pay, RowsOf(bufs), bs.buffers, params.L(), bs.symbolLen);
        NarrowedTrans(old(RowsOf(bufs)), old(syms), rows, was, RowsOf(bufs), syms, tryHarder);
      }
      done := Done();
    }

    // ---- receiving ----

    /** The row of a new encoded symbol: its symbols, how many of them are live, and the used buffers
        to reduce it by. */
    method ReceiveRow(id: nat) returns (ids: set<nat>, w: nat, used: seq<nat>, ghost us: seq<nat>)
      requires params.Valid() && |syms| == params.L() && id < MAX_TRIPLES
      ensures ids == LtRow(params, id)
      ensures Distinct(us) && MidReceive(syms, ids, w, Elements(us))
      ensures |used| == |us| && forall t :: 0 <= t < |us| ==> us[t] < |syms| && syms[us[t]] == Used(used[t])
    {
      hide Params.Valid;
      hide MidReceive;
      hide LtRow;
      var symbols := LtSequence(params, id);
      ids, w, used, us := {}, 0, [], [];
      assert Elements(us) == {};
      ReceiveNothing(syms);
      for t := 0 to |symbols|
        invariant forall v :: v in ids <==> v in symbols[..t]
        invariant forall i :: 0 <= i < |us| ==> us[i] in symbols[..t]
        invariant Distinct(us) && MidReceive(syms, ids, w, Elements(us))
        invariant |used| == |us| && forall i :: 0 <= i < |us| ==> us[i] < |syms| && syms[us[i]] == Used(used[i])
      {
        var j := symbols[t];
        assert j in symbols;
        assert symbols[..t + 1] == symbols[..t] + [j];
        ReceiveAppend(syms, ids, w, Elements(us), j);
        ids := ids + {j};
        w := w + Bit(!syms[j].Inactivated?);
        if syms[j].Used? {
          assert Elements(us + [j]) == Elements(us) + {j};
          used, us := used + [syms[j].buf], us + [j];
        }
      }
      assert symbols[..|symbols|] == symbols;
      assert ids == Elements(symbols);
    }

    /** Reduces the new row, and its payload, by the used buffers. */
    method ReceiveReduce(bs: BufferSet, ids0: set<nat>, w0: nat, used: seq<nat>, ghost us: seq<nat>) returns (ids: set<nat>, w: nat)
      requires Inv(St()) && bs.Valid() && |bs.buffers| == |bufs| + 1 && bs.numTemp == params.s + params.h
      requires Distinct(us) && MidReceive(syms, ids0, w0, Elements(us))
      requires |used| == |us| && forall t :: 0 <= t < |us| ==> us[t] < |syms| && syms[us[t]] == Used(used[t])
      modifies bs
      ensures bs.Valid() && |bs.buffers| == |bufs| + 1
      ensures MidReceive(syms, ids, w, {}) && ids * Actives(syms) == ids0 * Actives(syms)
      ensures SameSolutions(RowsOf(bufs) + [ids0], old(bs.buffers), RowsOf(bufs) + [ids], bs.buffers, params.L(), bs.symbolLen)
    {
      hide Inv;
      hide MidReceive;
      hide Solves;
      hide Distinct;
      ids, w := ids0, w0;
      ghost var n, rows := |bufs|, RowsOf(bufs);
      assert us[0..] == us;
      for t := 0 to |used|
        invariant bs.Valid() && |bs.buffers| == |bufs| + 1
        invariant MidReceive(syms, ids, w, Elements(us[t..])) && ids * Actives(syms) == ids0 * Actives(syms)
        invariant SameSolutions(rows + [ids0], old(bs.buffers), rows + [ids], bs.buffers, params.L(), bs.symbolLen)
      {
        ElementsTail(us, t);
        ReceiveStepInv(St(), ids, w, Elements(us[t..]), us[t]);
        UsedInactive(St(), us[t]);
        DiffActive(ids, bufs[used[t]].ids, Actives(syms));
        ghost var midRows, midPay := rows + [ids], bs.buffers;
        ids := SymDiff(ids, bufs[used[t]].ids);
        w := w - 1;
        XorPayload(bs, |bufs|, used[t]);
        RowAddition(midRows, midPay, n, used[t], params.L(), bs.symbolLen);
        assert midRows[n := ids] == rows + [ids];
        SameSolutionsTrans(rows + [ids0], old(bs.buffers), midRows, midPay, rows + [ids], bs.buffers, params.L(), bs.symbolLen);
      }
      assert Elements(us[|us|..]) == {};
    }

    /** Links the reduced row into the symbol lists and files it. */
    method Link(ids: set<nat>, w: nat)
      requires HeapsValid() && Inv(St()) && MidReceive(syms, ids, w, {})
      modifies this`bufs, this`syms, this`redundant, activeUsable, inactivated
      ensures HeapsValid() && St() == ReceiveEnd(old(St()), ids, w)
    {
      hide Inv;
      hide MidReceive;
      hide BufferWeightMap.Valid;
      NewBufferUnfiled(St());
      ReceiveUnused(St(), ids, w);
      var n := |bufs|;
      for j := 0 to |syms|
        modifies this`syms
        invariant |syms| == |old(syms)|
        invariant forall i :: 0 <= i < |syms| ==> syms[i] == if i < j then Pushed(old(syms), ids, n)[i] else old(syms)[i]
      {
        if j in ids {
          syms := syms[j := Push(syms[j], n)];
        }
      }
      assert syms == Pushed(old(syms), ids, n);
      bufs := bufs + [Buffer(ids, w, false)];
      if w > 0 {
        activeUsable.Insert(n, w);
      } else if |ids| > 0 {
        inactivated.Insert(n, |ids|);
      } else {
        redundant := redundant + 1;
      }
    }

    /** Registers an encoded symbol whose payload is the last buffer. */
    method ReceivedEncodedSymbol(bs: BufferSet, id: nat)
      requires params.Valid() && HeapsValid() && |syms| == params.L() && Inv(St())
      requires bs.Valid() && |bs.buffers| == |bufs| + 1 && bs.numTemp == params.s + params.h
      requires id < MAX_TRIPLES && |bufs| < MAX_BUFFERS
      modifies this, activeUsable, inactivated, bs
      ensures Valid(bs) && |bufs| == |old(bufs)| + 1
      ensures Equivalent(bs, old(RowsOf(bufs)) + [LtRow(params, id)], old(bs.buffers))
      ensures SteadyFrom(old(RowsOf(bufs)) + [LtRow(params, id)], old(syms))
    {
      hide Inv;
      hide MidReceive;
      hide SameSolutions;
      hide BufferWeightMap.Valid;
      hide Params.Valid;
      hide LtRow;
      hide Distinct;
      var ids0, w0, used, us := ReceiveRow(id);
      var ids, w := ReceiveReduce(bs, ids0, w0, used, us);
      ReceiveEndInv(St(), ids, w);
      ReceivedSteady(St(), ids, w, ids0);
      hide Steady;
      Link(ids, w);
      assert RowsOf(bufs) == old(RowsOf(bufs)) + [ids];
    }

    /** The buffer that holds source symbol `i` alone, if it is recovered. */
    function SourceSymbolToBufferId(i: nat): (id: Option<BufferId>)
      requires Inv(St())
      reads this, activeUsable, inactivated
      ensures id.Some? <==> i in PairedSources(params.k, bufs, syms)
      ensures id.Some? ==> id.value == ToBufferId(syms[i].buf)
    {
      if i >= params.k then None
      else if !syms[i].Used? then None
      else
        assert Names(syms[i], syms[i].buf);
        if |bufs[syms[i].buf].ids| != 1 then None
        else
          SingletonSet(bufs[syms[i].buf].ids, i);
          Some(ToBufferId(syms[i].buf))
    }
  }
}
