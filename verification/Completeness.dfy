/** When the decoder gives up, the received symbols really do not determine the source block. */
module Completeness {
  import opened Gf2
  import opened DecoderState
  import opened RaptorCode
  import opened Elimination

  /** Parity against a set enlarged by indices of which the row holds at most `s`. */
  lemma {:induction false} OddMeetsOne(row: set<nat>, z: set<nat>, extra: set<nat>, s: nat, k: nat)
    requires z !! extra
    requires forall j :: j in row && j in extra ==> j == s
    ensures Odd(row, z + extra, k) == (Odd(row, z, k) != (s in row && s in extra && s < k))
  {
    if k != 0 {
      OddMeetsOne(row, z, extra, s, k - 1);
    }
  }

  ghost function Inactives(syms: seq<Symbol>): set<nat> {
    set j: nat | j < |syms| && syms[j].Inactivated?
  }

  /** The filed rows as a sequence. */
  lemma {:induction false} RowList(bufs: seq<Buffer>, keys: set<nat>) returns (rows: seq<set<nat>>)
    requires forall b :: b in keys ==> b < |bufs|
    ensures |rows| == |keys|
    ensures forall b :: b in keys ==> bufs[b].ids in rows
    decreases |keys|
  {
    if keys == {} {
      rows := [];
    } else {
      var b :| b in keys;
      var rest := RowList(bufs, keys - {b});
      rows := rest + [bufs[b].ids];
      forall c | c in keys ensures bufs[c].ids in rows {
        if c == b {
          assert rows[|rest|] == bufs[b].ids;
        } else {
          assert c in keys - {b};
        }
      }
    }
  }

  /** With nothing left to peel, every row is empty, filed as inactivated, or used. */
  lemma StuckRow(st: State, i: nat)
    requires Inv(st) && st.activeUsable == map[] && i < |st.bufs|
    ensures st.bufs[i].used || st.bufs[i].ids == {} || i in st.inactivated
  {}

  /** An active symbol that no buffer lists is free. */
  lemma ActiveFree(st: State, j: nat, i: nat)
    requires Inv(st) && st.activeUsable == map[] && j < |st.syms| && st.syms[j].Active? && i < |st.bufs|
    ensures j !in st.bufs[i].ids
  {
    if j in st.bufs[i].ids {
      assert Names(st.syms[j], i);
      ActiveHolderUnused(st.bufs, st.syms, j, i);
    }
  }

  /** With every symbol used, every source symbol is recovered. */
  lemma AllUsedAllPaired(st: State)
    requires Inv(st) && forall j :: 0 <= j < |st.syms| ==> st.syms[j].Used?
    ensures st.paired == st.numSource
  {
    forall j: nat | j < st.numSource ensures j in PairedSources(st.numSource, st.bufs, st.syms) {
      var i := st.syms[j].buf;
      var s := UsedRow(st.bufs, st.syms, i);
      assert Names(st.syms[j], i);
      forall u | u in st.bufs[i].ids ensures u == j {
        assert u in Live(st.bufs[i].ids, st.syms) && j in Live(st.bufs[i].ids, st.syms);
      }
      assert st.bufs[i].ids == {j};
    }
    assert PairedSources(st.numSource, st.bufs, st.syms) == Below(st.numSource);
  }

  /** Inactivated symbols on which the inactivated rows leave freedom. */
  lemma InactivatedKernel(st: State, l: nat) returns (z: set<nat>)
    requires Inv(st) && Stalled(st) && l == |st.syms| && Inactives(st.syms) != {}
    ensures z != {} && z <= Inactives(st.syms)
    ensures forall i :: i in st.inactivated ==> i < |st.bufs| && !Odd(st.bufs[i].ids, z, l)
  {
    if st.inactivated == map[] {
      z := Inactives(st.syms);
    } else {
      var span := Spanned(st.bufs, st.inactivated);
      forall j | j in span ensures j in Inactives(st.syms) {
        var b :| b in st.inactivated && b < |st.bufs| && j in st.bufs[b].ids;
        InactivatedRow(st.bufs, st.syms, b, j);
      }
      var rows := RowList(st.bufs, st.inactivated.Keys);
      assert |st.inactivated| == |st.inactivated.Keys|;
      z := Kernel(rows, span, l);
      forall i | i in st.inactivated ensures i < |st.bufs| && !Odd(st.bufs[i].ids, z, l) {
        assert i in st.inactivated.Keys;
        var t :| 0 <= t < |rows| && rows[t] == st.bufs[i].ids;
      }
    }
  }

  /** The used symbols that must move when the inactivated symbols `z` move. */
  ghost function Followers(st: State, z: set<nat>, l: nat): set<nat> {
    set j: nat | j < |st.syms| && st.syms[j].Used? && st.syms[j].buf < |st.bufs| && Odd(st.bufs[st.syms[j].buf].ids, z, l)
  }

  lemma FollowersEven(st: State, z: set<nat>, l: nat, i: nat)
    requires Inv(st) && st.activeUsable == map[] && l == |st.syms|
    requires z <= Inactives(st.syms) && i < |st.bufs|
    requires i in st.inactivated ==> !Odd(st.bufs[i].ids, z, l)
    ensures !Odd(st.bufs[i].ids, z + Followers(st, z, l), l)
  {
    var f := Followers(st, z, l);
    StuckRow(st, i);
    if st.bufs[i].used {
      var s := UsedRow(st.bufs, st.syms, i);
      forall j | j in st.bufs[i].ids && j in f ensures j == s {
        assert j in Live(st.bufs[i].ids, st.syms);
      }
      OddMeetsOne(st.bufs[i].ids, z, f, s, l);
      assert s in f <==> Odd(st.bufs[i].ids, z, l);
    } else {
      forall j | j in st.bufs[i].ids ensures j !in f {
        UnusedRow(st.bufs, st.syms, i, j);
      }
      OddMeetsOne(st.bufs[i].ids, z, f, 0, l);
      if st.bufs[i].ids == {} {
        OddDisjoint(st.bufs[i].ids, z, l);
      }
    }
  }

  /** A stuck decoder leaves a non-empty set of symbols that meets every row evenly. */
  lemma StuckKernel(st: State) returns (z: set<nat>)
    requires Inv(st) && st.activeUsable == map[] && Stalled(st) && st.paired != st.numSource
    ensures z != {} && forall j :: j in z ==> j < |st.syms|
    ensures forall i :: 0 <= i < |st.bufs| ==> !Odd(st.bufs[i].ids, z, |st.syms|)
  {
    var l := |st.syms|;
    if j :| 0 <= j < l && st.syms[j].Active? {
      z := {j};
      forall i | 0 <= i < |st.bufs| ensures !Odd(st.bufs[i].ids, z, l) {
        ActiveFree(st, j, i);
        OddSingleton(st.bufs[i].ids, j, l);
      }
    } else {
      if Inactives(st.syms) == {} {
        forall j | 0 <= j < l ensures st.syms[j].Used? {
          assert j !in Inactives(st.syms);
        }
        AllUsedAllPaired(st);
      }
      var z0 := InactivatedKernel(st, l);
      z := z0 + Followers(st, z0, l);
      forall i | 0 <= i < |st.bufs| ensures !Odd(st.bufs[i].ids, z, l) {
        FollowersEven(st, z0, l, i);
      }
    }
  }

  // ---- solutions ----

  /** A byte string that differs from zero. */
  ghost function Ones(n: nat): (c: Payload)
    ensures |c| == n
  {
    seq(n, _ => 1 as bv8)
  }

  lemma XorOnes(a: Payload)
    requires |a| != 0
    ensures Xor(a, Ones(|a|)) != a
  {
    assert Xor(a, Ones(|a|))[0] == a[0] ^ 1;
    BvFlip(a[0]);
  }

  lemma BvFlip(a: bv8)
    ensures a ^ 1 != a
  {}

  /** Every solution of a stuck system has a different solution beside it. */
  lemma StuckSecondSolution(st: State, x: seq<Payload>, pay: seq<Payload>, n: nat) returns (y: seq<Payload>)
    requires Inv(st) && st.activeUsable == map[] && Stalled(st) && st.paired != st.numSource
    requires n != 0 && Shaped(x, |st.syms|, n) && Solves(x, RowsOf(st.bufs), pay, n)
    ensures y != x && Shaped(y, |st.syms|, n) && Solves(y, RowsOf(st.bufs), pay, n)
  {
    hide Inv;
    hide Stalled;
    var z := StuckKernel(st);
    y := Shifted(x, z, Ones(n));
    var j :| j in z;
    XorOnes(x[j]);
    assert y[j] != x[j];
    forall i | 0 <= i < |st.bufs| ensures Sum(RowsOf(st.bufs)[i], y, n) == pay[i] {
      SumToShifted(st.bufs[i].ids, x, z, Ones(n), |x|);
      assert Sum(RowsOf(st.bufs)[i], x, n) == pay[i];
    }
  }

  /** When every source symbol is counted, each is alone in its used buffer. */
  lemma DonePaired(st: State, j: nat)
    requires Inv(st) && st.paired == st.numSource && j < st.numSource
    ensures j < |st.syms| && st.syms[j].Used? && st.syms[j].buf < |st.bufs| && st.bufs[st.syms[j].buf].ids == {j}
  {
    SubsetEqual(PairedSources(st.numSource, st.bufs, st.syms), Below(st.numSource));
    assert j in Below(st.numSource);
  }

  /** A recovered source symbol has, in every solution, the payload of its buffer. */
  lemma PairedValue(st: State, j: nat, x: seq<Payload>, pay: seq<Payload>, n: nat)
    requires j < |st.syms| && st.syms[j].Used? && st.syms[j].buf < |st.bufs| && st.bufs[st.syms[j].buf].ids == {j}
    requires Shaped(x, |st.syms|, n) && Solves(x, RowsOf(st.bufs), pay, n)
    ensures x[j] == pay[st.syms[j].buf]
  {
    SumSingleton(j, x, n);
    assert Sum(RowsOf(st.bufs)[st.syms[j].buf], x, n) == pay[st.syms[j].buf];
  }

  // ---- the constraint rows ----

  /** All constraint rows sum to zero. */
  ghost predicate Constrained(p: Params, x: seq<Payload>, n: nat)
    requires p.Valid() && forall j :: 0 <= j < |x| ==> |x[j]| == n
  {
    forall i :: 0 <= i < p.s + p.h ==> Sum(ConstraintRow(p, i), x, n) == Zero(n)
  }

  lemma {:induction false} SumToHigh(row: set<nat>, x: seq<Payload>, c: nat, k: nat, n: nat)
    requires c <= k <= |x|
    requires forall j :: 0 <= j < |x| ==> |x[j]| == n
    requires forall j :: j in row ==> j < c
    ensures SumTo(row, x, k, n) == SumTo(row, x, c, n)
    decreases k
  {
    if c < k {
      SumToHigh(row, x, c, k - 1, n);
    }
  }

  /** An equation determines its highest symbol. */
  lemma HighestDetermined(row: set<nat>, c: nat, x: seq<Payload>, y: seq<Payload>, n: nat)
    requires c in row && c < |x| == |y| && forall j :: j in row ==> j <= c
    requires Shaped(x, |x|, n) && Shaped(y, |x|, n)
    requires forall j :: 0 <= j < c && j in row ==> x[j] == y[j]
    requires Sum(row, x, n) == Sum(row, y, n)
    ensures x[c] == y[c]
  {
    SumToHigh(row, x, c + 1, |x|, n);
    SumToHigh(row, y, c + 1, |x|, n);
    SumToAgree(row, x, y, c, n);
    var a := SumTo(row, x, c, n);
    XorAssoc(a, x[c], a);
    XorAssoc(a, y[c], a);
    XorCancel(x[c], a);
    XorCancel(y[c], a);
  }

  /** The source symbols determine the LDPC and Half symbols. */
  lemma {:induction false} SourcesDetermine(p: Params, x: seq<Payload>, y: seq<Payload>, n: nat, m: nat)
    requires p.Valid() && Shaped(x, p.L(), n) && Shaped(y, p.L(), n)
    requires Constrained(p, x, n) && Constrained(p, y, n)
    requires forall j :: 0 <= j < p.k ==> x[j] == y[j]
    requires m <= p.s + p.h
    ensures forall j :: 0 <= j < p.k + m ==> x[j] == y[j]
  {
    if m != 0 {
      SourcesDetermine(p, x, y, n, m - 1);
      HighestDetermined(ConstraintRow(p, m - 1), p.k + m - 1, x, y, n);
    }
  }
}
