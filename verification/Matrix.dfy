/** Full-pivot elimination over GF(2), seen through row and column permutations. */
module Matrix {
  import opened Gf2

  /** Physical row `i` has had physical row `j` added to it. */
  datatype RowOp = RowOp(i: nat, j: nat)

  ghost predicate OpsInRange(ops: seq<RowOp>, n: nat) {
    forall t :: 0 <= t < |ops| ==> ops[t].i < n && ops[t].j < n && ops[t].i != ops[t].j
  }

  /** Row operations replayed, in order, on unpermuted rows. */
  ghost function Replay(rows: seq<set<nat>>, ops: seq<RowOp>): (r: seq<set<nat>>)
    requires OpsInRange(ops, |rows|)
    ensures |r| == |rows|
  {
    if ops == [] then rows
    else
      var last := ops[|ops| - 1];
      var before := Replay(rows, ops[..|ops| - 1]);
      before[last.i := SymDiff(before[last.i], before[last.j])]
  }

  lemma ReplaySnoc(rows: seq<set<nat>>, ops: seq<RowOp>, op: RowOp)
    requires OpsInRange(ops, |rows|) && op.i < |rows| && op.j < |rows| && op.i != op.j
    ensures OpsInRange(ops + [op], |rows|)
    ensures Replay(rows, ops + [op]) ==
            Replay(rows, ops)[op.i := SymDiff(Replay(rows, ops)[op.i], Replay(rows, ops)[op.j])]
  {}

  /** A virtual-to-physical index permutation with its inverse. */
  datatype Permutation = Permutation(virtToPhys: seq<nat>, physToVirt: seq<nat>) {
    ghost predicate Valid(n: nat) {
      && |virtToPhys| == n && |physToVirt| == n
      && (forall a :: 0 <= a < n ==> virtToPhys[a] < n && physToVirt[virtToPhys[a]] == a)
      && (forall b :: 0 <= b < n ==> physToVirt[b] < n && virtToPhys[physToVirt[b]] == b)
    }

    static function Identity(n: nat): (p: Permutation)
      ensures p.Valid(n)
      ensures forall a :: 0 <= a < n ==> p.virtToPhys[a] == a
    {
      Permutation(seq(n, i => i), seq(n, i => i))
    }

    function Swap(a: nat, b: nat): (p: Permutation)
      requires Valid(|virtToPhys|) && a < |virtToPhys| && b < |virtToPhys|
      ensures p.Valid(|virtToPhys|)
      ensures p.virtToPhys == virtToPhys[a := virtToPhys[b]][b := virtToPhys[a]]
    {
      var v := virtToPhys[a := virtToPhys[b]][b := virtToPhys[a]];
      Permutation(v, physToVirt[v[a] := physToVirt[v[b]]][v[b] := physToVirt[v[a]]])
    }
  }

  /** The set columns of each physical row. */
  ghost function Rows(m: array2<bool>): (r: seq<set<nat>>)
    reads m
    ensures |r| == m.Length0
    ensures forall i, c :: 0 <= i < m.Length0 ==> (c in r[i] <==> 0 <= c < m.Length1 && m[i, c])
  {
    seq(m.Length0, i requires 0 <= i < m.Length0 reads m => set c: nat | 0 <= c < m.Length1 && m[i, c])
  }

  class RcSwapMatrix {
    const mat: array2<bool>
    var rowP: Permutation
    var colP: Permutation

    ghost predicate Valid()
      reads this
    {
      rowP.Valid(mat.Length0) && colP.Valid(mat.Length1)
    }

    constructor (m: array2<bool>)
      ensures Valid() && mat == m
    {
      mat := m;
      rowP := Permutation.Identity(m.Length0);
      colP := Permutation.Identity(m.Length1);
    }

    function At(i: nat, j: nat): bool
      requires Valid() && i < mat.Length0 && j < mat.Length1
      reads this, mat
    {
      mat[rowP.virtToPhys[i], colP.virtToPhys[j]]
    }

    method SwapRows(a: nat, b: nat)
      requires Valid() && a < mat.Length0 && b < mat.Length0
      modifies this`rowP
      ensures Valid()
      ensures forall i, c :: 0 <= i < mat.Length0 && 0 <= c < mat.Length1 ==>
                At(i, c) == old(At(if i == a then b else if i == b then a else i, c))
      ensures rowP.virtToPhys == old(rowP.virtToPhys)[a := old(rowP.virtToPhys)[b]][b := old(rowP.virtToPhys)[a]]
    {
      rowP := rowP.Swap(a, b);
    }

    method SwapColumns(a: nat, b: nat)
      requires Valid() && a < mat.Length1 && b < mat.Length1
      modifies this`colP
      ensures Valid()
      ensures forall i, c :: 0 <= i < mat.Length0 && 0 <= c < mat.Length1 ==>
                At(i, c) == old(At(i, if c == a then b else if c == b then a else c))
      ensures colP.virtToPhys == old(colP.virtToPhys)[a := old(colP.virtToPhys)[b]][b := old(colP.virtToPhys)[a]]
    {
      colP := colP.Swap(a, b);
    }

    /** Adds virtual row `b` to virtual row `a`. */
    method RowSubAssign(a: nat, b: nat)
      requires Valid() && a < mat.Length0 && b < mat.Length0 && a != b
      modifies mat
      ensures forall i, c :: 0 <= i < mat.Length0 && 0 <= c < mat.Length1 ==>
                At(i, c) == if i == a then old(At(a, c)) != old(At(b, c)) else old(At(i, c))
      ensures var p, q := rowP.virtToPhys[a], rowP.virtToPhys[b];
              Rows(mat) == old(Rows(mat))[p := SymDiff(old(Rows(mat))[p], old(Rows(mat))[q])]
    {
      var p, q := rowP.virtToPhys[a], rowP.virtToPhys[b];
      for k := 0 to mat.Length1
        invariant forall i, c :: 0 <= i < mat.Length0 && 0 <= c < mat.Length1 ==>
                    mat[i, c] == if i == p && c < k then old(mat[p, c]) != old(mat[q, c]) else old(mat[i, c])
      {
        mat[p, k] := mat[p, k] != mat[q, k];
      }
      forall i | 0 <= i < mat.Length0
        ensures Rows(mat)[i] == if i == p then SymDiff(old(Rows(mat))[p], old(Rows(mat))[q]) else old(Rows(mat))[i]
      {}
    }

    /** Counts the set columns of a virtual row and finds the first. */
    method Scan(row: nat) returns (w: nat, lead: nat)
      requires Valid() && row < mat.Length0
      ensures w == 0 <==> forall c :: 0 <= c < mat.Length1 ==> !At(row, c)
      ensures w == VirtualWeight(row, mat.Length1)
      ensures w != 0 ==> lead < mat.Length1 && At(row, lead) && forall c :: 0 <= c < lead ==> !At(row, c)
    {
      w, lead := 0, 0;
      for c := 0 to mat.Length1
        invariant w == 0 <==> forall d :: 0 <= d < c ==> !At(row, d)
        invariant w == VirtualWeight(row, c)
        invariant w != 0 ==> lead < c && At(row, lead) && forall d :: 0 <= d < lead ==> !At(row, d)
      {
        if At(row, c) {
          if w == 0 {
            lead := c;
          }
          w := w + 1;
        }
      }
    }

    ghost function VirtualWeight(row: nat, k: nat): nat
      requires Valid() && row < mat.Length0 && k <= mat.Length1
      reads this, mat
    {
      if k == 0 then 0 else VirtualWeight(row, k - 1) + if At(row, k - 1) then 1 else 0
    }

    /** The full-pivot strategy: a lightest non-zero row at or below `step`, and its first column. */
    method FullPivot(step: nat) returns (row: nat, col: nat, ok: bool)
      requires Valid() && step <= mat.Length0
      ensures ok <==> exists i, c :: step <= i < mat.Length0 && 0 <= c < mat.Length1 && At(i, c)
      ensures ok ==> step <= row < mat.Length0 && col < mat.Length1 && At(row, col)
      ensures ok ==> forall c :: 0 <= c < col ==> !At(row, c)
      ensures ok ==> forall i :: step <= i < mat.Length0 ==>
                       VirtualWeight(i, mat.Length1) == 0 ||
                       VirtualWeight(row, mat.Length1) <= VirtualWeight(i, mat.Length1)
    {
      var best;
      row, col, ok, best := 0, 0, false, 0;
      for i := step to mat.Length0
        invariant !ok ==> forall h, c :: step <= h < i && 0 <= c < mat.Length1 ==> !At(h, c)
        invariant !ok ==> forall h :: step <= h < i ==> VirtualWeight(h, mat.Length1) == 0
        invariant ok ==> step <= row < i && col < mat.Length1 && At(row, col)
        invariant ok ==> best == VirtualWeight(row, mat.Length1)
        invariant ok ==> forall c :: 0 <= c < col ==> !At(row, c)
        invariant ok ==> forall h :: step <= h < i ==>
                           VirtualWeight(h, mat.Length1) == 0 ||
                           VirtualWeight(row, mat.Length1) <= VirtualWeight(h, mat.Length1)
      {
        var w, lead := Scan(i);
        if w != 0 && (!ok || w < best) {
          row, col, ok, best := i, lead, true, w;
        }
      }
    }

    /** The first `k` virtual columns are unit columns. */
    ghost predicate UnitColumns(k: nat)
      requires Valid() && k <= mat.Length1
      reads this, mat
    {
      forall i, c :: 0 <= i < mat.Length0 && 0 <= c < k ==> (At(i, c) <==> i == c)
    }
  }

  /** Rows in fully reduced form: every non-empty row owns a column no other row has. */
  ghost predicate Reduced(rows: seq<set<nat>>) {
    forall i :: 0 <= i < |rows| && rows[i] != {} ==>
      exists c :: c in rows[i] && forall h :: 0 <= h < |rows| && h != i ==> c !in rows[h]
  }

  ghost function NonEmpty(rows: seq<set<nat>>): set<nat> {
    set i: nat | i < |rows| && rows[i] != {}
  }

  /** Clears the pivot column from every other row, recording each addition. */
  method ClearColumn(a: RcSwapMatrix, step: nat, ops0: seq<RowOp>, ghost start: seq<set<nat>>) returns (ops: seq<RowOp>)
    requires a.Valid() && step < a.mat.Length1 && step < a.mat.Length0
    requires a.UnitColumns(step) && a.At(step, step)
    requires |start| == a.mat.Length0 && OpsInRange(ops0, |start|) && Rows(a.mat) == Replay(start, ops0)
    modifies a.mat
    ensures a.UnitColumns(step + 1)
    ensures OpsInRange(ops, |start|) && Rows(a.mat) == Replay(start, ops)
  {
    ops := ops0;
    for i := 0 to a.mat.Length0
      invariant a.UnitColumns(step) && a.At(step, step)
      invariant forall h :: 0 <= h < i && h != step ==> !a.At(h, step)
      invariant OpsInRange(ops, |start|) && Rows(a.mat) == Replay(start, ops)
    {
      if i != step && a.At(i, step) {
        a.RowSubAssign(i, step);
        var op := RowOp(a.rowP.virtToPhys[i], a.rowP.virtToPhys[step]);
        ReplaySnoc(start, ops, op);
        ops := ops + [op];
      }
    }
  }

  /** Swaps the pivot into place. */
  method BringPivot(a: RcSwapMatrix, step: nat, row: nat, col: nat)
    requires a.Valid() && step < a.mat.Length1 && a.UnitColumns(step)
    requires step <= row < a.mat.Length0 && col < a.mat.Length1 && a.At(row, col)
    modifies a
    ensures a.Valid() && a.UnitColumns(step) && a.At(step, step)
  {
    assert step <= col;
    if row != step {
      a.SwapRows(row, step);
    }
    if col != step {
      a.SwapColumns(col, step);
    }
  }

  /** Runs the full-pivot elimination in place and returns the physical row operations.

      Replaying them on the original rows gives the final rows. `rank` rows stay non-empty and own
      distinct pivot columns; success means every column is a pivot, so each surviving row is a
      single column. */
  method EliminateFullPivot(m: array2<bool>) returns (ops: seq<RowOp>, rank: nat, ok: bool)
    requires m.Length1 <= m.Length0
    modifies m
    ensures OpsInRange(ops, m.Length0) && Rows(m) == Replay(old(Rows(m)), ops)
    ensures |NonEmpty(Rows(m))| == rank <= m.Length1
    ensures Reduced(Rows(m))
    ensures ok <==> rank == m.Length1
    ensures ok ==> forall i :: 0 <= i < m.Length0 ==> |Rows(m)[i]| <= 1
  {
    var a := new RcSwapMatrix(m);
    ops, ok := [], true;
    rank := 0;
    while rank < m.Length1
      invariant a.Valid() && a.mat == m && rank <= m.Length1
      invariant fresh(a)
      invariant a.UnitColumns(rank)
      invariant OpsInRange(ops, m.Length0) && Rows(m) == Replay(old(Rows(m)), ops)
    {
      var row, col, found := a.FullPivot(rank);
      if !found {
        ok := false;
        break;
      }
      BringPivot(a, rank, row, col);
      ops := ClearColumn(a, rank, ops, old(Rows(m)));
      rank := rank + 1;
    }
    Reduction(a, rank);
  }

  /** What unit columns and empty lower rows mean for the physical rows. */
  lemma Reduction(a: RcSwapMatrix, rank: nat)
    requires a.Valid() && rank <= a.mat.Length1 <= a.mat.Length0 && a.UnitColumns(rank)
    requires forall i, c :: rank <= i < a.mat.Length0 && 0 <= c < a.mat.Length1 ==> !a.At(i, c)
    ensures |NonEmpty(Rows(a.mat))| == rank
    ensures Reduced(Rows(a.mat))
    ensures rank == a.mat.Length1 ==> forall i :: 0 <= i < a.mat.Length0 ==> |Rows(a.mat)[i]| <= 1
  {
    var rows := Rows(a.mat);
    forall p | 0 <= p < |rows|
      ensures rows[p] != {} <==> a.rowP.physToVirt[p] < rank
      ensures rows[p] != {} ==> exists c :: c in rows[p] && forall h :: 0 <= h < |rows| && h != p ==> c !in rows[h]
      ensures rank == a.mat.Length1 ==> |rows[p]| <= 1
    {
      var i := a.rowP.physToVirt[p];
      if i < rank {
        assert a.At(i, i);
        var q := a.colP.virtToPhys[i];
        assert q in rows[p];
        forall h | 0 <= h < |rows| && h != p ensures q !in rows[h] {
          assert !a.At(a.rowP.physToVirt[h], i);
        }
        if rank == a.mat.Length1 {
          forall c | c in rows[p] ensures c == q {
            assert a.At(i, a.colP.physToVirt[c]);
          }
          assert rows[p] == {q};
        }
      } else {
        forall c | c in rows[p] ensures false {
          assert a.At(i, a.colP.physToVirt[c]);
        }
      }
    }
    RankCount(a.rowP, rank, |rows|);
    assert NonEmpty(rows) == set p: nat | p < |rows| && a.rowP.physToVirt[p] < rank;
  }

  /** A permutation sends the first `rank` virtual rows to `rank` physical rows. */
  lemma {:induction false} RankCount(p: Permutation, rank: nat, n: nat)
    requires p.Valid(n) && rank <= n
    ensures |set b: nat | b < n && p.physToVirt[b] < rank| == rank
  {
    var s := set b: nat | b < n && p.physToVirt[b] < rank;
    if rank == 0 {
      assert s == {};
    } else {
      RankCount(p, rank - 1, n);
      var s' := set b: nat | b < n && p.physToVirt[b] < rank - 1;
      assert s == s' + {p.virtToPhys[rank - 1]};
    }
  }
}
