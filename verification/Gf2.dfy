/** Linear algebra over GF(2) for the Raptor code.

    A payload is a byte string; a row is a finite set of symbol indices; an assignment gives every
    intermediate symbol a payload. `Sum` is the payload a row names under an assignment. */
module Gf2 {

  type Payload = seq<bv8>

  function Zero(n: nat): (r: Payload)
    ensures |r| == n
  {
    seq(n, _ => 0 as bv8)
  }

  function Xor(a: Payload, b: Payload): (r: Payload)
    requires |a| == |b|
    ensures |r| == |a|
  {
    seq(|a|, i requires 0 <= i < |a| => a[i] ^ b[i])
  }

  function SymDiff(a: set<nat>, b: set<nat>): (r: set<nat>)
    ensures forall j :: j in r <==> (j in a) != (j in b)
  {
    (a - b) + (b - a)
  }

  /** `l` symbols of `n` bytes each. */
  ghost predicate Shaped(x: seq<Payload>, l: nat, n: nat) {
    |x| == l && forall j :: 0 <= j < l ==> |x[j]| == n
  }

  /** The XOR of the symbols of `x` named by `row`, among the first `k`. */
  function SumTo(row: set<nat>, x: seq<Payload>, k: nat, n: nat): (r: Payload)
    requires k <= |x|
    requires forall j :: 0 <= j < |x| ==> |x[j]| == n
    ensures |r| == n
  {
    if k == 0 then Zero(n)
    else if k - 1 in row then Xor(SumTo(row, x, k - 1, n), x[k - 1])
    else SumTo(row, x, k - 1, n)
  }

  function Sum(row: set<nat>, x: seq<Payload>, n: nat): (r: Payload)
    requires forall j :: 0 <= j < |x| ==> |x[j]| == n
    ensures |r| == n
  {
    SumTo(row, x, |x|, n)
  }

  lemma XorSelf(a: Payload)
    ensures Xor(a, a) == Zero(|a|)
  {}

  lemma XorZero(a: Payload)
    ensures Xor(a, Zero(|a|)) == a && Xor(Zero(|a|), a) == a
  {}

  lemma XorSwap(a: Payload, b: Payload, c: Payload, d: Payload)
    requires |a| == |b| == |c| == |d|
    ensures Xor(Xor(a, b), Xor(c, d)) == Xor(Xor(a, c), Xor(b, d))
  {}

  lemma XorCancel(a: Payload, b: Payload)
    requires |a| == |b|
    ensures Xor(Xor(a, b), b) == a
  {}

  lemma XorAssoc(a: Payload, b: Payload, c: Payload)
    requires |a| == |b| == |c|
    ensures Xor(Xor(a, b), c) == Xor(a, Xor(b, c))
    ensures Xor(a, b) == Xor(b, a)
  {}

  /** Adding two rows adds their sums: the law every elimination step rests on. */
  lemma {:induction false} SumToSymDiff(a: set<nat>, b: set<nat>, x: seq<Payload>, k: nat, n: nat)
    requires k <= |x|
    requires forall j :: 0 <= j < |x| ==> |x[j]| == n
    ensures SumTo(SymDiff(a, b), x, k, n) == Xor(SumTo(a, x, k, n), SumTo(b, x, k, n))
  {
    if k == 0 {
      XorSelf(Zero(n));
    } else {
      SumToSymDiff(a, b, x, k - 1, n);
      var p, q, v := SumTo(a, x, k - 1, n), SumTo(b, x, k - 1, n), x[k - 1];
      var z := Zero(n);
      XorZero(p);
      XorZero(q);
      XorZero(v);
      XorZero(Xor(p, q));
      XorSelf(v);
      XorSwap(p, v, q, v);
      XorSwap(p, v, q, z);
      XorSwap(p, z, q, v);
    }
  }

  lemma SumSymDiff(a: set<nat>, b: set<nat>, x: seq<Payload>, n: nat)
    requires forall j :: 0 <= j < |x| ==> |x[j]| == n
    ensures Sum(SymDiff(a, b), x, n) == Xor(Sum(a, x, n), Sum(b, x, n))
  {
    SumToSymDiff(a, b, x, |x|, n);
  }

  lemma {:induction false} SumToSingleton(s: nat, x: seq<Payload>, k: nat, n: nat)
    requires s < |x| && k <= |x|
    requires forall j :: 0 <= j < |x| ==> |x[j]| == n
    ensures SumTo({s}, x, k, n) == if s < k then x[s] else Zero(n)
  {
    if k != 0 {
      SumToSingleton(s, x, k - 1, n);
      XorZero(x[k - 1]);
    }
  }

  lemma SumSingleton(s: nat, x: seq<Payload>, n: nat)
    requires s < |x|
    requires forall j :: 0 <= j < |x| ==> |x[j]| == n
    ensures Sum({s}, x, n) == x[s]
  {
    SumToSingleton(s, x, |x|, n);
  }

  lemma {:induction false} SumToEmpty(x: seq<Payload>, k: nat, n: nat)
    requires k <= |x|
    requires forall j :: 0 <= j < |x| ==> |x[j]| == n
    ensures SumTo({}, x, k, n) == Zero(n)
  {
    if k != 0 {
      SumToEmpty(x, k - 1, n);
    }
  }

  /** Only the named symbols matter. */
  lemma {:induction false} SumToAgree(row: set<nat>, x: seq<Payload>, y: seq<Payload>, k: nat, n: nat)
    requires k <= |x| && |y| == |x|
    requires forall j :: 0 <= j < |x| ==> |x[j]| == n && |y[j]| == n
    requires forall j :: 0 <= j < k && j in row ==> x[j] == y[j]
    ensures SumTo(row, x, k, n) == SumTo(row, y, k, n)
  {
    if k != 0 {
      SumToAgree(row, x, y, k - 1, n);
    }
  }

  // ---- parity and kernels ----

  /** Whether `row` and `z` share an odd number of indices below `k`. */
  ghost predicate Odd(row: set<nat>, z: set<nat>, k: nat) {
    k != 0 && ((k - 1 in row && k - 1 in z) != Odd(row, z, k - 1))
  }

  lemma {:induction false} OddSymDiff(a: set<nat>, b: set<nat>, z: set<nat>, k: nat)
    ensures Odd(SymDiff(a, b), z, k) == (Odd(a, z, k) != Odd(b, z, k))
  {
    if k != 0 {
      OddSymDiff(a, b, z, k - 1);
    }
  }

  /** Changing `z` at an index outside `row` keeps the parity; at an index of `row` it flips it. */
  lemma {:induction false} OddExtend(row: set<nat>, z: set<nat>, p: nat, k: nat)
    requires p !in z
    ensures Odd(row, z + {p}, k) == (Odd(row, z, k) != (p in row && p < k))
  {
    if k != 0 {
      OddExtend(row, z, p, k - 1);
    }
  }

  lemma {:induction false} OddSingleton(row: set<nat>, p: nat, k: nat)
    ensures Odd(row, {p}, k) == (p in row && p < k)
  {
    if k != 0 {
      OddSingleton(row, p, k - 1);
    }
  }

  lemma {:induction false} OddEmpty(row: set<nat>, k: nat)
    ensures !Odd(row, {}, k)
  {
    if k != 0 {
      OddEmpty(row, k - 1);
    }
  }

  lemma {:induction false} OddDisjoint(row: set<nat>, z: set<nat>, k: nat)
    requires row !! z
    ensures !Odd(row, z, k)
  {
    if k != 0 {
      OddDisjoint(row, z, k - 1);
    }
  }

  /** Rows with the pivot `p` cleared by adding row `r` where `p` occurs. */
  ghost function Cleared(rows: seq<set<nat>>, r: set<nat>, p: nat): (out: seq<set<nat>>)
    ensures |out| == |rows|
  {
    seq(|rows|, i requires 0 <= i < |rows| => if p in rows[i] then SymDiff(rows[i], r) else rows[i])
  }

  /** Fewer equations than unknowns leave a non-trivial kernel: some non-empty set of unknowns meets
      every row in an even number of places. */
  lemma {:induction false} Kernel(rows: seq<set<nat>>, unknowns: set<nat>, k: nat) returns (z: set<nat>)
    requires |rows| < |unknowns|
    requires forall u :: u in unknowns ==> u < k
    ensures z != {} && z <= unknowns
    ensures forall i :: 0 <= i < |rows| ==> !Odd(rows[i], z, k)
    decreases |rows|
  {
    if rows == [] {
      var u :| u in unknowns;
      z := {u};
    } else {
      var r, rest := rows[|rows| - 1], rows[..|rows| - 1];
      if r !! unknowns {
        z := Kernel(rest, unknowns, k);
        OddDisjoint(r, z, k);
      } else {
        var p :| p in r && p in unknowns;
        var rest' := Cleared(rest, r, p);
        assert |unknowns - {p}| == |unknowns| - 1;
        var z' := Kernel(rest', unknowns - {p}, k);
        z := if Odd(r, z', k) then z' + {p} else z';
        OddExtend(r, z', p, k);
        forall i | 0 <= i < |rest| ensures !Odd(rest[i], z, k) {
          OddExtend(rest'[i], z', p, k);
          OddSymDiff(rest[i], r, z, k);
        }
      }
      forall i | 0 <= i < |rows| ensures !Odd(rows[i], z, k) {
        if i < |rest| {
          assert rows[i] == rest[i];
        }
      }
    }
  }

  /** `x` with `c` added to every symbol of `z`. */
  ghost function Shifted(x: seq<Payload>, z: set<nat>, c: Payload): (y: seq<Payload>)
    requires forall j :: 0 <= j < |x| ==> |x[j]| == |c|
    ensures Shaped(y, |x|, |c|)
  {
    seq(|x|, j requires 0 <= j < |x| => if j in z then Xor(x[j], c) else x[j])
  }

  /** Shifting along `z` changes a row's sum exactly when the row meets `z` oddly. */
  lemma {:induction false} SumToShifted(row: set<nat>, x: seq<Payload>, z: set<nat>, c: Payload, k: nat)
    requires k <= |x|
    requires forall j :: 0 <= j < |x| ==> |x[j]| == |c|
    ensures SumTo(row, Shifted(x, z, c), k, |c|) ==
            if Odd(row, z, k) then Xor(SumTo(row, x, k, |c|), c) else SumTo(row, x, k, |c|)
  {
    if k != 0 {
      SumToShifted(row, x, z, c, k - 1);
      var p, v := SumTo(row, x, k - 1, |c|), x[k - 1];
      XorAssoc(p, v, c);
      XorAssoc(p, c, v);
      XorAssoc(v, c, c);
      XorCancel(p, c);
      XorSwap(p, c, v, c);
      XorSelf(c);
      XorZero(Xor(p, v));
    }
  }

  // ---- systems of equations ----

  /** `x` satisfies every equation: row `i` of the system sums to `pay[i]`. */
  ghost predicate Solves(x: seq<Payload>, rows: seq<set<nat>>, pay: seq<Payload>, n: nat)
    requires forall j :: 0 <= j < |x| ==> |x[j]| == n
  {
    |pay| == |rows| && forall i :: 0 <= i < |rows| ==> Sum(rows[i], x, n) == pay[i]
  }

  /** Two systems over `l` symbols of `n` bytes with the same solutions. */
  ghost predicate SameSolutions(rows: seq<set<nat>>, pay: seq<Payload>, rows': seq<set<nat>>, pay': seq<Payload>, l: nat, n: nat) {
    forall x :: Shaped(x, l, n) ==> (Solves(x, rows, pay, n) <==> Solves(x, rows', pay', n))
  }

  lemma SameSolutionsRefl(rows: seq<set<nat>>, pay: seq<Payload>, l: nat, n: nat)
    ensures SameSolutions(rows, pay, rows, pay, l, n)
  {}

  lemma SameSolutionsTrans(r0: seq<set<nat>>, p0: seq<Payload>, r1: seq<set<nat>>, p1: seq<Payload>,
                           r2: seq<set<nat>>, p2: seq<Payload>, l: nat, n: nat)
    requires SameSolutions(r0, p0, r1, p1, l, n) && SameSolutions(r1, p1, r2, p2, l, n)
    ensures SameSolutions(r0, p0, r2, p2, l, n)
  {}

  /** Adding one equation to another keeps the solutions. */
  lemma RowAddition(rows: seq<set<nat>>, pay: seq<Payload>, a: nat, b: nat, l: nat, n: nat)
    requires |pay| == |rows| && a < |rows| && b < |rows| && a != b
    requires forall i :: 0 <= i < |pay| ==> |pay[i]| == n
    ensures SameSolutions(rows, pay, rows[a := SymDiff(rows[a], rows[b])], pay[a := Xor(pay[a], pay[b])], l, n)
  {
    var rows', pay' := rows[a := SymDiff(rows[a], rows[b])], pay[a := Xor(pay[a], pay[b])];
    forall x | Shaped(x, l, n) ensures Solves(x, rows, pay, n) <==> Solves(x, rows', pay', n) {
      SumSymDiff(rows[a], rows[b], x, n);
      XorCancel(Sum(rows[a], x, n), Sum(rows[b], x, n));
      XorCancel(pay[a], pay[b]);
      if Solves(x, rows', pay', n) {
        forall i | 0 <= i < |rows| ensures Sum(rows[i], x, n) == pay[i] {
          assert Sum(rows'[b], x, n) == pay'[b];
          assert Sum(rows'[a], x, n) == pay'[a];
          assert i != a ==> Sum(rows'[i], x, n) == pay'[i];
        }
      }
    }
  }
}
