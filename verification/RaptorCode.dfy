/** The row sets of the Raptor code: LDPC and Half constraint rows and LT rows. */
module RaptorCode {

  // ---- arithmetic modulo a prime ----

  ghost predicate Divides(d: nat, n: nat)
    requires d != 0
  {
    n % d == 0
  }

  ghost predicate IsPrime(p: nat) {
    2 <= p && forall d: nat :: 2 <= d < p ==> !Divides(d, p)
  }

  lemma MulAtLeast(d: int, p: nat)
    requires 1 <= d
    ensures p <= d * p
  {}

  lemma DivModUnique(n: int, p: nat, q: int, r: nat)
    requires p != 0 && n == q * p + r && r < p
    ensures n / p == q && n % p == r
  {
    DiffMultiple(n / p, n % p, q, r, p);
  }

  /** Quotient and remainder are unique. */
  lemma DiffMultiple(q: int, r: nat, q': int, r': nat, p: nat)
    requires r < p && r' < p && q * p + r == q' * p + r'
    ensures q == q' && r == r'
  {
    assert (q - q') * p == r' - r;
    if q < q' {
      MulAtLeast(q' - q, p);
    } else if q' < q {
      MulAtLeast(q - q', p);
    }
  }

  lemma ModMultiple(q: int, p: nat)
    requires p != 0
    ensures (q * p) % p == 0
  {
    DivModUnique(q * p, p, q, 0);
  }

  lemma ModExact(n: int, p: nat)
    requires p != 0 && n % p == 0
    ensures n == (n / p) * p
  {}

  /** Whether some `y` in `1..k` makes `a * y` a multiple of `p`; if so, the least such. */
  lemma LeastMultiple(a: nat, p: nat, k: nat) returns (y: nat)
    requires p != 0 && k != 0 && (a * k) % p == 0
    ensures 1 <= y <= k && (a * y) % p == 0
    ensures forall z: nat :: 1 <= z < y ==> (a * z) % p != 0
  {
    y := 1;
    while (a * y) % p != 0
      invariant 1 <= y <= k
      invariant forall z: nat :: 1 <= z < y ==> (a * z) % p != 0
      decreases k - y
    {
      y := y + 1;
    }
  }

  /** A prime divides no product of two smaller positive factors. */
  lemma PrimeProduct(a: nat, x: nat, p: nat)
    requires IsPrime(p) && 1 <= a < p && 1 <= x < p
    ensures (a * x) % p != 0
  {
    if (a * x) % p == 0 {
      var y := LeastMultiple(a, p, x);
      var q, r := p / y, p % y;
      assert p == q * y + r;
      calc {
        a * r;
        a * (p - q * y);
        a * p - q * (a * y);
      }
      ModExact(a * y, p);
      var m := (a * y) / p;
      assert q * (a * y) == q * (m * p) == (q * m) * p by {
        assert a * y == m * p;
      }
      assert a * r == (a - q * m) * p;
      ModMultiple(a - q * m, p);
      assert r == 0;
      if y == 1 {
        assert a * 1 == a;
        DivModUnique(a, p, 0, a);
      } else {
        assert Divides(y, p);
      }
    }
  }

  // ---- the LT walk ----

  /** Position of the walk with stride `a` from `b`, after `t` steps modulo `p`. */
  function Walk(a: nat, b: nat, p: nat, t: nat): (v: nat)
    requires b < p
    ensures v < p
  {
    if t == 0 then b else (Walk(a, b, p, t - 1) + a) % p
  }

  lemma ModAdd(n: nat, a: nat, p: nat)
    requires p != 0
    ensures (n % p + a) % p == (n + a) % p
  {
    var q, r := n / p, n % p;
    var q', r' := (r + a) / p, (r + a) % p;
    assert n + a == (q + q') * p + r';
    DivModUnique(n + a, p, q + q', r');
  }

  lemma {:induction false} WalkClosed(a: nat, b: nat, p: nat, t: nat)
    requires b < p
    ensures Walk(a, b, p, t) == (b + t * a) % p
  {
    if t == 0 {
      DivModUnique(b, p, 0, b);
    } else {
      WalkClosed(a, b, p, t - 1);
      var n := b + (t - 1) * a;
      assert n + a == b + t * a;
      ModAdd(n, a, p);
    }
  }

  /** Equal remainders differ by a multiple. */
  lemma EqualMod(m: nat, n: nat, p: nat)
    requires p != 0 && m % p == n % p
    ensures (n - m) % p == 0
  {
    assert n - m == (n / p - m / p) * p;
    ModMultiple(n / p - m / p, p);
  }

  lemma MulDiff(a: nat, t: nat, u: nat)
    ensures u * a - t * a == a * (u - t)
  {}

  lemma ApartMod(b: nat, m: nat, n: nat, d: int, p: nat)
    requires p != 0 && n - m == d && d % p != 0
    ensures (b + m) % p != (b + n) % p
  {
    if (b + m) % p == (b + n) % p {
      EqualMod(b + m, b + n, p);
    }
  }

  /** Modulo a prime the walk does not come back early. */
  lemma WalkInjective(a: nat, b: nat, p: nat, t: nat, u: nat)
    requires IsPrime(p) && 1 <= a < p && b < p && t < u < p
    ensures Walk(a, b, p, t) != Walk(a, b, p, u)
  {
    hide IsPrime;
    hide Walk;
    PrimeProduct(a, u - t, p);
    MulDiff(a, t, u);
    ApartMod(b, t * a, u * a, a * (u - t), p);
    WalkClosed(a, b, p, t);
    WalkClosed(a, b, p, u);
  }

  ghost function Below(n: nat): (s: set<nat>)
    ensures |s| == n
    ensures forall v :: v in s <==> 0 <= v < n
  {
    if n == 0 then {} else Below(n - 1) + {n - 1}
  }

  lemma SubsetEqual(a: set<nat>, b: set<nat>)
    requires a <= b && |a| == |b|
    ensures a == b
  {
    assert b == a + (b - a);
    assert |b| == |a| + |b - a|;
  }

  ghost function Visited(a: nat, b: nat, p: nat, t: nat): set<nat>
    requires b < p
  {
    set u: nat | u < t :: Walk(a, b, p, u)
  }

  lemma {:induction false} VisitedCount(a: nat, b: nat, p: nat, t: nat)
    requires IsPrime(p) && 1 <= a < p && b < p && t <= p
    ensures |Visited(a, b, p, t)| == t
  {
    if t != 0 {
      VisitedCount(a, b, p, t - 1);
      forall u: nat | u < t - 1 ensures Walk(a, b, p, u) != Walk(a, b, p, t - 1) {
        WalkInjective(a, b, p, u, t - 1);
      }
      assert Visited(a, b, p, t) == Visited(a, b, p, t - 1) + {Walk(a, b, p, t - 1)};
    }
  }

  /** In `p` steps the walk visits every residue. */
  lemma WalkSurjective(a: nat, b: nat, p: nat, v: nat)
    requires IsPrime(p) && 1 <= a < p && b < p && v < p
    ensures exists t: nat :: t < p && Walk(a, b, p, t) == v
  {
    VisitedCount(a, b, p, p);
    SubsetEqual(Visited(a, b, p, p), Below(p));
    assert v in Visited(a, b, p, p);
  }

  ghost predicate Distinct(s: seq<nat>) {
    forall i, j :: 0 <= i < j < |s| ==> s[i] != s[j]
  }

  ghost function Elements(s: seq<nat>): set<nat> {
    set v | v in s
  }

  lemma {:induction false} DistinctCount(s: seq<nat>)
    requires Distinct(s)
    ensures |Elements(s)| == |s|
  {
    if s == [] {
      assert Elements(s) == {};
    } else {
      var n := |s| - 1;
      DistinctCount(s[..n]);
      assert s == s[..n] + [s[n]];
      assert Elements(s) == Elements(s[..n]) + {s[n]};
      assert s[n] !in s[..n];
    }
  }

  /** The values below `l` among the first `t` positions of the walk, in order. */
  function Hits(a: nat, b: nat, p: nat, l: nat, t: nat): (s: seq<nat>)
    requires b < p
    ensures forall v :: v in s ==> v < l
  {
    if t == 0 then []
    else Hits(a, b, p, l, t - 1) + if Walk(a, b, p, t - 1) < l then [Walk(a, b, p, t - 1)] else []
  }

  /** What one more position of the walk adds. */
  lemma HitsNext(a: nat, b: nat, p: nat, l: nat, t: nat, v: nat)
    requires b < p && t != 0
    ensures v in Hits(a, b, p, l, t) <==> v in Hits(a, b, p, l, t - 1) || (v == Walk(a, b, p, t - 1) && v < l)
  {
    hide Walk;
    var h, w := Hits(a, b, p, l, t - 1), Walk(a, b, p, t - 1);
    if w < l {
      assert Hits(a, b, p, l, t) == h + [w];
    } else {
      assert Hits(a, b, p, l, t) == h + [];
    }
  }

  lemma {:induction false} HitsMember(a: nat, b: nat, p: nat, l: nat, t: nat, v: nat)
    requires b < p
    ensures v in Hits(a, b, p, l, t) <==> v < l && exists u: nat :: u < t && Walk(a, b, p, u) == v
  {
    if t != 0 {
      hide Walk;
      hide Hits;
      HitsMember(a, b, p, l, t - 1, v);
      HitsNext(a, b, p, l, t, v);
    }
  }

  lemma {:induction false} HitsDistinct(a: nat, b: nat, p: nat, l: nat, t: nat)
    requires IsPrime(p) && 1 <= a < p && b < p && t <= p
    ensures Distinct(Hits(a, b, p, l, t))
  {
    if t != 0 {
      HitsDistinct(a, b, p, l, t - 1);
      var w := Walk(a, b, p, t - 1);
      HitsMember(a, b, p, l, t - 1, w);
      forall u: nat | u < t - 1 ensures Walk(a, b, p, u) != w {
        WalkInjective(a, b, p, u, t - 1);
      }
    }
  }

  /** A full turn of the walk hits every index below `l` exactly once. */
  lemma HitsAll(a: nat, b: nat, p: nat, l: nat)
    requires IsPrime(p) && 1 <= a < p && b < p && l <= p
    ensures |Hits(a, b, p, l, p)| == l && Distinct(Hits(a, b, p, l, p))
  {
    var h := Hits(a, b, p, l, p);
    HitsDistinct(a, b, p, l, p);
    DistinctCount(h);
    forall v: nat | v < l ensures v in h {
      WalkSurjective(a, b, p, v);
      HitsMember(a, b, p, l, p, v);
    }
    assert Elements(h) == Below(l);
  }

  lemma {:induction false} HitsPrefix(a: nat, b: nat, p: nat, l: nat, t: nat, u: nat)
    requires b < p && t <= u
    ensures Hits(a, b, p, l, t) <= Hits(a, b, p, l, u)
    decreases u
  {
    if t < u {
      HitsPrefix(a, b, p, l, t, u - 1);
    }
  }

  // ---- parameters ----

  datatype Triple = Triple(d: nat, a: nat, b: nat)

  /** Code parameters: K source, S LDPC and H Half symbols, the prime L' at or above L = K + S + H,
      the Gray-code word of each Half column as a set of bits, and the triple generator. */
  datatype Params = Params(k: nat, s: nat, h: nat, prime: nat, words: seq<set<nat>>, trip: nat -> Triple) {
    function L(): nat {
      k + s + h
    }

    ghost predicate Valid() {
      && 3 <= s && s % 2 == 1
      && L() <= prime && IsPrime(prime)
      && |words| == k + s && (forall j, b :: 0 <= j < |words| && b in words[j] ==> b < h)
      && (forall id: nat :: 1 <= trip(id).a < prime && trip(id).b < prime)
    }
  }

  /** The three LDPC rows of a source symbol. */
  function LdpcTriple(s: nat, i: nat): (r: (nat, nat, nat))
    requires 2 <= s
  {
    var a := 1 + (i / s) % (s - 1);
    var b1 := i % s;
    var b2 := (b1 + a) % s;
    (b1, b2, (b2 + a) % s)
  }

  /** With S odd the three rows of a source symbol are distinct. */
  lemma LdpcDistinct(s: nat, i: nat)
    requires 3 <= s && s % 2 == 1
    ensures var (b1, b2, b3) := LdpcTriple(s, i);
            b1 < s && b2 < s && b3 < s && b1 != b2 && b2 != b3 && b1 != b3
  {
    var a := 1 + (i / s) % (s - 1);
    var b1 := i % s;
    assert 1 <= a <= s - 1;
    AddMod(b1, a, s);
    AddMod((b1 + a) % s, a, s);
  }

  /** Source symbols run through the rows first and through the strides next: column `r` of block `q` in round
      `c` meets the rows `r`, `r + (q + 1)` and `r + 2 (q + 1)`. */
  lemma LdpcTripleAt(s: nat, c: nat, q: nat, r: nat)
    requires 3 <= s && q < s - 1 && r < s
    ensures LdpcTriple(s, (c * (s - 1) + q) * s + r) == (r, (r + (q + 1)) % s, (r + 2 * (q + 1)) % s)
  {
    DivModUnique((c * (s - 1) + q) * s + r, s, c * (s - 1) + q, r);
    DivModUnique(c * (s - 1) + q, s - 1, c, q);
    ModAdd(r + (q + 1), q + 1, s);
  }

  lemma AddMod(x: nat, y: nat, s: nat)
    requires x < s && y < s
    ensures (x + y) % s == if x + y < s then x + y else x + y - s
  {}

  /** Constraint row `i`: an LDPC row for `i < S`, a Half row after that. */
  ghost function ConstraintRow(p: Params, i: nat): (r: set<nat>)
    requires p.Valid() && i < p.s + p.h
    ensures forall j :: j in r ==> j < p.L()
  {
    if i < p.s then
      (set j: nat | j < p.k && InTriple(p.s, j, i)) + {p.k + i}
    else
      (set j: nat | j < p.k + p.s && i - p.s in p.words[j]) + {p.k + i}
  }

  predicate InTriple(s: nat, j: nat, row: nat)
    requires 2 <= s
  {
    var (b1, b2, b3) := LdpcTriple(s, j);
    row == b1 || row == b2 || row == b3
  }

  /** The members of a row below `j`. */
  ghost function Prefix(r: set<nat>, j: nat): set<nat> {
    set i | i in r && i < j
  }

  lemma PrefixEmpty(r: set<nat>)
    ensures Prefix(r, 0) == {}
  {}

  /** A constraint row ends with its identity column. */
  lemma ConstraintRowEnd(p: Params, i: nat)
    requires p.Valid() && i < p.s + p.h
    ensures i < p.s ==> Prefix(ConstraintRow(p, i), p.k) + {p.k + i} == ConstraintRow(p, i)
    ensures p.s <= i ==> Prefix(ConstraintRow(p, i), p.k + p.s) + {p.k + i} == ConstraintRow(p, i)
  {}

  lemma ConstraintRowMember(p: Params, i: nat, j: nat)
    requires p.Valid() && i < p.s + p.h
    ensures i < p.s && j < p.k ==> (j in ConstraintRow(p, i) <==> InTriple(p.s, j, i))
    ensures p.s <= i && j < p.k + p.s ==> (j in ConstraintRow(p, i) <==> i - p.s in p.words[j])
  {}

  /** The three LDPC rows of a source symbol, in ascending order. */
  method SortedTriple(s: nat, i: nat) returns (b0: nat, b1: nat, b2: nat)
    requires 3 <= s && s % 2 == 1
    ensures b0 < b1 < b2 < s
    ensures forall b: nat :: InTriple(s, i, b) <==> b == b0 || b == b1 || b == b2
  {
    var t := LdpcTriple(s, i);
    LdpcDistinct(s, i);
    b0, b1, b2 := t.0, t.1, t.2;
    if b0 > b1 {
      b0, b1 := b1, b0;
    }
    if b1 > b2 {
      b1, b2 := b2, b1;
    }
    if b0 > b1 {
      b0, b1 := b1, b0;
    }
  }

  ghost function Degree(p: Params, id: nat): nat {
    if p.trip(id).d <= p.L() then p.trip(id).d else p.L()
  }

  /** The LT row of an encoding symbol: the first `min(d, L)` indices below L on its walk. */
  ghost function LtRow(p: Params, id: nat): (r: set<nat>)
    requires p.Valid()
    ensures forall j :: j in r ==> j < p.L()
  {
    var t := p.trip(id);
    HitsAll(t.a, t.b, p.prime, p.L());
    var s := Hits(t.a, t.b, p.prime, p.L(), p.prime);
    assert forall v :: v in s[..Degree(p, id)] ==> v in s;
    Elements(s[..Degree(p, id)])
  }

  /** Step `u` of the walk that starts at `b` and strides by `a` modulo `p`. */
  ghost function Position(a: nat, b: nat, p: nat, u: nat): nat
    requires p != 0
  {
    (b + u * a) % p
  }

  ghost function Earlier(a: nat, b: nat, p: nat, l: nat, t: nat): set<nat>
    requires p != 0
  {
    set u: nat | u < t && Position(a, b, p, u) < l
  }

  lemma {:induction false} EarlierCount(a: nat, b: nat, p: nat, l: nat, t: nat)
    requires b < p
    ensures |Hits(a, b, p, l, t)| == |Earlier(a, b, p, l, t)|
  {
    if t == 0 {
      assert Earlier(a, b, p, l, 0) == {};
    } else {
      EarlierCount(a, b, p, l, t - 1);
      WalkClosed(a, b, p, t - 1);
      hide Walk;
      hide Position;
      var e := Earlier(a, b, p, l, t - 1);
      if Position(a, b, p, t - 1) < l {
        assert Earlier(a, b, p, l, t) == e + {t - 1};
      } else {
        assert Earlier(a, b, p, l, t) == e;
      }
    }
  }

  /** The hit of step `t` stands behind all earlier hits. */
  lemma HitAt(a: nat, b: nat, p: nat, l: nat, t: nat)
    requires b < p && t < p && Walk(a, b, p, t) < l
    ensures |Hits(a, b, p, l, t)| < |Hits(a, b, p, l, p)| && Hits(a, b, p, l, p)[|Hits(a, b, p, l, t)|] == Walk(a, b, p, t)
  {
    hide Walk;
    HitsPrefix(a, b, p, l, t + 1, p);
    assert Hits(a, b, p, l, t + 1) == Hits(a, b, p, l, t) + [Walk(a, b, p, t)];
  }

  lemma {:induction false} HitFrom(a: nat, b: nat, p: nat, l: nat, m: nat, k: nat) returns (t: nat)
    requires b < p && k < |Hits(a, b, p, l, m)|
    ensures t < m && Walk(a, b, p, t) < l && |Hits(a, b, p, l, t)| == k && Hits(a, b, p, l, m)[k] == Walk(a, b, p, t)
  {
    hide Walk;
    if k < |Hits(a, b, p, l, m - 1)| {
      t := HitFrom(a, b, p, l, m - 1, k);
    } else {
      t := m - 1;
    }
  }

  /** A step whose value is in the row: a value below L with fewer than `min(d, L)` such values before it. */
  ghost predicate InRow(p: Params, id: nat, v: nat, t: nat)
    requires p.prime != 0
  {
    var r := p.trip(id);
    && t < p.prime && v == Position(r.a, r.b, p.prime, t) && v < p.L()
    && |Earlier(r.a, r.b, p.prime, p.L(), t)| < Degree(p, id)
  }

  /** Which symbols an LT row names: the walk starts at the drawn start, strides upwards, and its first values
      below L count. */
  lemma LtRowExactly(p: Params, id: nat, v: nat)
    requires p.Valid()
    ensures v in LtRow(p, id) <==> exists t :: InRow(p, id, v, t)
  {
    var r, l, q := p.trip(id), p.L(), p.prime;
    hide IsPrime;
    HitsAll(r.a, r.b, q, l);
    var s := Hits(r.a, r.b, q, l, q);
    var d := Degree(p, id);
    hide Walk;
    hide Hits;
    if v in s[..d] {
      var k :| 0 <= k < d && s[..d][k] == v;
      var t := HitFrom(r.a, r.b, q, l, q, k);
      WalkClosed(r.a, r.b, q, t);
      EarlierCount(r.a, r.b, q, l, t);
      assert InRow(p, id, v, t);
    }
    if t :| InRow(p, id, v, t) {
      WalkClosed(r.a, r.b, q, t);
      EarlierCount(r.a, r.b, q, l, t);
      HitAt(r.a, r.b, q, l, t);
      assert s[..d][|Hits(r.a, r.b, q, l, t)|] == v;
    }
  }

  /** Distinct indices below `l`, ascending. */
  method Ascending(s: seq<nat>, l: nat) returns (r: seq<nat>)
    requires forall v :: v in s ==> v < l
    ensures forall i, j :: 0 <= i < j < |r| ==> r[i] < r[j]
    ensures forall v :: v in r <==> v in s
  {
    r := [];
    for v := 0 to l
      invariant forall i, j :: 0 <= i < j < |r| ==> r[i] < r[j]
      invariant forall i :: 0 <= i < |r| ==> r[i] < v
      invariant forall u :: u in r <==> u in s && u < v
    {
      if v in s {
        r := r + [v];
      }
    }
  }

  /** Encoding symbol ids stay below the largest prime below 2^16. */
  const MAX_TRIPLES := 65521

  lemma WalkStart(a: nat, b: nat, p: nat, l: nat)
    requires b < p
    ensures Walk(a, b, p, 0) == b && Hits(a, b, p, l, 0) == []
  {}

  lemma WalkNext(a: nat, b: nat, p: nat, t: nat)
    requires b < p
    ensures Walk(a, b, p, t + 1) == (Walk(a, b, p, t) + a) % p
  {}

  lemma WalkStep(a: nat, b: nat, p: nat, l: nat, t: nat)
    requires b < p
    ensures Walk(a, b, p, t + 1) == (Walk(a, b, p, t) + a) % p
    ensures Hits(a, b, p, l, t + 1) == Hits(a, b, p, l, t) + if Walk(a, b, p, t) < l then [Walk(a, b, p, t)] else []
  {
    hide Walk;
    WalkNext(a, b, p, t);
  }

  /** Generates the LT row: the walk is followed, indices outside L are skipped, and the collected
      indices are sorted. */
  method LtSequence(p: Params, id: nat) returns (symbols: seq<nat>)
    requires p.Valid() && id < MAX_TRIPLES
    ensures forall i, j :: 0 <= i < j < |symbols| ==> symbols[i] < symbols[j]
    ensures forall v :: v in symbols ==> v < p.L()
    ensures |symbols| == Degree(p, id)
    ensures Elements(symbols) == LtRow(p, id)
  {
    hide IsPrime;
    hide Walk;
    hide Hits;
    var trip := p.trip(id);
    var numSymbols := if trip.d <= p.L() then trip.d else p.L();
    var bb := trip.b;
    symbols := [];
    ghost var t := 0;
    ghost var a, b, l := trip.a, trip.b, p.L();
    HitsAll(a, b, p.prime, l);
    WalkStart(a, b, p.prime, l);
    for i := 0 to numSymbols
      invariant t <= p.prime && bb == Walk(a, b, p.prime, t)
      invariant symbols == Hits(a, b, p.prime, l, t) && |symbols| == i
    {
      while bb >= p.L()
        invariant t <= p.prime && bb == Walk(a, b, p.prime, t)
        invariant symbols == Hits(a, b, p.prime, l, t)
        invariant |symbols| == i < numSymbols
        decreases p.prime - t
      {
        assert t != p.prime;
        WalkStep(a, b, p.prime, l, t);
        bb := (bb + trip.a) % p.prime;
        t := t + 1;
      }
      assert t != p.prime;
      WalkStep(a, b, p.prime, l, t);
      symbols := symbols + [bb];
      bb := (bb + trip.a) % p.prime;
      t := t + 1;
    }
    HitsPrefix(a, b, p.prime, l, t, p.prime);
    assert symbols == Hits(a, b, p.prime, l, p.prime)[..numSymbols];
    ghost var found := symbols;
    symbols := Ascending(symbols, p.L());
    assert Elements(symbols) == Elements(found);
    DistinctCount(symbols);
    DistinctCount(found);
  }
}
