/** Derivation of the code parameters from the number of source symbols (section 5.4.2.3 of RFC 5053). */
module CodeParameters {
  import opened Wrappers
  import opened OrderedSets
  import opened RaptorCode
  import opened HalfWords

  const SOURCE_SYMBOLS_MIN := 1
  const SOURCE_SYMBOLS_MAX := 8192
  const X_MIN := 4
  const X_MAX := 129
  const HALF_MIN := 5
  const HALF_MAX := 16
  const MAX_V := 1048576

  const LAST_PRIME := 8419
  const ENOUGH_LDPC := 211

  /** The constant tables: the primes up to 8419, the two random tables and the systematic indices. */
  datatype Tables = Tables(primes: seq<nat>, v0: seq<bv32>, v1: seq<bv32>, systematic: seq<nat>) {
    ghost predicate Valid() {
      && (forall i, j :: 0 <= i < j < |primes| ==> primes[i] < primes[j])
      && (forall p: nat :: p in primes <==> IsPrime(p) && p <= LAST_PRIME)
      && ENOUGH_LDPC in primes && LAST_PRIME in primes
      && |v0| == |v1| == 256 && |systematic| == SOURCE_SYMBOLS_MAX
    }
  }

  // ---- binomials ----

  function Fact(n: nat): (f: nat)
    ensures 1 <= f
  {
    if n == 0 then 1 else n * Fact(n - 1)
  }

  /** The product of `k + 1` up to `n`. */
  function Rising(k: nat, n: nat): (f: nat)
    ensures 1 <= f
  {
    if n <= k then 1 else n * Rising(k, n - 1)
  }

  lemma RisingUnfold(k: nat, n: nat)
    requires k < n
    ensures Rising(k, n) == n * Rising(k, n - 1)
  {}

  lemma Commute(a: nat, b: nat, r: nat)
    ensures a * (b * r) == b * (a * r)
  {}

  lemma {:induction false} RisingFront(k: nat, n: nat)
    requires k < n
    ensures Rising(k, n) == (k + 1) * Rising(k + 1, n)
  {
    hide Rising;
    RisingUnfold(k, n);
    if k + 1 < n {
      RisingFront(k, n - 1);
      RisingUnfold(k + 1, n);
      Commute(n, k + 1, Rising(k + 1, n - 1));
    } else {
      RisingNone(k, k);
      RisingNone(n, n);
    }
  }

  lemma {:induction false} ChooseNone(n: nat, k: nat)
    requires n < k
    ensures Choose(n, k) == 0
  {
    if n != 0 {
      ChooseNone(n - 1, k);
      ChooseNone(n - 1, k - 1);
    }
  }

  lemma {:induction false} RisingFact(n: nat)
    ensures Rising(0, n) == Fact(n)
  {
    if n != 0 {
      RisingFact(n - 1);
    }
  }

  lemma Distribute(a: nat, b: nat, f: nat, g: nat, m: nat, k: nat, r: nat)
    requires f == m * g && a * g == r && b * f == k * r
    ensures (a + b) * f == (m + k) * r
  {}

  /** C(n, k) (n - k)! = (k + 1) ... n. */
  lemma {:induction false} ChooseFact(n: nat, k: nat)
    requires k <= n
    ensures Choose(n, k) * Fact(n - k) == Rising(k, n)
  {
    if k == 0 {
      RisingFact(n);
    } else if k == n {
      ChooseNone(n - 1, n);
      ChooseFact(n - 1, n - 1);
    } else {
      ChooseFact(n - 1, k);
      ChooseFact(n - 1, k - 1);
      RisingFront(k - 1, n - 1);
      Distribute(Choose(n - 1, k), Choose(n - 1, k - 1), Fact(n - k), Fact(n - 1 - k), n - k, k, Rising(k, n - 1));
    }
  }

  lemma DivExact(a: nat, v: nat, r: nat)
    requires 0 < v
    ensures (a * (v * r)) / v == a * r
  {
    assert a * (v * r) == (a * r) * v;
    DivModUnique(a * (v * r), v, a * r, 0);
  }

  lemma RisingStep(k: nat, v: nat)
    requires k < v && Rising(k, v) < 0x1_0000_0000
    ensures Rising(k, v - 1) * v % 0x1_0000_0000 == Rising(k, v)
  {
    hide Rising;
    RisingUnfold(k, v);
    var r := Rising(k, v - 1);
    assert r * v == Rising(k, v);
  }

  /** Dividing by the next factor removes it. */
  lemma DivideStep(a: nat, v: nat, n: nat)
    requires 0 < v <= n
    ensures a * Rising(v - 1, n) / v == a * Rising(v, n)
  {
    RisingFront(v - 1, n);
    DivExact(a, v, Rising(v, n));
  }

  /** The loops multiply up and divide down in 32-bit arithmetic; every division is exact. */
  method ChooseLoop(n: nat, k: nat) returns (r: nat)
    requires k <= n && Rising(k, n) < 0x1_0000_0000
    ensures r == Choose(n, k) % 0x1_0000
  {
    hide Choose;
    hide Rising;
    hide Fact;
    var c: nat := 1;
    RisingNone(k, k);
    for v := k + 1 to n + 1
      invariant c == Rising(k, v - 1)
    {
      RisingMono(k, v, n);
      RisingStep(k, v);
      c := c * v % 0x1_0000_0000;
    }
    ghost var a := Choose(n, k);
    ChooseStart(n, k);
    var v := 2;
    while v <= n - k
      invariant 2 <= v && c == a * Rising(v - 1, n - k)
    {
      DivideStep(a, v, n - k);
      c := c / v;
      v := v + 1;
    }
    RisingNone(v - 1, n - k);
    r := c % 0x1_0000;
  }

  lemma RisingNone(k: nat, n: nat)
    requires n <= k
    ensures Rising(k, n) == 1
  {}

  lemma ChooseStart(n: nat, k: nat)
    requires k <= n
    ensures Rising(k, n) == Choose(n, k) * Rising(1, n - k)
  {
    hide Choose;
    ChooseFact(n, k);
    RisingFact(n - k);
    if k < n {
      RisingFront(0, n - k);
    }
  }

  lemma {:induction false} RisingMono(k: nat, v: nat, n: nat)
    requires v <= n
    ensures Rising(k, v) <= Rising(k, n)
  {
    hide Rising;
    if v < n {
      RisingMono(k, v, n - 1);
      if k < n {
        RisingUnfold(k, n);
        MulAtLeast(n, Rising(k, n - 1));
      } else {
        RisingNone(k, n);
        RisingNone(k, n - 1);
      }
    }
  }

  function Central(h: nat): nat {
    Choose(h, (h + 1) / 2)
  }

  lemma CentralIs(h: nat)
    ensures Central(h) == Choose(h, (h + 1) / 2)
  {}

  lemma {:induction false} CentralMono(h: nat, h': nat)
    requires 0 < h <= h'
    ensures Central(h) <= Central(h')
  {
    if h < h' {
      CentralMono(h, h' - 1);
    }
  }

  lemma CentralTop()
    ensures Central(HALF_MAX) == 12870
  {
    hide Choose;
    ChooseFact(16, 8);
    FactEight();
    assert Rising(8, 16) == 518918400;
  }

  lemma FactEight()
    ensures Fact(8) == 40320
  {}

  lemma MulBound(a: nat, b: nat, c: nat, d: nat)
    requires a <= c && b <= d
    ensures a * b <= c * d
  {}

  /** For the sizes in use neither the 32-bit product nor the 16-bit result overflows. */
  lemma CentralFits(h: nat)
    requires HALF_MIN <= h <= HALF_MAX
    ensures Rising((h + 1) / 2, h) < 0x1_0000_0000 && Central(h) < 0x1_0000
  {
    hide Choose;
    hide Rising;
    hide Fact;
    CentralTop();
    CentralMono(h, HALF_MAX);
    var k := (h + 1) / 2;
    ChooseFact(h, k);
    RisingFact(h - k);
    RisingFact(8);
    RisingMono(0, h - k, 8);
    FactEight();
    MulBound(Choose(h, k), Fact(h - k), 12870, 40320);
  }

  // ---- the derived sizes ----

  ghost predicate LeastPrime(n: nat, p: nat) {
    IsPrime(p) && n <= p && forall q: nat :: IsPrime(q) && n <= q ==> p <= q
  }

  function Pairs(x: int): int {
    x * (x - 1)
  }

  /** The least X of at least 4 with X (X - 1) >= 2 K. */
  ghost predicate LeastX(k: nat, x: nat) {
    X_MIN <= x && Pairs(x) >= 2 * k && forall y :: X_MIN <= y < x ==> Pairs(y) < 2 * k
  }

  /** The least H of at least 5 with C(H, ceil(H / 2)) >= n. */
  ghost predicate LeastHalf(n: nat, h: nat) {
    HALF_MIN <= h && Central(h) >= n && forall g :: HALF_MIN <= g < h ==> Central(g) < n
  }

  lemma PairsMono(x: int, y: int)
    requires 1 <= x <= y
    ensures Pairs(x) <= Pairs(y)
  {}

  method DetermineX(k: nat) returns (x: nat)
    requires k <= SOURCE_SYMBOLS_MAX
    ensures LeastX(k, x) && x <= X_MAX
  {
    var r := SmallestIntegerSatisfying(X_MIN, X_MAX + 1, (p: int) => Pairs(p) >= 2 * k);
    assert Pairs(X_MAX) >= 2 * k;
    x := r.value;
    forall y | X_MIN <= y < x ensures Pairs(y) < 2 * k {
      PairsMono(y, x - 1);
    }
  }

  method SmallestPrimeGreaterOrEqual(t: Tables, n: nat) returns (p: Option<nat>)
    requires t.Valid()
    ensures p.Some? <==> n <= LAST_PRIME
    ensures p.Some? ==> LeastPrime(n, p.value) && p.value in t.primes
  {
    hide IsPrime;
    var ps := t.primes;
    var i := SmallestIntegerSatisfying(0, |ps|, i => 0 <= i < |ps| && ps[i] >= n);
    if i.None? {
      var last := |ps| - 1;
      forall q | q in ps ensures q < n {
        var j :| 0 <= j < |ps| && ps[j] == q;
        assert j == last || ps[j] < ps[last];
      }
      return None;
    }
    forall j | 0 <= j < i.value ensures ps[j] < n {
      assert j == i.value - 1 || ps[j] < ps[i.value - 1];
    }
    assert ps[i.value] in ps;
    forall q: nat | IsPrime(q) && n <= q ensures ps[i.value] <= q {
      assert q <= LAST_PRIME ==> q in ps;
    }
    p := Some(ps[i.value]);
  }

  method DetermineNumHalfSymbols(n: nat) returns (h: Option<nat>)
    ensures h.Some? <==> n <= Central(HALF_MAX)
    ensures h.Some? ==> LeastHalf(n, h.value) && h.value <= HALF_MAX
  {
    hide Central;
    var r := SmallestIntegerSatisfying(HALF_MIN, HALF_MAX + 1, h => 0 <= h && Central(h) >= n);
    if r.None? {
      return None;
    }
    CentralMono(r.value, HALF_MAX);
    forall g | HALF_MIN <= g < r.value ensures Central(g) < n {
      CentralMono(g, r.value - 1);
    }
    h := Some(r.value);
  }

  // ---- the triple generator ----

  /** The table word that generator state `x` yields at offset `i`: low byte into the first table, high part
      into the second (section 5.4.4.1 of RFC 5053). */
  ghost function Word(t: Tables, x: nat, i: nat): nat
    requires |t.v0| == |t.v1| == 256
  {
    (t.v0[(x % 256 + i) % 256] ^ t.v1[(x / 256 + i) % 256]) as nat
  }

  function Draw(t: Tables, x: nat, i: nat): nat
    requires |t.v0| == |t.v1| == 256
  {
    (t.v0[(x + i) % 256] ^ t.v1[(x / 256 + i) % 256]) as nat
  }

  function Rand(t: Tables, x: nat, i: nat, m: nat): (r: nat)
    requires |t.v0| == |t.v1| == 256 && m > 0
    ensures r < m
  {
    Draw(t, x, i) % m
  }

  lemma RandWord(t: Tables, x: nat, i: nat, m: nat)
    requires |t.v0| == |t.v1| == 256 && m > 0
    ensures Rand(t, x, i, m) == Word(t, x, i) % m
  {
    ModAdd(x, i, 256);
    assert (x % 256 + i) % 256 == (x + i) % 256;
    assert Draw(t, x, i) == Word(t, x, i);
  }

  function Deg(v: nat): (d: nat)
    requires v < MAX_V
    ensures 1 <= d <= 40
  {
    if v <= 10240 then 1
    else if v <= 491581 then 2
    else if v <= 712793 then 3
    else if v <= 831694 then 4
    else if v <= 948445 then 10
    else if v <= 1032188 then 11
    else 40
  }

  ghost function Drawing(d: nat): set<nat> {
    set v: nat | v < MAX_V && Deg(v) == d
  }

  /** The degree distribution: degrees rise with the draw, and of the 2^20 draws each degree has the share of
      the table in section 5.4.4.2 of RFC 5053. */
  lemma DegDistribution()
    ensures forall v, w :: 0 <= v <= w < MAX_V ==> Deg(v) <= Deg(w)
    ensures |Drawing(1)| == 10241 && |Drawing(2)| == 481341 && |Drawing(3)| == 221212 && |Drawing(4)| == 118901
    ensures |Drawing(10)| == 116751 && |Drawing(11)| == 83743 && |Drawing(40)| == 16387
  {
    DrawingIs(1, 0, 10241);
    DrawingIs(2, 10241, 491582);
    DrawingIs(3, 491582, 712794);
    DrawingIs(4, 712794, 831695);
    DrawingIs(10, 831695, 948446);
    DrawingIs(11, 948446, 1032189);
    DrawingIs(40, 1032189, MAX_V);
  }

  lemma DrawingIs(d: nat, lo: nat, hi: nat)
    requires lo <= hi <= MAX_V && forall v: nat :: v < MAX_V ==> (Deg(v) == d <==> lo <= v < hi)
    ensures |Drawing(d)| == hi - lo
  {
    assert Drawing(d) == Below(hi) - Below(lo) && Below(lo) <= Below(hi);
  }

  // ---- the generator state ----

  /** The state of the generator for encoding symbol `id` under systematic index `j`. */
  ghost predicate IsState(j: nat, id: nat, y: nat) {
    y < MAX_TRIPLES && (10267 * (j + 1) + id * (53591 + 997 * j) - y) % MAX_TRIPLES == 0
  }

  /** Reducing the two factors first leaves the state the same. */
  lemma Reduced(x: nat, a: nat, id: nat, q: nat)
    requires q > 0
    ensures (x + id * a - (x % q + id * (a % q)) % q) % q == 0
  {
    var z := x % q + id * (a % q);
    var c := x / q + id * (a / q) + z / q;
    assert x == (x / q) * q + x % q && a == (a / q) * q + a % q && z == (z / q) * q + z % q;
    assert id * a == id * (a / q) * q + id * (a % q);
    assert x + id * a - z % q == c * q;
    ModMultiple(c, q);
  }

  /** There is exactly one state. */
  lemma StateOnly(j: nat, id: nat, y: nat)
    requires y == (10267 * (j + 1) % MAX_TRIPLES + id * ((53591 + j * 997) % MAX_TRIPLES)) % MAX_TRIPLES
    ensures forall x :: IsState(j, id, x) <==> x == y
  {
    Reduced(10267 * (j + 1), 53591 + 997 * j, id, MAX_TRIPLES);
    var n := 10267 * (j + 1) + id * (53591 + 997 * j);
    forall x | IsState(j, id, x) ensures x == y {
      EqualSteps(n, x, y, MAX_TRIPLES);
    }
  }

  lemma EqualSteps(n: int, x: nat, y: nat, q: nat)
    requires x < q && y < q && (n - x) % q == 0 && (n - y) % q == 0
    ensures x == y
  {
    ModExact(n - x, q);
    ModExact(n - y, q);
    DiffMultiple((n - x) / q, x, (n - y) / q, y, q);
  }

  /** The triple of section 5.4.4.4 of RFC 5053: degree, stride and start come from the words at offsets 0, 1
      and 2 of the one generator state. */
  function Trip(t: Tables, j: nat, prime: nat, id: nat): (r: Triple)
    requires |t.v0| == |t.v1| == 256 && prime >= 2
    ensures 1 <= r.d && 1 <= r.a < prime && r.b < prime
    ensures forall y :: IsState(j, id, y) ==>
              && r.d == Deg(Word(t, y, 0) % MAX_V) && r.a - 1 == Word(t, y, 1) % (prime - 1) && r.b == Word(t, y, 2) % prime
  {
    var aa := (53591 + j * 997) % MAX_TRIPLES;
    var bb := 10267 * (j + 1) % MAX_TRIPLES;
    var y := (bb + id * aa) % MAX_TRIPLES;
    StateOnly(j, id, y);
    RandWord(t, y, 0, MAX_V);
    RandWord(t, y, 1, prime - 1);
    RandWord(t, y, 2, prime);
    Triple(Deg(Rand(t, y, 0, MAX_V)), 1 + Rand(t, y, 1, prime - 1), Rand(t, y, 2, prime))
  }

  // ---- distinct symbols have distinct states ----

  /** No number from `d` up to `d + 15` divides `n`. */
  predicate Clear(n: nat, d: nat)
    requires d > 0
  {
    && n % d != 0 && n % (d + 1) != 0 && n % (d + 2) != 0 && n % (d + 3) != 0
    && n % (d + 4) != 0 && n % (d + 5) != 0 && n % (d + 6) != 0 && n % (d + 7) != 0
    && n % (d + 8) != 0 && n % (d + 9) != 0 && n % (d + 10) != 0 && n % (d + 11) != 0
    && n % (d + 12) != 0 && n % (d + 13) != 0 && n % (d + 14) != 0 && n % (d + 15) != 0
  }

  lemma ClearAt(n: nat, d: nat, e: nat)
    requires 0 < d <= e < d + 16 && Clear(n, d)
    ensures n % e != 0
  {}

  lemma Cleared()
    ensures Clear(65521, 2) && Clear(65521, 18) && Clear(65521, 34) && Clear(65521, 50)
    ensures Clear(65521, 66) && Clear(65521, 82) && Clear(65521, 98) && Clear(65521, 114)
    ensures Clear(65521, 130) && Clear(65521, 146) && Clear(65521, 162) && Clear(65521, 178)
    ensures Clear(65521, 194) && Clear(65521, 210) && Clear(65521, 226) && Clear(65521, 242)
  {}

  lemma NoSmallFactor(e: nat)
    requires 2 <= e < 258
    ensures 65521 % e != 0
  {
    Cleared();
    hide Clear;
    ClearAt(65521, if e < 18 then 2 else if e < 34 then 18 else if e < 50 then 34 else if e < 66 then 50
                   else if e < 82 then 66 else if e < 98 then 82 else if e < 114 then 98 else if e < 130 then 114
                   else if e < 146 then 130 else if e < 162 then 146 else if e < 178 then 162 else if e < 194 then 178
                   else if e < 210 then 194 else if e < 226 then 210 else if e < 242 then 226 else 242, e);
  }

  /** Trial division by everything below 256 settles primality below 256 squared. */
  lemma StatePrime()
    ensures IsPrime(MAX_TRIPLES)
  {
    var n := MAX_TRIPLES;
    forall d: nat | 2 <= d < n ensures !Divides(d, n) {
      if n % d == 0 {
        var e := n / d;
        ModExact(n, d);
        if d < 256 {
          NoSmallFactor(d);
        } else {
          assert 2 <= e < 256 by {
            assert n == e * d >= e * 256;
          }
          ModMultiple(d, e);
          assert d * e == n;
          NoSmallFactor(e);
        }
      }
    }
  }

  /** Distinct encoding symbol ids have distinct generator states, exactly if the multiplier of the systematic
      index is not a multiple of 65521. */
  lemma StatesDistinct(j: nat)
    ensures (53591 + 997 * j) % MAX_TRIPLES != 0 <==>
            forall id, id', y, y' :: 0 <= id < id' < MAX_TRIPLES && IsState(j, id, y) && IsState(j, id', y') ==> y != y'
  {
    var a, q := 53591 + 997 * j, MAX_TRIPLES;
    if a % q != 0 {
      forall id: nat, id': nat, y, y' | id < id' < q && IsState(j, id, y) && IsState(j, id', y') ensures y != y' {
        StatesApart(j, id, id', y, y');
      }
    } else {
      StateAt(j, 0);
      StateAt(j, 1);
      var y :| IsState(j, 0, y);
      var y' :| IsState(j, 1, y');
      ModExact(a, q);
      assert 10267 * (j + 1) + 1 * a - y == (10267 * (j + 1) + 0 * a - y) + (a / q) * q;
      ModExact(10267 * (j + 1) + 0 * a - y, q);
      ModMultiple((10267 * (j + 1) + 0 * a - y) / q + a / q, q);
      EqualSteps(10267 * (j + 1) + 1 * a, y, y', q);
    }
  }

  lemma StateAt(j: nat, id: nat)
    ensures exists y :: IsState(j, id, y)
  {
    var y := (10267 * (j + 1) % MAX_TRIPLES + id * ((53591 + j * 997) % MAX_TRIPLES)) % MAX_TRIPLES;
    StateOnly(j, id, y);
    assert IsState(j, id, y);
  }

  lemma StatesApart(j: nat, id: nat, id': nat, y: nat, y': nat)
    requires (53591 + 997 * j) % MAX_TRIPLES != 0 && id < id' < MAX_TRIPLES && IsState(j, id, y) && IsState(j, id', y')
    ensures y != y'
  {
    if y == y' {
      var a, q, b := 53591 + 997 * j, MAX_TRIPLES, 10267 * (j + 1);
      StatePrime();
      hide IsPrime;
      MultipleApart(b + id * a - y, b + id' * a - y, q);
      assert (b + id' * a - y) - (b + id * a - y) == (id' - id) * a;
      ReducedProduct(a, id' - id, q);
      PrimeProduct(a % q, id' - id, q);
    }
  }

  lemma MultipleApart(m: int, n: int, q: nat)
    requires q > 0 && m % q == 0 && n % q == 0
    ensures (n - m) % q == 0
  {
    ModExact(m, q);
    ModExact(n, q);
    assert n - m == (n / q - m / q) * q;
    ModMultiple(n / q - m / q, q);
  }

  lemma ReducedProduct(a: nat, k: nat, q: nat)
    requires q > 0 && (k * a) % q == 0
    ensures ((a % q) * k) % q == 0
  {
    ModExact(k * a, q);
    assert a == (a / q) * q + a % q;
    assert (a % q) * k == k * a - k * (a / q) * q == (k * a / q - k * (a / q)) * q;
    ModMultiple(k * a / q - k * (a / q), q);
  }

  function Triples(t: Tables, j: nat, prime: nat): (f: nat -> Triple)
    requires |t.v0| == |t.v1| == 256 && prime >= 2
    ensures forall id :: f(id) == Trip(t, j, prime, id)
  {
    (id: nat) => Trip(t, j, prime, id)
  }

  // ---- the parameters ----

  ghost predicate LdpcSize(k: nat, s: nat) {
    exists x: nat :: LeastX(k, x) && LeastPrime((k + 99) / 100 + x, s)
  }

  /** The parameters that section 5.4.2.3 of RFC 5053 fixes for `k` source symbols. */
  ghost predicate IsCode(t: Tables, k: nat, p: Params) {
    && t.Valid() && SOURCE_SYMBOLS_MIN <= k <= SOURCE_SYMBOLS_MAX && p.k == k
    && LdpcSize(k, p.s)
    && LeastHalf(k + p.s, p.h)
    && LeastPrime(p.L(), p.prime)
    && IsHalfWords(p.h, (p.h + 1) / 2, k + p.s, p.words)
    && p.prime >= 2 && p.trip == Triples(t, t.systematic[k - 1], p.prime)
  }

  lemma LdpcSizeUnique(k: nat, s: nat, s': nat)
    requires LdpcSize(k, s) && LdpcSize(k, s')
    ensures s == s'
  {}

  /** Sender and receiver derive the same code from the same K. */
  lemma CodeUnique(t: Tables, k: nat, p: Params, q: Params)
    requires IsCode(t, k, p) && IsCode(t, k, q)
    ensures p == q
  {
    hide IsPrime;
    hide LdpcSize;
    hide Central;
    hide Tables.Valid;
    LdpcSizeUnique(k, p.s, q.s);
    assert p.h == q.h;
    assert p.prime == q.prime;
  }

  lemma CodeValid(t: Tables, k: nat, p: Params)
    requires IsCode(t, k, p)
    ensures p.Valid()
    ensures forall i, j :: 0 <= i < j < k + p.s ==> p.words[i] != p.words[j]
  {
    hide Central;
    hide IsHalfWords;
    hide Tables.Valid;
    HalfWordsShape(p.h, (p.h + 1) / 2, k + p.s, p.words);
    var x: nat :| LeastX(k, x) && LeastPrime((k + 99) / 100 + x, p.s);
    assert p.s % 2 == 1 by {
      assert !Divides(2, p.s);
    }
  }

  lemma EnoughPrime(t: Tables)
    requires t.Valid()
    ensures IsPrime(ENOUGH_LDPC)
  {}

  lemma LdpcSizeSmall(k: nat, s: nat)
    requires k <= SOURCE_SYMBOLS_MAX && LdpcSize(k, s) && IsPrime(ENOUGH_LDPC)
    ensures s <= ENOUGH_LDPC
  {
    hide IsPrime;
    var x: nat :| LeastX(k, x) && LeastPrime((k + 99) / 100 + x, s);
    assert Pairs(X_MAX) >= 2 * k;
    assert x <= X_MAX;
  }

  lemma LeastHalfSmall(n: nat, h: nat)
    requires n <= Central(HALF_MAX) && LeastHalf(n, h)
    ensures h <= HALF_MAX
  {
    hide Central;
  }

  lemma CodeSmall(t: Tables, k: nat, p: Params)
    requires IsCode(t, k, p)
    ensures p.s <= ENOUGH_LDPC && p.h <= HALF_MAX
  {
    hide IsPrime;
    hide Central;
    hide LdpcSize;
    hide LeastHalf;
    hide LeastPrime;
    hide IsHalfWords;
    EnoughPrime(t);
    LdpcSizeSmall(k, p.s);
    CentralTop();
    LeastHalfSmall(k + p.s, p.h);
  }

  /** Derives the parameters; every K from 1 to 8192 has a code. */
  method NewCodeParameters(t: Tables, k: int) returns (r: Option<Params>)
    requires t.Valid()
    ensures r.Some? <==> SOURCE_SYMBOLS_MIN <= k <= SOURCE_SYMBOLS_MAX
    ensures r.Some? ==> IsCode(t, k, r.value) && r.value.Valid() && r.value.k == k
  {
    hide IsPrime;
    hide Central;
    hide LeastX;
    hide IsHalfWords;
    if k < SOURCE_SYMBOLS_MIN || k > SOURCE_SYMBOLS_MAX {
      return None;
    }
    var x := DetermineX(k);
    var s := SmallestPrimeGreaterOrEqual(t, (k + 99) / 100 + x);
    assert s.value <= ENOUGH_LDPC;
    assert LdpcSize(k, s.value);
    var h := DetermineNumHalfSymbols(k + s.value);
    CentralTop();
    CentralIs(h.value);
    var l := k + s.value + h.value;
    var lp := SmallestPrimeGreaterOrEqual(t, l);
    var words := GrayWords(h.value, (h.value + 1) / 2, k + s.value);
    var p := Params(k, s.value, h.value, lp.value, words, Triples(t, t.systematic[k - 1], lp.value));
    assert IsCode(t, k, p);
    CodeValid(t, k, p);
    r := Some(p);
  }
}
