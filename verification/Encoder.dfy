/** The Raptor encoder: source symbols, LDPC and Half symbols, and LT-coded output. */
module RaptorEncoder {
  import opened Gf2
  import opened RaptorCode
  import opened CodeParameters
  import opened Completeness
  import opened Wrappers

  const MAX_SOURCES := 6

  // ---- XOR of many symbols ----

  ghost function XorAll(srcs: seq<Payload>, n: nat): (r: Payload)
    requires forall t :: 0 <= t < |srcs| ==> |srcs[t]| == n
    ensures |r| == n
  {
    if srcs == [] then Zero(n) else Xor(XorAll(srcs[..|srcs| - 1], n), srcs[|srcs| - 1])
  }

  lemma {:induction false} XorAllConcat(a: seq<Payload>, b: seq<Payload>, n: nat)
    requires forall t :: 0 <= t < |a| ==> |a[t]| == n
    requires forall t :: 0 <= t < |b| ==> |b[t]| == n
    ensures XorAll(a + b, n) == Xor(XorAll(a, n), XorAll(b, n))
    decreases |b|
  {
    if b == [] {
      assert a + b == a;
      XorZero(XorAll(a, n));
    } else {
      var b', last := b[..|b| - 1], b[|b| - 1];
      XorAllConcat(a, b', n);
      assert (a + b)[..|a + b| - 1] == a + b';
      XorAssoc(XorAll(a, n), XorAll(b', n), last);
    }
  }

  /** XORs every source into `dst`. */
  method XorEq(dst: array<bv8>, srcs: seq<Payload>)
    requires 1 <= |srcs| <= MAX_SOURCES
    requires forall t :: 0 <= t < |srcs| ==> |srcs[t]| == dst.Length
    modifies dst
    ensures dst[..] == Xor(old(dst[..]), XorAll(srcs, dst.Length))
  {
    ghost var n := dst.Length;
    for i := 0 to dst.Length
      invariant forall k :: 0 <= k < i ==> dst[k] == old(dst[k]) ^ XorAll(srcs, n)[k]
      invariant forall k :: i <= k < n ==> dst[k] == old(dst[k])
    {
      var acc: bv8 := 0;
      for t := 0 to |srcs|
        invariant acc == XorAll(srcs[..t], n)[i]
      {
        assert srcs[..t + 1][..t] == srcs[..t];
        acc := acc ^ srcs[t][i];
      }
      assert srcs[..|srcs|] == srcs;
      dst[i] := dst[i] ^ acc;
    }
  }

  /** The symbols a list of indices names. */
  function Picked(x: seq<Payload>, list: seq<nat>): (r: seq<Payload>)
    requires forall t :: 0 <= t < |list| ==> list[t] < |x|
    ensures |r| == |list|
    ensures forall t :: 0 <= t < |list| ==> r[t] == x[list[t]]
  {
    seq(|list|, t requires 0 <= t < |list| => x[list[t]])
  }

  lemma {:induction false} PickedSum(x: seq<Payload>, list: seq<nat>, n: nat)
    requires forall t :: 0 <= t < |list| ==> list[t] < |x|
    requires Shaped(x, |x|, n) && Distinct(list)
    ensures XorAll(Picked(x, list), n) == Sum(Elements(list), x, n)
    decreases |list|
  {
    if list == [] {
      assert Elements(list) == {};
      SumToEmpty(x, |x|, n);
    } else {
      var m := |list| - 1;
      PickedSum(x, list[..m], n);
      assert Picked(x, list)[..m] == Picked(x, list[..m]);
      assert Elements(list) == SymDiff(Elements(list[..m]), {list[m]}) by {
        assert list == list[..m] + [list[m]];
        assert list[m] !in list[..m];
      }
      SumSymDiff(Elements(list[..m]), {list[m]}, x, n);
      SumSingleton(list[m], x, n);
    }
  }

  /** XORs the named symbols into `dst`, at most `MAX_SOURCES` at a time. */
  method XorIndices(dst: array<bv8>, x: seq<Payload>, list: seq<nat>)
    requires forall t :: 0 <= t < |list| ==> list[t] < |x|
    requires Shaped(x, |x|, dst.Length)
    modifies dst
    ensures dst[..] == Xor(old(dst[..]), XorAll(Picked(x, list), dst.Length))
  {
    ghost var n, d0, all := dst.Length, dst[..], Picked(x, list);
    XorZero(d0);
    var start := 0;
    while start < |list|
      invariant 0 <= start <= |list|
      invariant dst[..] == Xor(d0, XorAll(all[..start], n))
    {
      var end := if start + MAX_SOURCES > |list| then |list| else start + MAX_SOURCES;
      var chunk := Picked(x, list[start..end]);
      assert chunk == all[start..end];
      assert all[..end] == all[..start] + all[start..end];
      XorAllConcat(all[..start], all[start..end], n);
      XorAssoc(d0, XorAll(all[..start], n), XorAll(all[start..end], n));
      XorEq(dst, chunk);
      start := end;
    }
    assert all[..start] == all;
  }

  // ---- row lists ----

  ghost predicate Ascends(list: seq<nat>) {
    forall i, j :: 0 <= i < j < |list| ==> list[i] < list[j]
  }

  /** `list` is the ascending list of the members of `row` below `j`. */
  ghost predicate Holds(list: seq<nat>, row: set<nat>, j: nat) {
    Ascends(list) && forall v :: v in list <==> v in row && v < j
  }

  lemma HoldsStep(list: seq<nat>, row: set<nat>, j: nat)
    requires Holds(list, row, j)
    ensures j in row ==> Holds(list + [j], row, j + 1)
    ensures j !in row ==> Holds(list, row, j + 1)
  {
    forall i | 0 <= i < |list| ensures list[i] < j {
      assert list[i] in list;
    }
  }

  lemma HoldsAll(list: seq<nat>, row: set<nat>, j: nat)
    requires Holds(list, row, j)
    ensures Distinct(list) && Elements(list) == Prefix(row, j)
    ensures forall t :: 0 <= t < |list| ==> list[t] < j
  {
    forall t | 0 <= t < |list| ensures list[t] < j {
      assert list[t] in list;
    }
  }

  /** The LDPC symbols of a Half row, numbered from zero. */
  ghost function HalfRight(p: Params, i: nat): set<nat>
    requires p.Valid()
  {
    set v: nat | v < p.s && InHalfRight(p, i, v)
  }

  predicate InHalfRight(p: Params, i: nat, v: nat)
    requires p.k + v < |p.words|
  {
    i in p.words[p.k + v]
  }

  /** The source symbols of every LDPC row. */
  method LdpcLists(p: Params) returns (lists: seq<seq<nat>>)
    requires p.Valid()
    ensures |lists| == p.s && forall b :: 0 <= b < p.s ==> Holds(lists[b], ConstraintRow(p, b), p.k)
  {
    lists := seq(p.s, _ => []);
    for i := 0 to p.k
      invariant |lists| == p.s && forall b :: 0 <= b < p.s ==> Holds(lists[b], ConstraintRow(p, b), i)
    {
      var b0, b1, b2 := SortedTriple(p.s, i);
      forall b: nat | b < p.s
        ensures Holds(if b == b0 || b == b1 || b == b2 then lists[b] + [i] else lists[b], ConstraintRow(p, b), i + 1)
      {
        ConstraintRowMember(p, b, i);
        HoldsStep(lists[b], ConstraintRow(p, b), i);
      }
      lists := lists[b0 := lists[b0] + [i]];
      lists := lists[b1 := lists[b1] + [i]];
      lists := lists[b2 := lists[b2] + [i]];
    }
  }

  /** The source symbols and the LDPC symbols of every Half row. */
  method HalfLists(p: Params) returns (left: seq<seq<nat>>, right: seq<seq<nat>>)
    requires p.Valid()
    ensures |left| == |right| == p.h
    ensures forall i :: 0 <= i < p.h ==> Holds(left[i], ConstraintRow(p, p.s + i), p.k)
    ensures forall i :: 0 <= i < p.h ==> Holds(right[i], HalfRight(p, i), p.s)
  {
    left, right := seq(p.h, _ => []), seq(p.h, _ => []);
    for j := 0 to p.k
      invariant |left| == p.h && forall i :: 0 <= i < p.h ==> Holds(left[i], ConstraintRow(p, p.s + i), j)
    {
      left := HalfColumnLeft(p, j, left);
    }
    for v := 0 to p.s
      invariant |right| == p.h && forall i :: 0 <= i < p.h ==> Holds(right[i], HalfRight(p, i), v)
    {
      right := HalfColumnRight(p, v, right);
    }
  }

  method HalfColumnLeft(p: Params, j: nat, left0: seq<seq<nat>>) returns (left: seq<seq<nat>>)
    requires p.Valid() && j < p.k && |left0| == p.h
    requires forall i :: 0 <= i < p.h ==> Holds(left0[i], ConstraintRow(p, p.s + i), j)
    ensures |left| == p.h && forall i :: 0 <= i < p.h ==> Holds(left[i], ConstraintRow(p, p.s + i), j + 1)
  {
    hide Holds;
    hide ConstraintRow;
    left := left0;
    for h := 0 to p.h
      invariant |left| == p.h
      invariant forall i :: 0 <= i < h ==> Holds(left[i], ConstraintRow(p, p.s + i), j + 1)
      invariant forall i :: h <= i < p.h ==> left[i] == left0[i]
    {
      ConstraintRowMember(p, p.s + h, j);
      HoldsStep(left[h], ConstraintRow(p, p.s + h), j);
      if h in p.words[j] {
        left := left[h := left[h] + [j]];
      }
    }
  }

  method HalfColumnRight(p: Params, v: nat, right0: seq<seq<nat>>) returns (right: seq<seq<nat>>)
    requires p.Valid() && v < p.s && |right0| == p.h
    requires forall i :: 0 <= i < p.h ==> Holds(right0[i], HalfRight(p, i), v)
    ensures |right| == p.h && forall i :: 0 <= i < p.h ==> Holds(right[i], HalfRight(p, i), v + 1)
  {
    hide Holds;
    right := right0;
    for h := 0 to p.h
      invariant |right| == p.h
      invariant forall i :: 0 <= i < h ==> Holds(right[i], HalfRight(p, i), v + 1)
      invariant forall i :: h <= i < p.h ==> right[i] == right0[i]
    {
      assert v in HalfRight(p, h) <==> InHalfRight(p, h, v);
      HoldsStep(right[h], HalfRight(p, h), v);
      if h in p.words[p.k + v] {
        right := right[h := right[h] + [v]];
      }
    }
  }

  // ---- splitting the source ----

  lemma DivBound(a: nat, n: nat, i: nat)
    requires n > 0 && i < a / n
    ensures i * n <= (i + 1) * n <= a
  {
    assert (i + 1) * n <= (a / n) * n <= a;
  }

  /** Source symbol `i`: a slice of the source, or a padded symbol. */
  function SourceAt(src: seq<bv8>, len: nat, shadowed: seq<Payload>, i: nat): (r: Payload)
    requires len > 0 && i < |src| / len + |shadowed|
    requires forall t :: 0 <= t < |shadowed| ==> |shadowed[t]| == len
    ensures |r| == len
  {
    if i < |src| / len then
      DivBound(|src|, len, i);
      assert (i + 1) * len - i * len == len;
      src[i * len..(i + 1) * len]
    else
      shadowed[i - |src| / len]
  }

  ghost function Sources(src: seq<bv8>, len: nat, shadowed: seq<Payload>): (xs: seq<Payload>)
    requires len > 0 && forall t :: 0 <= t < |shadowed| ==> |shadowed[t]| == len
    ensures Shaped(xs, |src| / len + |shadowed|, len)
  {
    seq(|src| / len + |shadowed|, i requires 0 <= i < |src| / len + |shadowed| => SourceAt(src, len, shadowed, i))
  }

  /** Symbols laid end to end. */
  ghost function Flatten(xs: seq<Payload>): seq<bv8> {
    if xs == [] then [] else Flatten(xs[..|xs| - 1]) + xs[|xs| - 1]
  }

  lemma {:induction false} FlattenFull(src: seq<bv8>, len: nat, shadowed: seq<Payload>, m: nat)
    requires len > 0 && forall t :: 0 <= t < |shadowed| ==> |shadowed[t]| == len
    requires m <= |src| / len
    ensures m * len <= |src| && Flatten(Sources(src, len, shadowed)[..m]) == src[..m * len]
    decreases m
  {
    var xs := Sources(src, len, shadowed)[..m];
    if m != 0 {
      FlattenFull(src, len, shadowed, m - 1);
      DivBound(|src|, len, m - 1);
      assert xs[..m - 1] == Sources(src, len, shadowed)[..m - 1];
      assert src[..m * len] == src[..(m - 1) * len] + src[(m - 1) * len..m * len];
    }
  }

  /** The shadowed symbols complete the source to a zero-padded whole. */
  ghost predicate Pads(src: seq<bv8>, len: nat, shadowed: seq<Payload>) {
    && len > 0
    && (forall t :: 0 <= t < |shadowed| ==> |shadowed[t]| == len)
    && exists z: nat :: Flatten(Sources(src, len, shadowed)) == src + Zero(z)
  }

  lemma PadsNone(src: seq<bv8>, len: nat)
    requires len > 0 && |src| % len == 0
    ensures Pads(src, len, [])
  {
    var xs := Sources(src, len, []);
    FlattenFull(src, len, [], |src| / len);
    assert xs[..|src| / len] == xs;
    assert src[..(|src| / len) * len] == src == src + Zero(0);
  }

  lemma DivRest(a: nat, n: nat)
    requires n > 0
    ensures (a / n) * n <= a && a - (a / n) * n == a % n < n
  {}

  /** The last symbol is what follows byte `cut`, padded. */
  lemma PadsFrom(src: seq<bv8>, len: nat, cut: nat, z: nat)
    requires len > 0 && cut == (|src| / len) * len && cut <= |src| && |src| - cut + z == len
    ensures Pads(src, len, [src[cut..] + Zero(z)])
  {
    var m, shadowed := |src| / len, [src[cut..] + Zero(z)];
    var xs := Sources(src, len, shadowed);
    FlattenFull(src, len, shadowed, m);
    assert xs[..|xs| - 1] == xs[..m];
    assert Flatten(xs) == src[..cut] + (src[cut..] + Zero(z));
    assert src[..cut] + (src[cut..] + Zero(z)) == src + Zero(z);
  }

  lemma PadsTail(src: seq<bv8>, len: nat)
    requires len > 0
    ensures (|src| / len) * len <= |src| && |src| - (|src| / len) * len == |src| % len < len
    ensures Pads(src, len, [src[(|src| / len) * len..] + Zero(len - |src| % len)])
  {
    hide Pads;
    DivRest(|src|, len);
    PadsFrom(src, len, (|src| / len) * len, len - |src| % len);
  }

  lemma PadsMore(src: seq<bv8>, len: nat, shadowed: seq<Payload>)
    requires Pads(src, len, shadowed)
    ensures Pads(src, len, shadowed + [Zero(len)])
  {
    var z: nat :| Flatten(Sources(src, len, shadowed)) == src + Zero(z);
    var xs := Sources(src, len, shadowed + [Zero(len)]);
    assert xs[..|xs| - 1] == Sources(src, len, shadowed);
    assert Zero(z) + Zero(len) == Zero(z + len);
    assert src + Zero(z) + Zero(len) == src + Zero(z + len);
  }

  // ---- redundant symbols ----

  /** Only membership below `k` matters to a sum over `k` symbols. */
  lemma {:induction false} SumToRows(a: set<nat>, b: set<nat>, x: seq<Payload>, k: nat, n: nat)
    requires k <= |x| && Shaped(x, |x|, n)
    requires forall j :: 0 <= j < k ==> (j in a <==> j in b)
    ensures SumTo(a, x, k, n) == SumTo(b, x, k, n)
  {
    if k != 0 {
      SumToRows(a, b, x, k - 1, n);
    }
  }

  /** The XOR of the listed symbols, as a sum over the row the list stands for. */
  method MakeRedundant(x: seq<Payload>, list: seq<nat>, len: nat, ghost row: set<nat>) returns (symbol: Payload)
    requires Shaped(x, |x|, len) && Holds(list, row, |x|)
    ensures symbol == Sum(row, x, len)
  {
    HoldsAll(list, row, |x|);
    var dst := new bv8[len](_ => 0);
    assert dst[..] == Zero(len);
    XorIndices(dst, x, list);
    XorZero(XorAll(Picked(x, list), len));
    PickedSum(x, list, len);
    SumToRows(Prefix(row, |x|), row, x, |x|, len);
    symbol := dst[..];
  }

  method LdpcSymbols(p: Params, sources: seq<Payload>, len: nat) returns (ldpc: seq<Payload>)
    requires p.Valid() && Shaped(sources, p.k, len)
    ensures Shaped(ldpc, p.s, len)
    ensures forall b :: 0 <= b < p.s ==> ldpc[b] == Sum(ConstraintRow(p, b), sources, len)
  {
    hide ConstraintRow;
    hide Holds;
    hide SumTo;
    hide Params.Valid;
    var lists := LdpcLists(p);
    ldpc := [];
    for b := 0 to p.s
      invariant Shaped(ldpc, b, len)
      invariant forall c :: 0 <= c < b ==> ldpc[c] == Sum(ConstraintRow(p, c), sources, len)
    {
      var symbol := MakeRedundant(sources, lists[b], len, ConstraintRow(p, b));
      ldpc := ldpc + [symbol];
    }
  }

  /** A Half symbol: its source part, then its LDPC part on top. */
  method HalfSymbol(p: Params, i: nat, sources: seq<Payload>, ldpc: seq<Payload>, left: seq<nat>, right: seq<nat>, len: nat)
      returns (symbol: Payload)
    requires p.Valid() && Shaped(sources, p.k, len) && Shaped(ldpc, p.s, len) && i < p.h
    requires Holds(left, ConstraintRow(p, p.s + i), p.k) && Holds(right, HalfRight(p, i), p.s)
    ensures symbol == Xor(Sum(ConstraintRow(p, p.s + i), sources, len), Sum(HalfRight(p, i), ldpc, len))
  {
    hide ConstraintRow;
    hide HalfRight;
    hide SumTo;
    hide Params.Valid;
    var first := MakeRedundant(sources, left, len, ConstraintRow(p, p.s + i));
    var dst := new bv8[len](t requires 0 <= t < len => first[t]);
    assert dst[..] == first;
    ghost var row := HalfRight(p, i);
    HoldsAll(right, row, p.s);
    XorIndices(dst, ldpc, right);
    PickedSum(ldpc, right, len);
    SumToRows(Prefix(row, p.s), row, ldpc, p.s, len);
    symbol := dst[..];
  }

  method HalfSymbols(p: Params, sources: seq<Payload>, ldpc: seq<Payload>, len: nat) returns (half: seq<Payload>)
    requires p.Valid() && Shaped(sources, p.k, len) && Shaped(ldpc, p.s, len)
    ensures Shaped(half, p.h, len)
    ensures forall i :: 0 <= i < p.h ==>
              half[i] == Xor(Sum(ConstraintRow(p, p.s + i), sources, len), Sum(HalfRight(p, i), ldpc, len))
  {
    hide ConstraintRow;
    hide HalfRight;
    hide Holds;
    hide SumTo;
    hide Params.Valid;
    var lefts, rights := HalfLists(p);
    half := [];
    for i := 0 to p.h
      invariant Shaped(half, i, len)
      invariant forall c :: 0 <= c < i ==>
                  half[c] == Xor(Sum(ConstraintRow(p, p.s + c), sources, len), Sum(HalfRight(p, c), ldpc, len))
    {
      var symbol := HalfSymbol(p, i, sources, ldpc, lefts[i], rights[i], len);
      half := half + [symbol];
    }
  }

  // ---- the constraint rows hold ----

  lemma {:induction false} SumToPrefix(row: set<nat>, x: seq<Payload>, y: seq<Payload>, k: nat, n: nat)
    requires k <= |y| <= |x| && y == x[..|y|] && Shaped(x, |x|, n)
    ensures SumTo(row, y, k, n) == SumTo(row, x, k, n)
  {
    if k != 0 {
      SumToPrefix(row, x, y, k - 1, n);
    }
  }

  /** A sum over a later stretch of symbols, numbered from zero. */
  lemma {:induction false} SumToStretch(row: set<nat>, high: set<nat>, x: seq<Payload>, y: seq<Payload>, k: nat, m: nat, n: nat)
    requires Shaped(x, |x|, n) && k + |y| <= |x| && y == x[k..k + |y|] && m <= |y|
    requires forall v :: 0 <= v < m ==> (v in high <==> k + v in row)
    ensures SumTo(row, x, k + m, n) == Xor(SumTo(row, x, k, n), SumTo(high, y, m, n))
    decreases m
  {
    var a := SumTo(row, x, k, n);
    if m == 0 {
      XorZero(a);
    } else {
      SumToStretch(row, high, x, y, k, m - 1, n);
      assert m - 1 in high <==> k + (m - 1) in row;
      XorAssoc(a, SumTo(high, y, m - 1, n), y[m - 1]);
    }
  }

  /** A row whose highest symbol is the XOR of its lower ones sums to zero. */
  lemma RowCloses(row: set<nat>, c: nat, x: seq<Payload>, n: nat)
    requires Shaped(x, |x|, n) && c < |x| && c in row && forall j :: j in row ==> j <= c
    requires x[c] == SumTo(row, x, c, n)
    ensures Sum(row, x, n) == Zero(n)
  {
    SumToHigh(row, x, c + 1, |x|, n);
    XorSelf(x[c]);
  }

  lemma {:induction false} SumToGap(row: set<nat>, x: seq<Payload>, c: nat, k: nat, n: nat)
    requires c <= k <= |x| && Shaped(x, |x|, n)
    requires forall j :: c <= j < k ==> j !in row
    ensures SumTo(row, x, k, n) == SumTo(row, x, c, n)
    decreases k
  {
    if c < k {
      SumToGap(row, x, c, k - 1, n);
    }
  }

  lemma LdpcCloses(p: Params, x: seq<Payload>, b: nat, len: nat)
    requires p.Valid() && Shaped(x, p.L(), len) && b < p.s
    requires x[p.k + b] == Sum(ConstraintRow(p, b), x[..p.k], len)
    ensures Sum(ConstraintRow(p, b), x, len) == Zero(len)
  {
    var row := ConstraintRow(p, b);
    SumToPrefix(row, x, x[..p.k], p.k, len);
    SumToGap(row, x, p.k, p.k + b, len);
    RowCloses(row, p.k + b, x, len);
  }

  /** A Half row: its LDPC part, a gap, and its identity column at the top. */
  lemma HalfRowShape(p: Params, i: nat, row: set<nat>)
    requires p.Valid() && i < p.h && row == ConstraintRow(p, p.s + i)
    ensures forall v :: 0 <= v < p.s ==> (v in HalfRight(p, i) <==> p.k + v in row)
    ensures forall j :: j in row ==> j < p.k + p.s || j == p.k + p.s + i
    ensures p.k + p.s + i in row
  {}

  lemma HalfCloses(p: Params, x: seq<Payload>, i: nat, len: nat)
    requires p.Valid() && Shaped(x, p.L(), len) && i < p.h
    requires x[p.k + p.s + i] == Xor(Sum(ConstraintRow(p, p.s + i), x[..p.k], len), Sum(HalfRight(p, i), x[p.k..p.k + p.s], len))
    ensures Sum(ConstraintRow(p, p.s + i), x, len) == Zero(len)
  {
    hide ConstraintRow;
    hide HalfRight;
    hide Params.Valid;
    var row := ConstraintRow(p, p.s + i);
    HalfRowShape(p, i, row);
    SumToPrefix(row, x, x[..p.k], p.k, len);
    SumToStretch(row, HalfRight(p, i), x, x[p.k..p.k + p.s], p.k, p.s, len);
    SumToGap(row, x, p.k + p.s, p.k + p.s + i, len);
    RowCloses(row, p.k + p.s + i, x, len);
  }

  /** LDPC and Half symbols computed from the sources satisfy every constraint row. */
  lemma EncodedConstrained(p: Params, sources: seq<Payload>, ldpc: seq<Payload>, half: seq<Payload>, len: nat)
    requires p.Valid() && Shaped(sources, p.k, len) && Shaped(ldpc, p.s, len) && Shaped(half, p.h, len)
    requires forall b :: 0 <= b < p.s ==> ldpc[b] == Sum(ConstraintRow(p, b), sources, len)
    requires forall i :: 0 <= i < p.h ==>
               half[i] == Xor(Sum(ConstraintRow(p, p.s + i), sources, len), Sum(HalfRight(p, i), ldpc, len))
    ensures Shaped(sources + ldpc + half, p.L(), len) && Constrained(p, sources + ldpc + half, len)
  {
    hide ConstraintRow;
    hide HalfRight;
    hide SumTo;
    hide Params.Valid;
    var x := sources + ldpc + half;
    assert x[..p.k] == sources && x[p.k..p.k + p.s] == ldpc;
    forall i: nat | i < p.s + p.h ensures Sum(ConstraintRow(p, i), x, len) == Zero(len) {
      if i < p.s {
        LdpcCloses(p, x, i, len);
      } else {
        HalfCloses(p, x, i - p.s, len);
      }
    }
  }

  class Encoder {
    const src: seq<bv8>
    const symbolLen: nat
    const params: Params
    const numFull: nat
    const derived: seq<Payload>

    /** Slices of the source and derived symbols make up L symbols that satisfy every constraint row,
        and the first K of them are the zero-padded source. */
    ghost predicate Valid() {
      && Sized() && params.Valid()
      && Constrained(params, Intermediates(), symbolLen)
      && params.k <= params.L()
      && exists z: nat :: Flatten(Intermediates()[..params.k]) == src + Zero(z)
    }

    ghost predicate Sized() {
      && symbolLen > 0 && numFull == |src| / symbolLen && numFull + |derived| == params.L()
      && (forall t :: 0 <= t < |derived| ==> |derived[t]| == symbolLen)
    }

    constructor (src: seq<bv8>, symbolLen: nat, params: Params, numFull: nat, derived: seq<Payload>)
      ensures this.src == src && this.symbolLen == symbolLen && this.params == params
      ensures this.numFull == numFull && this.derived == derived
    {
      this.src, this.symbolLen, this.params := src, symbolLen, params;
      this.numFull, this.derived := numFull, derived;
    }

    /** The intermediate symbols. */
    function Intermediates(): (x: seq<Payload>)
      requires Sized()
      ensures Shaped(x, params.L(), symbolLen)
    {
      seq(params.L(), i requires 0 <= i < params.L() => SourceAt(src, symbolLen, derived, i))
    }

    /** XORs encoded symbol `id` into `dst`. */
    method EncodeSymbol(dst: array<bv8>, id: nat)
      requires Valid() && dst.Length == symbolLen && id < MAX_TRIPLES
      modifies dst
      ensures dst[..] == Xor(old(dst[..]), Sum(LtRow(params, id), Intermediates(), symbolLen))
    {
      var indices := LtSequence(params, id);
      forall t | 0 <= t < |indices| ensures indices[t] < params.L() {
        assert indices[t] in indices;
      }
      PickedSum(Intermediates(), indices, symbolLen);
      XorIndices(dst, Intermediates(), indices);
    }
  }

  /** K for a source of `n` bytes. */
  function NumSourceSymbols(n: nat, len: nat): (k: nat)
    requires len > 0
  {
    if n == 0 then SOURCE_SYMBOLS_MIN else (n + len - 1) / len
  }

  /** The zero-padded partial symbol at the end of the source, if there is one. */
  method PartialSymbol(src: seq<bv8>, len: nat) returns (shadowed: seq<Payload>)
    requires len > 0
    ensures Pads(src, len, shadowed)
    ensures |src| / len + |shadowed| == (|src| + len - 1) / len
  {
    hide Pads;
    PadsTail(src, len);
    CeilDiv(|src|, len);
    var numFull, rem := |src| / len, |src| % len;
    if rem != 0 {
      shadowed := [src[numFull * len..] + Zero(len - rem)];
    } else {
      PadsNone(src, len);
      shadowed := [];
    }
  }

  /** Cuts the source into symbols: the number of full ones, and the padded ones that follow. */
  method Split(src: seq<bv8>, len: nat) returns (numFull: nat, shadowed: seq<Payload>)
    requires len > 0
    ensures numFull == |src| / len && Pads(src, len, shadowed)
    ensures numFull + |shadowed| == NumSourceSymbols(|src|, len)
    ensures SOURCE_SYMBOLS_MIN <= numFull + |shadowed|
  {
    hide Pads;
    numFull := |src| / len;
    shadowed := PartialSymbol(src, len);
    CeilDiv(|src|, len);
    ghost var m: nat, ceil: nat := |shadowed|, (|src| + len - 1) / len;
    while numFull + |shadowed| < SOURCE_SYMBOLS_MIN
      invariant Pads(src, len, shadowed)
      invariant |shadowed| == m || (numFull + m == 0 && |shadowed| == 1)
      decreases SOURCE_SYMBOLS_MIN - (numFull + |shadowed|)
    {
      PadsMore(src, len, shadowed);
      shadowed := shadowed + [Zero(len)];
    }
    assert ceil == 0 <==> src == [];
  }

  lemma CeilDiv(a: nat, n: nat)
    requires n > 0
    ensures (a + n - 1) / n == a / n + if a % n == 0 then 0 else 1
    ensures (a + n - 1) / n == 0 <==> a == 0
  {
    var q, r := a / n, a % n;
    assert a == q * n + r;
    if r == 0 {
      DivModUnique(a + n - 1, n, q, n - 1);
    } else {
      DivModUnique(a + n - 1, n, q + 1, r - 1);
    }
  }

  /** Splits the source and derives the redundant symbols. */
  method NewEncoder(src: seq<bv8>, symbolLen: nat, t: Tables) returns (e: Option<Encoder>)
    requires t.Valid()
    ensures e.None? <==> symbolLen == 0 || NumSourceSymbols(|src|, symbolLen) > SOURCE_SYMBOLS_MAX
    ensures e.Some? ==> fresh(e.value) && e.value.Valid()
    ensures e.Some? ==> e.value.src == src && e.value.symbolLen == symbolLen
    ensures e.Some? ==> IsCode(t, NumSourceSymbols(|src|, symbolLen), e.value.params)
  {
    hide Tables.Valid;
    hide IsCode;
    if symbolLen == 0 {
      return None;
    }
    var numFull, shadowed := Split(src, symbolLen);
    var code := NewCodeParameters(t, numFull + |shadowed|);
    if code.None? {
      return None;
    }
    var p := code.value;
    var sources := seq(p.k, i requires 0 <= i < p.k => SourceAt(src, symbolLen, shadowed, i));
    var ldpc := LdpcSymbols(p, sources, symbolLen);
    var half := HalfSymbols(p, sources, ldpc, symbolLen);
    EncodedConstrained(p, sources, ldpc, half, symbolLen);
    var enc := new Encoder(src, symbolLen, p, numFull, shadowed + ldpc + half);
    EncoderValid(enc, shadowed, sources, ldpc, half);
    e := Some(enc);
  }

  lemma EncoderValid(e: Encoder, shadowed: seq<Payload>, sources: seq<Payload>, ldpc: seq<Payload>, half: seq<Payload>)
    requires e.params.Valid() && Pads(e.src, e.symbolLen, shadowed) && e.numFull == |e.src| / e.symbolLen
    requires e.numFull + |shadowed| == e.params.k && e.derived == shadowed + ldpc + half
    requires Shaped(sources, e.params.k, e.symbolLen) && Shaped(ldpc, e.params.s, e.symbolLen) && Shaped(half, e.params.h, e.symbolLen)
    requires sources == Sources(e.src, e.symbolLen, shadowed)
    requires Constrained(e.params, sources + ldpc + half, e.symbolLen)
    ensures e.Valid()
  {
    var x := sources + ldpc + half;
    assert e.Sized();
    forall i | 0 <= i < e.params.L() ensures e.Intermediates()[i] == x[i] {
      assert e.Intermediates()[i] == SourceAt(e.src, e.symbolLen, e.derived, i);
      if i < e.params.k {
        assert sources[i] == SourceAt(e.src, e.symbolLen, shadowed, i);
      }
    }
    assert e.Intermediates() == x;
    assert x[..e.params.k] == sources;
  }
}
