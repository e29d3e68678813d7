/** The Gray-code words behind the Half symbols, and why the search for them always ends. */
module HalfWords {

  // ---- bits ----

  function Pow2(n: nat): (p: nat)
    ensures 1 <= p
  {
    if n == 0 then 1 else 2 * Pow2(n - 1)
  }

  predicate BitAt(i: nat, b: nat) {
    if b == 0 then i % 2 == 1 else BitAt(i / 2, b - 1)
  }

  lemma {:induction false} HighBits(i: nat, n: nat, b: nat)
    requires i < Pow2(n) && n <= b
    ensures !BitAt(i, b)
  {
    if b != 0 && n != 0 {
      HighBits(i / 2, n - 1, b - 1);
    } else if b != 0 {
      HighBits(0, 0, b - 1);
    }
  }

  /** Counting down from the top of an n-bit range flips every bit. */
  lemma {:induction false} ComplementBits(i: nat, n: nat, b: nat)
    requires i < Pow2(n) && b < n
    ensures BitAt(Pow2(n) - 1 - i, b) == !BitAt(i, b)
  {
    var c := Pow2(n) - 1 - i;
    assert c / 2 == Pow2(n - 1) - 1 - i / 2 && c % 2 == 1 - i % 2;
    if b != 0 {
      ComplementBits(i / 2, n - 1, b - 1);
    }
  }

  lemma {:induction false} SameBits(i: nat, j: nat, n: nat)
    requires i < Pow2(n) && j < Pow2(n)
    requires forall b: nat :: b < n ==> BitAt(i, b) == BitAt(j, b)
    ensures i == j
  {
    if n != 0 {
      assert BitAt(i, 0) == BitAt(j, 0);
      forall b: nat | b < n - 1 ensures BitAt(i / 2, b) == BitAt(j / 2, b) {
        assert BitAt(i, b + 1) == BitAt(j, b + 1);
      }
      SameBits(i / 2, j / 2, n - 1);
    }
  }

  // ---- Gray code ----

  /** Bit `b` of `i ^ (i >> 1)`. */
  predicate GrayBit(i: nat, b: nat) {
    BitAt(i, b) != BitAt(i, b + 1)
  }

  /** The set bits of the Gray code of `i`, among the lowest `n`. */
  function Gray(i: nat, n: nat): (g: set<nat>) {
    set b: nat | b < n && GrayBit(i, b)
  }

  lemma GrayShort(i: nat, n: nat, m: nat)
    requires i < Pow2(n) && n <= m
    ensures Gray(i, m) == Gray(i, n)
  {
    forall b: nat | n <= b < m ensures !GrayBit(i, b) {
      HighBits(i, n, b);
      HighBits(i, n, b + 1);
    }
  }

  /** A number can be read back from its Gray code, from the top bit down. */
  lemma {:induction false} GrayBits(i: nat, j: nat, n: nat, b: nat)
    requires i < Pow2(n) && j < Pow2(n) && b <= n && Gray(i, n) == Gray(j, n)
    ensures BitAt(i, b) == BitAt(j, b)
    decreases n - b
  {
    if b == n {
      HighBits(i, n, n);
      HighBits(j, n, n);
    } else {
      GrayBits(i, j, n, b + 1);
      assert b in Gray(i, n) <==> b in Gray(j, n);
    }
  }

  lemma GrayInjective(i: nat, j: nat, n: nat)
    requires i < Pow2(n) && j < Pow2(n) && Gray(i, n) == Gray(j, n)
    ensures i == j
  {
    forall b: nat | b < n ensures BitAt(i, b) == BitAt(j, b) {
      GrayBits(i, j, n, b);
    }
    SameBits(i, j, n);
  }

  /** In the upper half of an (n+1)-bit range the words of the lower half return, in reverse, with the top
      bit set. */
  lemma Reflect(i: nat, n: nat)
    requires i < Pow2(n)
    ensures |Gray(Pow2(n + 1) - 1 - i, n + 1)| == |Gray(i, n)| + 1
  {
    var c := Pow2(n + 1) - 1 - i;
    HighBits(i, n, n);
    HighBits(c, n + 1, n + 1);
    forall b: nat | b <= n ensures BitAt(c, b) == !BitAt(i, b) {
      ComplementBits(i, n + 1, b);
    }
    forall b: nat | b < n ensures GrayBit(c, b) == GrayBit(i, b) {
      assert BitAt(c, b + 1) == !BitAt(i, b + 1);
    }
    assert Gray(c, n + 1) == Gray(i, n) + {n};
  }

  // ---- counting ----

  function Choose(n: nat, k: nat): nat {
    if k == 0 then 1 else if n == 0 then 0 else Choose(n - 1, k) + Choose(n - 1, k - 1)
  }

  function Hit(i: nat, n: nat, w: int): nat {
    if |Gray(i, n)| == w then 1 else 0
  }

  /** How many of the `m` numbers from `lo` have an n-bit word with `w` set bits. */
  function Tally(lo: nat, m: nat, n: nat, w: int): nat {
    if m == 0 then 0 else Tally(lo, m - 1, n, w) + Hit(lo + m - 1, n, w)
  }

  lemma {:induction false} TallyFront(lo: nat, m: nat, n: nat, w: int)
    ensures Tally(lo, m + 1, n, w) == Hit(lo, n, w) + Tally(lo + 1, m, n, w)
  {
    hide Hit;
    if m != 0 {
      TallyFront(lo, m - 1, n, w);
    }
  }

  lemma {:induction false} TallySplit(lo: nat, m: nat, m': nat, n: nat, w: int)
    ensures Tally(lo, m + m', n, w) == Tally(lo, m, n, w) + Tally(lo + m, m', n, w)
  {
    hide Hit;
    if m' != 0 {
      TallySplit(lo, m, m' - 1, n, w);
    }
  }

  lemma {:induction false} TallyLow(m: nat, n: nat, w: int)
    requires m <= Pow2(n)
    ensures Tally(0, m, n + 1, w) == Tally(0, m, n, w)
  {
    if m != 0 {
      TallyLow(m - 1, n, w);
      GrayShort(m - 1, n, n + 1);
    }
  }

  lemma {:induction false} TallyHigh(t: nat, n: nat, w: int)
    requires t <= Pow2(n)
    ensures Tally(Pow2(n + 1) - t, t, n + 1, w) == Tally(0, t, n, w - 1)
  {
    if t != 0 {
      TallyHigh(t - 1, n, w);
      Reflect(t - 1, n);
      TallyFront(Pow2(n + 1) - t, t - 1, n + 1, w);
    }
  }

  /** Exactly C(n, w) of the n-bit words have `w` set bits. */
  lemma {:induction false} TallyIsChoose(n: nat, w: int)
    ensures Tally(0, Pow2(n), n, w) == if w < 0 then 0 else Choose(n, w)
  {
    hide Hit;
    if n == 0 {
      assert Gray(0, 0) == {};
      TallyOne(w);
    } else {
      TallyIsChoose(n - 1, w);
      TallyIsChoose(n - 1, w - 1);
      TallySplit(0, Pow2(n - 1), Pow2(n - 1), n, w);
      TallyLow(Pow2(n - 1), n - 1, w);
      TallyHigh(Pow2(n - 1), n - 1, w);
    }
  }

  lemma TallyOne(w: int)
    ensures Tally(0, 1, 0, w) == if w == 0 then 1 else 0
  {}

  // ---- the words, in Gray order ----

  /** The n-bit words with `w` set bits among the Gray codes of the numbers below `m`. */
  ghost function WordsBelow(m: nat, n: nat, w: nat): seq<set<nat>> {
    if m == 0 then []
    else WordsBelow(m - 1, n, w) + if |Gray(m - 1, n)| == w then [Gray(m - 1, n)] else []
  }

  lemma {:induction false} WordsTally(m: nat, n: nat, w: nat)
    ensures |WordsBelow(m, n, w)| == Tally(0, m, n, w)
  {
    if m != 0 {
      WordsTally(m - 1, n, w);
    }
  }

  lemma {:induction false} WordsPrefix(m: nat, m': nat, n: nat, w: nat)
    requires m <= m'
    ensures WordsBelow(m, n, w) <= WordsBelow(m', n, w)
  {
    if m < m' {
      WordsPrefix(m, m' - 1, n, w);
    }
  }

  lemma {:induction false} WordsFrom(m: nat, n: nat, w: nat, j: nat) returns (i: nat)
    requires j < |WordsBelow(m, n, w)|
    ensures i < m && WordsBelow(m, n, w)[j] == Gray(i, n) && |Gray(i, n)| == w
  {
    if j < |WordsBelow(m - 1, n, w)| {
      i := WordsFrom(m - 1, n, w, j);
    } else {
      i := m - 1;
    }
  }

  /** No word is listed twice. */
  lemma {:induction false} WordsDistinct(m: nat, n: nat, w: nat, i: nat, j: nat)
    requires m <= Pow2(n) && i < j < |WordsBelow(m, n, w)|
    ensures WordsBelow(m, n, w)[i] != WordsBelow(m, n, w)[j]
  {
    if j < |WordsBelow(m - 1, n, w)| {
      WordsDistinct(m - 1, n, w, i, j);
    } else {
      var x := WordsFrom(m - 1, n, w, i);
      if Gray(x, n) == Gray(m - 1, n) {
        GrayInjective(x, m - 1, n);
      }
    }
  }

  /** The Half columns: `count` words of `h` bits, `w` of them set. */
  ghost predicate IsHalfWords(h: nat, w: nat, count: nat, words: seq<set<nat>>) {
    count <= |WordsBelow(Pow2(h), h, w)| && words == WordsBelow(Pow2(h), h, w)[..count]
  }

  lemma HalfWordsShape(h: nat, w: nat, count: nat, words: seq<set<nat>>)
    requires IsHalfWords(h, w, count, words)
    ensures |words| == count
    ensures forall j :: 0 <= j < count ==> |words[j]| == w
    ensures forall j, b :: 0 <= j < count && b in words[j] ==> b < h
    ensures forall i, j :: 0 <= i < j < count ==> words[i] != words[j]
  {
    forall j | 0 <= j < count
      ensures |words[j]| == w && forall b :: b in words[j] ==> b < h
    {
      var i := WordsFrom(Pow2(h), h, w, j);
    }
    forall i, j | 0 <= i < j < count ensures words[i] != words[j] {
      WordsDistinct(Pow2(h), h, w, i, j);
    }
  }

  const WORD_BITS: nat := 64

  /** Walks the Gray codes of machine words and keeps those of the right weight. Each search ends because
      C(h, w) of the h-bit words qualify. */
  method GrayWords(h: nat, w: nat, count: nat) returns (words: seq<set<nat>>)
    requires h <= WORD_BITS && count <= Choose(h, w)
    ensures IsHalfWords(h, w, count, words)
  {
    hide Choose;
    hide Gray;
    hide Pow2;
    TallyIsChoose(h, w);
    WordsTally(Pow2(h), h, w);
    words := [];
    var i: nat := 0;
    while |words| < count
      invariant i <= Pow2(h) && |words| <= count && words == WordsBelow(i, h, w)
      decreases Pow2(h) - i
    {
      var g := Gray(i, WORD_BITS);
      GrayShort(i, h, WORD_BITS);
      if |g| == w {
        words := words + [g];
      }
      i := i + 1;
      assert words == WordsBelow(i, h, w);
    }
    WordsPrefix(i, Pow2(h), h, w);
  }
}
