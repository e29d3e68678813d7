/** Canonical RLP: items, integers and the decoding stream. */
module Rlp {
  import opened Wrappers

  type byte = x: int | 0 <= x < 256 witness 0
  type Bytes = seq<byte>

  const MAX_LEN := 0x8000_0000_0000_0000
  const MAX_UINT64 := 0x1_0000_0000_0000_0000

  /** A byte string, or a list of items. */
  datatype Item = Str(bytes: Bytes) | Node(items: Items)
  datatype Items = Nil | Cons(head: Item, tail: Items)

  datatype Error = InputTooShort | NonCanonicalSingleByte | NonCanonicalSize | LeadingZero | Overflow | UnexpectedList | UnexpectedString

  // ---- big-endian numbers ----

  /** The minimal big-endian digits of `n`; none for zero. */
  function BigEndian(n: nat): (d: Bytes)
    ensures n == 0 <==> d == []
    ensures d != [] ==> d[0] != 0
  {
    if n == 0 then [] else BigEndian(n / 256) + [n % 256]
  }

  function Value(d: Bytes): nat {
    if d == [] then 0 else Value(d[..|d| - 1]) * 256 + d[|d| - 1]
  }

  lemma {:induction false} ValueBigEndian(n: nat)
    ensures Value(BigEndian(n)) == n
  {
    if n != 0 {
      ValueBigEndian(n / 256);
      assert BigEndian(n)[..|BigEndian(n)| - 1] == BigEndian(n / 256);
    }
  }

  /** Digits without a leading zero are the minimal digits of their value. */
  lemma {:induction false} BigEndianValue(d: Bytes)
    requires d != [] ==> d[0] != 0
    ensures BigEndian(Value(d)) == d
  {
    if d != [] {
      var init, last := d[..|d| - 1], d[|d| - 1];
      BigEndianValue(init);
      var v := Value(init);
      assert Value(d) / 256 == v && Value(d) % 256 == last;
      if init == [] {
        assert d == [last];
      }
      assert Value(d) != 0 by {
        if v == 0 {
          assert init == [];
        }
      }
    }
  }

  function Pow256(k: nat): (p: nat)
    ensures 1 <= p
  {
    if k == 0 then 1 else 256 * Pow256(k - 1)
  }

  /** A number below 256^k has at most k digits, and k digits stay below 256^k. */
  lemma {:induction false} DigitsBound(n: nat, k: nat)
    ensures |BigEndian(n)| <= k <==> n < Pow256(k)
  {
    if n != 0 && k != 0 {
      DigitsBound(n / 256, k - 1);
      assert n / 256 < Pow256(k - 1) <==> n < 256 * Pow256(k - 1);
    }
  }

  lemma Pow8()
    ensures Pow256(8) == MAX_UINT64 && Pow256(1) == 256
  {}

  // ---- encoding ----

  /** The header of a payload of `n` bytes: one byte below 56, else the digits of the length behind a
      byte that counts them. */
  function Header(short: byte, long: byte, n: nat): (h: Bytes)
    requires short <= 0xC0 && long <= 0xF7 && n < MAX_LEN
    ensures 1 <= |h| <= 9
  {
    if n < 56 then [short + n]
    else
      Pow8();
      DigitsBound(n, 8);
      [long + |BigEndian(n)|] + BigEndian(n)
  }

  function EncodeString(s: Bytes): Bytes
    requires |s| < MAX_LEN
  {
    if |s| == 1 && s[0] < 0x80 then s else Header(0x80, 0xB7, |s|) + s
  }

  function EncodeList(payload: Bytes): Bytes
    requires |payload| < MAX_LEN
  {
    Header(0xC0, 0xF7, |payload|) + payload
  }

  /** Every payload is short enough for its length to be a machine integer. */
  ghost predicate Encodable(it: Item)
    decreases it, 0
  {
    match it
    case Str(s) => |s| < MAX_LEN
    case Node(xs) => EncodableAll(xs) && |EncodeAll(xs)| < MAX_LEN
  }

  ghost predicate EncodableAll(xs: Items)
    decreases xs, 0
  {
    xs.Cons? ==> Encodable(xs.head) && EncodableAll(xs.tail)
  }

  ghost function Encode(it: Item): Bytes
    requires Encodable(it)
    decreases it, 1
  {
    match it
    case Str(s) => EncodeString(s)
    case Node(xs) => EncodeList(EncodeAll(xs))
  }

  ghost function EncodeAll(xs: Items): Bytes
    requires EncodableAll(xs)
    decreases xs, 1
  {
    match xs
    case Nil => []
    case Cons(x, tail) => Encode(x) + EncodeAll(tail)
  }

  // ---- decoding ----

  /** A parsed header: whether a list follows, where the payload starts and how long it is. */
  datatype Head = Head(isList: bool, size: nat, len: nat) | Bad(error: Error)

  function ParseHeader(b: Bytes): (h: Head)
    ensures h.Head? ==> h.size + h.len <= |b| && 0 < h.size + h.len && h.len < MAX_LEN && (h.isList ==> h.size > 0)
  {
    if b == [] then Bad(InputTooShort)
    else if b[0] < 0x80 then Head(false, 0, 1)
    else if b[0] <= 0xB7 then
      var l := b[0] - 0x80;
      if |b| < 1 + l then Bad(InputTooShort)
      else if l == 1 && b[1] < 0x80 then Bad(NonCanonicalSingleByte)
      else Head(false, 1, l)
    else if b[0] <= 0xBF then ParseLong(b, false, b[0] - 0xB7)
    else if b[0] <= 0xF7 then
      var l := b[0] - 0xC0;
      if |b| < 1 + l then Bad(InputTooShort) else Head(true, 1, l)
    else ParseLong(b, true, b[0] - 0xF7)
  }

  function ParseLong(b: Bytes, isList: bool, lenOfLen: nat): (h: Head)
    requires b != [] && 1 <= lenOfLen <= 8
  {
    if |b| < 1 + lenOfLen then Bad(InputTooShort)
    else if b[1] == 0 then Bad(LeadingZero)
    else
      var l := Value(b[1..1 + lenOfLen]);
      if l < 56 then Bad(NonCanonicalSize)
      else if |b| < 1 + lenOfLen + l || MAX_LEN <= l then Bad(InputTooShort)
      else Head(isList, 1 + lenOfLen, l)
  }

  /** One item from the front of the input, and what follows it. */
  function Decode(b: Bytes): (r: Option<(Item, Bytes)>)
    ensures r.Some? ==> |r.value.1| < |b|
    decreases |b|, 0
  {
    var h := ParseHeader(b);
    if h.Bad? then None
    else
      var payload, rest := b[h.size..h.size + h.len], b[h.size + h.len..];
      if !h.isList then Some((Str(payload), rest))
      else
        var xs := DecodeAll(payload);
        if xs.None? then None else Some((Node(xs.value), rest))
  }

  /** Items up to the end of the input. */
  function DecodeAll(b: Bytes): Option<Items>
    decreases |b|, 1
  {
    if b == [] then Some(Nil)
    else
      var first := Decode(b);
      if first.None? then None
      else
        var tail := DecodeAll(first.value.1);
        if tail.None? then None else Some(Cons(first.value.0, tail.value))
  }

  // ---- round trip ----

  lemma ShortParses(short: byte, isList: bool, payload: Bytes, rest: Bytes)
    requires |payload| < 56 && short == if isList then 0xC0 else 0x80
    requires !isList && |payload| == 1 ==> payload[0] >= 0x80
    ensures ParseHeader([short + |payload|] + payload + rest) == Head(isList, 1, |payload|)
  {}

  lemma LengthDigits(n: nat)
    requires 56 <= n < MAX_LEN
    ensures 1 <= |BigEndian(n)| <= 8
  {
    Pow8();
    DigitsBound(n, 8);
  }

  lemma LongReads(first: byte, isList: bool, n: nat, rest: Bytes)
    requires 56 <= n <= |rest| && n < MAX_LEN && 1 <= |BigEndian(n)| <= 8
    ensures ParseLong([first] + BigEndian(n) + rest, isList, |BigEndian(n)|) == Head(isList, 1 + |BigEndian(n)|, n)
  {
    ValueBigEndian(n);
    hide Value;
    var d := BigEndian(n);
    assert d[0] != 0;
    hide BigEndian;
    var b := [first] + d + rest;
    SliceThree([first], d, rest);
    assert b[1] == d[0];
  }

  lemma LongParses(long: byte, isList: bool, payload: Bytes, rest: Bytes)
    requires 56 <= |payload| < MAX_LEN && long == if isList then 0xF7 else 0xB7
    ensures var d := BigEndian(|payload|);
            |d| <= 8 && ParseHeader([long + |d|] + d + payload + rest) == Head(isList, 1 + |d|, |payload|)
  {
    var n, d := |payload|, BigEndian(|payload|);
    LengthDigits(n);
    hide BigEndian;
    hide ParseLong;
    var b := [long + |d|] + d + payload + rest;
    LongReads(long + |d|, isList, n, payload + rest);
    assert b == [long + |d|] + d + (payload + rest);
    assert b[0] == long + |d|;
  }

  lemma HeaderParses(isList: bool, payload: Bytes, rest: Bytes)
    requires |payload| < MAX_LEN
    requires !isList && |payload| == 1 ==> payload[0] >= 0x80
    ensures var h := if isList then Header(0xC0, 0xF7, |payload|) else Header(0x80, 0xB7, |payload|);
            ParseHeader(h + payload + rest) == Head(isList, |h|, |payload|)
  {
    if |payload| < 56 {
      ShortParses(if isList then 0xC0 else 0x80, isList, payload, rest);
    } else {
      LongParses(if isList then 0xF7 else 0xB7, isList, payload, rest);
    }
  }

  lemma SliceThree(h: Bytes, payload: Bytes, rest: Bytes)
    ensures var b := h + payload + rest;
            b[|h|..|h| + |payload|] == payload && b[|h| + |payload|..] == rest
  {}

  lemma {:induction false} RoundTrip(it: Item, rest: Bytes)
    requires Encodable(it)
    ensures Decode(Encode(it) + rest) == Some((it, rest))
    decreases it, 1
  {
    match it
    case Str(s) =>
      if |s| == 1 && s[0] < 0x80 {
        assert (s + rest)[..1] == s && (s + rest)[1..] == rest;
      } else {
        HeaderParses(false, s, rest);
        SliceThree(Header(0x80, 0xB7, |s|), s, rest);
      }
    case Node(xs) =>
      var p := EncodeAll(xs);
      HeaderParses(true, p, rest);
      SliceThree(Header(0xC0, 0xF7, |p|), p, rest);
      RoundTripAll(xs);
  }

  lemma {:induction false} RoundTripAll(xs: Items)
    requires EncodableAll(xs)
    ensures DecodeAll(EncodeAll(xs)) == Some(xs)
    decreases xs, 0
  {
    match xs
    case Nil =>
    case Cons(x, tail) =>
      RoundTrip(x, EncodeAll(tail));
      RoundTripAll(tail);
      EncodeNonEmpty(x);
  }

  lemma EncodeNonEmpty(it: Item)
    requires Encodable(it)
    ensures Encode(it) != []
  {}

  // ---- canonicity ----

  lemma LongCanonical(b: Bytes, isList: bool, lenOfLen: nat)
    requires b != [] && 1 <= lenOfLen <= 8 && b[0] == (if isList then 0xF7 else 0xB7) + lenOfLen && ParseLong(b, isList, lenOfLen).Head?
    ensures var h := ParseLong(b, isList, lenOfLen);
            && h.size <= |b|
            && b[..h.size] == if isList then Header(0xC0, 0xF7, h.len) else Header(0x80, 0xB7, h.len)
  {
    var h := ParseLong(b, isList, lenOfLen);
    var d := b[1..h.size];
    assert d[0] == b[1];
    BigEndianValue(d);
    assert b[..h.size] == [b[0]] + d;
  }

  lemma SingleCanonical(b: Bytes)
    requires b != [] && b[0] < 0x80
    ensures ParseHeader(b) == Head(false, 0, 1) && b[..1] == EncodeString(b[0..1])
  {
    assert b[..1] == b[0..1];
  }

  lemma ShortCanonical(b: Bytes, isList: bool, l: nat)
    requires ParseHeader(b) == Head(isList, 1, l) && l < 56
    ensures |b| >= 1 + l && b[..1 + l] == if isList then EncodeList(b[1..1 + l]) else EncodeString(b[1..1 + l])
  {
    hide Value;
    var payload := b[1..1 + l];
    assert b[..1 + l] == [b[0]] + payload;
    assert l > 0 ==> payload[0] == b[1];
  }

  /** An accepted header is the one the encoder writes for its payload. */
  lemma HeaderCanonical(b: Bytes)
    requires ParseHeader(b).Head?
    ensures var h := ParseHeader(b);
            var payload := b[h.size..h.size + h.len];
            b[..h.size + h.len] == if h.isList then EncodeList(payload) else EncodeString(payload)
  {
    hide Value;
    var h := ParseHeader(b);
    if b[0] < 0x80 {
      SingleCanonical(b);
    } else if b[0] <= 0xB7 || 0xC0 <= b[0] <= 0xF7 {
      ShortCanonical(b, h.isList, h.len);
    } else {
      LongForm(b, h.isList);
    }
  }

  lemma LongForm(b: Bytes, isList: bool)
    requires b != [] && (if isList then 0xF7 < b[0] else 0xB7 < b[0] <= 0xBF) && ParseHeader(b).Head?
    ensures var h := ParseHeader(b);
            var payload := b[h.size..h.size + h.len];
            b[..h.size + h.len] == if isList then EncodeList(payload) else EncodeString(payload)
  {
    hide Value;
    var h := ParseHeader(b);
    LongCanonical(b, isList, b[0] - if isList then 0xF7 else 0xB7);
    hide Header;
    assert b[..h.size + h.len] == b[..h.size] + b[h.size..h.size + h.len];
  }

  /** Whatever is accepted re-encodes to the bytes it was read from, so encodings are unique. */
  lemma {:induction false} Canonical(b: Bytes)
    requires Decode(b).Some?
    ensures var (it, rest) := Decode(b).value; Encodable(it) && b == Encode(it) + rest
    decreases |b|, 0
  {
    var h := ParseHeader(b);
    var payload, rest := b[h.size..h.size + h.len], b[h.size + h.len..];
    HeaderCanonical(b);
    assert b == b[..h.size + h.len] + rest;
    if h.isList {
      CanonicalAll(payload);
    }
  }

  lemma {:induction false} CanonicalAll(b: Bytes)
    requires DecodeAll(b).Some?
    ensures var xs := DecodeAll(b).value; EncodableAll(xs) && b == EncodeAll(xs)
    decreases |b|, 1
  {
    if b != [] {
      Canonical(b);
      CanonicalAll(Decode(b).value.1);
    }
  }

  /** Two accepted inputs that decode to the same item start with the same bytes. */
  lemma UniqueEncoding(a: Bytes, b: Bytes)
    requires Decode(a).Some? && Decode(b).Some? && Decode(a).value == Decode(b).value
    ensures a == b
  {
    Canonical(a);
    Canonical(b);
  }

  // ---- the format itself ----

  /** The header forms of appendix B of the Ethereum Yellow Paper. */
  lemma HeaderFormat(n: nat)
    requires n < MAX_LEN
    ensures n <= 55 ==> Header(0x80, 0xB7, n) == [128 + n] && Header(0xC0, 0xF7, n) == [192 + n]
    ensures 56 <= n ==> 1 <= |BigEndian(n)| <= 8
    ensures 56 <= n ==> Header(0x80, 0xB7, n) == [183 + |BigEndian(n)|] + BigEndian(n)
    ensures 56 <= n ==> Header(0xC0, 0xF7, n) == [247 + |BigEndian(n)|] + BigEndian(n)
  {
    if 56 <= n {
      LengthDigits(n);
    }
    hide BigEndian;
  }

  /** Strings and lists of appendix B, case by case. */
  lemma Format(s: Bytes)
    requires |s| < MAX_LEN
    ensures |s| == 1 && s[0] <= 127 ==> EncodeString(s) == s
    ensures |s| <= 55 && (|s| == 1 ==> 128 <= s[0]) ==> EncodeString(s) == [128 + |s|] + s
    ensures |s| <= 55 ==> EncodeList(s) == [192 + |s|] + s
    ensures 56 <= |s| ==>
              && |BigEndian(|s|)| <= 8
              && EncodeString(s) == [183 + |BigEndian(|s|)|] + BigEndian(|s|) + s
              && EncodeList(s) == [247 + |BigEndian(|s|)|] + BigEndian(|s|) + s
  {
    HeaderFormat(|s|);
    hide Header;
    hide BigEndian;
  }

  /** How many length digits the first byte announces; zero for the short forms. */
  ghost function LengthOfLength(first: byte): (n: nat)
    ensures n <= 8
  {
    if 184 <= first <= 191 then first - 183 else if 248 <= first then first - 247 else 0
  }

  /** Which input gets which complaint. */
  lemma HeaderErrors(b: Bytes)
    ensures ParseHeader(b) == Bad(NonCanonicalSingleByte) <==> 2 <= |b| && b[0] == 129 && b[1] <= 127
    ensures var long := b != [] && 0 < LengthOfLength(b[0]) < |b|;
            && (ParseHeader(b) == Bad(LeadingZero) <==> long && b[1] == 0)
            && (ParseHeader(b) == Bad(NonCanonicalSize) <==> long && b[1] != 0 && Value(b[1..1 + LengthOfLength(b[0])]) <= 55)
    ensures ParseHeader(b).Bad? ==> ParseHeader(b).error in {InputTooShort, NonCanonicalSingleByte, LeadingZero, NonCanonicalSize}
  {
    hide Value;
  }

  /** Only running out of input can be cured by more input: every other answer is final. */
  lemma HeaderFinal(b: Bytes, more: Bytes)
    ensures ParseHeader(b) == Bad(InputTooShort) || ParseHeader(b + more) == ParseHeader(b)
  {
    hide Value;
    if b != [] {
      var n := LengthOfLength(b[0]);
      if 0 < n < |b| {
        assert (b + more)[1..1 + n] == b[1..1 + n];
      }
    }
  }

  // ---- integers ----

  /** The value of an integer payload: at most eight bytes, no leading zero. */
  function IntegerOf(d: Bytes): (r: Option<nat>)
  {
    if |d| > 8 || (d != [] && d[0] == 0) then None else Some(Value(d))
  }

  /** Integers below 2^64 and canonical integer payloads correspond one to one. */
  lemma IntegerRoundTrip(n: nat, d: Bytes)
    ensures n < MAX_UINT64 ==> IntegerOf(BigEndian(n)) == Some(n)
    ensures IntegerOf(d).Some? ==> IntegerOf(d).value < MAX_UINT64 && BigEndian(IntegerOf(d).value) == d
  {
    Pow8();
    DigitsBound(n, 8);
    ValueBigEndian(n);
    if IntegerOf(d).Some? {
      BigEndianValue(d);
      DigitsBound(Value(d), 8);
    }
  }

  /** An appended integer is read back, with nothing else consumed. */
  lemma UintReads(n: nat, rest: Bytes)
    requires n < MAX_UINT64
    ensures |BigEndian(n)| <= 8
    ensures var b := EncodeString(BigEndian(n)) + rest;
            var h := ParseHeader(b);
            h.Head? && !h.isList && b[h.size..h.size + h.len] == BigEndian(n) && b[h.size + h.len..] == rest
  {
    Pow8();
    DigitsBound(n, 8);
    var s := BigEndian(n);
    if |s| == 1 && s[0] < 0x80 {
      assert (s + rest)[..1] == s && (s + rest)[1..] == rest;
    } else {
      HeaderParses(false, s, rest);
      SliceThree(Header(0x80, 0xB7, |s|), s, rest);
    }
  }

  /** The last `k` digits of `n`, zeros included. */
  function Digits(n: nat, k: nat): (d: Bytes)
    ensures |d| == k
  {
    if k == 0 then [] else Digits(n / 256, k - 1) + [n % 256]
  }

  lemma {:induction false} DigitsMinimal(n: nat, k: nat)
    requires n < Pow256(k)
    ensures |BigEndian(n)| <= k && Digits(n, k) == seq(k - |BigEndian(n)|, _ => 0) + BigEndian(n)
  {
    DigitsBound(n, k);
    if k != 0 && n != 0 {
      assert n / 256 < Pow256(k - 1);
      DigitsMinimal(n / 256, k - 1);
      assert BigEndian(n) == BigEndian(n / 256) + [n % 256];
    } else if k != 0 {
      DigitsMinimal(0, k - 1);
    }
  }

  /** The eight digits of `v`, written from the last to the first. */
  method EightDigits(v: nat) returns (b: array<byte>)
    ensures fresh(b) && b.Length == 8 && b[..] == Digits(v, 8)
  {
    b := new byte[8](_ => 0);
    var rest, i := v, 8;
    while i > 0
      invariant 0 <= i <= 8
      invariant Digits(v, 8) == Digits(rest, i) + b[i..]
    {
      i := i - 1;
      b[i] := rest % 256;
      rest := rest / 256;
    }
    assert b[0..] == b[..];
  }

  /** Appends an integer as its minimal big-endian digits. */
  method AppendUint64(dst: Bytes, v: nat) returns (out: Bytes)
    requires v < MAX_UINT64
    ensures |BigEndian(v)| <= 8 && out == dst + EncodeString(BigEndian(v))
  {
    Pow8();
    DigitsBound(v, 8);
    if v == 0 {
      return dst + [0x80];
    }
    var b := EightDigits(v);
    DigitsMinimal(v, 8);
    ghost var zeros, all := 8 - |BigEndian(v)|, b[..];
    hide Digits;
    hide BigEndian;
    assert all[zeros..] == BigEndian(v) && all[zeros] != 0;
    var i := 0;
    while b[i] == 0
      invariant 0 <= i <= zeros && b[..] == all
      decreases 8 - i
    {
      assert all[i] == 0;
      i := i + 1;
    }
    assert b[i..] == all[i..];
    out := dst + EncodeString(b[i..]);
  }

  /** Left-pads and reads an integer payload. */
  method LeftPadUint64(b: Bytes) returns (r: Option<nat>)
    ensures r == IntegerOf(b)
  {
    if |b| > 8 || (|b| > 0 && b[0] == 0) {
      return None;
    }
    var v: nat := 0;
    for i := 0 to |b|
      invariant v == Value(b[..i])
    {
      assert b[..i + 1][..i] == b[..i];
      v := v * 256 + b[i];
    }
    assert b[..|b|] == b;
    r := Some(v);
  }

  // ---- the stream ----

  datatype Result<T> = Ok(value: T) | Err(error: Error)

  class Stream {
    var b: Bytes

    constructor (b: Bytes)
      ensures this.b == b
    {
      this.b := b;
    }

    /** Takes a byte string off the front. */
    method TakeBytes() returns (r: Result<Bytes>)
      modifies this
      ensures r.Ok? <==> ParseHeader(old(b)).Head? && !ParseHeader(old(b)).isList
      ensures r.Ok? ==> |r.value| < MAX_LEN && old(b) == EncodeString(r.value) + b
      ensures r.Ok? ==> var h := ParseHeader(old(b)); r.value == old(b)[h.size..h.size + h.len] && b == old(b)[h.size + h.len..]
      ensures r.Err? ==> b == old(b)
    {
      var h := ParseHeader(b);
      if h.Bad? {
        return Err(h.error);
      }
      if h.isList {
        return Err(UnexpectedList);
      }
      HeaderCanonical(b);
      assert b == b[..h.size + h.len] + b[h.size + h.len..];
      var out := b[h.size..h.size + h.len];
      b := b[h.size + h.len..];
      r := Ok(out);
    }

    /** Takes a list off the front and returns a stream over its payload. */
    method TakeList() returns (r: Result<Stream>)
      modifies this
      ensures r.Ok? <==> ParseHeader(old(b)).Head? && ParseHeader(old(b)).isList
      ensures r.Ok? ==> fresh(r.value) && |r.value.b| < MAX_LEN && old(b) == EncodeList(r.value.b) + b
      ensures r.Err? ==> b == old(b)
    {
      var h := ParseHeader(b);
      if h.Bad? {
        return Err(h.error);
      }
      if !h.isList {
        return Err(UnexpectedString);
      }
      HeaderCanonical(b);
      assert b == b[..h.size + h.len] + b[h.size + h.len..];
      var sub := new Stream(b[h.size..h.size + h.len]);
      b := b[h.size + h.len..];
      r := Ok(sub);
    }

    /** Takes a canonical integer off the front. A string that is no canonical integer is consumed too. */
    method TakeUint64() returns (r: Option<nat>)
      modifies this
      ensures r.Some? <==>
                var h := ParseHeader(old(b));
                h.Head? && !h.isList && IntegerOf(old(b)[h.size..h.size + h.len]).Some?
      ensures r.Some? ==> r.value < MAX_UINT64 && |BigEndian(r.value)| < MAX_LEN && old(b) == EncodeString(BigEndian(r.value)) + b
      ensures r.None? ==>
                var h := ParseHeader(old(b));
                b == if h.Head? && !h.isList then old(b)[h.size + h.len..] else old(b)
    {
      var s := TakeBytes();
      if s.Err? {
        return None;
      }
      IntegerRoundTrip(0, s.value);
      r := LeftPadUint64(s.value);
    }
  }
}
