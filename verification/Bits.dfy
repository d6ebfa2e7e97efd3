/** Bit strings, most significant bit first, and what they say about a fixed-width accumulator.

    Every codec of the repository (BIP-39, base32, base64) shifts values into a machine word that is
    never cleared, so high bits are lost along the way. The lemmas AccPush and AccTake carry the one
    invariant all of them need: the low |pend| bits of the word are exactly the pending bit string. */
module Bits {

  type byte = x: nat | x < 256

  type bits = seq<bool>

  function Pow2(n: nat): (p: nat)
    ensures p > 0
  {
    if n == 0 then 1 else 2 * Pow2(n - 1)
  }

  /** The number a bit string denotes. */
  function ToNat(b: bits): nat {
    if |b| == 0 then 0 else 2 * ToNat(b[..|b| - 1]) + (if b[|b| - 1] then 1 else 0)
  }

  /** The low w bits of v. */
  function ToBits(v: nat, w: nat): (b: bits)
    ensures |b| == w
  {
    if w == 0 then [] else ToBits(v / 2, w - 1) + [v % 2 == 1]
  }

  /** The bits of a list of w-bit values, one after the other. */
  function Flatten(vals: seq<nat>, w: nat): bits {
    if |vals| == 0 then [] else Flatten(vals[..|vals| - 1], w) + ToBits(vals[|vals| - 1], w)
  }

  /** The values of the complete w-bit groups; an incomplete last group is dropped. */
  function Chop(b: bits, w: nat): seq<nat>
    requires w > 0
  {
    if |b| < w then [] else [ToNat(b[..w])] + Chop(b[w..], w)
  }

  predicate AllBelow(vals: seq<nat>, limit: nat) {
    forall i :: 0 <= i < |vals| ==> vals[i] < limit
  }

  function Zeros(n: nat): bits {
    seq(n, _ => false)
  }

  /** Bitwise and of two numbers. */
  function And(a: nat, b: nat): nat {
    if a == 0 || b == 0 then 0 else 2 * And(a / 2, b / 2) + (if a % 2 == 1 && b % 2 == 1 then 1 else 0)
  }

  /** Masking with k ones keeps the remainder modulo 2^k. */
  lemma {:induction false} AndMask(a: nat, k: nat)
    ensures And(a, Pow2(k) - 1) == a % Pow2(k)
  {
    hide And;
    if k > 0 {
      AndMask(a / 2, k - 1);
      AndOnes(a, Pow2(k - 1));
      HalfMod(a, Pow2(k - 1));
      assert Pow2(k) == 2 * Pow2(k - 1);
    } else {
      AndZero(a);
      assert Pow2(0) == 1;
    }
  }

  lemma AndOnes(a: nat, p: nat)
    requires p > 0
    ensures And(a, 2 * p - 1) == 2 * And(a / 2, p - 1) + a % 2
  {
    AndOnce(a, 2 * p - 1);
  }

  lemma AndZero(a: nat)
    ensures And(a, 0) == 0
  {
  }

  lemma HalfMod(a: nat, p: nat)
    requires p > 0
    ensures a % (2 * p) == 2 * (a / 2 % p) + a % 2
  {
    var half := a / 2;
    var q, r := half / p, half % p;
    MulTwice(q, p);
    assert a == q * (2 * p) + (2 * r + a % 2);
    DivModUnique(a, 2 * p, q, 2 * r + a % 2);
  }

  lemma AndOnce(a: nat, b: nat)
    ensures And(a, b) == 2 * And(a / 2, b / 2) + (if a % 2 == 1 && b % 2 == 1 then 1 else 0)
  {
  }

  // Numbers and bit strings

  lemma ToNatBound(b: bits)
    ensures ToNat(b) < Pow2(|b|)
  {
  }

  lemma {:induction false} ToNatAppend(a: bits, b: bits)
    ensures ToNat(a + b) == ToNat(a) * Pow2(|b|) + ToNat(b)
  {
    if |b| == 0 {
      assert a + b == a;
    } else {
      var b' := b[..|b| - 1];
      assert (a + b)[..|a + b| - 1] == a + b';
      ToNatAppend(a, b');
      MulTwice(ToNat(a), Pow2(|b'|));
    }
  }

  lemma MulTwice(x: int, y: int)
    ensures x * (2 * y) == 2 * (x * y)
  {
  }

  lemma {:induction false} ToNatToBits(b: bits)
    ensures ToBits(ToNat(b), |b|) == b
  {
    if |b| > 0 {
      var b', last := b[..|b| - 1], b[|b| - 1];
      ToNatToBits(b');
      var v := ToNat(b);
      assert v / 2 == ToNat(b') && (v % 2 == 1) == last;
      assert ToBits(v, |b|) == ToBits(v / 2, |b'|) + [v % 2 == 1];
    }
  }

  lemma {:induction false} ToBitsToNat(v: nat, w: nat)
    requires v < Pow2(w)
    ensures ToNat(ToBits(v, w)) == v
  {
    if w > 0 {
      ToBitsToNat(v / 2, w - 1);
      assert ToBits(v, w)[..w - 1] == ToBits(v / 2, w - 1);
    }
  }

  lemma ToNatZeros(n: nat)
    ensures ToNat(Zeros(n)) == 0 && ToBits(0, n) == Zeros(n)
  {
    if n > 0 {
      ToNatZeros(n - 1);
      assert Zeros(n)[..n - 1] == Zeros(n - 1);
    }
  }

  // Repacking

  lemma {:induction false} FlattenLength(vals: seq<nat>, w: nat)
    ensures |Flatten(vals, w)| == |vals| * w
  {
    if |vals| > 0 {
      FlattenLength(vals[..|vals| - 1], w);
      assert |vals| * w == (|vals| - 1) * w + w;
    }
  }

  lemma {:induction false} FlattenAppend(a: seq<nat>, b: seq<nat>, w: nat)
    ensures Flatten(a + b, w) == Flatten(a, w) + Flatten(b, w)
  {
    if |b| == 0 {
      assert a + b == a;
      assert Flatten(a, w) + [] == Flatten(a, w);
    } else {
      var b' := b[..|b| - 1];
      assert (a + b)[..|a + b| - 1] == a + b';
      FlattenAppend(a, b', w);
    }
  }

  lemma FlattenSnoc(a: seq<nat>, v: nat, w: nat)
    ensures Flatten(a + [v], w) == Flatten(a, w) + ToBits(v, w)
  {
    assert (a + [v])[..|a|] == a;
  }

  lemma FlattenCons(v: nat, rest: seq<nat>, w: nat)
    ensures Flatten([v] + rest, w) == ToBits(v, w) + Flatten(rest, w)
  {
    FlattenSnoc([], v, w);
    assert [] + [v] == [v];
    FlattenAppend([v], rest, w);
  }

  lemma ChopCons(v: nat, tail: bits, w: nat)
    requires w > 0 && v < Pow2(w)
    ensures Chop(ToBits(v, w) + tail, w) == [v] + Chop(tail, w)
  {
    ToBitsToNat(v, w);
    var b := ToBits(v, w) + tail;
    assert b[..w] == ToBits(v, w) && b[w..] == tail;
  }

  /** The heart of every round trip: if out's w-bit values followed by fewer than w bits spell b,
      then out is the list of complete w-bit groups of b. */
  lemma {:induction false} ChopUnique(b: bits, w: nat, out: seq<nat>, pend: bits)
    requires w > 0 && |pend| < w && AllBelow(out, Pow2(w))
    requires Flatten(out, w) + pend == b
    ensures out == Chop(b, w)
    decreases |out|
  {
    if |out| == 0 {
      assert b == pend;
    } else {
      var v, rest := out[0], out[1..];
      assert out == [v] + rest;
      FlattenCons(v, rest, w);
      ToBitsToNat(v, w);
      var tail := Flatten(rest, w) + pend;
      assert b == ToBits(v, w) + tail;
      ChopUnique(tail, w, rest, pend);
      ChopCons(v, tail, w);
    }
  }

  /** Any bit string is a list of w-bit values and a tail of fewer than w bits. */
  lemma {:induction false} Grouped(b: bits, w: nat) returns (out: seq<nat>, pend: bits)
    requires w > 0
    ensures AllBelow(out, Pow2(w)) && |pend| < w && Flatten(out, w) + pend == b
    decreases |b|
  {
    hide Flatten, ToBits, ToNat, Pow2;
    if |b| < w {
      out, pend := [], b;
      FlattenLength(out, w);
    } else {
      var v := ToNat(b[..w]);
      ToNatBound(b[..w]);
      ToNatToBits(b[..w]);
      var rest: seq<nat>;
      rest, pend := Grouped(b[w..], w);
      FlattenCons(v, rest, w);
      out := [v] + rest;
      assert Flatten(out, w) + pend == b[..w] + (Flatten(rest, w) + pend) == b;
    }
  }

  /** Chopping gives values below 2^w that spell b, but for a dropped tail of fewer than w bits. */
  lemma ChopSpells(b: bits, w: nat) returns (pend: bits)
    requires w > 0
    ensures AllBelow(Chop(b, w), Pow2(w)) && |pend| < w && Flatten(Chop(b, w), w) + pend == b
  {
    var out;
    out, pend := Grouped(b, w);
    ChopUnique(b, w, out, pend);
  }

  /** The i-th group, read directly. */
  lemma {:induction false} ChopAt(b: bits, w: nat, i: nat)
    requires w > 0 && i < |Chop(b, w)|
    ensures 0 <= i * w <= (i + 1) * w <= |b|
    ensures Chop(b, w)[i] == ToNat(b[i * w..(i + 1) * w])
    decreases i
  {
    assert (i + 1) * w == i * w + w;
    if i > 0 {
      ChopAt(b[w..], w, i - 1);
      assert i * w == (i - 1) * w + w;
      assert b[w..][(i - 1) * w..i * w] == b[i * w..(i + 1) * w];
    }
  }

  /** There are floor(|b| / w) complete groups. */
  lemma {:induction false} ChopCount(b: bits, w: nat)
    requires w > 0
    ensures |Chop(b, w)| == |b| / w
  {
    var pend := ChopSpells(b, w);
    FlattenLength(Chop(b, w), w);
    DivModUnique(|b|, w, |Chop(b, w)|, |pend|);
  }

  /** A list of w-bit values is recovered from its bits, whatever fewer than w bits follow. */
  lemma {:induction false} ChopFlatten(vals: seq<nat>, w: nat, pend: bits)
    requires w > 0 && AllBelow(vals, Pow2(w)) && |pend| < w
    ensures Chop(Flatten(vals, w) + pend, w) == vals
  {
    ChopUnique(Flatten(vals, w) + pend, w, vals, pend);
  }

  // Accumulators

  lemma MulGe(k: int, d: nat)
    requires k >= 1
    ensures k * d >= d
  {
    assert k * d == (k - 1) * d + d;
    assert (k - 1) * d >= 0;
  }

  lemma SmallMultiple(k: int, d: int)
    requires d > 0 && -d < k * d < d
    ensures k == 0
  {
    assert k >= 1 ==> (k - 1) * d >= 0;
    assert k <= -1 ==> (-k - 1) * d >= 0;
  }

  lemma DivModUnique(x: int, d: nat, q: int, r: int)
    requires d > 0 && x == q * d + r && 0 <= r < d
    ensures x / d == q && x % d == r
  {
    var q', r' := x / d, x % d;
    assert x == q' * d + r';
    assert (q - q') * d == r' - r;
    SmallMultiple(q - q', d);
  }

  lemma WrapDistance(x: int, d: nat) returns (m: int)
    requires d > 0
    ensures x % d == x + m * d
  {
    m := -(x / d);
  }

  lemma PushArith(word: int, t: int, P: nat, Q: nat, R: nat, v: int, m: int, word': int)
    requires P > 0 && Q > 0 && word % P == t && 0 <= v < Q && 0 <= t * Q + v < P * Q
    requires word' == word * Q + v + m * ((P * Q) * R)
    ensures word' % (P * Q) == t * Q + v
  {
    MulGe(P, Q);
    var k, N := word / P, P * Q;
    assert word == k * P + t;
    assert (k * P + t) * Q == k * N + t * Q;
    assert m * (N * R) == (m * R) * N;
    assert (k + m * R) * N == k * N + (m * R) * N;
    DivModUnique(word', N, k + m * R, t * Q + v);
  }

  lemma TakeArith(word: int, M: nat, K: nat, a: int, b: int)
    requires M > 0 && K > 0 && 0 <= a < M && 0 <= b < K
    requires word % (M * K) == a * K + b
    ensures word / K % M == a && word % K == b
  {
    MulGe(M, K);
    var N := M * K;
    var q := word / N;
    assert word == q * N + (a * K + b);
    assert (q * M + a) * K == q * N + a * K;
    DivModUnique(word, K, q * M + a, b);
    DivModUnique(q * M + a, M, q, a);
  }

  lemma {:induction false} Pow2Add(m: nat, n: nat)
    ensures Pow2(m + n) == Pow2(m) * Pow2(n)
  {
    if m > 0 {
      Pow2Add(m - 1, n);
      MulTwice(Pow2(n), Pow2(m - 1));
    }
  }

  /** The word holds the pending bits in its low part. Above them it holds anything. */
  ghost predicate Holds(word: int, pend: bits) {
    word % Pow2(|pend|) == ToNat(pend)
  }

  /** `(word << w) | v` on an unsigned machine word; the shifted-in low bits are zero, so or is plus. */
  function ShlOrUnsigned(word: nat, w: nat, v: nat, width: nat): (r: nat) {
    (word * Pow2(w) + v) % Pow2(width)
  }

  /** `(word << w) | v` on the signed 32-bit integers of JavaScript. */
  function ShlOrInt32(word: int, w: nat, v: nat): int {
    var u := (word * Pow2(w) + v) % 0x1_0000_0000;
    if u >= 0x8000_0000 then u - 0x1_0000_0000 else u
  }

  /** `(word >> k) & (2^w - 1)`: on a negative word the arithmetic shift floors, as Dafny's / does here. */
  function ShrMask(word: int, k: nat, w: nat): nat {
    word / Pow2(k) % Pow2(w)
  }

  lemma {:induction false} PushUnsigned(word: nat, pend: bits, w: nat, v: nat, width: nat)
    requires Holds(word, pend) && v < Pow2(w) && |pend| + w <= width
    ensures Holds(ShlOrUnsigned(word, w, v, width), pend + ToBits(v, w))
  {
    var x := word * Pow2(w) + v;
    var m := WrapDistance(x, Pow2(width));
    AccPush(word, pend, w, v, width, x % Pow2(width), m);
  }

  lemma {:induction false} PushInt32(word: int, pend: bits, w: nat, v: nat)
    requires Holds(word, pend) && v < Pow2(w) && |pend| + w <= 32
    ensures Holds(ShlOrInt32(word, w, v), pend + ToBits(v, w))
  {
    var x := word * Pow2(w) + v;
    var m := WrapDistance(x, 0x1_0000_0000);
    var m' := if x % 0x1_0000_0000 >= 0x8000_0000 then m - 1 else m;
    WordSize();
    AccPush(word, pend, w, v, 32, ShlOrInt32(word, w, v), m');
  }

  lemma WordSize()
    ensures Pow2(32) == 0x1_0000_0000
  {
    assert Pow2(8) == 256;
    Pow2Add(8, 8);
    Pow2Add(16, 16);
  }

  /** Shifting a value in keeps the invariant however the word wraps, as long as the pending bits fit. */
  lemma {:induction false} AccPush(word: int, pend: bits, w: nat, v: nat, width: nat, word': int, m: int)
    requires Holds(word, pend) && v < Pow2(w) && |pend| + w <= width
    requires word' == word * Pow2(w) + v + m * Pow2(width)
    ensures Holds(word', pend + ToBits(v, w))
  {
    var pend' := pend + ToBits(v, w);
    ToBitsToNat(v, w);
    ToNatAppend(pend, ToBits(v, w));
    ToNatBound(pend');
    Pow2Add(|pend|, w);
    Pow2Add(|pend'|, width - |pend'|);
    PushArith(word, ToNat(pend), Pow2(|pend|), Pow2(w), Pow2(width - |pend'|), v, m, word');
  }

  /** Reading the top n pending bits gives their value, and the rest stays pending. */
  lemma AccTake(word: int, pend: bits, n: nat)
    requires Holds(word, pend) && n <= |pend|
    ensures ShrMask(word, |pend| - n, n) == ToNat(pend[..n])
    ensures Holds(word, pend[n..])
  {
    assert pend == pend[..n] + pend[n..];
    ToNatAppend(pend[..n], pend[n..]);
    ToNatBound(pend[..n]);
    ToNatBound(pend[n..]);
    Pow2Add(n, |pend| - n);
    TakeArith(word, Pow2(n), Pow2(|pend| - n), ToNat(pend[..n]), ToNat(pend[n..]));
  }

  /** The invariant of a repacking loop: out's w-bit values and the pending bits spell what was read. */
  ghost predicate Packing(word: int, pend: bits, out: seq<nat>, w: nat, read: bits) {
    Holds(word, pend) && AllBelow(out, Pow2(w)) && Flatten(out, w) + pend == read
  }

  lemma PackingStart(w: nat, v: nat)
    ensures Packing(0, [], [], w, Flatten([], v))
  {
  }

  lemma {:induction false} Feed(word: nat, pend: bits, out: seq<nat>, w: nat, read: bits, n: nat, v: nat, width: nat)
    requires Packing(word, pend, out, w, read) && v < Pow2(n) && |pend| + n <= width
    ensures Packing(ShlOrUnsigned(word, n, v, width), pend + ToBits(v, n), out, w, read + ToBits(v, n))
  {
    PushUnsigned(word, pend, n, v, width);
    assert (Flatten(out, w) + pend) + ToBits(v, n) == Flatten(out, w) + (pend + ToBits(v, n));
  }

  lemma {:induction false} FeedInt32(word: int, pend: bits, out: seq<nat>, w: nat, read: bits, n: nat, v: nat)
    requires Packing(word, pend, out, w, read) && v < Pow2(n) && |pend| + n <= 32
    ensures Packing(ShlOrInt32(word, n, v), pend + ToBits(v, n), out, w, read + ToBits(v, n))
  {
    PushInt32(word, pend, n, v);
    assert (Flatten(out, w) + pend) + ToBits(v, n) == Flatten(out, w) + (pend + ToBits(v, n));
  }

  lemma {:induction false} Emit(word: int, pend: bits, out: seq<nat>, w: nat, read: bits)
    requires Packing(word, pend, out, w, read) && w <= |pend|
    ensures ShrMask(word, |pend| - w, w) < Pow2(w)
    ensures Packing(word, pend[w..], out + [ShrMask(word, |pend| - w, w)], w, read)
  {
    AccTake(word, pend, w);
    Regroup(pend, out, w, read);
  }

  lemma Regroup(pend: bits, out: seq<nat>, w: nat, read: bits)
    requires w <= |pend| && Flatten(out, w) + pend == read
    ensures ToNat(pend[..w]) < Pow2(w)
    ensures Flatten(out + [ToNat(pend[..w])], w) + pend[w..] == read
  {
    var top, f := pend[..w], Flatten(out, w);
    ToNatBound(top);
    ToNatToBits(top);
    FlattenSnoc(out, ToNat(top), w);
    assert (f + top) + pend[w..] == f + pend;
  }

  /** A repacking loop that ends with fewer than w pending bits has produced exactly the w-bit groups. */
  lemma Packed(word: int, pend: bits, out: seq<nat>, w: nat, read: bits)
    requires w > 0 && Packing(word, pend, out, w, read) && |pend| < w
    ensures out == Chop(read, w) && |pend| == |read| % w
  {
    ChopUnique(read, w, out, pend);
    FlattenLength(out, w);
    DivModUnique(|read|, w, |out|, |pend|);
  }
}
