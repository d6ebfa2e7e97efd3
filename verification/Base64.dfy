/** The agent's hand-written base64 codec: three-byte chunks one way, a 32-bit accumulator that is
    never cleared the other way. */
module Base64 {
  import opened Bits
  import opened Strings
  import opened Wrappers

  // Specification: characters, 6-bit values, bits

  /** The character at index v of the RFC 4648 table. */
  function Digit(v: nat): char
    requires v < 64
  {
    if v < 26 then (65 + v) as char
    else if v < 52 then (71 + v) as char
    else if v < 62 then (v - 4) as char
    else if v == 62 then '+' else '/'
  }

  function Value(c: char): Option<nat> {
    if 'A' <= c <= 'Z' then Some(c as int - 65)
    else if 'a' <= c <= 'z' then Some(c as int - 97 + 26)
    else if '0' <= c <= '9' then Some(c as int - 48 + 52)
    else if c == '+' then Some(62) else if c == '/' then Some(63) else None
  }

  function Text(vals: seq<nat>): string
    requires AllBelow(vals, 64)
  {
    seq(|vals|, i requires 0 <= i < |vals| => Digit(vals[i]))
  }

  function Equals(n: nat): string {
    seq(n, _ => '=')
  }

  /** Bits followed by zeros up to the next multiple of six. */
  function Padded(b: bits): bits {
    b + Zeros(if |b| % 6 == 0 then 0 else 6 - |b| % 6)
  }

  function Sextets(data: seq<byte>): seq<nat> {
    Chop(Padded(Flatten(data, 8)), 6)
  }

  /** RFC 4648 section 4: the sextets, filled up with '=' to a multiple of four characters. */
  function Encoded(data: seq<byte>): string {
    var vals := Sextets(data);
    (if AllBelow(vals, 64) then Text(vals) else "") + Equals((3 - |data| % 3) % 3)
  }

  /** The values before the first '=', whitespace skipped, or the first foreign character. */
  function Scan(s: string): Result<seq<nat>, char> {
    if s == "" || s[0] == '=' then Ok([])
    else if Value(s[0]).Some? then Prepend([Value(s[0]).value], Scan(s[1..]))
    else if IsWhitespace(s[0]) then Scan(s[1..])
    else Err(s[0])
  }

  function Prepend(vals: seq<nat>, r: Result<seq<nat>, char>): Result<seq<nat>, char> {
    match r
    case Ok(more) => Ok(vals + more)
    case Err(c) => Err(c)
  }

  function Decoded(s: string): Result<seq<nat>, char> {
    match Scan(s)
    case Ok(vals) => Ok(Chop(Flatten(vals, 6), 8))
    case Err(c) => Err(c)
  }

  // The encoder

  method Encode(data: seq<byte>) returns (out: string)
    ensures out == Encoded(data)
  {
    hide Flatten, Chop, ToBits, Text, ShrMask, Padded, Digit, Encoded;
    out := "";
    ghost var vals: seq<nat> := [];
    assert data[..0] == [] && Text([]) == "" by { TextAppend([], []); }
    FlattenLength([], 6);
    FlattenLength([], 8);
    var i := 0;
    while i < |data|
      invariant 0 <= i <= |data|
      invariant i % 3 == 0 || i == |data|
      invariant i % 3 == 0 ==> AllBelow(vals, 64) && out == Text(vals) && Flatten(vals, 6) == Flatten(data[..i], 8)
      invariant i % 3 != 0 ==> out == Encoded(data)
    {
      var chunk := if i + 3 <= |data| then data[i..i + 3] else data[i..];
      var b0 := chunk[0];
      var b1: byte := if |chunk| > 1 then chunk[1] else 0;
      var b2: byte := if |chunk| > 2 then chunk[2] else 0;
      var n := b0 * 65536 + b1 * 256 + b2;
      ChunkSextets(b0, b1, b2);
      var q := [ShrMask(n, 18, 6), ShrMask(n, 12, 6), ShrMask(n, 6, 6), ShrMask(n, 0, 6)];
      var c2 := if |chunk| > 1 then Digit(q[2]) else '=';
      var c3 := if |chunk| > 2 then Digit(q[3]) else '=';
      assert data[..i + |chunk|] == data[..i] + chunk;
      if |chunk| == 3 {
        FlattenAppend(vals, q, 6);
        FlattenAppend(data[..i], [b0, b1, b2], 8);
        assert chunk == [b0, b1, b2];
        TextAppend(vals, q);
        vals := vals + q;
      } else {
        LastChunk(data, i, vals, q, b0, b1);
      }
      out := out + [Digit(q[0]), Digit(q[1]), c2, c3];
      i := i + |chunk|;
    }
    if i % 3 == 0 {
      assert data[..i] == data;
      WholeChunks(data, vals);
    }
  }

  lemma TextAppend(a: seq<nat>, b: seq<nat>)
    requires AllBelow(a, 64) && AllBelow(b, 64)
    ensures AllBelow(a + b, 64) && Text(a + b) == Text(a) + Text(b)
    ensures Text([]) == ""
    ensures |b| == 4 ==> Text(b) == [Digit(b[0]), Digit(b[1]), Digit(b[2]), Digit(b[3])]
    ensures |b| == 3 ==> Text(b) == [Digit(b[0]), Digit(b[1]), Digit(b[2])]
    ensures |b| == 2 ==> Text(b) == [Digit(b[0]), Digit(b[1])]
  {
  }

  lemma FlattenTriple(b0: byte, b1: byte, b2: byte)
    ensures Flatten([b0, b1, b2], 8) == ToBits(b0, 8) + (ToBits(b1, 8) + ToBits(b2, 8))
  {
    hide ToBits, Flatten;
    FlattenCons(b0, [b1, b2], 8);
    FlattenCons(b1, [b2], 8);
    FlattenCons(b2, [], 8);
    FlattenLength([], 8);
    assert [b0] + [b1, b2] == [b0, b1, b2] && [b1] + [b2] == [b1, b2] && [b2] + [] == [b2];
  }

  lemma TripleValue(b0: byte, b1: byte, b2: byte)
    ensures Holds(b0 * 65536 + b1 * 256 + b2, Flatten([b0, b1, b2], 8))
  {
    hide ToBits, Flatten;
    FlattenTriple(b0, b1, b2);
    var x0, x1, x2 := ToBits(b0, 8), ToBits(b1, 8), ToBits(b2, 8);
    assert Pow2(8) == 256;
    ToBitsToNat(b0, 8);
    ToBitsToNat(b1, 8);
    ToBitsToNat(b2, 8);
    Pow2Add(8, 8);
    Pow2Add(8, 16);
    ToNatAppend(x1, x2);
    ToNatAppend(x0, x1 + x2);
  }

  /** The four sextets of a chunk spell its three bytes. */
  lemma ChunkSextets(b0: byte, b1: byte, b2: byte)
    ensures var n := b0 * 65536 + b1 * 256 + b2;
      var q := [ShrMask(n, 18, 6), ShrMask(n, 12, 6), ShrMask(n, 6, 6), ShrMask(n, 0, 6)];
      AllBelow(q, 64) && Flatten(q, 6) == Flatten([b0, b1, b2], 8)
  {
    hide Flatten, ShrMask, Holds;
    var n := b0 * 65536 + b1 * 256 + b2;
    var b := Flatten([b0, b1, b2], 8);
    FlattenLength([b0, b1, b2], 8);
    FlattenLength([], 6);
    TripleValue(b0, b1, b2);
    assert Flatten([], 6) + b == b;
    Emit(n, b, [], 6, b);
    var q := [ShrMask(n, 18, 6)];
    assert q == [] + [ShrMask(n, 18, 6)];
    Emit(n, b[6..], q, 6, b);
    Emit(n, b[6..][6..], q + [ShrMask(n, 12, 6)], 6, b);
    Emit(n, b[6..][6..][6..], q + [ShrMask(n, 12, 6)] + [ShrMask(n, 6, 6)], 6, b);
    var q' := [ShrMask(n, 18, 6), ShrMask(n, 12, 6), ShrMask(n, 6, 6), ShrMask(n, 0, 6)];
    assert q' == q + [ShrMask(n, 12, 6)] + [ShrMask(n, 6, 6)] + [ShrMask(n, 0, 6)];
    assert Flatten(q', 6) + [] == Flatten(q', 6);
    assert Pow2(6) == 64;
  }

  lemma PadToSix(n: nat, k: nat, m: nat)
    requires k < 6 && n + k == m * 6
    ensures k == if n % 6 == 0 then 0 else 6 - n % 6
  {
  }

  /** Values that spell the data and fewer than six zeros are its sextets. */
  lemma SextetsAre(data: seq<byte>, vals: seq<nat>, k: nat)
    requires AllBelow(vals, 64) && k < 6 && Flatten(vals, 6) == Flatten(data, 8) + Zeros(k)
    ensures Sextets(data) == vals
  {
    hide Flatten, Chop;
    var b := Flatten(data, 8);
    FlattenLength(data, 8);
    FlattenLength(vals, 6);
    PadToSix(|b|, k, |vals|);
    assert Flatten(vals, 6) + [] == Padded(b);
    assert Pow2(6) == 64;
    ChopUnique(Padded(b), 6, vals, []);
  }

  lemma WholeChunks(data: seq<byte>, vals: seq<nat>)
    requires |data| % 3 == 0 && AllBelow(vals, 64) && Flatten(vals, 6) == Flatten(data, 8)
    ensures Encoded(data) == Text(vals)
  {
    hide Flatten, Sextets;
    assert Flatten(data, 8) + Zeros(0) == Flatten(data, 8);
    SextetsAre(data, vals, 0);
    assert Text(vals) + Equals(0) == Text(vals);
  }

  /** A last chunk of one or two bytes: its zero-filled sextets, then '=' up to four characters. */
  lemma LastChunk(data: seq<byte>, i: nat, vals: seq<nat>, q: seq<nat>, b0: byte, b1: byte)
    requires i % 3 == 0 && i < |data| && (data[i..] == [b0, b1] || (data[i..] == [b0] && b1 == 0))
    requires AllBelow(vals, 64) && Flatten(vals, 6) == Flatten(data[..i], 8)
    requires |q| == 4 && AllBelow(q, 64) && Flatten(q, 6) == Flatten([b0, b1, 0], 8)
    ensures Encoded(data) ==
      Text(vals) + [Digit(q[0]), Digit(q[1]), if |data| == i + 1 then '=' else Digit(q[2]), '=']
  {
    hide Flatten, Sextets, Chop, Digit, ToBits;
    var c := |data| - i;
    var head := q[..c + 1];
    var tail := data[i..];
    var k := 6 - 2 * c;
    assert q == head + q[c + 1..];
    FlattenAppend(head, q[c + 1..], 6);
    FlattenLength(head, 6);
    FlattenTriple(b0, b1, 0);
    ToNatZeros(8);
    assert Flatten(head, 6) == Flatten([b0, b1, 0], 8)[..6 * (c + 1)];
    assert Flatten(head, 6) == Flatten(tail, 8) + Zeros(k) by {
      if c == 1 { TailBits1(b0); } else { TailBits2(b0, b1); }
    }
    FlattenAppend(vals, head, 6);
    FlattenAppend(data[..i], tail, 8);
    assert data == data[..i] + tail;
    assert Flatten(vals + head, 6) == Flatten(data, 8) + Zeros(k);
    SextetsAre(data, vals + head, k);
    TextAppend(vals, head);
    assert Equals(3 - c) == if c == 1 then ['=', '='] else ['='];
  }

  lemma TailBits1(b0: byte)
    ensures |Flatten([b0, 0, 0], 8)| == 24
    ensures Flatten([b0, 0, 0], 8)[..12] == Flatten([b0], 8) + Zeros(4)
  {
    hide Flatten, ToBits, Zeros;
    FlattenTriple(b0, 0, 0);
    ToNatZeros(8);
    FlattenCons(b0, [], 8);
    FlattenLength([], 8);
    assert [b0] + [] == [b0];
    ZerosAdd(8, 8);
    CutZeros(ToBits(b0, 8), 4, 16);
  }

  lemma TailBits2(b0: byte, b1: byte)
    ensures |Flatten([b0, b1, 0], 8)| == 24
    ensures Flatten([b0, b1, 0], 8)[..18] == Flatten([b0, b1], 8) + Zeros(2)
  {
    hide Flatten, ToBits, Zeros;
    FlattenTriple(b0, b1, 0);
    ToNatZeros(8);
    FlattenCons(b0, [b1], 8);
    FlattenCons(b1, [], 8);
    FlattenLength([], 8);
    assert [b0] + [b1] == [b0, b1] && [b1] + [] == [b1];
    var x0, x1 := ToBits(b0, 8), ToBits(b1, 8);
    CutZeros(x0 + x1, 2, 8);
    assert x0 + (x1 + Zeros(8)) == (x0 + x1) + Zeros(8);
  }

  lemma ZerosAdd(m: nat, n: nat)
    ensures Zeros(m) + Zeros(n) == Zeros(m + n)
  {
  }

  lemma CutZeros(x: bits, k: nat, n: nat)
    requires k <= n
    ensures |Zeros(n)| == n && (x + Zeros(n))[..|x| + k] == x + Zeros(k)
  {
  }

  // The decoder

  method Decode(encoded: string) returns (r: Result<seq<byte>, char>)
    ensures r.Ok? ==> Decoded(encoded) == Ok(r.value)
    ensures r.Err? ==> Decoded(encoded) == Err(r.error)
  {
    hide Flatten, Chop, ToBits, ShrMask, ShlOrUnsigned, Packing, Value;
    var clean := Trim(encoded, IsWhitespace);
    ScanTrim(encoded);
    if clean == "" {
      FlattenLength([], 6);
      ChopCount([], 8);
      return Ok([]);
    }
    var out: seq<byte> := [];
    var buffer, bits, i := 0, 0, 0;
    ghost var vals: seq<nat>, pend: seq<bool> := [], [];
    PackingStart(8, 6);
    PrependNothing(Scan(clean));
    while i < |clean| && clean[i] != '='
      invariant 0 <= i <= |clean| && bits == |pend| < 8
      invariant Packing(buffer, pend, out, 8, Flatten(vals, 6))
      invariant Scan(clean) == Prepend(vals, Scan(clean[i..]))
    {
      var val := Value(clean[i]);
      if val.Some? {
        FeedSextet(val.value, buffer, pend, out, vals, clean[i]);
        PrependMore(vals, val.value, Scan(clean[i + 1..]));
        pend, vals := pend + ToBits(val.value, 6), vals + [val.value];
        buffer, bits := ShlOrUnsigned(buffer, 6, val.value, 32), bits + 6;
        if bits >= 8 {
          Emit(buffer, pend, out, 8, Flatten(vals, 6));
          bits := bits - 8;
          out, pend := out + [ShrMask(buffer, bits, 8)], pend[8..];
        }
      } else if !IsWhitespace(clean[i]) {
        return Err(clean[i]);
      }
      i := i + 1;
    }
    Packed(buffer, pend, out, 8, Flatten(vals, 6));
    assert vals + [] == vals;
    return Ok(out);
  }

  lemma PrependNothing(r: Result<seq<nat>, char>)
    ensures Prepend([], r) == r
  {
    if r.Ok? {
      assert [] + r.value == r.value;
    }
  }

  lemma PrependMore(vals: seq<nat>, v: nat, r: Result<seq<nat>, char>)
    ensures Prepend(vals, Prepend([v], r)) == Prepend(vals + [v], r)
  {
    if r.Ok? {
      assert vals + ([v] + r.value) == (vals + [v]) + r.value;
    }
  }

  lemma FeedSextet(v: nat, buffer: nat, pend: bits, out: seq<nat>, vals: seq<nat>, c: char)
    requires |pend| < 8 && Packing(buffer, pend, out, 8, Flatten(vals, 6)) && Value(c) == Some(v)
    ensures Packing(ShlOrUnsigned(buffer, 6, v, 32), pend + ToBits(v, 6), out, 8, Flatten(vals + [v], 6))
  {
    hide Flatten, Packing, ShlOrUnsigned, ToBits;
    assert Pow2(6) == 64;
    Feed(buffer, pend, out, 8, Flatten(vals, 6), 6, v, 32);
    FlattenSnoc(vals, v, 6);
  }

  ghost predicate Blank(s: string) {
    forall i :: 0 <= i < |s| ==> IsWhitespace(s[i])
  }

  lemma {:induction false} ScanLead(a: string, s: string)
    requires Blank(a)
    ensures Scan(a + s) == Scan(s)
  {
    if a == "" {
      assert a + s == s;
    } else {
      assert (a + s)[1..] == a[1..] + s;
      ScanLead(a[1..], s);
    }
  }

  lemma {:induction false} ScanTrail(s: string, b: string)
    requires Blank(b)
    ensures Scan(s + b) == Scan(s)
  {
    if s == "" {
      ScanLead(b, "");
      assert s + b == b + "";
    } else {
      assert (s + b)[1..] == s[1..] + b;
      ScanTrail(s[1..], b);
    }
  }

  lemma ScanTrim(s: string)
    ensures Scan(Trim(s, IsWhitespace)) == Scan(s)
  {
    var a, b := TrimWithin(s, IsWhitespace);
    ScanLead(a, Trim(s, IsWhitespace) + b);
    ScanTrail(Trim(s, IsWhitespace), b);
    assert s == a + (Trim(s, IsWhitespace) + b);
  }

  // Properties

  function WithoutWhitespace(s: string): string {
    if s == "" then ""
    else (if IsWhitespace(s[0]) then "" else [s[0]]) + WithoutWhitespace(s[1..])
  }

  lemma {:induction false} ScanIgnoresWhitespace(s: string)
    ensures Scan(WithoutWhitespace(s)) == Scan(s)
  {
    if s != "" {
      ScanIgnoresWhitespace(s[1..]);
      if IsWhitespace(s[0]) {
        assert WithoutWhitespace(s) == "" + WithoutWhitespace(s[1..]) == WithoutWhitespace(s[1..]);
        assert Value(s[0]).None? && s[0] != '=';
      } else {
        assert WithoutWhitespace(s) == [s[0]] + WithoutWhitespace(s[1..]);
        assert WithoutWhitespace(s)[1..] == WithoutWhitespace(s[1..]);
      }
    }
  }

  lemma DigitScans(v: nat)
    requires v < 64
    ensures Digit(v) != '=' && Value(Digit(v)) == Some(v)
  {
  }

  lemma {:induction false} TextScans(vals: seq<nat>, n: nat)
    requires AllBelow(vals, 64)
    ensures Scan(Text(vals) + Equals(n)) == Ok(vals)
  {
    hide Digit, Value;
    var s := Text(vals) + Equals(n);
    if vals == [] {
      assert n > 0 ==> s[0] == '=';
    } else {
      TextScans(vals[1..], n);
      assert s[1..] == Text(vals[1..]) + Equals(n);
      DigitScans(vals[0]);
      assert [vals[0]] + vals[1..] == vals;
    }
  }

  lemma SextetsCount(data: seq<byte>)
    ensures AllBelow(Sextets(data), 64) && |Sextets(data)| == (4 * |data| + 2) / 3
    ensures Flatten(Sextets(data), 6) == Padded(Flatten(data, 8))
  {
    hide Flatten, Chop;
    var b := Flatten(data, 8);
    FlattenLength(data, 8);
    ChopCount(Padded(b), 6);
    var pend := ChopSpells(Padded(b), 6);
    FlattenLength(Sextets(data), 6);
    assert |Padded(b)| % 6 == 0;
    DivModUnique(|Padded(b)|, 6, |Sextets(data)|, |pend|);
    assert pend == [];
    assert Pow2(6) == 64;
  }

  /** Decoding an encoding gives back the bytes, however many of the 32 buffer bits have been lost on the
      way, and the encoding has four characters for every three bytes begun. */
  lemma {:induction false} RoundTrip(data: seq<byte>)
    ensures Decoded(Encoded(data)) == Ok(data)
    ensures |Encoded(data)| == 4 * ((|data| + 2) / 3)
  {
    hide Flatten, Chop, Scan, Sextets;
    var b := Flatten(data, 8);
    SextetsCount(data);
    TextScans(Sextets(data), (3 - |data| % 3) % 3);
    assert Pow2(8) == 256;
    ChopFlatten(data, 8, Zeros(if |b| % 6 == 0 then 0 else 6 - |b| % 6));
  }

  /** Whitespace inserted anywhere, also between the padding characters, changes nothing. */
  lemma {:induction false} WhitespaceIsIgnored(data: seq<byte>, s: string)
    requires WithoutWhitespace(s) == Encoded(data)
    ensures Decoded(s) == Ok(data)
  {
    hide Chop, Flatten, Encoded;
    RoundTrip(data);
    ScanIgnoresWhitespace(s);
  }

  // What else the decoder reads

  /** The alphabet of section 4 of RFC 4648, in order. */
  lemma AlphabetIs(v: nat)
    requires v < 64
    ensures v < 26 ==> Digit(v) as int == 'A' as int + v
    ensures 26 <= v < 52 ==> Digit(v) as int == 'a' as int + v - 26
    ensures 52 <= v < 62 ==> Digit(v) as int == '0' as int + v - 52
    ensures v == 62 ==> Digit(v) == '+'
    ensures v == 63 ==> Digit(v) == '/'
  {
  }

  predicate IsDigit(c: char) {
    'A' <= c <= 'Z' || 'a' <= c <= 'z' || '0' <= c <= '9' || c == '+' || c == '/'
  }

  lemma DigitsHaveValues(c: char)
    ensures Value(c).Some? <==> IsDigit(c)
  {
  }

  /** Nothing counts from the first padding character on. */
  lemma {:induction false} PaddingEnds(a: string, b: string)
    ensures Decoded(a + "=" + b) == Decoded(a)
  {
    hide Chop, Flatten;
    ScanEnds(a, b);
  }

  lemma {:induction false} ScanEnds(a: string, b: string)
    ensures Scan(a + "=" + b) == Scan(a)
  {
    var s := a + "=" + b;
    if a == "" {
      assert s[0] == '=';
    } else {
      assert s[0] == a[0] && s[1..] == a[1..] + "=" + b;
      ScanEnds(a[1..], b);
    }
  }

  /** Character i is the first that is neither a digit nor whitespace, and no padding comes before it. */
  predicate FirstForeign(s: string, i: nat) {
    && i < |s| && !IsDigit(s[i]) && !IsWhitespace(s[i]) && s[i] != '='
    && forall k :: 0 <= k < i ==> s[k] != '=' && (IsDigit(s[k]) || IsWhitespace(s[k]))
  }

  /** A text is refused for its first foreign character before the padding, and only for that. */
  lemma {:induction false} RefusedForFirstForeign(s: string, c: char)
    ensures Decoded(s) == Err(c) <==> exists i: nat :: FirstForeign(s, i) && s[i] == c
  {
    hide Chop, Flatten, Value;
    ScanRefuses(s, c);
  }

  lemma {:induction false} ScanRefuses(s: string, c: char)
    ensures Scan(s) == Err(c) <==> exists i: nat :: FirstForeign(s, i) && s[i] == c
  {
    hide Value;
    if s != "" {
      var rest := s[1..];
      ScanRefuses(rest, c);
      DigitsHaveValues(s[0]);
      if s[0] != '=' && (IsDigit(s[0]) || IsWhitespace(s[0])) {
        if i: nat :| FirstForeign(rest, i) && rest[i] == c {
          assert FirstForeign(s, i + 1) && s[i + 1] == c;
        }
        if i: nat :| FirstForeign(s, i) && s[i] == c {
          assert FirstForeign(rest, i - 1) && rest[i - 1] == c;
        }
      } else if s[0] != '=' {
        assert FirstForeign(s, 0);
        assert forall i: nat :: FirstForeign(s, i) ==> i == 0;
      } else {
        assert forall i: nat :: !FirstForeign(s, i);
      }
    }
  }
}
