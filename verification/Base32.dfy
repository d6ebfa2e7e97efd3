/** Base32 without padding, in the agent-facing Rust form (a 64-bit accumulator that is never cleared)
    and in the worker's TypeScript form (an explicit string of bits). */
module Base32 {
  import opened Bits
  import opened Wrappers

  // Specification: characters, 5-bit values, bits

  /** u8 arithmetic of `c.to_ascii_uppercase() as u8`: the cast keeps the low eight bits of the code point. */
  function UpperByte(c: char): byte {
    var u := if 'a' <= c <= 'z' then c as int - 32 else c as int;
    u % 256
  }

  /** The character at index v of "ABCDEFGHIJKLMNOPQRSTUVWXYZ234567". */
  function Digit(v: nat): char
    requires v < 32
  {
    if v < 26 then (65 + v) as char else (24 + v) as char
  }

  function Position(u: nat): Option<nat> {
    if 65 <= u <= 90 then Some(u - 65) else if 50 <= u <= 55 then Some(u - 24) else None
  }

  function Value(c: char): Option<nat> {
    Position(UpperByte(c))
  }

  /** The alphabet in either case. */
  predicate InAlphabet(c: char) {
    'a' <= c <= 'z' || 'A' <= c <= 'Z' || '2' <= c <= '7'
  }

  function Values(s: string): seq<nat> {
    if s == "" then []
    else match Value(s[|s| - 1])
      case Some(v) => Values(s[..|s| - 1]) + [v]
      case None => Values(s[..|s| - 1])
  }

  function Text(vals: seq<nat>): string
    requires AllBelow(vals, 32)
  {
    seq(|vals|, i requires 0 <= i < |vals| => Digit(vals[i]))
  }

  /** Bits followed by zeros up to the next multiple of five. */
  function Padded(b: bits): bits {
    b + Zeros(if |b| % 5 == 0 then 0 else 5 - |b| % 5)
  }

  /** RFC 4648 section 6, padding characters omitted. */
  function Encoded(data: seq<byte>): string {
    var vals := Chop(Padded(Flatten(data, 8)), 5);
    if AllBelow(vals, 32) then Text(vals) else ""
  }

  function Decoded(s: string): seq<nat> {
    Chop(Flatten(Values(s), 5), 8)
  }

  // The Rust code

  method Encode(data: seq<byte>) returns (result: string)
    ensures result == Encoded(data)
  {
    hide Packing, ShlOrUnsigned, ShrMask, Flatten, ToBits;
    result := "";
    var buffer, bits := 0, 0;
    ghost var vals: seq<nat>, pend: seq<bool> := [], [];
    PackingStart(5, 8);
    assert data[..0] == [];
    for n := 0 to |data|
      invariant bits == |pend| < 5 && Spells(result, vals)
      invariant Packing(buffer, pend, vals, 5, Flatten(data[..n], 8))
    {
      FeedByte(data, n, buffer, pend, vals);
      pend := pend + ToBits(data[n], 8);
      buffer, bits := ShlOrUnsigned(buffer, 8, data[n], 64), bits + 8;
      while bits >= 5
        invariant bits == |pend| && Spells(result, vals)
        invariant Packing(buffer, pend, vals, 5, Flatten(data[..n + 1], 8))
      {
        Emit(buffer, pend, vals, 5, Flatten(data[..n + 1], 8));
        bits := bits - 5;
        var idx := ShrMask(buffer, bits, 5);
        SpellsSnoc(result, vals, idx);
        result := result + [Digit(idx)];
        vals, pend := vals + [idx], pend[5..];
      }
    }
    assert data[..|data|] == data;
    FinishEncode(data, buffer, pend, vals);
    if bits > 0 {
      var idx := ShrMask(ShlOrUnsigned(buffer, 5 - bits, 0, 64), 0, 5);
      SpellsSnoc(result, vals, idx);
      result := result + [Digit(idx)];
    }
  }

  lemma FeedByte(data: seq<byte>, n: nat, buffer: nat, pend: bits, vals: seq<nat>)
    requires n < |data| && |pend| < 5 && Packing(buffer, pend, vals, 5, Flatten(data[..n], 8))
    ensures Packing(ShlOrUnsigned(buffer, 8, data[n], 64), pend + ToBits(data[n], 8), vals, 5,
                    Flatten(data[..n + 1], 8))
  {
    assert data[..n + 1] == data[..n] + [data[n]];
    FlattenSnoc(data[..n], data[n], 8);
    Feed(buffer, pend, vals, 5, Flatten(data[..n], 8), 8, data[n], 64);
  }

  /** What the final zero-filled character adds. */
  lemma FinishEncode(data: seq<byte>, buffer: nat, pend: bits, vals: seq<nat>)
    requires |pend| < 5 && Packing(buffer, pend, vals, 5, Flatten(data, 8))
    ensures var all := Chop(Padded(Flatten(data, 8)), 5);
            if |pend| == 0 then all == vals
            else var idx := ShrMask(ShlOrUnsigned(buffer, 5 - |pend|, 0, 64), 0, 5);
              all == vals + [idx] && idx < 32
  {
    var read := Flatten(data, 8);
    Packed(buffer, pend, vals, 5, read);
    if |pend| == 0 {
      assert Padded(read) == read;
    } else {
      var k := 5 - |pend|;
      var buffer' := ShlOrUnsigned(buffer, k, 0, 64);
      var pend' := pend + ToBits(0, k);
      Feed(buffer, pend, vals, 5, read, k, 0, 64);
      ToNatZeros(k);
      Emit(buffer', pend', vals, 5, Padded(read));
      Packed(buffer', [], vals + [ShrMask(buffer', 0, 5)], 5, Padded(read));
    }
  }

  lemma SpellsSnoc(s: string, vals: seq<nat>, idx: nat)
    requires Spells(s, vals) && idx < 32
    ensures Spells(s + [Digit(idx)], vals + [idx])
  {
  }

  ghost predicate Spells(s: string, vals: seq<nat>) {
    AllBelow(vals, 32) && s == Text(vals)
  }

  method Decode(s: string) returns (r: Option<seq<byte>>)
    ensures r.Some? <==> forall i :: 0 <= i < |s| ==> Value(s[i]).Some?
    ensures r.Some? ==> r.value == Decoded(s)
  {
    hide Packing, ShlOrUnsigned, ShrMask, Flatten, ToBits, Value, Chop;
    var result: seq<byte> := [];
    var buffer, bits := 0, 0;
    ghost var pend: seq<bool> := [];
    PackingStart(8, 5);
    for n := 0 to |s|
      invariant bits == |pend| < 8
      invariant forall i :: 0 <= i < n ==> Value(s[i]).Some?
      invariant Packing(buffer, pend, result, 8, Flatten(Values(s[..n]), 5))
    {
      var val := Value(s[n]);
      if val.None? {
        return None;
      }
      FeedChar(s, n, buffer, pend, result);
      pend := pend + ToBits(val.value, 5);
      buffer, bits := ShlOrUnsigned(buffer, 5, val.value, 64), bits + 5;
      if bits >= 8 {
        Emit(buffer, pend, result, 8, Flatten(Values(s[..n + 1]), 5));
        bits := bits - 8;
        result, pend := result + [ShrMask(buffer, bits, 8)], pend[8..];
      }
    }
    assert s[..|s|] == s;
    Packed(buffer, pend, result, 8, Flatten(Values(s), 5));
    return Some(result);
  }

  lemma FeedChar(s: string, n: nat, buffer: nat, pend: bits, out: seq<nat>)
    requires n < |s| && |pend| < 8 && Value(s[n]).Some?
    requires Packing(buffer, pend, out, 8, Flatten(Values(s[..n]), 5))
    ensures var v := Value(s[n]).value;
      Packing(ShlOrUnsigned(buffer, 5, v, 64), pend + ToBits(v, 5), out, 8, Flatten(Values(s[..n + 1]), 5))
  {
    var v := Value(s[n]).value;
    assert s[..n + 1][..n] == s[..n];
    FlattenSnoc(Values(s[..n]), v, 5);
    Feed(buffer, pend, out, 8, Flatten(Values(s[..n]), 5), 5, v, 64);
  }

  // The TypeScript code

  /** `replace(/[^A-Z2-7]/g, '')`. */
  function Clean(s: string): string {
    if s == "" then ""
    else Clean(s[..|s| - 1]) + Cleaned(s[|s| - 1])
  }

  function Cleaned(c: char): string {
    if 'A' <= c <= 'Z' || '2' <= c <= '7' then [c] else ""
  }

  /** base32ToBytes, with JavaScript's toUpperCase as a parameter. */
  method ToBytes(base32: string, toUpperCase: string -> string) returns (r: seq<byte>)
    ensures r == Decoded(Clean(toUpperCase(base32)))
  {
    hide Flatten, ToBits, Values, Value, Clean, Chop;
    var clean := Clean(toUpperCase(base32));
    CleanIsAlphabet(toUpperCase(base32));
    var bits: seq<bool> := [];
    NoBits(clean);
    for i := 0 to |clean|
      invariant bits == Flatten(Values(clean[..i]), 5)
    {
      BitsOneMore(clean, i);
      bits := bits + ToBits(Value(clean[i]).value, 5);
    }
    assert clean[..|clean|] == clean;
    var bytes := new byte[|bits| / 8](_ => 0);
    ghost var groups := Chop(bits, 8);
    ChopCount(bits, 8);
    for i := 0 to bytes.Length
      invariant forall k :: 0 <= k < i ==> bytes[k] == groups[k]
    {
      GroupIsByte(bits, i);
      bytes[i] := ToNat(bits[i * 8..(i + 1) * 8]);
    }
    assert bytes[..] == groups;
    return bytes[..];
  }

  lemma NoBits(clean: string)
    ensures Flatten(Values(clean[..0]), 5) == []
  {
    FlattenLength(Values(clean[..0]), 5);
  }

  lemma BitsOneMore(clean: string, i: nat)
    requires i < |clean| && Value(clean[i]).Some?
    ensures Flatten(Values(clean[..i + 1]), 5) == Flatten(Values(clean[..i]), 5) + ToBits(Value(clean[i]).value, 5)
  {
    hide Flatten, ToBits, Value;
    assert clean[..i + 1][..i] == clean[..i];
    FlattenSnoc(Values(clean[..i]), Value(clean[i]).value, 5);
  }

  lemma GroupIsByte(b: bits, i: nat)
    requires i < |b| / 8
    ensures 0 <= i * 8 <= (i + 1) * 8 <= |b| && i < |Chop(b, 8)|
    ensures Chop(b, 8)[i] == ToNat(b[i * 8..(i + 1) * 8]) < 256
  {
    hide Chop, Flatten;
    ChopCount(b, 8);
    ChopAt(b, 8, i);
    var tail := ChopSpells(b, 8);
    assert Pow2(8) == 256;
  }

  lemma {:induction false} CleanIsAlphabet(s: string)
    ensures forall i :: 0 <= i < |Clean(s)| ==> InAlphabet(Clean(s)[i]) && Value(Clean(s)[i]).Some?
  {
    if s != "" {
      CleanIsAlphabet(s[..|s| - 1]);
    }
  }

  // Properties

  predicate OverAlphabet(s: string) {
    forall i :: 0 <= i < |s| ==> InAlphabet(s[i])
  }

  function AsciiUpper(s: string): string {
    seq(|s|, i requires 0 <= i < |s| => UpperChar(s[i]))
  }

  lemma DigitValue(v: nat)
    requires v < 32
    ensures Value(Digit(v)) == Some(v) && InAlphabet(Digit(v))
  {
  }

  lemma {:induction false} TextValues(vals: seq<nat>)
    requires AllBelow(vals, 32)
    ensures Values(Text(vals)) == vals && OverAlphabet(Text(vals))
  {
    hide Value, Digit, InAlphabet;
    if |vals| > 0 {
      var rest, v := vals[..|vals| - 1], vals[|vals| - 1];
      TextValues(rest);
      assert Text(vals) == Text(rest) + [Digit(v)];
      DigitValue(v);
    }
  }

  lemma {:induction false} PaddedGroups(data: seq<byte>)
    ensures var vals := Chop(Padded(Flatten(data, 8)), 5);
      AllBelow(vals, 32) && |vals| == (8 * |data| + 4) / 5
  {
    hide Chop, Flatten;
    var b := Flatten(data, 8);
    FlattenLength(data, 8);
    ChopCount(Padded(b), 5);
    var _ := ChopSpells(Padded(b), 5);
    assert Pow2(5) == 32;
  }

  lemma EncodedSpells(data: seq<byte>)
    ensures Flatten(Chop(Padded(Flatten(data, 8)), 5), 5) == Padded(Flatten(data, 8))
  {
    hide Chop, Flatten;
    var p := Padded(Flatten(data, 8));
    var pend := ChopSpells(p, 5);
    FlattenLength(Chop(p, 5), 5);
    assert |p| % 5 == 0;
    DivModUnique(|p|, 5, |Chop(p, 5)|, |pend|);
    assert pend == [];
  }

  /** Decoding an encoding gives back the bytes, and the Rust decoder never refuses one. */
  lemma {:induction false} RoundTrip(data: seq<byte>)
    ensures Decoded(Encoded(data)) == data
    ensures OverAlphabet(Encoded(data)) && |Encoded(data)| == (8 * |data| + 4) / 5
  {
    hide Chop, Flatten, Values, OverAlphabet;
    var b := Flatten(data, 8);
    PaddedGroups(data);
    EncodedSpells(data);
    TextValues(Chop(Padded(b), 5));
    assert Pow2(8) == 256;
    ChopFlatten(data, 8, Zeros(if |b| % 5 == 0 then 0 else 5 - |b| % 5));
  }

  lemma OverAlphabetValues(s: string)
    requires OverAlphabet(s)
    ensures |Values(s)| == |s| && (forall i :: 0 <= i < |s| ==> Value(s[i]).Some?)
    ensures AllBelow(Values(s), 32)
  {
    if s != "" {
      OverAlphabetValues(s[..|s| - 1]);
    }
  }

  function UpperChar(c: char): char {
    if 'a' <= c <= 'z' then (c as int - 32) as char else c
  }

  lemma UpperCharKept(c: char)
    requires InAlphabet(c)
    ensures Cleaned(UpperChar(c)) == [UpperChar(c)] && Value(UpperChar(c)) == Value(c) && Value(c).Some?
  {
  }

  lemma {:induction false} CleanKeepsAlphabet(s: string)
    requires OverAlphabet(s)
    ensures Clean(AsciiUpper(s)) == AsciiUpper(s) && Values(AsciiUpper(s)) == Values(s)
  {
    hide Value, InAlphabet, UpperChar, Cleaned;
    if s != "" {
      var rest, c := s[..|s| - 1], s[|s| - 1];
      CleanKeepsAlphabet(rest);
      UpperCharKept(c);
      assert AsciiUpper(s) == AsciiUpper(rest) + [UpperChar(c)];
    }
  }

  /** On every string over the alphabet, in either case, both decoders accept, agree and give floor(5n/8) bytes. */
  lemma {:induction false} DecodersAgree(s: string, toUpperCase: string -> string)
    requires OverAlphabet(s) && toUpperCase(s) == AsciiUpper(s)
    ensures forall i :: 0 <= i < |s| ==> Value(s[i]).Some?
    ensures Decoded(Clean(toUpperCase(s))) == Decoded(s) && |Decoded(s)| == 5 * |s| / 8
  {
    hide Value, Clean, Values, Flatten, Chop, AsciiUpper;
    OverAlphabetValues(s);
    CleanKeepsAlphabet(s);
    FlattenLength(Values(s), 5);
    ChopCount(Flatten(Values(s), 5), 8);
  }

  lemma {:induction false} AllValues(s: string)
    requires forall i :: 0 <= i < |s| ==> Value(s[i]).Some?
    ensures |Values(s)| == |s|
  {
    hide Value;
    if s != "" {
      AllValues(s[..|s| - 1]);
    }
  }

  /** Upper case character by character, a character possibly becoming several. */
  function UpperAll(s: string, up: char -> string): string {
    if s == "" then "" else UpperAll(s[..|s| - 1], up) + up(s[|s| - 1])
  }

  /** JavaScript's upper case of a character: the ASCII one on the alphabet; of any other character that the Rust
      decoder accepts, at most one digit is left, and not the one Rust reads. */
  predicate UppersWell(c: char, up: char -> string) {
    if InAlphabet(c) then up(c) == [UpperChar(c)]
    else Value(c).Some? ==> |Clean(up(c))| <= 1 && Values(Clean(up(c))) != [Value(c).value]
  }

  lemma {:induction false} CleanAppend(a: string, b: string)
    ensures Clean(a + b) == Clean(a) + Clean(b)
  {
    if b == "" {
      assert a + b == a;
    } else {
      assert (a + b)[..|a + b| - 1] == a + b[..|b| - 1];
      CleanAppend(a, b[..|b| - 1]);
    }
  }

  lemma {:induction false} ValuesAppend(a: string, b: string)
    ensures Values(a + b) == Values(a) + Values(b)
  {
    if b == "" {
      assert a + b == a;
    } else {
      assert (a + b)[..|a + b| - 1] == a + b[..|b| - 1];
      ValuesAppend(a, b[..|b| - 1]);
    }
  }

  /** The digits the worker's decoder reads in one character. */
  function JsDigits(c: char, up: char -> string): seq<nat> {
    Values(Clean(up(c)))
  }

  lemma OneCharacter(c: char, up: char -> string)
    requires UppersWell(c, up) && Value(c).Some?
    ensures |JsDigits(c, up)| <= 1 && (JsDigits(c, up) == [Value(c).value] <==> InAlphabet(c))
  {
    if InAlphabet(c) {
      UpperCharKept(c);
      assert [UpperChar(c)][..0] == "";
      assert Clean([UpperChar(c)]) == [UpperChar(c)];
      assert Values([UpperChar(c)]) == [Value(c).value];
    } else {
      CleanIsAlphabet(up(c));
      AllValues(Clean(up(c)));
    }
  }

  lemma DigitsSnoc(s: string, up: char -> string)
    requires s != ""
    ensures Values(Clean(UpperAll(s, up))) == Values(Clean(UpperAll(s[..|s| - 1], up))) + JsDigits(s[|s| - 1], up)
  {
    hide Values, Clean;
    var rest, c := s[..|s| - 1], s[|s| - 1];
    CleanAppend(UpperAll(rest, up), up(c));
    ValuesAppend(Clean(UpperAll(rest, up)), Clean(up(c)));
  }

  lemma OverSnoc(s: string)
    requires s != ""
    ensures OverAlphabet(s) <==> OverAlphabet(s[..|s| - 1]) && InAlphabet(s[|s| - 1])
  {
    hide InAlphabet;
  }

  lemma {:induction false} SameDigits(s: string, up: char -> string)
    requires forall i :: 0 <= i < |s| ==> UppersWell(s[i], up) && Value(s[i]).Some?
    ensures |Values(Clean(UpperAll(s, up)))| <= |Values(s)|
    ensures Values(Clean(UpperAll(s, up))) == Values(s) <==> OverAlphabet(s)
  {
    hide Value, UppersWell, InAlphabet, JsDigits, Clean, OverAlphabet;
    if s == "" {
      NoDigits(up);
    } else {
      hide UpperAll;
      var rest, c := s[..|s| - 1], s[|s| - 1];
      SameDigits(rest, up);
      DigitsSnoc(s, up);
      OverSnoc(s);
      OneCharacter(c, up);
      LastsAgree(Values(Clean(UpperAll(rest, up))), JsDigits(c, up), Values(rest), Value(c).value);
    }
  }

  lemma NoDigits(up: char -> string)
    ensures Values(Clean(UpperAll("", up))) == [] && Values("") == [] && OverAlphabet("")
  {
  }

  lemma LastsAgree(a: seq<nat>, d: seq<nat>, b: seq<nat>, v: nat)
    requires |a| <= |b| && |d| <= 1
    ensures a + d == b + [v] <==> a == b && d == [v]
  {
    if a + d == b + [v] {
      assert |a + d| == |b| + 1;
      assert a == (a + d)[..|b|] == (b + [v])[..|b|] == b;
      assert d == (a + d)[|b|..] == (b + [v])[|b|..] == [v];
    }
  }

  /** The Rust decoder accepts a string and both decoders read the same digits in it iff it is over the alphabet. */
  lemma SameDigitsIff(s: string, up: char -> string, toUpperCase: string -> string)
    requires toUpperCase(s) == UpperAll(s, up) && forall i :: 0 <= i < |s| ==> UppersWell(s[i], up)
    ensures (forall i :: 0 <= i < |s| ==> Value(s[i]).Some?) && Values(Clean(toUpperCase(s))) == Values(s) <==>
      OverAlphabet(s)
  {
    hide Value, Clean, Values, OverAlphabet, UppersWell, UpperAll;
    if forall i :: 0 <= i < |s| ==> Value(s[i]).Some? {
      SameDigits(s, up);
    } else if OverAlphabet(s) {
      OverAlphabetValues(s);
    }
  }

  /** U+0142 is upper-cased by JavaScript and still dropped, and U+0149 even becomes a letter: Rust reads 1 and 8 in
      them, the worker nothing and 13. */
  lemma UpperCaseDoesNotHelp(up: char -> string)
    requires up('\U{0142}') == ['\U{0141}'] && up('\U{0149}') == ['\U{02BC}'] + ['N']
    ensures UppersWell('\U{0142}', up) && Value('\U{0142}') == Some(1) && JsDigits('\U{0142}', up) == []
    ensures UppersWell('\U{0149}', up) && Value('\U{0149}') == Some(8) && JsDigits('\U{0149}', up) == [13]
  {
    assert Cleaned('\U{0141}') == "" && Cleaned('\U{02BC}') == "" && Cleaned('N') == ['N'];
    assert Value('N') == Some(13) && Value('\U{0142}') == Some(1) && Value('\U{0149}') == Some(8);
    assert !InAlphabet('\U{0142}') && !InAlphabet('\U{0149}');
    hide Clean, Values, Value, Cleaned, InAlphabet;
    CleanOne('\U{0141}');
    CleanOne('\U{02BC}');
    CleanOne('N');
    CleanAppend(['\U{02BC}'], ['N']);
    ValuesOne('N');
  }

  lemma CleanOne(c: char)
    ensures Clean([c]) == Cleaned(c)
  {
    assert [c][..0] == "";
  }

  lemma ValuesOne(c: char)
    ensures Value(c).Some? ==> Values([c]) == [Value(c).value]
    ensures Values("") == []
  {
    assert [c][..0] == "";
  }

  /** The alphabet of section 6 of RFC 4648, in order. */
  lemma AlphabetIs(v: nat)
    requires v < 32
    ensures v < 26 ==> Digit(v) as int == 'A' as int + v
    ensures v >= 26 ==> Digit(v) as int == '2' as int + v - 26
  {
  }

  /** The worker's decoder passes over every other character. */
  lemma ForeignIsDropped(a: string, c: char, b: string)
    requires !('A' <= c <= 'Z' || '2' <= c <= '7')
    ensures Decoded(Clean(a + [c] + b)) == Decoded(Clean(a + b))
  {
    hide Clean, Values, Flatten, Chop;
    CleanAppend(a + [c], b);
    CleanAppend(a, [c]);
    CleanAppend(a, b);
    CleanOne(c);
    assert Clean(a + [c]) == Clean(a) + "" == Clean(a);
  }

  /** For ASCII input the Rust decoder accepts exactly the strings over the alphabet. Outside ASCII the
      cast to u8 also lets characters in whose code point is congruent to a letter modulo 256. */
  lemma AcceptedCharacters(c: char)
    ensures c as int < 128 ==> (Value(c).Some? <==> InAlphabet(c))
    ensures c as int >= 128 ==> (Value(c).Some? <==> var u := c as int % 256; 65 <= u <= 90 || 50 <= u <= 55)
  {
  }

  /** So the two decoders disagree beyond ASCII: U+0141 (its own upper case) reads as 'A' in Rust and is dropped in
      TypeScript. */
  lemma DecodersDisagreeBeyondAscii()
    ensures var s := "\U{0141}A";
      Value(s[0]) == Some(0) && Value(s[1]) == Some(0) && |Decoded(s)| == 1 && Decoded(Clean(s)) == []
  {
    var s := "\U{0141}A";
    assert s[..1] == "\U{0141}" && s[..1][..0] == "";
    assert Values(s[..1]) == [0];
    assert Values(s) == [0, 0];
    FlattenLength([0, 0], 5);
    ChopCount(Flatten([0, 0], 5), 8);
    assert Clean(s[..1]) == "";
    assert Clean(s) == "A";
    assert "A"[..0] == "";
    assert Values("A") == [0];
    FlattenLength([0], 5);
    ChopCount(Flatten([0], 5), 8);
  }
}
