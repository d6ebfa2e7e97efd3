/** Twelve-word recovery phrases: 128 bits of entropy and 4 checksum bits as twelve 11-bit word indices.

    The backend packs with an unsigned 32-bit accumulator and the worker with JavaScript's signed one.
    Both are shown to lay out the same 132 bits, which makes packing a bijection. */
module Bip39 {
  import opened Bits
  import opened Strings
  import opened Wrappers

  /** "Generating the mnemonic" in BIP-39: entropy bits, then checksum bits, cut into groups of eleven. */
  ghost predicate Layout(entropy: seq<byte>, checksum: nat, indices: seq<nat>) {
    && |entropy| == 16 && checksum < 16
    && |indices| == 12 && AllBelow(indices, 2048)
    && Flatten(entropy, 8) + ToBits(checksum, 4) == Flatten(indices, 11)
  }

  /** The indices of an entropy and checksum. */
  function Pack(entropy: seq<byte>, checksum: nat): seq<nat> {
    Chop(Flatten(entropy, 8) + ToBits(checksum, 4), 11)
  }

  // Packing is a bijection between (16 bytes, 4 bits) and twelve indices below 2048

  lemma Powers()
    ensures Pow2(4) == 16 && Pow2(8) == 256 && Pow2(11) == 2048
  {
    Pow2Add(8, 3);
  }

  lemma PackLayout(entropy: seq<byte>, checksum: nat)
    requires |entropy| == 16 && checksum < 16
    ensures Layout(entropy, checksum, Pack(entropy, checksum))
  {
    hide Flatten, Chop, ToBits;
    var b := Flatten(entropy, 8) + ToBits(checksum, 4);
    FlattenLength(entropy, 8);
    ChopCount(b, 11);
    var pend := ChopSpells(b, 11);
    FlattenLength(Chop(b, 11), 11);
    assert pend == [];
    Powers();
  }

  /** Packing never gives other indices than the laid-out ones. */
  lemma LayoutIsPack(entropy: seq<byte>, checksum: nat, indices: seq<nat>)
    requires Layout(entropy, checksum, indices)
    ensures indices == Pack(entropy, checksum)
  {
    hide Flatten, Chop, ToBits;
    Powers();
    assert Flatten(indices, 11) + [] == Flatten(indices, 11);
    ChopUnique(Flatten(indices, 11), 11, indices, []);
  }

  /** Indices are laid out for one entropy and checksum only. */
  lemma LayoutIsUnique(e: seq<byte>, c: nat, e': seq<byte>, c': nat, indices: seq<nat>)
    requires Layout(e, c, indices) && Layout(e', c', indices)
    ensures e == e' && c == c'
  {
    hide Flatten, Chop, ToBits;
    Powers();
    FlattenLength(e, 8);
    FlattenLength(e', 8);
    var b := Flatten(indices, 11);
    assert b[..128] == Flatten(e, 8) == Flatten(e', 8);
    assert b[128..] == ToBits(c, 4) == ToBits(c', 4);
    ToBitsToNat(c, 4);
    ToBitsToNat(c', 4);
    assert Flatten(e, 8) + [] == Flatten(e, 8) && Flatten(e', 8) + [] == Flatten(e', 8);
    ChopUnique(Flatten(e, 8), 8, e, []);
    ChopUnique(Flatten(e, 8), 8, e', []);
  }

  /** Every twelve indices below 2048 are laid out for some entropy and checksum. */
  lemma LayoutExists(indices: seq<nat>) returns (entropy: seq<byte>, checksum: nat)
    requires |indices| == 12 && AllBelow(indices, 2048)
    ensures Layout(entropy, checksum, indices)
  {
    hide Flatten, Chop, ToBits;
    Powers();
    FlattenLength(indices, 11);
    var b := Flatten(indices, 11);
    var out, pend := Grouped(b[..128], 8);
    FlattenLength(out, 8);
    assert pend == [];
    assert forall i :: 0 <= i < |out| ==> out[i] < 256;
    entropy, checksum := out, ToNat(b[128..]);
    ToNatBound(b[128..]);
    ToNatToBits(b[128..]);
    assert b == b[..128] + b[128..];
  }

  /** The round trip both ways, as the validator and the generator use it. */
  lemma PackingIsBijective(indices: seq<nat>)
    requires |indices| == 12 && AllBelow(indices, 2048)
    ensures exists e: seq<byte>, c: nat :: Layout(e, c, indices) && Pack(e, c) == indices
    ensures forall e: seq<byte>, c: nat, e': seq<byte>, c': nat ::
      Layout(e, c, indices) && Layout(e', c', indices) ==> e == e' && c == c'
  {
    hide Layout;
    var e, c := LayoutExists(indices);
    LayoutIsPack(e, c, indices);
    forall e: seq<byte>, c: nat, e': seq<byte>, c': nat | Layout(e, c, indices) && Layout(e', c', indices)
      ensures e == e' && c == c'
    {
      LayoutIsUnique(e, c, e', c', indices);
    }
  }

  // The loops of the generators

  /** recovery.rs: a u32 accumulator. */
  method PackUnsigned(entropy: seq<byte>, checksum: nat) returns (indices: seq<nat>)
    requires |entropy| == 16 && checksum < 16
    ensures Layout(entropy, checksum, indices)
  {
    hide Flatten, Chop, ToBits, Packing, ShlOrUnsigned, ShrMask;
    indices := [];
    var bitBuffer, bitCount := 0, 0;
    ghost var pend: seq<bool> := [];
    PackingStart(11, 8);
    assert entropy[..0] == [];
    for i := 0 to |entropy|
      invariant bitCount == |pend| < 11
      invariant Packing(bitBuffer, pend, indices, 11, Flatten(entropy[..i], 8))
    {
      var byte := entropy[i];
      Powers();
      FlattenNext(entropy, i);
      Feed(bitBuffer, pend, indices, 11, Flatten(entropy[..i], 8), 8, byte, 32);
      pend := pend + ToBits(byte, 8);
      bitBuffer, bitCount := ShlOrUnsigned(bitBuffer, 8, byte, 32), bitCount + 8;
      while bitCount >= 11
        invariant bitCount == |pend|
        invariant Packing(bitBuffer, pend, indices, 11, Flatten(entropy[..i + 1], 8))
      {
        Emit(bitBuffer, pend, indices, 11, Flatten(entropy[..i + 1], 8));
        indices, pend := indices + [ShrMask(bitBuffer, bitCount - 11, 11)], pend[11..];
        bitCount := bitCount - 11;
      }
    }
    SevenLeft(entropy, checksum, bitBuffer, pend, indices);
    Feed(bitBuffer, pend, indices, 11, Flatten(entropy, 8), 4, checksum, 32);
    bitBuffer := ShlOrUnsigned(bitBuffer, 4, checksum, 32);
    LastIndex(entropy, checksum, bitBuffer, pend + ToBits(checksum, 4), indices);
    indices := indices + [ShrMask(bitBuffer, 0, 11)];
  }

  /** bip39.ts: the same loop over a signed 32-bit number, refusing entropy of another length. */
  method PackSigned(entropy: seq<byte>, hash: seq<byte> -> byte) returns (r: Option<seq<nat>>)
    ensures r.Some? <==> |entropy| == 16
    ensures r.Some? ==> Layout(entropy, hash(entropy) / 16, r.value)
  {
    hide Flatten, Chop, ToBits, Packing, ShlOrInt32, ShrMask;
    if |entropy| != 16 {
      return None;
    }
    var checksum := hash(entropy) / 16;
    var indices := [];
    var bitBuffer, bitCount := 0, 0;
    ghost var pend: seq<bool> := [];
    PackingStart(11, 8);
    assert entropy[..0] == [];
    for i := 0 to 16
      invariant bitCount == |pend| < 11
      invariant Packing(bitBuffer, pend, indices, 11, Flatten(entropy[..i], 8))
    {
      Powers();
      FlattenNext(entropy, i);
      FeedInt32(bitBuffer, pend, indices, 11, Flatten(entropy[..i], 8), 8, entropy[i]);
      pend := pend + ToBits(entropy[i], 8);
      bitBuffer, bitCount := ShlOrInt32(bitBuffer, 8, entropy[i]), bitCount + 8;
      while bitCount >= 11
        invariant bitCount == |pend|
        invariant Packing(bitBuffer, pend, indices, 11, Flatten(entropy[..i + 1], 8))
      {
        Emit(bitBuffer, pend, indices, 11, Flatten(entropy[..i + 1], 8));
        indices, pend := indices + [ShrMask(bitBuffer, bitCount - 11, 11)], pend[11..];
        bitCount := bitCount - 11;
      }
    }
    SevenLeft(entropy, checksum, bitBuffer, pend, indices);
    FeedInt32(bitBuffer, pend, indices, 11, Flatten(entropy, 8), 4, checksum);
    bitBuffer := ShlOrInt32(bitBuffer, 4, checksum);
    LastIndex(entropy, checksum, bitBuffer, pend + ToBits(checksum, 4), indices);
    return Some(indices + [ShrMask(bitBuffer, 0, 11)]);
  }

  lemma FlattenNext(entropy: seq<byte>, i: nat)
    requires i < |entropy|
    ensures Flatten(entropy[..i + 1], 8) == Flatten(entropy[..i], 8) + ToBits(entropy[i], 8)
  {
    assert entropy[..i + 1] == entropy[..i] + [entropy[i]];
    FlattenSnoc(entropy[..i], entropy[i], 8);
  }

  /** After the last byte exactly seven bits are pending, so the checksum completes the twelfth group. */
  lemma SevenLeft(entropy: seq<byte>, checksum: nat, bitBuffer: int, pend: bits, indices: seq<nat>)
    requires |entropy| == 16 && checksum < 16 && |pend| < 11
    requires Packing(bitBuffer, pend, indices, 11, Flatten(entropy[..16], 8))
    ensures Packing(bitBuffer, pend, indices, 11, Flatten(entropy, 8))
    ensures |pend| == 7 && |indices| == 11 && Pow2(4) == 16
  {
    hide Flatten;
    assert entropy[..16] == entropy;
    FlattenLength(entropy, 8);
    FlattenLength(indices, 11);
    Powers();
  }

  lemma LastIndex(entropy: seq<byte>, checksum: nat, bitBuffer: int, pend: bits, indices: seq<nat>)
    requires |entropy| == 16 && checksum < 16 && |pend| == 11 && |indices| == 11
    requires Packing(bitBuffer, pend, indices, 11, Flatten(entropy, 8) + ToBits(checksum, 4))
    ensures Layout(entropy, checksum, indices + [ShrMask(bitBuffer, 0, 11)])
  {
    hide Flatten, ToBits, Holds, ShrMask;
    Powers();
    Emit(bitBuffer, pend, indices, 11, Flatten(entropy, 8) + ToBits(checksum, 4));
    var all := indices + [ShrMask(bitBuffer, 0, 11)];
    assert Flatten(all, 11) + [] == Flatten(all, 11);
  }

  // The loops of the validators

  /** recovery.rs: twelve indices back to sixteen bytes and the provided checksum. */
  method UnpackUnsigned(indices: seq<nat>) returns (entropy: seq<byte>, checksum: nat)
    requires |indices| == 12 && AllBelow(indices, 2048)
    ensures Layout(entropy, checksum, indices)
  {
    hide Flatten, Chop, ToBits, Packing, ShlOrUnsigned, ShrMask, Layout;
    var bytes := new byte[16](_ => 0);
    var bitBuffer, bitCount, byteIdx := 0, 0, 0;
    ghost var pend: seq<bool> := [];
    PackingStart(8, 11);
    assert indices[..0] == [] && bytes[..0] == [];
    for i := 0 to 11
      invariant Unpacking(indices, i, bitBuffer, bitCount, byteIdx, pend) && bitCount < 8
      invariant Packing(bitBuffer, pend, bytes[..byteIdx], 8, Flatten(indices[..i], 11))
    {
      Powers();
      NextWord(indices, i);
      Feed(bitBuffer, pend, bytes[..byteIdx], 8, Flatten(indices[..i], 11), 11, indices[i], 32);
      pend := pend + ToBits(indices[i], 11);
      bitBuffer, bitCount := ShlOrUnsigned(bitBuffer, 11, indices[i], 32), bitCount + 11;
      while bitCount >= 8 && byteIdx < 16
        invariant Unpacking(indices, i + 1, bitBuffer, bitCount, byteIdx, pend)
        invariant Packing(bitBuffer, pend, bytes[..byteIdx], 8, Flatten(indices[..i + 1], 11))
      {
        Emit(bitBuffer, pend, bytes[..byteIdx], 8, Flatten(indices[..i + 1], 11));
        bytes[byteIdx] := ShrMask(bitBuffer, bitCount - 8, 8);
        assert bytes[..byteIdx + 1] == bytes[..byteIdx] + [bytes[byteIdx]];
        byteIdx, bitCount, pend := byteIdx + 1, bitCount - 8, pend[8..];
      }
    }
    NextWord(indices, 11);
    Powers();
    Feed(bitBuffer, pend, bytes[..15], 8, Flatten(indices[..11], 11), 11, indices[11], 32);
    bitBuffer := ShlOrUnsigned(bitBuffer, 11, indices[11], 32);
    LastWord(indices, bitBuffer, pend + ToBits(indices[11], 11), bytes[..15]);
    bytes[15] := ShrMask(bitBuffer, 4, 8);
    assert bytes[..] == bytes[..15] + [bytes[15]];
    return bytes[..], ShrMask(bitBuffer, 0, 4);
  }

  /** bip39.ts: the same loop over a signed 32-bit number. */
  method UnpackSigned(indices: seq<nat>) returns (entropy: seq<byte>, checksum: nat)
    requires |indices| == 12 && AllBelow(indices, 2048)
    ensures Layout(entropy, checksum, indices)
  {
    hide Flatten, Chop, ToBits, Packing, ShlOrInt32, ShrMask, Layout;
    var bytes := new byte[16](_ => 0);
    var bitBuffer, bitCount, byteIdx := 0, 0, 0;
    ghost var pend: seq<bool> := [];
    PackingStart(8, 11);
    assert indices[..0] == [] && bytes[..0] == [];
    for i := 0 to 11
      invariant Unpacking(indices, i, bitBuffer, bitCount, byteIdx, pend) && bitCount < 8
      invariant Packing(bitBuffer, pend, bytes[..byteIdx], 8, Flatten(indices[..i], 11))
    {
      Powers();
      NextWord(indices, i);
      FeedInt32(bitBuffer, pend, bytes[..byteIdx], 8, Flatten(indices[..i], 11), 11, indices[i]);
      pend := pend + ToBits(indices[i], 11);
      bitBuffer, bitCount := ShlOrInt32(bitBuffer, 11, indices[i]), bitCount + 11;
      while bitCount >= 8 && byteIdx < 16
        invariant Unpacking(indices, i + 1, bitBuffer, bitCount, byteIdx, pend)
        invariant Packing(bitBuffer, pend, bytes[..byteIdx], 8, Flatten(indices[..i + 1], 11))
      {
        Emit(bitBuffer, pend, bytes[..byteIdx], 8, Flatten(indices[..i + 1], 11));
        bytes[byteIdx] := ShrMask(bitBuffer, bitCount - 8, 8);
        assert bytes[..byteIdx + 1] == bytes[..byteIdx] + [bytes[byteIdx]];
        byteIdx, bitCount, pend := byteIdx + 1, bitCount - 8, pend[8..];
      }
    }
    NextWord(indices, 11);
    Powers();
    FeedInt32(bitBuffer, pend, bytes[..15], 8, Flatten(indices[..11], 11), 11, indices[11]);
    bitBuffer := ShlOrInt32(bitBuffer, 11, indices[11]);
    LastWord(indices, bitBuffer, pend + ToBits(indices[11], 11), bytes[..15]);
    bytes[15] := ShrMask(bitBuffer, 4, 8);
    assert bytes[..] == bytes[..15] + [bytes[15]];
    return bytes[..], ShrMask(bitBuffer, 0, 4);
  }

  /** The counters: eight bits a byte and eleven bits a word account for every bit read. */
  ghost predicate Unpacking(indices: seq<nat>, i: nat, bitBuffer: int, bitCount: nat, byteIdx: nat, pend: bits) {
    bitCount == |pend| && byteIdx <= 16 && 8 * byteIdx + bitCount == 11 * i && i <= 11
  }

  lemma NextWord(indices: seq<nat>, i: nat)
    requires i < |indices|
    ensures Flatten(indices[..i + 1], 11) == Flatten(indices[..i], 11) + ToBits(indices[i], 11)
  {
    assert indices[..i + 1] == indices[..i] + [indices[i]];
    FlattenSnoc(indices[..i], indices[i], 11);
  }

  /** The twelfth word completes the last byte and leaves the four checksum bits. */
  lemma LastWord(indices: seq<nat>, bitBuffer: int, pend: bits, out: seq<nat>)
    requires |indices| == 12 && AllBelow(indices, 2048) && |pend| == 12 && |out| == 15
    requires Packing(bitBuffer, pend, out, 8, Flatten(indices[..11], 11) + ToBits(indices[11], 11))
    ensures AllBelow(out, 256) && ShrMask(bitBuffer, 4, 8) < 256
    ensures Layout(out + [ShrMask(bitBuffer, 4, 8)], ShrMask(bitBuffer, 0, 4), indices)
  {
    hide Flatten, ToBits, ShrMask, Holds;
    Powers();
    NextWord(indices, 11);
    assert indices[..12] == indices;
    Emit(bitBuffer, pend, out, 8, Flatten(indices, 11));
    var rest := pend[8..];
    AccTake(bitBuffer, rest, 4);
    assert rest[..4] == rest;
    ToNatBound(rest);
    ToNatToBits(rest);
  }

  // Phrases

  datatype PhraseError = WrongCount | UnknownWord | BadChecksum

  /** A usable word list: 2048 distinct words, none empty and none containing whitespace. */
  ghost predicate WordList(words: seq<string>) {
    && |words| == 2048
    && (forall i, j :: 0 <= i < j < |words| ==> words[i] != words[j])
    && AllNonEmpty(words) && AllFree(words, IsWhitespace)
  }

  function Pick(words: seq<string>, indices: seq<nat>): seq<string>
    requires AllBelow(indices, |words|)
  {
    seq(|indices|, i requires 0 <= i < |indices| => words[indices[i]])
  }

  /** The words of the phrase of an entropy. */
  ghost function WordsOf(words: seq<string>, hash: seq<byte> -> byte, entropy: seq<byte>): seq<string>
    requires |words| == 2048 && |entropy| == 16
  {
    PackLayout(entropy, hash(entropy) / 16);
    Pick(words, Pack(entropy, hash(entropy) / 16))
  }

  function Lowered(tokens: seq<string>, lower: string -> string): seq<string> {
    seq(|tokens|, i requires 0 <= i < |tokens| => lower(tokens[i]))
  }

  /** generate_bip39_phrase, the random entropy given. */
  method GeneratePhrase(words: seq<string>, hash: seq<byte> -> byte, entropy: seq<byte>) returns (phrase: string)
    requires |words| == 2048 && |entropy| == 16
    ensures phrase == Join(WordsOf(words, hash, entropy), ' ')
  {
    var checksum := hash(entropy) / 16;
    var indices := PackUnsigned(entropy, checksum);
    LayoutIsPack(entropy, checksum, indices);
    return Join(Pick(words, indices), ' ');
  }

  /** The hash map from words to indices. */
  method BuildWordMap(words: seq<string>) returns (m: map<string, nat>)
    ensures forall w :: w in m <==> w in words
    ensures forall w :: w in m ==> m[w] < |words| && words[m[w]] == w
  {
    m := map[];
    for idx := 0 to |words|
      invariant forall w :: w in m <==> w in words[..idx]
      invariant forall w :: w in m ==> m[w] < idx && words[m[w]] == w
    {
      m := m[words[idx] := idx];
    }
  }

  /** Whether the tokens are the words of the phrase of an entropy. */
  ghost predicate IsPhrase(words: seq<string>, hash: seq<byte> -> byte, tokens: seq<string>)
    requires |words| == 2048
  {
    exists e: seq<byte> :: |e| == 16 && WordsOf(words, hash, e) == tokens
  }

  /** Looking the tokens up, as both validators do. */
  method LookUp(words: seq<string>, tokens: seq<string>) returns (r: Option<seq<nat>>)
    ensures r.Some? <==> forall i :: 0 <= i < |tokens| ==> tokens[i] in words
    ensures r.Some? ==> AllBelow(r.value, |words|) && Pick(words, r.value) == tokens
  {
    var wordMap := BuildWordMap(words);
    var indices := [];
    for i := 0 to |tokens|
      invariant forall k :: 0 <= k < i ==> tokens[k] in words
      invariant |indices| == i && AllBelow(indices, |words|)
      invariant forall k :: 0 <= k < i ==> words[indices[k]] == tokens[k]
    {
      if tokens[i] !in wordMap {
        return None;
      }
      indices := indices + [wordMap[tokens[i]]];
    }
    return Some(indices);
  }

  /** validate_bip39_phrase: accepted exactly when the lower-cased words are the phrase of some entropy. */
  method Validate(words: seq<string>, lower: string -> string, hash: seq<byte> -> byte, phrase: string)
    returns (r: Result<(), PhraseError>)
    requires WordList(words)
    ensures var tokens := Lowered(Fields(phrase, IsWhitespace), lower);
      && (r.Ok? <==> IsPhrase(words, hash, tokens))
      && (r == Err(WrongCount) <==> |tokens| != 12)
      && (r == Err(UnknownWord) <==> |tokens| == 12 && exists i :: 0 <= i < 12 && tokens[i] !in words)
  {
    var rawWords := Fields(phrase, IsWhitespace);
    var tokens := Lowered(rawWords, lower);
    if |rawWords| != 12 {
      NotAPhrase(words, hash, tokens);
      return Err(WrongCount);
    }
    var indices := LookUp(words, tokens);
    if indices.None? {
      NotAPhrase(words, hash, tokens);
      return Err(UnknownWord);
    }
    var entropy, checksum := UnpackUnsigned(indices.value);
    Accepts(words, hash, indices.value, entropy, checksum);
    if checksum != hash(entropy) / 16 {
      return Err(BadChecksum);
    }
    return Ok(());
  }

  /** `phrase.trim().toLowerCase().split(/\s+/)`. */
  function JsTokens(phrase: string, toLowerCase: string -> string): seq<string> {
    SplitRuns(toLowerCase(Trim(phrase, IsJsSpace)), IsJsSpace)
  }

  /** validateBip39Mnemonic, with the signed accumulator. */
  method ValidateMnemonic(words: seq<string>, toLowerCase: string -> string, hash: seq<byte> -> byte, phrase: string)
    returns (r: Result<(), PhraseError>)
    requires WordList(words)
    ensures var tokens := JsTokens(phrase, toLowerCase);
      && (r.Ok? <==> IsPhrase(words, hash, tokens))
      && (r == Err(WrongCount) <==> |tokens| != 12)
      && (r == Err(UnknownWord) <==> |tokens| == 12 && exists i :: 0 <= i < 12 && tokens[i] !in words)
  {
    var tokens := JsTokens(phrase, toLowerCase);
    if |tokens| != 12 {
      NotAPhrase(words, hash, tokens);
      return Err(WrongCount);
    }
    var indices := LookUp(words, tokens);
    if indices.None? {
      NotAPhrase(words, hash, tokens);
      return Err(UnknownWord);
    }
    var entropy, checksum := UnpackSigned(indices.value);
    Accepts(words, hash, indices.value, entropy, checksum);
    if checksum != hash(entropy) / 16 {
      return Err(BadChecksum);
    }
    return Ok(());
  }

  /** Lower-casing goes character by character here, and takes no character to or from whitespace. */
  ghost predicate LowersAlike(phrase: string, f: char -> char, lower: string -> string, toLowerCase: string -> string) {
    && (forall c :: IsWhitespace(f(c)) == IsWhitespace(c) && IsJsSpace(f(c)) == IsJsSpace(c))
    && toLowerCase(Trim(phrase, IsJsSpace)) == Mapped(Trim(phrase, IsJsSpace), f)
    && forall w :: w in Fields(phrase, IsWhitespace) ==> lower(w) == Mapped(w, f)
  }

  /** The tokens of the backend's validator. */
  function RustTokens(phrase: string, lower: string -> string): seq<string> {
    Lowered(Fields(phrase, IsWhitespace), lower)
  }

  /** What each validator reads, in terms of its own whitespace. */
  lemma TokensAre(phrase: string, f: char -> char, lower: string -> string, toLowerCase: string -> string)
    requires LowersAlike(phrase, f, lower, toLowerCase)
    ensures RustTokens(phrase, lower) == AllMapped(Fields(phrase, IsWhitespace), f)
    ensures var fields := Fields(phrase, IsJsSpace);
      JsTokens(phrase, toLowerCase) == if fields == [] then [""] else AllMapped(fields, f)
  {
    hide Trim, Split;
    var t := Trim(phrase, IsJsSpace);
    FieldsTrim(phrase, IsJsSpace);
    if t == "" {
      SplitNothing(IsJsSpace);
    } else {
      SplitRunsIsFields(Mapped(t, f), IsJsSpace);
      SplitMapped(t, f, IsJsSpace);
      NonEmptyMapped(Split(t, IsJsSpace), f);
      var w := FieldHolds(t, 0, IsJsSpace);
    }
  }

  /** A character that only one language takes for whitespace is in one of the other's tokens, and none of its own. */
  lemma OddCharacter(phrase: string, i: nat, f: char -> char, sep: char -> bool, sep': char -> bool) returns (w: string)
    requires forall c :: sep(f(c)) == sep(c)
    requires i < |phrase| && sep(phrase[i]) && !sep'(phrase[i])
    ensures w in AllMapped(Fields(phrase, sep'), f) && exists c :: c in w && sep(c)
    ensures forall v, c :: v in AllMapped(Fields(phrase, sep), f) && c in v ==> !sep(c)
  {
    hide Split;
    var v := FieldHolds(phrase, i, sep');
    w := Mapped(v, f);
    var k :| 0 <= k < |Fields(phrase, sep')| && Fields(phrase, sep')[k] == v;
    assert AllMapped(Fields(phrase, sep'), f)[k] == w;
    var m :| 0 <= m < |v| && v[m] == phrase[i];
    assert w[m] == f(phrase[i]);
    forall u, c | u in AllMapped(Fields(phrase, sep), f) && c in u
      ensures !sep(c)
    {
      var j :| 0 <= j < |Fields(phrase, sep)| && AllMapped(Fields(phrase, sep), f)[j] == u;
      FieldsAreFree(phrase, sep, Fields(phrase, sep)[j]);
    }
  }

  /** The two validators read the same words, or none, iff the phrase has no character that only one language takes
      for whitespace: U+0085 or U+FEFF. */
  lemma SameTokensIff(phrase: string, f: char -> char, lower: string -> string, toLowerCase: string -> string)
    requires LowersAlike(phrase, f, lower, toLowerCase)
    ensures var tokens, jsTokens := RustTokens(phrase, lower), JsTokens(phrase, toLowerCase);
      tokens == jsTokens || (tokens == [] && jsTokens == [""]) <==> Agree(phrase, IsWhitespace, IsJsSpace)
  {
    hide Split, Trim, RustTokens, JsTokens;
    TokensAre(phrase, f, lower, toLowerCase);
    if Agree(phrase, IsWhitespace, IsJsSpace) {
      SplitAgrees(phrase, IsWhitespace, IsJsSpace);
    } else {
      var i :| 0 <= i < |phrase| && IsWhitespace(phrase[i]) != IsJsSpace(phrase[i]);
      if IsWhitespace(phrase[i]) {
        var w := OddCharacter(phrase, i, f, IsWhitespace, IsJsSpace);
        assert w in JsTokens(phrase, toLowerCase);
      } else {
        var w := OddCharacter(phrase, i, f, IsJsSpace, IsWhitespace);
        assert w in RustTokens(phrase, lower);
      }
    }
  }

  /** On phrases without such a character the two validators give the same verdict. A phrase with U+0085 is never
      accepted by the worker, one with U+FEFF never by the backend. */
  lemma ValidatorsAgree(words: seq<string>, hash: seq<byte> -> byte, phrase: string, f: char -> char,
                        lower: string -> string, toLowerCase: string -> string)
    requires WordList(words) && AllFree(words, IsJsSpace) && LowersAlike(phrase, f, lower, toLowerCase)
    ensures Agree(phrase, IsWhitespace, IsJsSpace) ==>
      (IsPhrase(words, hash, RustTokens(phrase, lower)) <==> IsPhrase(words, hash, JsTokens(phrase, toLowerCase)))
    ensures '\U{0085}' in phrase ==> !IsPhrase(words, hash, JsTokens(phrase, toLowerCase))
    ensures '\U{FEFF}' in phrase ==> !IsPhrase(words, hash, RustTokens(phrase, lower))
  {
    hide WordList, IsPhrase, Split, Trim, RustTokens, JsTokens;
    ListSize(words);
    TokensAre(phrase, f, lower, toLowerCase);
    SameTokensIff(phrase, f, lower, toLowerCase);
    NotTwelve(words, hash, []);
    NotTwelve(words, hash, [""]);
    if '\U{0085}' in phrase {
      OddPhrase(words, hash, phrase, '\U{0085}', f, IsWhitespace, IsJsSpace);
    }
    if '\U{FEFF}' in phrase {
      OddPhrase(words, hash, phrase, '\U{FEFF}', f, IsJsSpace, IsWhitespace);
    }
  }

  lemma OddPhrase(words: seq<string>, hash: seq<byte> -> byte, phrase: string, odd: char, f: char -> char,
                  sep: char -> bool, sep': char -> bool)
    requires WordList(words) && AllFree(words, sep) && forall c :: sep(f(c)) == sep(c)
    requires odd in phrase && sep(odd) && !sep'(odd)
    ensures Fields(phrase, sep') != [] && !IsPhrase(words, hash, AllMapped(Fields(phrase, sep'), f))
  {
    hide WordList, IsPhrase, Split;
    ListSize(words);
    var i :| 0 <= i < |phrase| && phrase[i] == odd;
    var w := OddCharacter(phrase, i, f, sep, sep');
    ForeignToken(words, hash, AllMapped(Fields(phrase, sep'), f), w, sep);
  }

  lemma NotTwelve(words: seq<string>, hash: seq<byte> -> byte, tokens: seq<string>)
    requires |words| == 2048 && |tokens| != 12
    ensures !IsPhrase(words, hash, tokens)
  {
    NotAPhrase(words, hash, tokens);
  }

  /** A token with a separator in it is no word. */
  lemma ForeignToken(words: seq<string>, hash: seq<byte> -> byte, tokens: seq<string>, w: string, sep: char -> bool)
    requires WordList(words) && AllFree(words, sep) && w in tokens && exists c :: c in w && sep(c)
    ensures !IsPhrase(words, hash, tokens)
  {
    hide IsPhrase;
    var c :| c in w && sep(c);
    assert w !in words;
    NotAPhrase(words, hash, tokens);
  }

  /** Every phrase written with U+0085 between its words is accepted by the backend and refused by the worker. */
  lemma NextLineSplitsVerdicts(words: seq<string>, hash: seq<byte> -> byte, entropy: seq<byte>,
                               lower: string -> string, toLowerCase: string -> string)
    requires WordList(words) && AllFree(words, IsJsSpace) && |entropy| == 16
    requires forall w :: w in words ==> lower(w) == w
    requires var phrase := Join(WordsOf(words, hash, entropy), '\U{0085}'); toLowerCase(phrase) == phrase
    ensures var phrase := Join(WordsOf(words, hash, entropy), '\U{0085}');
      IsPhrase(words, hash, RustTokens(phrase, lower)) && !IsPhrase(words, hash, JsTokens(phrase, toLowerCase))
  {
    hide Pack, Flatten, ToBits, Trim, Split, JsTokens;
    var ws := WordsOf(words, hash, entropy);
    var phrase := Join(ws, '\U{0085}');
    PackLayout(entropy, hash(entropy) / 16);
    forall i | 0 <= i < |ws|
      ensures ws[i] in words
    {
      assert ws[i] == words[Pack(entropy, hash(entropy) / 16)[i]];
    }
    FieldsJoin(ws, '\U{0085}', IsWhitespace);
    assert RustTokens(phrase, lower) == ws;
    assert '\U{0085}' in phrase by { JoinHolds(ws, '\U{0085}'); }
    TrimJoin(ws, '\U{0085}', IsJsSpace);
    var same := (c: char) => c;
    forall s: string
      ensures Mapped(s, same) == s
    {
    }
    ValidatorsAgree(words, hash, phrase, same, lower, toLowerCase);
  }

  lemma JoinHolds(parts: seq<string>, c: char)
    requires |parts| > 1
    ensures c in Join(parts, c)
  {
    assert Join(parts, c)[|parts[0]|] == c;
  }

  lemma SplitNothing(sep: char -> bool)
    ensures Split("", sep) == [""] && Fields("", sep) == [] && SplitRuns("", sep) == [""]
  {
    assert [""][1..] == [];
  }

  lemma ListSize(words: seq<string>)
    requires WordList(words)
    ensures |words| == 2048 && AllFree(words, IsWhitespace)
  {
  }

  lemma NotAPhrase(words: seq<string>, hash: seq<byte> -> byte, tokens: seq<string>)
    requires |words| == 2048
    requires |tokens| != 12 || exists i :: 0 <= i < |tokens| && tokens[i] !in words
    ensures !IsPhrase(words, hash, tokens)
  {
    hide Pack;
    forall e: seq<byte> | |e| == 16
      ensures WordsOf(words, hash, e) != tokens
    {
      PackLayout(e, hash(e) / 16);
      var p := Pack(e, hash(e) / 16);
      assert forall i :: 0 <= i < 12 ==> WordsOf(words, hash, e)[i] == words[p[i]];
    }
  }

  lemma PickIsInjective(words: seq<string>, a: seq<nat>, b: seq<nat>)
    requires WordList(words) && AllBelow(a, 2048) && AllBelow(b, 2048) && Pick(words, a) == Pick(words, b)
    ensures a == b
  {
    assert |Pick(words, a)| == |a| && |Pick(words, b)| == |b|;
    forall i | 0 <= i < |a|
      ensures a[i] == b[i]
    {
      assert Pick(words, a)[i] == words[a[i]] && Pick(words, b)[i] == words[b[i]];
    }
  }

  /** The checksum test is the whole difference between twelve known words and a phrase. */
  lemma Accepts(words: seq<string>, hash: seq<byte> -> byte, indices: seq<nat>, entropy: seq<byte>, checksum: nat)
    requires WordList(words) && Layout(entropy, checksum, indices)
    ensures IsPhrase(words, hash, Pick(words, indices)) <==> checksum == hash(entropy) / 16
  {
    hide Pack, Pick, Flatten, ToBits;
    var tokens := Pick(words, indices);
    if checksum == hash(entropy) / 16 {
      LayoutIsPack(entropy, checksum, indices);
      assert WordsOf(words, hash, entropy) == tokens;
    }
    if IsPhrase(words, hash, tokens) {
      var e: seq<byte> :| |e| == 16 && WordsOf(words, hash, e) == tokens;
      PackLayout(e, hash(e) / 16);
      PickIsInjective(words, Pack(e, hash(e) / 16), indices);
      LayoutIsUnique(entropy, checksum, e, hash(e) / 16, indices);
    }
  }

  /** The words of a phrase spell the entropy and the first four bits of its hash. */
  lemma PhraseBits(words: seq<string>, hash: seq<byte> -> byte, entropy: seq<byte>) returns (indices: seq<nat>)
    requires |words| == 2048 && |entropy| == 16
    ensures |indices| == 12 && AllBelow(indices, 2048) && WordsOf(words, hash, entropy) == Pick(words, indices)
    ensures Flatten(indices, 11) == Flatten(entropy, 8) + ToBits(hash(entropy), 8)[..4]
  {
    hide Pack, Pick, Flatten;
    indices := Pack(entropy, hash(entropy) / 16);
    PackLayout(entropy, hash(entropy) / 16);
    TopBits(hash(entropy));
  }

  lemma TopBits(h: byte)
    ensures ToBits(h, 8)[..4] == ToBits(h / 16, 4)
  {
    assert h / 2 / 2 / 2 / 2 == h / 16;
    assert ToBits(h, 8) == ToBits(h / 2, 7) + [h % 2 == 1];
    assert ToBits(h / 2, 7) == ToBits(h / 2 / 2, 6) + [h / 2 % 2 == 1];
    assert ToBits(h / 2 / 2, 6) == ToBits(h / 2 / 2 / 2, 5) + [h / 2 / 2 % 2 == 1];
    assert ToBits(h / 2 / 2 / 2, 5) == ToBits(h / 2 / 2 / 2 / 2, 4) + [h / 2 / 2 / 2 % 2 == 1];
  }

  /** A phrase has one entropy only, whatever the hash. */
  lemma PhraseDeterminesEntropy(words: seq<string>, hash: seq<byte> -> byte, e: seq<byte>, e': seq<byte>)
    requires WordList(words) && |e| == 16 && |e'| == 16 && WordsOf(words, hash, e) == WordsOf(words, hash, e')
    ensures e == e'
  {
    hide Pack, Pick, Flatten, ToBits;
    var p, p' := Pack(e, hash(e) / 16), Pack(e', hash(e') / 16);
    PackLayout(e, hash(e) / 16);
    PackLayout(e', hash(e') / 16);
    PickIsInjective(words, p, p');
    LayoutIsUnique(e, hash(e) / 16, e', hash(e') / 16, p);
  }

  /** What the generator writes, the validator reads: the words come back and are accepted. */
  lemma GeneratedIsAccepted(words: seq<string>, lower: string -> string, hash: seq<byte> -> byte, entropy: seq<byte>)
    requires WordList(words) && |entropy| == 16
    requires forall i :: 0 <= i < |words| ==> lower(words[i]) == words[i]
    ensures var phrase := Join(WordsOf(words, hash, entropy), ' ');
      var tokens := Lowered(Fields(phrase, IsWhitespace), lower);
      tokens == WordsOf(words, hash, entropy) && IsPhrase(words, hash, tokens)
  {
    hide Pack, Flatten, ToBits;
    var ws := WordsOf(words, hash, entropy);
    PackLayout(entropy, hash(entropy) / 16);
    forall i | 0 <= i < |ws|
      ensures ws[i] != "" && Free(ws[i], IsWhitespace) && lower(ws[i]) == ws[i]
    {
      assert ws[i] == words[Pack(entropy, hash(entropy) / 16)[i]];
    }
    FieldsJoin(ws, ' ', IsWhitespace);
    assert Lowered(ws, lower) == ws;
  }
}
