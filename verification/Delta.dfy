/** Content-defined chunking: where split_into_chunks cuts, and why an edit moves few cuts. */
module Delta {
  import opened Bits

  /** The constants of the module, and SHA-256 left uninterpreted. */
  datatype Cutter = Cutter(minChunk: nat, maxChunk: nat, mask: nat, sha: seq<byte> -> string)
  {
    predicate Sound() {
      0 < minChunk <= maxChunk
    }
  }

  datatype ChunkInfo = ChunkInfo(index: nat, offset: nat, length: nat, hash: string)

  const MIN_CHUNK: nat := 64 * 1024
  const MAX_CHUNK: nat := 1024 * 1024
  const MASK: nat := 256 * 1024 - 1

  // Where the cuts are

  const U32: nat := 0x1_0000_0000

  /** One step of the rolling hash: wrapping multiplication and addition on u32. */
  function Roll(h: nat, b: byte): nat {
    (h * 31 % U32 + b) % U32
  }

  /** The rolling hash over d[lo..hi], started at zero. */
  function WindowHash(d: seq<byte>, lo: nat, hi: nat): nat
    requires hi <= |d|
  {
    if lo >= hi then 0 else Roll(WindowHash(d, lo, hi - 1), d[hi - 1])
  }

  /** The byte at a cut is examined before the hash is reset, so only the first chunk hashes its first byte. */
  function HashFrom(start: nat): nat {
    if start == 0 then 0 else start + 1
  }

  predicate Boundary(p: Cutter, len: int, hash: nat) {
    (len >= p.minChunk && And(hash, p.mask) == 0) || len >= p.maxChunk
  }

  /** The boundary test at byte o of the chunk that starts at start. */
  predicate Fires(p: Cutter, d: seq<byte>, start: nat, o: nat)
    requires o < |d|
  {
    Boundary(p, o - start, WindowHash(d, HashFrom(start), o + 1))
  }

  /** The start of the chunk that is open when byte k is about to be examined. */
  function Open(p: Cutter, d: seq<byte>, k: nat): (s: nat)
    requires k <= |d|
    ensures s <= k && (0 < k ==> s < k)
  {
    if k == 0 then 0
    else
      var s := Open(p, d, k - 1);
      if Fires(p, d, s, k - 1) then k - 1 else s
  }

  /** The boundary test fires at byte o of d. */
  predicate Cut(p: Cutter, d: seq<byte>, o: nat)
    requires o < |d|
  {
    Fires(p, d, Open(p, d, o), o)
  }

  function Piece(p: Cutter, d: seq<byte>, index: nat, start: nat, end: nat): ChunkInfo
    requires start <= end <= |d|
  {
    ChunkInfo(index, start, end - start, p.sha(d[start..end]))
  }

  /** The chunks ended by a cut among the first k bytes. */
  function Closed(p: Cutter, d: seq<byte>, k: nat): seq<ChunkInfo>
    requires k <= |d|
  {
    if k == 0 then []
    else
      var before := Closed(p, d, k - 1);
      if Cut(p, d, k - 1) then before + [Piece(p, d, |before|, Open(p, d, k - 1), k - 1)] else before
  }

  /** All chunks: those ended by a cut, and the open one unless the very last byte is a cut. */
  function Chunks(p: Cutter, d: seq<byte>): seq<ChunkInfo> {
    if d == [] then []
    else
      var n := |d|;
      var cs := Closed(p, d, n);
      if Cut(p, d, n - 1) then cs else cs + [Piece(p, d, |cs|, Open(p, d, n - 1), n)]
  }

  // The code

  method SplitIntoChunks(p: Cutter, data: seq<byte>) returns (chunks: seq<ChunkInfo>)
    requires p.Sound()
    ensures chunks == Chunks(p, data)
  {
    hide Roll, Boundary, Chunks, Closed, Open, WindowHash, Cut;
    SplitStart(p, data);
    chunks := [];
    var offset, chunkStart, index := 0, 0, 0;
    var rollingHash := 0;
    while offset < |data|
      invariant 0 <= offset <= |data| && index == |chunks|
      invariant offset == |data| ==> chunks == Chunks(p, data)
      invariant offset < |data| ==> chunks == Closed(p, data, offset) && chunkStart == Open(p, data, offset)
      invariant offset < |data| ==> rollingHash == WindowHash(data, HashFrom(chunkStart), offset)
    {
      SplitStep(p, data, offset);
      rollingHash := Roll(rollingHash, data[offset]);
      var chunkLen := offset - chunkStart;
      var isBoundary := Boundary(p, chunkLen, rollingHash);
      if isBoundary || offset == |data| - 1 {
        var end := if isBoundary then offset else offset + 1;
        var chunkData := data[chunkStart..end];
        chunks := chunks + [ChunkInfo(index, chunkStart, |chunkData|, p.sha(chunkData))];
        index := index + 1;
        chunkStart := end;
        rollingHash := 0;
      }
      offset := offset + 1;
    }
  }

  lemma SplitStart(p: Cutter, d: seq<byte>)
    ensures d == [] ==> Chunks(p, d) == []
    ensures Closed(p, d, 0) == [] && Open(p, d, 0) == 0 && WindowHash(d, 0, 0) == 0
  {
  }

  /** What examining byte o does to the open chunk, the closed chunks and the hash. */
  lemma SplitStep(p: Cutter, d: seq<byte>, o: nat)
    requires p.Sound() && o < |d|
    ensures var s := Open(p, d, o); var h := Roll(WindowHash(d, HashFrom(s), o), d[o]);
      var cut := Boundary(p, o - s, h);
      var cs := Closed(p, d, o);
      && Open(p, d, o + 1) == (if cut then o else s)
      && WindowHash(d, HashFrom(Open(p, d, o + 1)), o + 1) == (if cut then 0 else h)
      && Closed(p, d, o + 1) == (if cut then cs + [Piece(p, d, |cs|, s, o)] else cs)
      && (o + 1 == |d| ==> Chunks(p, d) == cs + [Piece(p, d, |cs|, s, if cut then o else o + 1)])
  {
    hide Roll;
  }

  /** The server's hashes as a set, then the indices of the local chunks it lacks. */
  method DiffChunks(local: seq<ChunkInfo>, server: seq<ChunkInfo>) returns (missing: seq<nat>)
    ensures missing == Diff(local, server)
  {
    var serverHashes := set c | c in server :: c.hash;
    missing := [];
    for i := 0 to |local|
      invariant missing == Diff(local[..i], server)
    {
      assert local[..i + 1][..i] == local[..i];
      if local[i].hash !in serverHashes {
        missing := missing + [local[i].index];
      }
    }
    assert local[..|local|] == local;
  }

  predicate Known(hash: string, server: seq<ChunkInfo>) {
    exists c :: c in server && c.hash == hash
  }

  function Diff(local: seq<ChunkInfo>, server: seq<ChunkInfo>): seq<nat> {
    if local == [] then []
    else
      var last := local[|local| - 1];
      Diff(local[..|local| - 1], server) + if Known(last.hash, server) then [] else [last.index]
  }

  // What the constants mean

  /** The bytes as a number in base 31. */
  function Base31(b: seq<byte>): nat {
    if b == [] then 0 else Base31(b[..|b| - 1]) * 31 + b[|b| - 1]
  }

  /** The rolling hash of a window is the base-31 number of its bytes, modulo 2^32. */
  lemma {:induction false} HashIsBase31(d: seq<byte>, lo: nat, hi: nat)
    requires lo <= hi <= |d|
    ensures WindowHash(d, lo, hi) == Base31(d[lo..hi]) % 4294967296
    decreases hi
  {
    if lo < hi {
      HashIsBase31(d, lo, hi - 1);
      assert d[lo..hi][..hi - 1 - lo] == d[lo..hi - 1];
      RollMod(Base31(d[lo..hi - 1]), d[hi - 1]);
    }
  }

  lemma RollMod(x: nat, b: byte)
    ensures Roll(x % 4294967296, b) == (x * 31 + b) % 4294967296
  {
    var m := 4294967296;
    var q, r := x / m, x % m;
    var r' := r * 31 % m;
    assert x * 31 + b == (q * 31 + r * 31 / m) * m + (r' + b);
    ModSum(q * 31 + r * 31 / m, r' + b, m);
  }

  lemma ModSum(k: nat, x: nat, m: nat)
    requires m > 0
    ensures (k * m + x) % m == x % m
  {
    MultiplePlus(k, x / m, m);
    DivModUnique(k * m + x, m, k + x / m, x % m);
  }

  lemma MultiplePlus(k: nat, l: nat, m: nat)
    ensures (k + l) * m == k * m + l * m
  {
  }

  lemma RemainderOfRemainder(x: nat, k: nat, m: nat)
    requires m > 0 && k > 0
    ensures x % (k * m) % m == x % m
  {
    var q := x / (k * m);
    var r := x % (k * m);
    assert x == q * k * m + r;
    ModSum(q * k, r, m);
  }

  /** With the agent's constants: byte o is a cut iff the open chunk has at least 64 KiB and the base-31 number of its
      bytes up to this one is a multiple of 262144, the first byte left out unless the file starts there, or iff the
      chunk has 1 MiB. */
  lemma RealCutIff(d: seq<byte>, o: nat, sha: seq<byte> -> string)
    requires o < |d|
    ensures var p := Cutter(MIN_CHUNK, MAX_CHUNK, MASK, sha);
      var s := Open(p, d, o);
      var window := if s == 0 then d[..o + 1] else if s < o then d[s + 1..o + 1] else [];
      Cut(p, d, o) <==> (o - s >= 65536 && Base31(window) % 262144 == 0) || o - s >= 1048576
  {
    hide Base31, WindowHash, Open, And, Roll;
    var p := Cutter(MIN_CHUNK, MAX_CHUNK, MASK, sha);
    var s := Open(p, d, o);
    if o > s {
      var window := d[HashFrom(s)..o + 1];
      HashIsBase31(d, HashFrom(s), o + 1);
      assert s == 0 ==> window == d[..o + 1];
      RealMask(WindowHash(d, HashFrom(s), o + 1));
      RemainderOfRemainder(Base31(window), 16384, 262144);
    }
  }

  lemma RealMask(h: nat)
    ensures And(h, MASK) == h % 262144
  {
    Pow2Add(9, 9);
    assert Pow2(9) == 512;
    AndMask(h, 18);
  }

  // Shape and tiling

  function End(c: ChunkInfo): nat {
    c.offset + c.length
  }

  /** The i-th chunk is numbered i, starts where the one before it ends, and is hashed and short enough. */
  ghost predicate GoodAt(p: Cutter, d: seq<byte>, cs: seq<ChunkInfo>, i: nat)
    requires i < |cs|
  {
    && cs[i].index == i && cs[i].offset == (if i == 0 then 0 else End(cs[i - 1]))
    && 0 < cs[i].length <= p.maxChunk && End(cs[i]) <= |d|
    && cs[i].hash == p.sha(d[cs[i].offset..End(cs[i])])
  }

  ghost predicate WellShaped(p: Cutter, d: seq<byte>, cs: seq<ChunkInfo>) {
    forall i :: 0 <= i < |cs| ==> GoodAt(p, d, cs, i)
  }

  /** Where the last chunk ends. */
  function Covered(cs: seq<ChunkInfo>): nat {
    if cs == [] then 0 else End(cs[|cs| - 1])
  }

  lemma {:induction false} OpenIsShort(p: Cutter, d: seq<byte>, k: nat)
    requires p.Sound() && k <= |d|
    ensures k - Open(p, d, k) <= p.maxChunk
  {
    hide WindowHash;
    if k > 0 {
      OpenIsShort(p, d, k - 1);
    }
  }

  lemma WellShapedSnoc(p: Cutter, d: seq<byte>, cs: seq<ChunkInfo>, end: nat)
    requires WellShaped(p, d, cs) && Covered(cs) < end <= |d| && end - Covered(cs) <= p.maxChunk
    ensures WellShaped(p, d, cs + [Piece(p, d, |cs|, Covered(cs), end)])
    ensures Covered(cs + [Piece(p, d, |cs|, Covered(cs), end)]) == end
  {
    var cs' := cs + [Piece(p, d, |cs|, Covered(cs), end)];
    forall i | 0 <= i < |cs'|
      ensures GoodAt(p, d, cs', i)
    {
      if i < |cs| {
        assert GoodAt(p, d, cs, i);
      }
    }
  }

  lemma {:induction false} ClosedShape(p: Cutter, d: seq<byte>, k: nat)
    requires p.Sound() && k <= |d|
    ensures WellShaped(p, d, Closed(p, d, k)) && Covered(Closed(p, d, k)) == Open(p, d, k)
    ensures forall i :: 0 <= i < |Closed(p, d, k)| ==> p.minChunk <= Closed(p, d, k)[i].length
  {
    hide WindowHash, Roll, GoodAt;
    if k > 0 {
      ClosedShape(p, d, k - 1);
      OpenIsShort(p, d, k - 1);
      if Cut(p, d, k - 1) {
        WellShapedSnoc(p, d, Closed(p, d, k - 1), k - 1);
      }
    }
  }

  /** Non-empty, numbered, contiguous chunks, all but the last between MIN and MAX long, the last at most MAX. */
  lemma ChunksShape(p: Cutter, d: seq<byte>)
    requires p.Sound()
    ensures WellShaped(p, d, Chunks(p, d))
    ensures forall i :: 0 <= i < |Chunks(p, d)| - 1 ==> p.minChunk <= Chunks(p, d)[i].length
  {
    hide WindowHash, GoodAt, Closed, Piece;
    if d != [] {
      var n := |d|;
      ClosedShape(p, d, n);
      OpenIsShort(p, d, n - 1);
      if !Cut(p, d, n - 1) {
        WellShapedSnoc(p, d, Closed(p, d, n), n);
      }
    }
  }

  /** Byte o lies in chunk i. */
  predicate Holds(cs: seq<ChunkInfo>, i: int, o: nat) {
    0 <= i < |cs| && cs[i].offset <= o < End(cs[i])
  }

  ghost predicate HeldBySome(cs: seq<ChunkInfo>, o: nat) {
    exists i :: Holds(cs, i, o)
  }

  /** Every byte below n lies in exactly one chunk, and no other byte in any. */
  ghost predicate Tiles(cs: seq<ChunkInfo>, n: nat) {
    && (forall o: nat :: o < n <==> HeldBySome(cs, o))
    && (forall o: nat, i, j :: Holds(cs, i, o) && Holds(cs, j, o) ==> i == j)
  }

  lemma {:induction false} ContiguousTiles(p: Cutter, d: seq<byte>, cs: seq<ChunkInfo>)
    requires WellShaped(p, d, cs)
    ensures Tiles(cs, Covered(cs))
  {
    if cs != [] {
      var front, last := cs[..|cs| - 1], |cs| - 1;
      forall i | 0 <= i < |front|
        ensures GoodAt(p, d, front, i)
      {
        assert GoodAt(p, d, cs, i);
      }
      ContiguousTiles(p, d, front);
      assert GoodAt(p, d, cs, last);
      forall i, o: nat
        ensures Holds(cs, i, o) <==> Holds(front, i, o) || (i == last && Covered(front) <= o < Covered(cs))
      {
      }
      forall o: nat
        ensures HeldBySome(cs, o) <==> HeldBySome(front, o) || Covered(front) <= o < Covered(cs)
      {
        if Covered(front) <= o < Covered(cs) {
          assert Holds(cs, last, o);
        }
        if i :| Holds(front, i, o) {
          assert Holds(cs, i, o);
        }
      }
      assert forall o: nat, i :: Holds(front, i, o) ==> HeldBySome(front, o);
    }
  }

  /** The chunks tile the input, except that the last byte is lost exactly when the boundary test fires on it. */
  lemma Tiling(p: Cutter, d: seq<byte>)
    requires p.Sound() && d != []
    ensures Tiles(Chunks(p, d), if Cut(p, d, |d| - 1) then |d| - 1 else |d|)
    ensures Covered(Chunks(p, d)) == if Cut(p, d, |d| - 1) then |d| - 1 else |d|
  {
    hide WellShaped, WindowHash, Tiles;
    ChunksShape(p, d);
    ContiguousTiles(p, d, Chunks(p, d));
    assert Covered(Chunks(p, d)) == if Cut(p, d, |d| - 1) then |d| - 1 else |d| by {
      hide Closed;
      ClosedShape(p, d, |d|);
    }
  }

  /** The bytes of the chunks, one after the other. */
  function Bytes(d: seq<byte>, cs: seq<ChunkInfo>): seq<byte> {
    if cs == [] then []
    else
      var c := cs[|cs| - 1];
      Bytes(d, cs[..|cs| - 1]) + if End(c) <= |d| then d[c.offset..End(c)] else []
  }

  lemma {:induction false} WellShapedBytes(p: Cutter, d: seq<byte>, cs: seq<ChunkInfo>)
    requires WellShaped(p, d, cs)
    ensures Covered(cs) <= |d| && Bytes(d, cs) == d[..Covered(cs)]
  {
    if cs != [] {
      var front, last := cs[..|cs| - 1], |cs| - 1;
      forall i | 0 <= i < |front|
        ensures GoodAt(p, d, front, i)
      {
        assert GoodAt(p, d, cs, i);
      }
      WellShapedBytes(p, d, front);
      assert GoodAt(p, d, cs, last);
      assert d[..cs[last].offset] + d[cs[last].offset..End(cs[last])] == d[..End(cs[last])];
    }
  }

  /** Putting the chunks back together gives the input back iff the boundary test does not fire on its last byte. */
  lemma {:induction false} ReassemblyIffNoFinalCut(p: Cutter, d: seq<byte>)
    requires p.Sound() && d != []
    ensures Bytes(d, Chunks(p, d)) == d <==> !Cut(p, d, |d| - 1)
  {
    hide Chunks, Cut, Bytes, WellShaped, Tiles;
    ChunksShape(p, d);
    Tiling(p, d);
    WellShapedBytes(p, d, Chunks(p, d));
    assert d[..|d|] == d;
  }

  /** A file of n zero bytes. */
  function ZeroBytes(n: nat): (d: seq<byte>)
    ensures |d| == n
  {
    seq(n, _ => 0)
  }

  lemma {:induction false} ZeroHash(n: nat, lo: nat, hi: nat)
    requires hi <= n
    ensures WindowHash(ZeroBytes(n), lo, hi) == 0
  {
    if lo < hi {
      ZeroHash(n, lo, hi - 1);
    }
  }

  lemma NextMultiple(k: nat, m: nat)
    requires m > 0
    ensures k - k / m * m < m
    ensures (k + 1) / m * m == if k + 1 - k / m * m >= m then k + 1 else k / m * m
    ensures k + 1 - k / m * m >= m <==> (k + 1) % m == 0
  {
    var q := k / m;
    if k + 1 - q * m >= m {
      assert k + 1 == (q + 1) * m;
      DivModUnique(k + 1, m, q + 1, 0);
    } else {
      DivModUnique(k + 1, m, q, k + 1 - q * m);
    }
  }

  /** The last positive multiple of m below k, or zero. */
  function LastMultiple(k: nat, m: nat): nat
    requires m > 0
  {
    if k == 0 then 0 else (k - 1) / m * m
  }

  lemma LastMultipleNext(k: nat, m: nat)
    requires m > 0
    ensures LastMultiple(k, m) <= k
    ensures LastMultiple(k + 1, m) == if k - LastMultiple(k, m) >= m then k else LastMultiple(k, m)
    ensures k - LastMultiple(k, m) >= m <==> k > 0 && k % m == 0
  {
    if k > 0 {
      NextMultiple(k - 1, m);
    }
  }

  /** Zero bytes are cut at every multiple of MIN. */
  lemma {:induction false} ZeroOpen(p: Cutter, n: nat, k: nat)
    requires p.Sound() && k <= n
    ensures Open(p, ZeroBytes(n), k) == LastMultiple(k, p.minChunk)
  {
    hide Fires, ZeroBytes, LastMultiple;
    if k > 0 {
      ZeroOpen(p, n, k - 1);
      LastMultipleNext(k - 1, p.minChunk);
      ZeroFires(p, n, LastMultiple(k - 1, p.minChunk), k - 1);
    } else {
      assert LastMultiple(0, p.minChunk) == 0 by { LastMultipleNext(0, p.minChunk); }
    }
  }

  lemma ZeroCut(p: Cutter, n: nat, k: nat)
    requires p.Sound() && k < n
    ensures Cut(p, ZeroBytes(n), k) <==> k > 0 && k % p.minChunk == 0
  {
    hide Fires, ZeroBytes, LastMultiple, Open;
    ZeroOpen(p, n, k);
    LastMultipleNext(k, p.minChunk);
    ZeroFires(p, n, LastMultiple(k, p.minChunk), k);
  }

  lemma ZeroFires(p: Cutter, n: nat, start: nat, o: nat)
    requires p.Sound() && start <= o < n
    ensures Fires(p, ZeroBytes(n), start, o) <==> o - start >= p.minChunk
  {
    hide WindowHash;
    ZeroHash(n, HashFrom(start), o + 1);
  }

  /** A file of n zero bytes comes back one byte short iff n - 1 is a positive multiple of MIN. */
  lemma ZerosLoseTheLastByteIff(p: Cutter, n: nat)
    requires p.Sound() && n > 0
    ensures var d := ZeroBytes(n); var cs := Chunks(p, d);
      && (Bytes(d, cs) != d <==> n > 1 && (n - 1) % p.minChunk == 0)
      && Covered(cs) == if n > 1 && (n - 1) % p.minChunk == 0 then n - 1 else n
  {
    hide Chunks, Cut, Bytes, Tiles;
    ZeroCut(p, n, n - 1);
    Tiling(p, ZeroBytes(n));
    ReassemblyIffNoFinalCut(p, ZeroBytes(n));
  }

  // Locality

  /** Appending bytes moves no earlier cut. */
  lemma {:induction false} PrefixCuts(p: Cutter, d: seq<byte>, d': seq<byte>, k: nat)
    requires k <= |d| && d <= d'
    ensures Open(p, d, k) == Open(p, d', k) && Closed(p, d, k) == Closed(p, d', k)
  {
    hide WindowHash, Boundary;
    if k > 0 {
      PrefixCuts(p, d, d', k - 1);
      var s := Open(p, d, k - 1);
      assert d[HashFrom(s)..k] == d'[HashFrom(s)..k];
      WindowAgrees(d, HashFrom(s), k, d', HashFrom(s), k);
      assert d[s..k - 1] == d'[s..k - 1];
    }
  }

  lemma {:induction false} ClosedGrows(p: Cutter, d: seq<byte>, j: nat, k: nat)
    requires j <= k <= |d|
    ensures Closed(p, d, j) <= Closed(p, d, k)
  {
    hide Closed;
    if j < k {
      ClosedGrows(p, d, j, k - 1);
      ClosedOnce(p, d, k);
    }
  }

  lemma ClosedOnce(p: Cutter, d: seq<byte>, k: nat)
    requires 0 < k <= |d|
    ensures Closed(p, d, k - 1) <= Closed(p, d, k)
  {
    hide Cut, Piece, Open;
  }

  /** Equal bytes at two places hash alike. */
  lemma {:induction false} WindowAgrees(d: seq<byte>, lo: nat, hi: nat, e: seq<byte>, lo': nat, hi': nat)
    requires lo <= hi <= |d| && lo' <= hi' <= |e| && d[lo..hi] == e[lo'..hi']
    ensures WindowHash(d, lo, hi) == WindowHash(e, lo', hi')
    decreases hi
  {
    hide Roll;
    assert |d[lo..hi]| == |e[lo'..hi']|;
    if lo < hi {
      assert d[lo..hi - 1] == d[lo..hi][..hi - 1 - lo] == e[lo'..hi' - 1];
      assert d[hi - 1] == d[lo..hi][hi - 1 - lo] == e[lo'..hi'][hi - 1 - lo];
      WindowAgrees(d, lo, hi - 1, e, lo', hi' - 1);
    }
  }

  /** Every chunk of a file but its last reappears unchanged when the file grows. */
  lemma PrefixChunks(p: Cutter, d: seq<byte>, d': seq<byte>)
    requires d != [] && d <= d'
    ensures var cs := Chunks(p, d);
      cs != [] ==> cs[..|cs| - 1] <= Chunks(p, d')
  {
    PrefixCuts(p, d, d', |d|);
    ClosedGrows(p, d', |d|, |d'|);
  }

  lemma SliceOfSuffix(d: seq<byte>, a: nat, s: nat, t: nat)
    requires s <= t && a + t <= |d|
    ensures d[a..][s..t] == d[a + s..a + t]
  {
  }

  lemma SliceMoved(d: seq<byte>, a: nat, e: seq<byte>, b: nat, s: nat, t: nat)
    requires a <= |d| && b <= |e| && d[a..] == e[b..] && s <= t && a + t <= |d|
    ensures |d| - a == |e| - b && b + t <= |e| && d[a + s..a + t] == e[b + s..b + t]
  {
    assert |d[a..]| == |d| - a && |e[b..]| == |e| - b;
    SliceOfSuffix(d, a, s, t);
    SliceOfSuffix(e, b, s, t);
  }

  /** The same open chunk, moved, is cut or not cut by the same next byte. */
  lemma SameTest(p: Cutter, d: seq<byte>, a: nat, e: seq<byte>, b: nat, t: nat, j: nat)
    requires a + j < |d| && b <= |e| && d[a..] == e[b..] && t < j && a > 0 && b > 0
    ensures b + j < |e| && (Fires(p, d, a + t, a + j) <==> Fires(p, e, b + t, b + j))
  {
    hide WindowHash, Boundary;
    SliceMoved(d, a, e, b, t + 1, j + 1);
    WindowAgrees(d, a + t + 1, a + j + 1, e, b + t + 1, b + j + 1);
  }

  /** From a common cut on, equal bytes have equal cuts. */
  lemma {:induction false} ResyncOpen(p: Cutter, d: seq<byte>, a: nat, e: seq<byte>, b: nat, j: nat)
    requires p.Sound() && a < |d| && b < |e| && d[a..] == e[b..]
    requires Cut(p, d, a) && Cut(p, e, b) && 1 <= j && a + j <= |d|
    ensures |d| - a == |e| - b && Open(p, d, a + j) >= a > 0 && b > 0
    ensures Open(p, d, a + j) - a == Open(p, e, b + j) - b
    ensures a + j < |d| ==> (Cut(p, d, a + j) <==> Cut(p, e, b + j))
  {
    hide Fires;
    SliceMoved(d, a, e, b, 0, |d| - a);
    if j > 1 {
      ResyncOpen(p, d, a, e, b, j - 1);
    } else {
      CutIsInterior(p, d, a);
      CutIsInterior(p, e, b);
    }
    if a + j < |d| {
      SameTest(p, d, a, e, b, Open(p, d, a + j) - a, j);
    }
  }

  lemma CutIsInterior(p: Cutter, d: seq<byte>, a: nat)
    requires p.Sound() && a < |d| && Cut(p, d, a)
    ensures a > 0
  {
  }

  /** The chunks cs are the chunks cs' moved from offset b to offset a. */
  ghost predicate AllMoved(cs: seq<ChunkInfo>, a: nat, cs': seq<ChunkInfo>, b: nat) {
    |cs| == |cs'| && forall k :: 0 <= k < |cs| ==> Moved(cs[k], a, cs'[k], b)
  }

  ghost predicate Moved(c: ChunkInfo, a: nat, c': ChunkInfo, b: nat) {
    c.length == c'.length && c.hash == c'.hash && c.offset - a == c'.offset - b && c.offset >= a
  }

  lemma PieceMoved(p: Cutter, d: seq<byte>, a: nat, i: nat, e: seq<byte>, b: nat, i': nat, s: nat, t: nat)
    requires a <= |d| && b <= |e| && d[a..] == e[b..] && s <= t && a + t <= |d|
    ensures |d| - a == |e| - b
    ensures Moved(Piece(p, d, i, a + s, a + t), a, Piece(p, e, i', b + s, b + t), b)
  {
    SliceMoved(d, a, e, b, s, t);
  }

  lemma AllMovedSnoc(cs: seq<ChunkInfo>, i: nat, c: ChunkInfo, a: nat, cs': seq<ChunkInfo>, i': nat, c': ChunkInfo,
                     b: nat)
    requires i <= |cs| && i' <= |cs'| && AllMoved(cs[i..], a, cs'[i'..], b) && Moved(c, a, c', b)
    ensures AllMoved((cs + [c])[i..], a, (cs' + [c'])[i'..], b)
  {
    hide Moved;
    assert (cs + [c])[i..] == cs[i..] + [c] && (cs' + [c'])[i'..] == cs'[i'..] + [c'];
  }

  lemma {:induction false} ResyncClosed(p: Cutter, d: seq<byte>, a: nat, e: seq<byte>, b: nat, j: nat)
    requires p.Sound() && a < |d| && b < |e| && d[a..] == e[b..]
    requires Cut(p, d, a) && Cut(p, e, b) && 1 <= j && a + j <= |d|
    ensures |d| - a == |e| - b
    ensures |Closed(p, d, a + 1)| <= |Closed(p, d, a + j)| && |Closed(p, e, b + 1)| <= |Closed(p, e, b + j)|
    ensures AllMoved(Closed(p, d, a + j)[|Closed(p, d, a + 1)|..], a, Closed(p, e, b + j)[|Closed(p, e, b + 1)|..], b)
  {
    hide Cut, Open, Piece, Moved;
    SliceMoved(d, a, e, b, 0, |d| - a);
    if j > 1 {
      ResyncClosed(p, d, a, e, b, j - 1);
      ResyncOpen(p, d, a, e, b, j - 1);
      if Cut(p, d, a + j - 1) {
        var cs, cs' := Closed(p, d, a + j - 1), Closed(p, e, b + j - 1);
        var s := Open(p, d, a + j - 1) - a;
        PieceMoved(p, d, a, |cs|, e, b, |cs'|, s, j - 1);
        AllMovedSnoc(cs, |Closed(p, d, a + 1)|, Piece(p, d, |cs|, a + s, a + j - 1), a,
          cs', |Closed(p, e, b + 1)|, Piece(p, e, |cs'|, b + s, b + j - 1), b);
      }
    }
  }

  /** The number of chunks that end at or before the cut a. */
  function ChunksBefore(p: Cutter, d: seq<byte>, a: nat): nat
    requires a < |d|
  {
    |Closed(p, d, a + 1)|
  }

  /** Locality: if two files have interior cuts with equal bytes from there on, then all later chunks have
      equal lengths and hashes, at offsets shifted by the distance of the cuts. */
  lemma Locality(p: Cutter, d: seq<byte>, a: nat, e: seq<byte>, b: nat)
    requires p.Sound() && a < |d| && b < |e| && d[a..] == e[b..] && Cut(p, d, a) && Cut(p, e, b)
    ensures ChunksBefore(p, d, a) <= |Chunks(p, d)| && ChunksBefore(p, e, b) <= |Chunks(p, e)|
    ensures AllMoved(Chunks(p, d)[ChunksBefore(p, d, a)..], a, Chunks(p, e)[ChunksBefore(p, e, b)..], b)
    ensures forall i :: 0 <= i < ChunksBefore(p, d, a) ==> End(Chunks(p, d)[i]) <= a
  {
    hide Cut, Open, Closed, Piece, Moved;
    var j := |d| - a;
    ResyncClosed(p, d, a, e, b, j);
    ChunksEndBefore(p, d, a);
    var cs, cs' := Closed(p, d, |d|), Closed(p, e, |e|);
    if j > 1 {
      ResyncOpen(p, d, a, e, b, j - 1);
    }
    if !Cut(p, d, |d| - 1) {
      var s := Open(p, d, |d| - 1) - a;
      PieceMoved(p, d, a, |cs|, e, b, |cs'|, s, j);
      AllMovedSnoc(cs, ChunksBefore(p, d, a), Piece(p, d, |cs|, a + s, |d|), a,
        cs', ChunksBefore(p, e, b), Piece(p, e, |cs'|, b + s, |e|), b);
    }
  }

  lemma ChunksEndBefore(p: Cutter, d: seq<byte>, a: nat)
    requires p.Sound() && a < |d| && Cut(p, d, a)
    ensures ChunksBefore(p, d, a) <= |Chunks(p, d)|
    ensures forall i :: 0 <= i < ChunksBefore(p, d, a) ==> End(Chunks(p, d)[i]) <= a
  {
    hide WindowHash, Closed;
    BeforeCut(p, d, a + 1);
    ClosedGrows(p, d, a + 1, |d|);
    var cs := Closed(p, d, a + 1);
    assert forall i :: 0 <= i < |cs| ==> Chunks(p, d)[i] == cs[i];
  }

  lemma {:induction false} BeforeCut(p: Cutter, d: seq<byte>, k: nat)
    requires p.Sound() && k <= |d|
    ensures forall i :: 0 <= i < |Closed(p, d, k)| ==> End(Closed(p, d, k)[i]) <= Open(p, d, k)
  {
    hide WindowHash;
    if k > 0 {
      BeforeCut(p, d, k - 1);
    }
  }

  /** Interior cuts are needed: byte 0 is hashed only by a first chunk, so equal bytes cut differently there. */
  lemma FirstChunkIsSpecial(sha: seq<byte> -> string)
    ensures var p := Cutter(1, 100, 1, sha);
      var d: seq<byte>, e: seq<byte> := [1, 1, 1], [1, 1, 1, 1];
      Cut(p, e, 1) && e[1..] == d && Cut(p, d, 1) && !Cut(p, e, 2)
  {
    var p := Cutter(1, 100, 1, sha);
    var d: seq<byte>, e: seq<byte> := [1, 1, 1], [1, 1, 1, 1];
    assert WindowHash(d, 0, 1) == 1 && WindowHash(d, 0, 2) == 32;
    assert WindowHash(e, 0, 1) == 1 && WindowHash(e, 0, 2) == 32 && WindowHash(e, 2, 3) == 1;
    assert Open(p, d, 1) == 0 && Open(p, e, 1) == 0 && Open(p, e, 2) == 1;
  }

  // What is sent

  lemma {:induction false} DiffMembers(local: seq<ChunkInfo>, server: seq<ChunkInfo>, i: nat)
    requires forall k :: 0 <= k < |local| ==> local[k].index == k
    ensures i in Diff(local, server) <==> i < |local| && !Known(local[i].hash, server)
  {
    if local != [] {
      var front := local[..|local| - 1];
      assert forall k :: 0 <= k < |front| ==> front[k].index == k;
      DiffMembers(front, server, i);
    }
  }

  /** Appending to a file never resends a chunk of the old file but its last. */
  lemma AppendSendsTheEnd(p: Cutter, d: seq<byte>, d': seq<byte>, i: nat)
    requires p.Sound() && d != [] && d <= d'
    requires i in Diff(Chunks(p, d'), Chunks(p, d))
    ensures |Chunks(p, d)| - 1 <= i < |Chunks(p, d')|
  {
    hide Chunks, Diff, Known;
    ChunkNumbers(p, d');
    DiffMembers(Chunks(p, d'), Chunks(p, d), i);
    if i < |Chunks(p, d)| - 1 {
      EarlyChunkIsKnown(p, d, d', i);
    }
  }

  lemma EarlyChunkIsKnown(p: Cutter, d: seq<byte>, d': seq<byte>, i: nat)
    requires d != [] && d <= d' && i < |Chunks(p, d)| - 1 && i < |Chunks(p, d')|
    ensures Known(Chunks(p, d')[i].hash, Chunks(p, d))
  {
    hide Chunks;
    var cs, cs' := Chunks(p, d), Chunks(p, d');
    PrefixChunks(p, d, d');
    assert cs'[i] == cs[..|cs| - 1][i] == cs[i];
    assert cs[i] in cs;
  }

  lemma ChunkNumbers(p: Cutter, d: seq<byte>)
    requires p.Sound()
    ensures forall k :: 0 <= k < |Chunks(p, d)| ==> Chunks(p, d)[k].index == k
  {
    hide Chunks;
    ChunksShape(p, d);
    forall k | 0 <= k < |Chunks(p, d)|
      ensures Chunks(p, d)[k].index == k
    {
      assert GoodAt(p, d, Chunks(p, d), k);
    }
  }

  /** After an edit in front of a common cut, nothing from that cut on is resent. */
  lemma EditSendsTheFront(p: Cutter, d: seq<byte>, a: nat, e: seq<byte>, b: nat, i: nat)
    requires p.Sound() && a < |d| && b < |e| && d[a..] == e[b..] && Cut(p, d, a) && Cut(p, e, b)
    requires i in Diff(Chunks(p, d), Chunks(p, e))
    ensures i < |Chunks(p, d)| && End(Chunks(p, d)[i]) <= a
  {
    hide Chunks, Closed, Cut, Diff, ChunksBefore, Known;
    ChunkNumbers(p, d);
    DiffMembers(Chunks(p, d), Chunks(p, e), i);
    ChunksEndBefore(p, d, a);
    if i >= ChunksBefore(p, d, a) {
      LateChunkIsKnown(p, d, a, e, b, i);
    }
  }

  lemma LateChunkIsKnown(p: Cutter, d: seq<byte>, a: nat, e: seq<byte>, b: nat, i: nat)
    requires p.Sound() && a < |d| && b < |e| && d[a..] == e[b..] && Cut(p, d, a) && Cut(p, e, b)
    requires ChunksBefore(p, d, a) <= i < |Chunks(p, d)|
    ensures Known(Chunks(p, d)[i].hash, Chunks(p, e))
  {
    hide Chunks, Closed, Cut, ChunksBefore;
    var cs, cs' := Chunks(p, d), Chunks(p, e);
    Locality(p, d, a, e, b);
    var m, m' := ChunksBefore(p, d, a), ChunksBefore(p, e, b);
    assert Moved(cs[m..][i - m], a, cs'[m'..][i - m], b);
    assert cs[m..][i - m] == cs[i] && cs'[m'..][i - m] == cs'[m' + i - m];
    assert cs'[m' + i - m] in cs';
  }
}
