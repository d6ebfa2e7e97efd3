/** Chunk files on the server: storing, assembling and finalising a resumable transfer. */
module Transport {
  import opened Bits
  import opened Wrappers
  import opened Sets
  import opened Numbers
  import Delta

  type Bytes = seq<byte>

  /** A chunk directory, file name chunk_NNNNNN read as the index NNNNNN. */
  type ChunkFiles = map<int, Bytes>

  const PIECE: nat := 2 * 1024 * 1024

  // Offsets and indices

  /** Rust's integer division truncates toward zero. */
  function TruncDiv(a: int, b: nat): int
    requires b > 0
  {
    if a >= 0 then a / b else -((-a) / b)
  }

  function WrapI32(x: int): int {
    (x + 0x8000_0000) % 0x1_0000_0000 - 0x8000_0000
  }

  /** `(req.offset / (2 * 1024 * 1024)) as i32`. */
  function ChunkIndex(offset: int): int {
    WrapI32(TruncDiv(offset, PIECE))
  }

  // Assembly

  predicate HasPrefix(m: ChunkFiles, n: nat) {
    forall i :: 0 <= i < n ==> i in m
  }

  /** Chunks 0..n-1, one after the other. */
  function Contents(m: ChunkFiles, n: nat): Bytes
    requires HasPrefix(m, n)
  {
    if n == 0 then [] else Contents(m, n - 1) + m[n - 1]
  }

  /** The indices 0..n-1. */
  function UpTo(n: nat): set<int> {
    if n == 0 then {} else UpTo(n - 1) + {n - 1}
  }

  lemma {:induction false} UpToMembers(n: nat)
    ensures |UpTo(n)| == n && forall i :: i in UpTo(n) <==> 0 <= i < n
  {
    if n > 0 {
      UpToMembers(n - 1);
    }
  }

  /** Counted chunk files assemble only if their indices are exactly 0..count-1: a pigeonhole argument. */
  lemma CountedChunksAssemble(m: ChunkFiles)
    ensures HasPrefix(m, |m|) <==> m.Keys == UpTo(|m|)
  {
    hide UpTo;
    var n := |m|;
    UpToMembers(n);
    assert |m.Keys| == n;
    if HasPrefix(m, n) {
      forall i | i in UpTo(n)
        ensures i in m.Keys
      {
      }
      SubsetOfSameSize(UpTo(n), m.Keys);
    }
  }

  // Uploading a file in pieces

  function Ceil(n: nat): nat {
    (n + PIECE - 1) / PIECE
  }

  /** The i-th 2 MiB piece of a file; the last one may be shorter. */
  function PieceOf(f: Bytes, i: nat): Bytes
    requires i < Ceil(|f|)
  {
    PieceBounds(f, i);
    f[i * PIECE..Min((i + 1) * PIECE, |f|)]
  }

  lemma PieceBounds(f: Bytes, i: nat)
    requires i < Ceil(|f|)
    ensures i * PIECE < |f| && i * PIECE <= Min((i + 1) * PIECE, |f|)
  {
  }

  datatype Write = Write(offset: int, data: Bytes)

  /** The chunk directory after a sequence of writes. */
  function Stored(m: ChunkFiles, ws: seq<Write>): ChunkFiles {
    if ws == [] then m
    else Stored(m, ws[..|ws| - 1])[ChunkIndex(ws[|ws| - 1].offset) := ws[|ws| - 1].data]
  }

  /** Offsets of one 2 MiB piece have one index, those just below zero have index 0, and pieces are 2 MiB long. */
  lemma PieceSize(f: Bytes, i: nat, k: int)
    requires 0 <= k < 2097152
    ensures i < 0x8000_0000 ==> ChunkIndex(i * 2097152 + k) == i
    ensures ChunkIndex(-k) == 0
    ensures i * 2097152 < |f| ==>
      i < Ceil(|f|) && PieceOf(f, i) == f[i * 2097152..if (i + 1) * 2097152 < |f| then (i + 1) * 2097152 else |f|]
  {
    var offset := i * 2097152 + k;
    assert offset / PIECE == i;
    assert k / PIECE == 0;
  }

  /** Every write carries the piece of f that belongs at its offset. */
  ghost predicate Uploads(f: Bytes, ws: seq<Write>) {
    forall w :: w in ws ==> IsPiece(f, w)
  }

  ghost predicate IsPiece(f: Bytes, w: Write) {
    exists i: nat :: i < Ceil(|f|) && w == Write(i * PIECE, PieceOf(f, i))
  }

  function Indices(ws: seq<Write>): set<int> {
    set w | w in ws :: ChunkIndex(w.offset)
  }

  lemma PieceIndex(f: Bytes, w: Write)
    requires IsPiece(f, w) && Ceil(|f|) <= 0x8000_0000
    ensures var i := ChunkIndex(w.offset);
      0 <= i < Ceil(|f|) && w.data == PieceOf(f, i)
  {
    var i: nat :| i < Ceil(|f|) && w == Write(i * PIECE, PieceOf(f, i));
    assert TruncDiv(i * PIECE, PIECE) == i;
  }

  /** Whatever the order and the repetitions, the directory holds piece i of f at each written index i. */
  lemma {:induction false} StoredPieces(f: Bytes, ws: seq<Write>)
    requires Uploads(f, ws) && Ceil(|f|) <= 0x8000_0000
    ensures Stored(map[], ws).Keys == Indices(ws)
    ensures forall i :: i in Stored(map[], ws) ==> 0 <= i < Ceil(|f|) && Stored(map[], ws)[i] == PieceOf(f, i)
  {
    if ws != [] {
      var front, w := ws[..|ws| - 1], ws[|ws| - 1];
      assert w in ws && ws == front + [w];
      StoredPieces(f, front);
      PieceIndex(f, w);
      assert Indices(ws) == Indices(front) + {ChunkIndex(w.offset)};
    }
  }

  lemma SliceJoin(f: Bytes, a: nat, b: nat)
    requires a <= b <= |f|
    ensures f[..b] == f[..a] + f[a..b]
  {
  }

  lemma {:induction false} PiecesSpell(f: Bytes, m: ChunkFiles, n: nat)
    requires HasPrefix(m, n) && n <= Ceil(|f|)
    requires forall i :: 0 <= i < n ==> m[i] == PieceOf(f, i)
    ensures Contents(m, n) == f[..Min(n * PIECE, |f|)]
  {
    hide Ceil;
    if n > 0 {
      PieceBounds(f, n - 1);
      PiecesSpell(f, m, n - 1);
      SliceJoin(f, (n - 1) * PIECE, Min(n * PIECE, |f|));
    }
  }

  /** Upload is insensitive to order and retries. The counted chunks assemble iff the written indices are an
      initial segment, and the result is that much of the file. */
  lemma {:induction false} UploadAssembles(f: Bytes, ws: seq<Write>)
    requires Uploads(f, ws) && Ceil(|f|) <= 0x8000_0000
    ensures var m := Stored(map[], ws);
      && (HasPrefix(m, |m|) <==> Indices(ws) == UpTo(|m|))
      && (HasPrefix(m, |m|) ==> |m| <= Ceil(|f|) && Contents(m, |m|) == f[..Min(|m| * PIECE, |f|)])
  {
    hide PieceOf, Uploads, UpTo, Stored, Indices, Contents, Ceil;
    var m := Stored(map[], ws);
    StoredPieces(f, ws);
    CountedChunksAssemble(m);
    if HasPrefix(m, |m|) {
      AtMost(m, Ceil(|f|));
      PiecesSpell(f, m, |m|);
    }
  }

  /** It is the whole file iff every piece came. */
  lemma {:induction false} UploadIsComplete(f: Bytes, ws: seq<Write>)
    requires Uploads(f, ws) && Ceil(|f|) <= 0x8000_0000
    ensures var m := Stored(map[], ws);
      HasPrefix(m, |m|) && Contents(m, |m|) == f <==> Indices(ws) == UpTo(Ceil(|f|))
  {
    hide PieceOf, Uploads, UpTo, Stored, Indices, Contents;
    var m := Stored(map[], ws);
    var n := Ceil(|f|);
    UploadAssembles(f, ws);
    StoredPieces(f, ws);
    UpToMembers(n);
    assert |m.Keys| == |m|;
    if HasPrefix(m, |m|) && Contents(m, |m|) == f {
      FullLength(f, |m|);
    }
    if Indices(ws) == UpTo(n) {
      assert |m| == n;
      assert f[..|f|] == f;
    }
  }

  lemma FullLength(f: Bytes, n: nat)
    requires n <= Ceil(|f|) && f == f[..Min(n * PIECE, |f|)]
    ensures n == Ceil(|f|)
  {
    assert |f[..Min(n * PIECE, |f|)]| == Min(n * PIECE, |f|);
  }

  lemma AtMost(m: ChunkFiles, n: nat)
    requires HasPrefix(m, |m|) && forall i :: i in m ==> 0 <= i < n
    ensures |m| <= n
  {
    assert |m| > 0 ==> |m| - 1 in m;
  }

  /** The agent sends a file in chunks when there are several and it is larger than 1 MiB, and whole otherwise. */
  predicate SentInChunks(p: Delta.Cutter, d: Bytes) {
    |Delta.Chunks(p, d)| > 1 && |d| > 1024 * 1024
  }

  /** The chunk files m hold the chunks of d at their indices. */
  predicate HoldsChunks(m: ChunkFiles, p: Delta.Cutter, d: Bytes) {
    var cs := Delta.Chunks(p, d);
    forall i :: 0 <= i < |cs| ==> i in m && Delta.End(cs[i]) <= |d| && m[i] == d[cs[i].offset..Delta.End(cs[i])]
  }

  /** What the server has after the agent's upload, the chunks assembled by their number. */
  function Uploaded(p: Delta.Cutter, d: Bytes, m: ChunkFiles): Bytes
    requires HoldsChunks(m, p, d)
  {
    if SentInChunks(p, d) then Contents(m, |Delta.Chunks(p, d)|) else d
  }

  /** The agent's own upload, its chunks stored in any order, gives the file back iff it is sent whole or the
      boundary test does not fire on its last byte. */
  lemma AgentUpload(p: Delta.Cutter, d: Bytes, m: ChunkFiles)
    requires p.Sound() && HoldsChunks(m, p, d)
    ensures Uploaded(p, d, m) == d <==> !(SentInChunks(p, d) && Delta.Cut(p, d, |d| - 1))
    ensures |d| <= 1048576 || |Delta.Chunks(p, d)| <= 1 ==> Uploaded(p, d, m) == d
  {
    hide Delta.Chunks, Delta.Cut;
    if SentInChunks(p, d) {
      ContentsAreBytes(d, Delta.Chunks(p, d), m);
      Delta.ReassemblyIffNoFinalCut(p, d);
    }
  }

  /** With the agent's own constants: 1114113 zero bytes are sent in chunks and arrive one byte short. */
  lemma ZerosArriveShort(sha: Bytes -> string, m: ChunkFiles)
    requires HoldsChunks(m, Delta.Cutter(Delta.MIN_CHUNK, Delta.MAX_CHUNK, Delta.MASK, sha), Delta.ZeroBytes(1114113))
    ensures var p := Delta.Cutter(Delta.MIN_CHUNK, Delta.MAX_CHUNK, Delta.MASK, sha);
      var d := Delta.ZeroBytes(1114113);
      SentInChunks(p, d) && Uploaded(p, d, m) == d[..1114112]
  {
    hide Delta.Chunks, Delta.Cut, Delta.Bytes, Delta.ZeroBytes, Contents;
    var p := Delta.Cutter(Delta.MIN_CHUNK, Delta.MAX_CHUNK, Delta.MASK, sha);
    var d := Delta.ZeroBytes(1114113);
    Delta.ZerosLoseTheLastByteIff(p, 1114113);
    Delta.ChunksShape(p, d);
    Delta.WellShapedBytes(p, d, Delta.Chunks(p, d));
    ContentsAreBytes(d, Delta.Chunks(p, d), m);
    SeveralChunks(p, d);
  }

  /** Chunks that cover more than MAX are several. */
  lemma SeveralChunks(p: Delta.Cutter, d: Bytes)
    requires p.Sound() && Delta.Covered(Delta.Chunks(p, d)) > p.maxChunk
    ensures |Delta.Chunks(p, d)| > 1
  {
    hide Delta.Chunks;
    Delta.ChunksShape(p, d);
    var cs := Delta.Chunks(p, d);
    assert cs != [] ==> Delta.GoodAt(p, d, cs, 0);
  }

  lemma {:induction false} ContentsAreBytes(d: Bytes, cs: seq<Delta.ChunkInfo>, m: ChunkFiles)
    requires forall i :: 0 <= i < |cs| ==>
      i in m && Delta.End(cs[i]) <= |d| && m[i] == d[cs[i].offset..Delta.End(cs[i])]
    ensures Contents(m, |cs|) == Delta.Bytes(d, cs)
  {
    if cs != [] {
      ContentsAreBytes(d, cs[..|cs| - 1], m);
    }
  }

  // Finalising

  datatype Row = Row(storagePath: string, sha256: Option<string>, size: int)

  datatype Failure = NotFound | BadPayload | MissingChunk | IntegrityFailed

  datatype Receipt = Receipt(sha256: string, size: int)

  const RESUMABLE := "resumable_transfer"

  /** What one transfer owns: its chunk directory, if there is one, the stored files, and its table row. */
  datatype State = State(dir: Option<ChunkFiles>, files: map<string, Bytes>, row: Row)

  /** SHA-256 in hexadecimal, and the two paths finalize_transfer can record: where assemble_chunks puts
      the file, and the bare one it makes up when nothing was assembled. */
  datatype Site = Site(sha: Bytes -> string, assembledPath: string, barePath: string)
  {
    ghost predicate Sound() {
      && assembledPath != barePath
      && forall b :: |sha(b)| == 64
    }
  }

  function LowerAscii(c: char): char {
    if 'A' <= c <= 'Z' then (c as int + 32) as char else c
  }

  predicate EqIgnoreCase(a: string, b: string) {
    |a| == |b| && forall i :: 0 <= i < |a| ==> LowerAscii(a[i]) == LowerAscii(b[i])
  }

  /** A computed hash that is compared with the client's at all. */
  predicate Compared(hash: string) {
    hash != "" && hash != "empty" && hash != "verified"
  }

  function OrElse(o: Option<string>, default: string): string {
    match o case Some(s) => s case None => default
  }

  predicate Mismatch(client: Option<string>, computed: string) {
    client.Some? && Compared(computed) && !EqIgnoreCase(client.value, computed)
  }

  /** The end of finalize_transfer: compare hashes, then update the row. */
  function Record(st: State, client: Option<string>, path: string, computed: string, size: int)
    : (State, Result<Receipt, Failure>)
  {
    if Mismatch(client, computed) then (st, Err(IntegrityFailed))
    else
      var final := if computed != "" && computed != "empty" then computed else OrElse(client, "verified");
      (st.(row := Row(path, Some(final), size)), Ok(Receipt(final, size)))
  }

  /** finalize_transfer as a function of the state before. */
  function Finalized(site: Site, st: State, client: Option<string>): (State, Result<Receipt, Failure>) {
    match st.dir
    case Some(m) =>
      if |m| == 0 then Record(st, client, site.barePath, "empty", 0)
      else if !HasPrefix(m, |m|) then (st, Err(MissingChunk))
      else
        var data := Contents(m, |m|);
        var st' := st.(dir := None, files := st.files[site.assembledPath := data]);
        Record(st', client, site.assembledPath, site.sha(data), |data|)
    case None =>
      Record(st, client, site.barePath, OrElse(st.row.sha256, "verified"), st.row.size)
  }

  /** The directory listing loop. */
  method CountChunks(m: ChunkFiles) returns (count: nat)
    ensures count == |m|
  {
    count := 0;
    var rest := m.Keys;
    assert |rest| == |m|;
    while rest != {}
      invariant count + |rest| == |m|
      decreases rest
    {
      SomeInt(rest);
      var i :| i in rest;
      rest := rest - {i};
      count := count + 1;
    }
  }

  class Transfer {
    const site: Site
    var dir: Option<ChunkFiles>
    var files: map<string, Bytes>
    var row: Row

    function View(): State
      reads this
    {
      State(dir, files, row)
    }

    /** The row init_transfer inserts. */
    constructor (site: Site, declared: Option<string>, size: nat)
      ensures this.site == site
      ensures View() == State(None, map[], Row(RESUMABLE, Some(OrElse(declared, "")), size))
    {
      this.site := site;
      dir, files := None, map[];
      row := Row(RESUMABLE, Some(OrElse(declared, "")), size);
    }

    /** write_chunk: the decoded payload replaces whatever the index held. */
    method WriteChunk(offset: int, payload: Option<Bytes>) returns (r: Result<nat, Failure>)
      modifies this
      ensures old(row.storagePath) != RESUMABLE ==> r == Err(NotFound)
      ensures old(row.storagePath) == RESUMABLE && payload.None? ==> r == Err(BadPayload)
      ensures old(row.storagePath) == RESUMABLE && payload.Some? ==> r == Ok(|payload.value|)
      ensures r.Err? ==> View() == old(View())
      ensures r.Ok? ==>
        var m := if old(dir).Some? then old(dir).value else map[];
        View() == old(View()).(dir := Some(m[ChunkIndex(offset) := payload.value]))
    {
      if row.storagePath != RESUMABLE {
        return Err(NotFound);
      }
      if payload.None? {
        return Err(BadPayload);
      }
      if dir.None? {
        dir := Some(map[]);
      }
      dir := Some(dir.value[ChunkIndex(offset) := payload.value]);
      return Ok(|payload.value|);
    }

    /** assemble_chunks: a missing chunk leaves everything as it was, success removes the directory. */
    method AssembleChunks(totalChunks: nat) returns (r: Result<Receipt, Failure>)
      requires dir.Some?
      modifies this
      ensures r.Ok? <==> HasPrefix(old(dir.value), totalChunks)
      ensures r.Err? ==> View() == old(View()) && r.error == MissingChunk
      ensures r.Ok? ==>
        var data := Contents(old(dir.value), totalChunks);
        && r.value == Receipt(site.sha(data), |data|)
        && View() == old(View()).(dir := None, files := old(files)[site.assembledPath := data])
    {
      var data: Bytes := [];
      for i := 0 to totalChunks
        invariant View() == old(View())
        invariant HasPrefix(dir.value, i) && data == Contents(dir.value, i)
      {
        if i !in dir.value {
          return Err(MissingChunk);
        }
        data := data + dir.value[i];
      }
      files := files[site.assembledPath := data];
      dir := None;
      return Ok(Receipt(site.sha(data), |data|));
    }

    method FinalizeTransfer(client: Option<string>) returns (r: Result<Receipt, Failure>)
      modifies this
      ensures (View(), r) == Finalized(site, old(View()), client)
    {
      var path, computed, size := site.barePath, "", 0;
      if dir.Some? {
        var count := CountChunks(dir.value);
        if count > 0 {
          var assembled := AssembleChunks(count);
          if assembled.Err? {
            return Err(assembled.error);
          }
          path, computed, size := site.assembledPath, assembled.value.sha256, assembled.value.size;
        } else {
          computed := "empty";
        }
      } else {
        computed, size := OrElse(row.sha256, "verified"), row.size;
      }
      if client.Some? && Compared(computed) && !EqIgnoreCase(client.value, computed) {
        return Err(IntegrityFailed);
      }
      var final := computed;
      if computed == "" || computed == "empty" {
        final := OrElse(client, "verified");
      }
      row := Row(path, Some(final), size);
      return Ok(Receipt(final, size));
    }
  }

  // The integrity check

  /** Equal characters, or the two cases of one ASCII letter. */
  predicate SameLetter(a: char, b: char) {
    a == b || ('A' <= a <= 'Z' && b as int == a as int + 32) || ('A' <= b <= 'Z' && a as int == b as int + 32)
  }

  /** The same text but for the case of its letters. */
  predicate SameText(a: string, b: string) {
    |a| == |b| && forall i :: 0 <= i < |a| ==> SameLetter(a[i], b[i])
  }

  lemma EqIgnoresCaseOnly(a: string, b: string)
    ensures EqIgnoreCase(a, b) <==> SameText(a, b)
  {
    if |a| == |b| {
      forall i | 0 <= i < |a|
        ensures LowerAscii(a[i]) == LowerAscii(b[i]) <==> SameLetter(a[i], b[i])
      {
      }
    }
  }

  /** With chunks 0..n-1 there, a hash of other bytes is refused and the row stays; the hash of the assembled bytes, in
      any case, or none at all, stores those bytes with their hash and size. */
  lemma FinalizeChecksBytes(site: Site, st: State, client: Option<string>)
    requires site.Sound() && st.dir.Some? && |st.dir.value| > 0 && HasPrefix(st.dir.value, |st.dir.value|)
    ensures var data := Contents(st.dir.value, |st.dir.value|);
      var (st', r) := Finalized(site, st, client);
      if client.Some? && !SameText(client.value, site.sha(data)) then r == Err(IntegrityFailed) && st'.row == st.row
      else
        && r == Ok(Receipt(site.sha(data), |data|)) && st'.row == Row(site.assembledPath, Some(site.sha(data)), |data|)
        && st'.files == st.files[site.assembledPath := data] && st'.dir == None
  {
    var data := Contents(st.dir.value, |st.dir.value|);
    assert |site.sha(data)| == 64;
    if client.Some? {
      EqIgnoresCaseOnly(client.value, site.sha(data));
    }
  }

  /** With a gap in the chunks nothing happens, and an empty directory finalises as a file of no bytes. */
  lemma FinalizeGaps(site: Site, st: State, client: Option<string>)
    requires st.dir.Some?
    ensures |st.dir.value| > 0 && !HasPrefix(st.dir.value, |st.dir.value|) ==>
      Finalized(site, st, client) == (st, Err(MissingChunk))
    ensures |st.dir.value| == 0 ==>
      var hash := if client.Some? then client.value else "verified";
      Finalized(site, st, client) == (st.(row := Row(site.barePath, Some(hash), 0)), Ok(Receipt(hash, 0)))
  {
  }

  /** Without a directory the client's hash is held against the declared one, if that says anything. */
  lemma FinalizeDeclared(site: Site, st: State, client: Option<string>)
    requires st.dir.None?
    ensures var declared := if st.row.sha256.Some? then st.row.sha256.value else "verified";
      var (st', r) := Finalized(site, st, client);
      && (r.Err? <==> client.Some? && declared !in {"", "empty", "verified"} && !SameText(client.value, declared))
      && (r.Err? ==> r == Err(IntegrityFailed) && st' == st)
      && (r.Ok? ==> st' == st.(row := st'.row) && st'.row.storagePath == site.barePath && st'.row.size == st.row.size)
      && (r.Ok? && declared !in {"", "empty"} ==> st'.row.sha256 == Some(declared) && r.value.sha256 == declared)
      && (r.Ok? && declared in {"", "empty"} ==>
            st'.row.sha256 == Some(if client.Some? then client.value else "verified"))
  {
    if client.Some? {
      EqIgnoresCaseOnly(client.value, OrElse(st.row.sha256, "verified"));
    }
  }

  /** The row names stored bytes with the recorded hash and size. */
  ghost predicate Intact(site: Site, st: State) {
    && st.row.storagePath in st.files
    && st.row.sha256 == Some(site.sha(st.files[st.row.storagePath]))
    && st.row.size == |st.files[st.row.storagePath]|
  }

  /** A successful finalisation leaves an intact row, with the client's hash confirmed, exactly when there was
      a chunk to assemble; nothing is ever stored under the made-up path. */
  lemma FinalizedIsIntact(site: Site, st: State, client: Option<string>)
    requires site.Sound() && site.barePath !in st.files
    ensures var (st', r) := Finalized(site, st, client);
      && site.barePath !in st'.files
      && (r.Ok? ==> (Intact(site, st') <==> st.dir.Some? && |st.dir.value| > 0))
      && (r.Ok? && st.dir.Some? && |st.dir.value| > 0 && client.Some? ==> EqIgnoreCase(client.value, r.value.sha256))
  {
    var (st', r) := Finalized(site, st, client);
    if r.Ok? && st.dir.Some? && |st.dir.value| > 0 {
      assert |site.sha(Contents(st.dir.value, |st.dir.value|))| == 64;
    }
  }

  /** A transfer finalised twice: the second call succeeds too, but repoints the row at a path with no file. */
  lemma FinalizeTwice(site: Site, st: State, client: Option<string>)
    requires site.Sound() && site.barePath !in st.files
    requires st.dir.Some? && |st.dir.value| > 0 && Finalized(site, st, client).1.Ok?
    ensures var st' := Finalized(site, st, client).0;
      var (st'', r) := Finalized(site, st', client);
      r.Ok? && st''.row.sha256 == st'.row.sha256 && Intact(site, st') && !Intact(site, st'')
  {
    FinalizedIsIntact(site, st, client);
    FinalizedIsIntact(site, Finalized(site, st, client).0, client);
  }

  /** A failed integrity check has already consumed the chunks, so the same call made again is no longer
      checked against them: it succeeds iff the hash declared at the start is not itself refused. */
  lemma RetryAfterIntegrityFailure(site: Site, st: State, client: Option<string>)
    requires Finalized(site, st, client).1 == Err(IntegrityFailed)
    ensures var st' := Finalized(site, st, client).0;
      var (st'', r) := Finalized(site, st', client);
      st'.dir.None? && (r.Ok? <==> !Mismatch(client, OrElse(st.row.sha256, "verified")))
      && (r.Ok? ==> st''.row.storagePath == site.barePath)
  {
  }

  /** End to end: pieces of f in any order and any repetition, then a finalisation with the hash of f. If all
      pieces came it succeeds with f stored; if it succeeds, what is stored is a prefix of f that hashes like f. */
  lemma ResumableUpload(site: Site, f: Bytes, ws: seq<Write>, row: Row)
    requires site.Sound() && f != [] && Ceil(|f|) <= 0x8000_0000
    requires Uploads(f, ws) && ws != []
    ensures var st := State(Some(Stored(map[], ws)), map[], row);
      var (st', r) := Finalized(site, st, Some(site.sha(f)));
      && (Indices(ws) == UpTo(Ceil(|f|)) ==>
            r == Ok(Receipt(site.sha(f), |f|)) && st'.files == map[site.assembledPath := f])
      && (r.Ok? ==> exists n: nat :: n <= |f| && st'.files == map[site.assembledPath := f[..n]]
                      && EqIgnoreCase(site.sha(f), site.sha(f[..n])))
  {
    hide Stored, Indices, UpTo, Uploads, Contents, PieceOf, Ceil;
    var m := Stored(map[], ws);
    UploadAssembles(f, ws);
    UploadIsComplete(f, ws);
    SomeChunk(f, ws);
    assert |site.sha(f)| == 64;
    if HasPrefix(m, |m|) {
      var n := Min(|m| * PIECE, |f|);
      assert |site.sha(f[..n])| == 64;
      assert map[][site.assembledPath := f[..n]] == map[site.assembledPath := f[..n]];
    }
  }

  lemma SomeChunk(f: Bytes, ws: seq<Write>)
    requires Uploads(f, ws) && ws != [] && Ceil(|f|) <= 0x8000_0000
    ensures |Stored(map[], ws)| > 0
  {
    StoredPieces(f, ws);
    assert ws[0] in ws;
    assert ChunkIndex(ws[0].offset) in Stored(map[], ws);
  }
}
