/** Backup and restore over two maps, table rows and file bytes. */
module Backup {
  import opened Wrappers
  import Ancestry

  type Id = int
  type Path = string
  type Bytes = seq<int>

  datatype Entry = Entry(parent: Option<Id>, name: string, isFolder: bool, mime: Option<string>, size: int,
                         hash: Option<string>, path: Option<Path>, trashed: bool)

  datatype Version = Version(entry: Id, number: int, size: int, hash: Option<string>, path: Option<Path>)

  /** What a backup can change: the entries of the user, their versions, and the stored files. */
  datatype World = World(entries: map<Id, Entry>, versions: map<Id, Version>, files: map<Path, Bytes>)

  /** One payload of the manifest. */
  datatype FileRecord = FileRecord(id: Id, path: Path, hash: string)

  datatype EntryRecord = EntryRecord(id: Id, entry: Entry)

  datatype VersionRecord = VersionRecord(id: Id, version: Version)

  /** The backup directory: payload files by id, version payloads by id, and the manifest. */
  datatype Archive = Archive(payloads: map<Id, Bytes>, versionPayloads: map<Id, Bytes>,
                             files: seq<FileRecord>, entries: seq<EntryRecord>, versions: seq<VersionRecord>)

  // Creating a backup

  predicate Copied(w: World, r: EntryRecord) {
    !r.entry.isFolder && !r.entry.trashed && r.entry.path.Some? && r.entry.path.value in w.files
  }

  /** The archive holds, for every live file entry whose bytes can be read, those bytes and their hash. */
  ghost predicate Archived(w: World, a: Archive, sha: Bytes -> string) {
    && (forall r :: r in a.entries <==> r.id in w.entries && w.entries[r.id] == r.entry)
    && (forall r :: r in a.versions <==> r.id in w.versions && w.versions[r.id] == r.version)
    && (forall i, j :: 0 <= i < j < |a.entries| ==> a.entries[i].id != a.entries[j].id)
    && (forall f :: f in a.files ==> PayloadOk(w, a, f, sha))
    && (forall r :: r in a.entries && Copied(w, r) ==> exists f :: f in a.files && f.id == r.id)
    && (forall v :: v in a.versions ==> VersionPayloadOk(w, a, v))
  }

  ghost predicate PayloadOk(w: World, a: Archive, f: FileRecord, sha: Bytes -> string) {
    && f.id in w.entries && Copied(w, EntryRecord(f.id, w.entries[f.id])) && w.entries[f.id].path == Some(f.path)
    && f.id in a.payloads && a.payloads[f.id] == w.files[f.path] && f.hash == sha(w.files[f.path])
  }

  /** The payload of a version is the file at the version's path, and it is there iff that file can be read. */
  ghost predicate VersionPayloadOk(w: World, a: Archive, v: VersionRecord) {
    if v.version.path.Some? && v.version.path.value in w.files
    then v.id in a.versionPayloads && a.versionPayloads[v.id] == w.files[v.version.path.value]
    else v.id !in a.versionPayloads
  }

  /** The rows as the queries list them, in any order. */
  ghost predicate Lists(w: World, entries: seq<EntryRecord>, versions: seq<VersionRecord>) {
    && (forall r :: r in entries <==> r.id in w.entries && w.entries[r.id] == r.entry)
    && (forall r :: r in versions <==> r.id in w.versions && w.versions[r.id] == r.version)
    && (forall i, j :: 0 <= i < j < |entries| ==> entries[i].id != entries[j].id)
  }

  /** create_backup, all writes succeeding; a file that cannot be read is left out of the manifest. */
  method CreateBackup(w: World, sha: Bytes -> string, entries: seq<EntryRecord>, versions: seq<VersionRecord>)
    returns (a: Archive, copied: nat)
    requires Lists(w, entries, versions)
    ensures Archived(w, a, sha) && a.entries == entries && a.versions == versions
    ensures copied == |a.files|
  {
    var payloads: map<Id, Bytes>, files: seq<FileRecord> := map[], [];
    copied := 0;
    for i := 0 to |entries|
      invariant copied == |files|
      invariant forall k :: k in payloads ==> exists j :: 0 <= j < i && entries[j].id == k
      invariant forall f :: f in files ==> PayloadOk(w, Archive(payloads, map[], files, entries, versions), f, sha)
      invariant forall j :: 0 <= j < i && Copied(w, entries[j]) ==> exists f :: f in files && f.id == entries[j].id
    {
      var e := entries[i].entry;
      assert entries[i] in entries;
      if !e.isFolder && !e.trashed && e.path.Some? {
        if e.path.value in w.files {
          var data := w.files[e.path.value];
          var r := FileRecord(entries[i].id, e.path.value, sha(data));
          payloads := payloads[entries[i].id := data];
          files := files + [r];
          copied := copied + 1;
          assert r in files;
          assert forall f :: f in files[..|files| - 1] ==> f in files;
        }
      }
    }
    var versionPayloads: map<Id, Bytes> := map[];
    for i := 0 to |versions|
      invariant forall k :: k in versionPayloads <==> VersionCopied(w, versions, i, k)
      invariant forall k :: k in versionPayloads ==> versionPayloads[k] == w.files[w.versions[k].path.value]
    {
      assert versions[i] in versions;
      VersionCopiedNext(w, versions, i);
      var p := versions[i].version.path;
      if p.Some? && p.value in w.files {
        versionPayloads := versionPayloads[versions[i].id := w.files[p.value]];
      }
    }
    a := Archive(payloads, versionPayloads, files, entries, versions);
    forall f | f in files
      ensures PayloadOk(w, a, f, sha)
    {
      assert PayloadOk(w, Archive(payloads, map[], files, entries, versions), f, sha);
    }
    forall v | v in versions
      ensures VersionPayloadOk(w, a, v)
    {
      VersionCopiedAll(w, versions, v);
    }
  }

  /** One of the first n versions listed has this id and a path that can be read. */
  ghost predicate VersionCopied(w: World, versions: seq<VersionRecord>, n: nat, id: Id)
    requires n <= |versions|
  {
    && AmongFirst(versions, n, id)
    && id in w.versions && w.versions[id].path.Some? && w.versions[id].path.value in w.files
  }

  lemma VersionCopiedNext(w: World, versions: seq<VersionRecord>, n: nat)
    requires n < |versions| && versions[n].id in w.versions && w.versions[versions[n].id] == versions[n].version
    ensures var path := versions[n].version.path;
      forall id :: VersionCopied(w, versions, n + 1, id) <==>
        VersionCopied(w, versions, n, id) || (id == versions[n].id && path.Some? && path.value in w.files)
  {
    hide AmongFirst;
    forall id
      ensures AmongFirst(versions, n + 1, id) <==> AmongFirst(versions, n, id) || id == versions[n].id
    {
      AmongNext(versions, n, id);
    }
  }

  lemma AmongNext(versions: seq<VersionRecord>, n: nat, id: Id)
    requires n < |versions|
    ensures AmongFirst(versions, n + 1, id) <==> AmongFirst(versions, n, id) || id == versions[n].id
  {
    if i :| 0 <= i < n + 1 && versions[i].id == id {
      assert i < n ==> AmongFirst(versions, n, id);
    }
    if i :| 0 <= i < n && versions[i].id == id {
      assert AmongFirst(versions, n + 1, id);
    }
  }

  ghost predicate AmongFirst(versions: seq<VersionRecord>, n: nat, id: Id)
    requires n <= |versions|
  {
    exists i :: 0 <= i < n && versions[i].id == id
  }

  lemma VersionCopiedAll(w: World, versions: seq<VersionRecord>, v: VersionRecord)
    requires v in versions && v.id in w.versions && w.versions[v.id] == v.version
    ensures VersionCopied(w, versions, |versions|, v.id) <==> v.version.path.Some? && v.version.path.value in w.files
  {
    var i :| 0 <= i < |versions| && versions[i] == v;
    assert versions[i].id == v.id;
  }

  // Restoring

  /** INSERT ... ON CONFLICT (id) DO UPDATE: the kind and the MIME type of a row that exists stay. */
  function Upsert(entries: map<Id, Entry>, r: EntryRecord): map<Id, Entry> {
    if r.id in entries
    then entries[r.id := r.entry.(isFolder := entries[r.id].isFolder, mime := entries[r.id].mime)]
    else entries[r.id := r.entry]
  }

  function RestoredFiles(files: map<Path, Bytes>, a: Archive, records: seq<FileRecord>): map<Path, Bytes> {
    if records == [] then files
    else
      var f := records[|records| - 1];
      var before := RestoredFiles(files, a, records[..|records| - 1]);
      if f.id in a.payloads then before[f.path := a.payloads[f.id]] else before
  }

  function RestoredVersionFiles(files: map<Path, Bytes>, a: Archive, records: seq<VersionRecord>): map<Path, Bytes> {
    if records == [] then files
    else
      var v := records[|records| - 1];
      var before := RestoredVersionFiles(files, a, records[..|records| - 1]);
      if v.version.path.Some? && v.id in a.versionPayloads
      then before[v.version.path.value := a.versionPayloads[v.id]]
      else before
  }

  /** Payload records whose bytes are there but hash to something else. */
  function Corruptions(a: Archive, sha: Bytes -> string, records: seq<FileRecord>): nat {
    if records == [] then 0
    else
      var f := records[|records| - 1];
      Corruptions(a, sha, records[..|records| - 1])
        + if f.id in a.payloads && sha(a.payloads[f.id]) != f.hash then 1 else 0
  }

  function Missing(a: Archive, records: seq<FileRecord>): nat {
    if records == [] then 0
    else Missing(a, records[..|records| - 1]) + if records[|records| - 1].id in a.payloads then 0 else 1
  }

  /** The foreign key on parent_id and UNIQUE (user_id, parent_id, name, is_trashed). */
  predicate Accepts(entries: map<Id, Entry>, r: EntryRecord) {
    && (r.entry.parent.Some? ==> r.entry.parent.value in entries || r.entry.parent.value == r.id)
    && forall x :: x in entries && x != r.id ==> !SameKey(entries[x], r.entry)
  }

  predicate SameKey(a: Entry, b: Entry) {
    a.parent == b.parent && a.name == b.name && a.trashed == b.trashed
  }

  /** A refused insert is ignored. */
  function RestoredEntries(entries: map<Id, Entry>, records: seq<EntryRecord>): map<Id, Entry> {
    if records == [] then entries
    else
      var before, r := RestoredEntries(entries, records[..|records| - 1]), records[|records| - 1];
      if Accepts(before, r) then Upsert(before, r) else before
  }

  function Folders(records: seq<EntryRecord>, folders: bool): seq<EntryRecord> {
    if records == [] then []
    else
      var r := records[|records| - 1];
      Folders(records[..|records| - 1], folders) + if r.entry.isFolder == folders then [r] else []
  }

  /** Folders first, then the rest, each in manifest order. */
  function InsertOrder(records: seq<EntryRecord>): seq<EntryRecord> {
    Folders(records, true) + Folders(records, false)
  }

  /** The foreign key on file_entry_id and UNIQUE (file_entry_id, version_number). */
  predicate AcceptsVersion(entries: map<Id, Entry>, versions: map<Id, Version>, v: Version) {
    v.entry in entries && forall x :: x in versions ==> !SameSlot(versions[x], v)
  }

  predicate SameSlot(a: Version, b: Version) {
    a.entry == b.entry && a.number == b.number
  }

  /** INSERT ... ON CONFLICT (id) DO NOTHING, a refused insert ignored. */
  function RestoredVersions(entries: map<Id, Entry>, versions: map<Id, Version>,
                            records: seq<VersionRecord>): map<Id, Version> {
    if records == [] then versions
    else
      var before, v := RestoredVersions(entries, versions, records[..|records| - 1]), records[|records| - 1];
      if v.id in before || !AcceptsVersion(entries, before, v.version) then before else before[v.id := v.version]
  }

  function Restored(w: World, a: Archive): World {
    var entries := RestoredEntries(w.entries, InsertOrder(a.entries));
    World(entries, RestoredVersions(entries, w.versions, a.versions),
          RestoredVersionFiles(RestoredFiles(w.files, a, a.files), a, a.versions))
  }

  datatype Manifest = Absent | Unreadable | Readable(archive: Archive)

  datatype Report = Report(filesRestored: nat, entriesRestored: nat, verified: nat, corrupted: nat)

  class Installation {
    var entries: map<Id, Entry>
    var versions: map<Id, Version>
    var files: map<Path, Bytes>

    function View(): World
      reads this
    {
      World(entries, versions, files)
    }

    /** restore_backup. */
    method RestoreBackup(m: Manifest, sha: Bytes -> string) returns (r: Option<Report>)
      modifies this
      ensures r.Some? <==> Restorable(m)
      ensures m.Readable? ==>
        var a := m.archive;
        && View() == Restored(old(View()), a)
        && r.value.corrupted == Corruptions(a, sha, a.files) && r.value.entriesRestored == |a.entries|
        && r.value.filesRestored == |a.files| - Missing(a, a.files)
        && r.value.verified == r.value.filesRestored - r.value.corrupted
      ensures !m.Readable? ==> View() == old(View())
    {
      hide Accepts, AcceptsVersion, Upsert, InsertOrder;
      if !m.Readable? {
        return None;
      }
      var a := m.archive;
      var restoredFiles, verified, corrupted := 0, 0, 0;
      for i := 0 to |a.files|
        invariant entries == old(entries) && versions == old(versions)
        invariant files == RestoredFiles(old(files), a, a.files[..i])
        invariant corrupted == Corruptions(a, sha, a.files[..i])
        invariant restoredFiles == i - Missing(a, a.files[..i]) && verified == restoredFiles - corrupted
      {
        assert a.files[..i + 1][..i] == a.files[..i];
        var f := a.files[i];
        if f.id in a.payloads {
          var data := a.payloads[f.id];
          if sha(data) == f.hash {
            verified := verified + 1;
          } else {
            corrupted := corrupted + 1;
          }
          files := files[f.path := data];
          restoredFiles := restoredFiles + 1;
        }
      }
      assert a.files[..|a.files|] == a.files;
      var order := InsertOrder(a.entries);
      for i := 0 to |order|
        invariant entries == RestoredEntries(old(entries), order[..i]) && versions == old(versions)
        invariant files == RestoredFiles(old(files), a, a.files)
      {
        assert order[..i + 1][..i] == order[..i];
        if Accepts(entries, order[i]) {
          entries := Upsert(entries, order[i]);
        }
      }
      assert order[..|order|] == order;
      for i := 0 to |a.versions|
        invariant entries == RestoredEntries(old(entries), order)
        invariant versions == RestoredVersions(entries, old(versions), a.versions[..i])
        invariant files == RestoredVersionFiles(RestoredFiles(old(files), a, a.files), a, a.versions[..i])
      {
        assert a.versions[..i + 1][..i] == a.versions[..i];
        var v := a.versions[i];
        if v.version.path.Some? && v.id in a.versionPayloads {
          files := files[v.version.path.value := a.versionPayloads[v.id]];
        }
        if v.id !in versions && AcceptsVersion(entries, versions, v.version) {
          versions := versions[v.id := v.version];
        }
      }
      assert a.versions[..|a.versions|] == a.versions;
      FolderCount(a.entries);
      return Some(Report(restoredFiles, |order|, verified, corrupted));
    }
  }

  lemma {:induction false} FolderCount(records: seq<EntryRecord>)
    ensures |InsertOrder(records)| == |records|
  {
    if records != [] {
      FolderCount(records[..|records| - 1]);
    }
  }

  /** The verdict of a verification: an unreadable manifest has nothing missing and nothing corrupt. */
  predicate Healthy(m: Manifest, sha: Bytes -> string) {
    match m
    case Absent => false
    case Unreadable => true
    case Readable(a) => Missing(a, a.files) == 0 && Corruptions(a, sha, a.files) == 0
  }

  /** Restore needs a manifest that can be read. */
  predicate Restorable(m: Manifest) {
    m.Readable?
  }

  /** A verdict of healthy promises a restore except on a manifest that does not parse, of which nothing is restored. */
  lemma HealthyButNotRestorable(m: Manifest, sha: Bytes -> string)
    ensures Healthy(m, sha) && !Restorable(m) <==> m == Unreadable
  {
  }

  /** verify_backup_dir, counting missing and mismatching payloads. */
  method VerifyBackupDir(m: Manifest, sha: Bytes -> string) returns (healthy: bool)
    ensures healthy <==> Healthy(m, sha)
  {
    var missing, mismatches := 0, 0;
    if m.Readable? {
      var a := m.archive;
      for i := 0 to |a.files|
        invariant missing == Missing(a, a.files[..i]) && mismatches == Corruptions(a, sha, a.files[..i])
      {
        assert a.files[..i + 1][..i] == a.files[..i];
        var f := a.files[i];
        if f.id in a.payloads {
          if sha(a.payloads[f.id]) != f.hash {
            mismatches := mismatches + 1;
          }
        } else {
          missing := missing + 1;
        }
      }
      assert a.files[..|a.files|] == a.files;
    }
    return !m.Absent? && missing == 0 && mismatches == 0;
  }

  // Restore undoes change: files

  lemma {:induction false} FilesAreBackupTime(w: World, files: map<Path, Bytes>, a: Archive, sha: Bytes -> string,
                                              records: seq<FileRecord>)
    requires forall f :: f in records ==> PayloadOk(w, a, f, sha)
    ensures var out := RestoredFiles(files, a, records);
      && (forall f :: f in records ==> f.path in out && f.path in w.files && out[f.path] == w.files[f.path])
      && (forall p :: p in out ==> (p in files && out[p] == files[p]) || (p in w.files && out[p] == w.files[p]))
  {
    if records != [] {
      var front, f := records[..|records| - 1], records[|records| - 1];
      assert records == front + [f];
      assert f in records && forall g :: g in front ==> g in records;
      FilesAreBackupTime(w, files, a, sha, front);
      assert PayloadOk(w, a, f, sha);
    }
  }

  lemma {:induction false} VersionsKeepBackupTime(w: World, files: map<Path, Bytes>, a: Archive,
                                                  records: seq<VersionRecord>, p: Path)
    requires forall v :: v in records ==> VersionPayloadOk(w, a, v)
    requires p in files && p in w.files && files[p] == w.files[p]
    ensures p in RestoredVersionFiles(files, a, records) && RestoredVersionFiles(files, a, records)[p] == w.files[p]
  {
    if records != [] {
      var front, v := records[..|records| - 1], records[|records| - 1];
      assert records == front + [v];
      assert v in records && forall u :: u in front ==> u in records;
      VersionsKeepBackupTime(w, files, a, front, p);
      assert VersionPayloadOk(w, a, v);
    }
  }

  /** After a backup of w and any later edits, restore gives every file in the manifest its backup-time bytes at
      its backup-time path, also when entries and versions share a path. */
  lemma RestoreGivesFilesBack(w: World, a: Archive, sha: Bytes -> string, now: World, f: FileRecord)
    requires Archived(w, a, sha) && f in a.files
    ensures f.id in w.entries && w.entries[f.id].path == Some(f.path)
    ensures f.path in w.files && f.path in Restored(now, a).files && Restored(now, a).files[f.path] == w.files[f.path]
  {
    assert PayloadOk(w, a, f, sha);
    FilesAreBackupTime(w, now.files, a, sha, a.files);
    VersionsKeepBackupTime(w, RestoredFiles(now.files, a, a.files), a, a.versions, f.path);
  }

  /** Every file that was live and readable is in the backup, and comes back; trashed files and folders are not. */
  lemma LiveFilesComeBack(w: World, a: Archive, sha: Bytes -> string, now: World, id: Id)
    requires Archived(w, a, sha) && id in w.entries
    ensures var e := w.entries[id];
      (exists f :: f in a.files && f.id == id) <==>
        !e.isFolder && !e.trashed && e.path.Some? && e.path.value in w.files
    ensures var e := w.entries[id];
      !e.isFolder && !e.trashed && e.path.Some? && e.path.value in w.files ==>
        e.path.value in Restored(now, a).files && Restored(now, a).files[e.path.value] == w.files[e.path.value]
  {
    var r := EntryRecord(id, w.entries[id]);
    assert r in a.entries;
    if Copied(w, r) {
      var f :| f in a.files && f.id == id;
      RestoreGivesFilesBack(w, a, sha, now, f);
      assert PayloadOk(w, a, f, sha);
    }
    if f :| f in a.files && f.id == id {
      assert PayloadOk(w, a, f, sha);
    }
  }

  lemma {:induction false} VersionFilesBack(w: World, files: map<Path, Bytes>, a: Archive,
                                            records: seq<VersionRecord>, p: Path)
    requires forall v :: v in records ==> VersionPayloadOk(w, a, v)
    requires p in w.files && exists v :: v in records && v.version.path == Some(p)
    ensures p in RestoredVersionFiles(files, a, records) && RestoredVersionFiles(files, a, records)[p] == w.files[p]
  {
    var front, last := records[..|records| - 1], records[|records| - 1];
    assert records == front + [last];
    assert last in records && forall v :: v in front ==> v in records;
    assert VersionPayloadOk(w, a, last);
    if last.version.path != Some(p) {
      VersionFilesBack(w, files, a, front, p);
    }
  }

  /** After any edits, restore gives every version whose file could be read its backup-time bytes at its path. */
  lemma RestoreGivesVersionFilesBack(w: World, a: Archive, sha: Bytes -> string, now: World, v: VersionRecord, p: Path)
    requires Archived(w, a, sha) && v in a.versions && v.version.path == Some(p) && p in w.files
    ensures p in Restored(now, a).files && Restored(now, a).files[p] == w.files[p]
  {
    VersionFilesBack(w, RestoredFiles(now.files, a, a.files), a, a.versions, p);
  }

  /** A path of some payload: of a listed file or of a listed version. */
  ghost predicate Payload(a: Archive, p: Path) {
    || (exists f :: f in a.files && f.path == p && f.id in a.payloads)
    || (exists v :: v in a.versions && v.version.path == Some(p) && v.id in a.versionPayloads)
  }

  lemma {:induction false} FilesKeep(files: map<Path, Bytes>, a: Archive, records: seq<FileRecord>, p: Path)
    requires forall f :: f in records && f.path == p ==> f.id !in a.payloads
    ensures var out := RestoredFiles(files, a, records);
      (p in out <==> p in files) && (p in files ==> out[p] == files[p])
  {
    if records != [] {
      var front, f := records[..|records| - 1], records[|records| - 1];
      assert records == front + [f] && f in records && forall g :: g in front ==> g in records;
      FilesKeep(files, a, front, p);
    }
  }

  lemma {:induction false} VersionFilesKeep(files: map<Path, Bytes>, a: Archive, records: seq<VersionRecord>, p: Path)
    requires forall v :: v in records && v.version.path == Some(p) ==> v.id !in a.versionPayloads
    ensures var out := RestoredVersionFiles(files, a, records);
      (p in out <==> p in files) && (p in files ==> out[p] == files[p])
  {
    if records != [] {
      var front, v := records[..|records| - 1], records[|records| - 1];
      assert records == front + [v] && v in records && forall u :: u in front ==> u in records;
      VersionFilesKeep(files, a, front, p);
    }
  }

  /** A path that no payload is for keeps what the installation has there, or its absence. */
  lemma RestoreKeepsOtherFiles(a: Archive, now: World, p: Path)
    requires !Payload(a, p)
    ensures var out := Restored(now, a).files;
      (p in out <==> p in now.files) && (p in now.files ==> out[p] == now.files[p])
  {
    FilesKeep(now.files, a, a.files, p);
    VersionFilesKeep(RestoredFiles(now.files, a, a.files), a, a.versions, p);
  }

  // Restore undoes change: rows

  /** No insert is refused. */
  predicate AllAccepted(entries: map<Id, Entry>, records: seq<EntryRecord>) {
    records != [] ==>
      && AllAccepted(entries, records[..|records| - 1])
      && Accepts(RestoredEntries(entries, records[..|records| - 1]), records[|records| - 1])
  }

  predicate DistinctIds(records: seq<EntryRecord>) {
    forall i, j :: 0 <= i < j < |records| ==> records[i].id != records[j].id
  }

  /** The columns a restore sets on a row that exists. */
  predicate SameColumns(e: Entry, e': Entry) {
    e.parent == e'.parent && e.name == e'.name && e.size == e'.size && e.hash == e'.hash && e.path == e'.path
      && e.trashed == e'.trashed
  }

  predicate Listed(records: seq<EntryRecord>, id: Id) {
    exists i :: 0 <= i < |records| && records[i].id == id
  }

  lemma ListedFront(records: seq<EntryRecord>)
    requires records != []
    ensures forall x :: Listed(records, x) <==> Listed(records[..|records| - 1], x) || x == records[|records| - 1].id
  {
    var front, n := records[..|records| - 1], |records| - 1;
    assert records[n].id == records[|records| - 1].id;
    forall x | Listed(front, x)
      ensures Listed(records, x)
    {
      var i :| 0 <= i < |front| && front[i].id == x;
      assert records[i].id == x;
    }
    forall x | Listed(records, x) && x != records[n].id
      ensures Listed(front, x)
    {
      var i :| 0 <= i < |records| && records[i].id == x;
      assert front[i].id == x;
    }
  }

  lemma {:induction false} AcceptedIds(entries: map<Id, Entry>, records: seq<EntryRecord>)
    requires AllAccepted(entries, records)
    ensures forall x :: x in RestoredEntries(entries, records) <==> x in entries || Listed(records, x)
  {
    if records != [] {
      var front, r := records[..|records| - 1], records[|records| - 1];
      AcceptedIds(entries, front);
      ListedFront(records);
    }
  }

  /** A row after the restore: as listed, or as before if it is not listed. */
  ghost predicate RowRestored(entries: map<Id, Entry>, out: map<Id, Entry>, r: EntryRecord) {
    && r.id in out && SameColumns(out[r.id], r.entry)
    && if r.id in entries then out[r.id].isFolder == entries[r.id].isFolder && out[r.id].mime == entries[r.id].mime
       else out[r.id] == r.entry
  }

  lemma {:induction false} AcceptedRows(entries: map<Id, Entry>, records: seq<EntryRecord>)
    requires AllAccepted(entries, records) && DistinctIds(records)
    ensures forall i :: 0 <= i < |records| ==> RowRestored(entries, RestoredEntries(entries, records), records[i])
  {
    if records != [] {
      var front, r := records[..|records| - 1], records[|records| - 1];
      AcceptedRows(entries, front);
      AcceptedIds(entries, front);
      UnlistedRows(entries, front);
      assert !Listed(front, r.id);
      forall i | 0 <= i < |front|
        ensures RowRestored(entries, RestoredEntries(entries, records), records[i])
      {
        assert RowRestored(entries, RestoredEntries(entries, front), front[i]);
      }
    }
  }

  lemma {:induction false} FoldersMembers(records: seq<EntryRecord>, folders: bool)
    requires DistinctIds(records)
    ensures DistinctIds(Folders(records, folders))
    ensures forall r :: r in Folders(records, folders) <==> r in records && r.entry.isFolder == folders
  {
    if records != [] {
      var front, r := records[..|records| - 1], records[|records| - 1];
      FoldersMembers(front, folders);
      assert records == front + [r];
      forall i | 0 <= i < |Folders(front, folders)|
        ensures Folders(front, folders)[i].id != r.id
      {
        assert Folders(front, folders)[i] in front;
      }
    }
  }

  lemma InsertOrderMembers(records: seq<EntryRecord>)
    requires DistinctIds(records)
    ensures DistinctIds(InsertOrder(records))
    ensures forall r :: r in InsertOrder(records) <==> r in records
  {
    FoldersMembers(records, true);
    FoldersMembers(records, false);
    var a, b := Folders(records, true), Folders(records, false);
    forall i, j | 0 <= i < |a| && 0 <= j < |b|
      ensures a[i].id != b[j].id
    {
      assert a[i] in records && b[j] in records;
    }
  }

  // Which inserts are refused

  predicate DistinctKeys(records: seq<EntryRecord>) {
    forall i, j :: 0 <= i < j < |records| ==> !SameKey(records[i].entry, records[j].entry)
  }

  predicate ListedBefore(records: seq<EntryRecord>, i: nat, id: Id)
    requires i <= |records|
  {
    exists j :: 0 <= j < i && records[j].id == id
  }

  /** The parent is there or listed before, and no other row that is not rewritten before has the key. */
  predicate Fits(entries: map<Id, Entry>, records: seq<EntryRecord>, i: nat)
    requires i < |records|
  {
    var r := records[i];
    && (r.entry.parent.Some? ==>
          r.entry.parent.value == r.id || r.entry.parent.value in entries
            || ListedBefore(records, i, r.entry.parent.value))
    && (forall x :: x in entries && x != r.id && !ListedBefore(records, i, x) ==> !SameKey(entries[x], r.entry))
  }

  predicate AllFit(entries: map<Id, Entry>, records: seq<EntryRecord>) {
    forall i :: 0 <= i < |records| ==> Fits(entries, records, i)
  }

  lemma AllFitFront(entries: map<Id, Entry>, records: seq<EntryRecord>)
    requires records != []
    ensures AllFit(entries, records) <==>
      AllFit(entries, records[..|records| - 1]) && Fits(entries, records, |records| - 1)
  {
    var front := records[..|records| - 1];
    forall i | 0 <= i < |front|
      ensures Fits(entries, records, i) <==> Fits(entries, front, i)
    {
      assert forall x :: ListedBefore(records, i, x) <==> ListedBefore(front, i, x);
    }
  }

  lemma {:induction false} UnlistedRows(entries: map<Id, Entry>, records: seq<EntryRecord>)
    ensures forall x :: x in entries ==> x in RestoredEntries(entries, records)
    ensures forall x :: x in entries && !Listed(records, x) ==> RestoredEntries(entries, records)[x] == entries[x]
  {
    if records != [] {
      UnlistedRows(entries, records[..|records| - 1]);
      ListedFront(records);
    }
  }

  /** Among rows of which all so far were accepted, the last one is accepted iff it fits. */
  lemma AcceptedIffFits(entries: map<Id, Entry>, records: seq<EntryRecord>)
    requires records != [] && DistinctIds(records) && DistinctKeys(records)
      && AllAccepted(entries, records[..|records| - 1])
    ensures Accepts(RestoredEntries(entries, records[..|records| - 1]), records[|records| - 1]) <==>
      Fits(entries, records, |records| - 1)
  {
    hide AllAccepted, RestoredEntries;
    var front, n := records[..|records| - 1], |records| - 1;
    var before, r := RestoredEntries(entries, front), records[n];
    AcceptedIds(entries, front);
    UnlistedRows(entries, front);
    forall x
      ensures ListedBefore(records, n, x) <==> Listed(front, x)
    {
      if ListedBefore(records, n, x) {
        var i :| 0 <= i < n && records[i].id == x;
        assert front[i].id == x;
      }
    }
    forall x | x in before && Listed(front, x)
      ensures !SameKey(before[x], r.entry)
    {
      ListedKey(entries, records, x);
    }
  }

  lemma ListedKey(entries: map<Id, Entry>, records: seq<EntryRecord>, x: Id)
    requires records != [] && DistinctIds(records) && DistinctKeys(records)
      && AllAccepted(entries, records[..|records| - 1])
    requires Listed(records[..|records| - 1], x)
    ensures var before := RestoredEntries(entries, records[..|records| - 1]);
      x in before && !SameKey(before[x], records[|records| - 1].entry)
  {
    hide AllAccepted, RestoredEntries;
    var front := records[..|records| - 1];
    AcceptedRows(entries, front);
    var i :| 0 <= i < |front| && front[i].id == x;
    assert RowRestored(entries, RestoredEntries(entries, front), front[i]);
    assert !SameKey(records[i].entry, records[|records| - 1].entry);
  }

  /** No insert is refused iff every listed row fits the table and the rows listed before it. */
  lemma {:induction false} AllAcceptedIff(entries: map<Id, Entry>, records: seq<EntryRecord>)
    requires DistinctIds(records) && DistinctKeys(records)
    ensures AllAccepted(entries, records) <==> AllFit(entries, records)
  {
    hide Fits, Accepts;
    if records != [] {
      AllAcceptedIff(entries, records[..|records| - 1]);
      AllFitFront(entries, records);
      if AllAccepted(entries, records[..|records| - 1]) {
        AcceptedIffFits(entries, records);
      }
    }
  }

  /** What the database guarantees of any table. */
  predicate Constrained(entries: map<Id, Entry>) {
    && (forall x, y :: x in entries && y in entries && x != y ==> !SameKey(entries[x], entries[y]))
    && (forall x :: x in entries && entries[x].parent.Some? ==> entries[x].parent.value in entries)
  }

  lemma {:induction false} RestoreKeepsConstrained(entries: map<Id, Entry>, records: seq<EntryRecord>)
    requires Constrained(entries)
    ensures Constrained(RestoredEntries(entries, records))
  {
    if records != [] {
      hide Constrained, Accepts, Upsert;
      var before, r := RestoredEntries(entries, records[..|records| - 1]), records[|records| - 1];
      RestoreKeepsConstrained(entries, records[..|records| - 1]);
      if Accepts(before, r) {
        UpsertKeepsConstrained(before, r);
      }
    }
  }

  lemma UpsertKeepsConstrained(entries: map<Id, Entry>, r: EntryRecord)
    requires Constrained(entries) && Accepts(entries, r)
    ensures Constrained(Upsert(entries, r))
  {
    var out := Upsert(entries, r);
    forall x | x in out && x != r.id
      ensures out[x] == entries[x] && !SameKey(out[x], out[r.id])
    {
    }
  }

  /** A row that is refused is missing afterwards or differs from what was listed. */
  lemma RefusedIsNotRestored(entries: map<Id, Entry>, records: seq<EntryRecord>)
    requires Constrained(entries) && records != []
    requires !Accepts(RestoredEntries(entries, records[..|records| - 1]), records[|records| - 1])
    ensures !RowRestored(entries, RestoredEntries(entries, records), records[|records| - 1])
  {
    var before, r := RestoredEntries(entries, records[..|records| - 1]), records[|records| - 1];
    RestoreKeepsConstrained(entries, records[..|records| - 1]);
    assert RestoredEntries(entries, records) == before;
    SameRowIsAccepted(before, r);
  }

  lemma SameRowIsAccepted(entries: map<Id, Entry>, r: EntryRecord)
    requires Constrained(entries)
    ensures r.id in entries && SameColumns(entries[r.id], r.entry) ==> Accepts(entries, r)
  {
    if r.id in entries && SameColumns(entries[r.id], r.entry) {
      forall x | x in entries && x != r.id
        ensures !SameKey(entries[x], r.entry)
      {
        assert !SameKey(entries[x], entries[r.id]);
      }
    }
  }

  lemma {:induction false} SomeRowNotRestored(entries: map<Id, Entry>, records: seq<EntryRecord>) returns (i: nat)
    requires Constrained(entries) && DistinctIds(records) && DistinctKeys(records) && !AllAccepted(entries, records)
    ensures i < |records| && !RowRestored(entries, RestoredEntries(entries, records), records[i])
  {
    hide Accepts, Constrained;
    var front := records[..|records| - 1];
    if AllAccepted(entries, front) {
      RefusedIsNotRestored(entries, records);
      i := |records| - 1;
    } else {
      i := SomeRowNotRestored(entries, front);
      assert records[i] == front[i] && records[i].id != records[|records| - 1].id;
    }
  }

  /** The row of an entry is back: with its parent, name, size, hash, path and trash flag, and when it was
      deleted with its kind and MIME type too; otherwise those two stay as they are. */
  predicate RowBack(w: World, now: World, out: World, id: Id)
    requires id in w.entries
  {
    && id in out.entries && SameColumns(out.entries[id], w.entries[id])
    && if id in now.entries
       then out.entries[id].isFolder == now.entries[id].isFolder && out.entries[id].mime == now.entries[id].mime
       else out.entries[id] == w.entries[id]
  }

  /** After any edits, restore gives every entry its row back iff each fits the table found and the rows inserted
      before it. */
  lemma RestoreGivesRowsBack(w: World, a: Archive, sha: Bytes -> string, now: World)
    requires Archived(w, a, sha) && Constrained(w.entries) && Constrained(now.entries)
    ensures (forall id :: id in w.entries ==> RowBack(w, now, Restored(now, a), id)) <==>
      AllFit(now.entries, InsertOrder(a.entries))
  {
    hide Constrained, Fits, AllFit, RestoredEntries, RestoredVersions, RestoredFiles, RestoredVersionFiles, InsertOrder;
    var order := InsertOrder(a.entries);
    OrderOfArchive(w, a, sha);
    AllAcceptedIff(now.entries, order);
    var out := RestoredEntries(now.entries, order);
    if AllAccepted(now.entries, order) {
      AcceptedRows(now.entries, order);
      forall id | id in w.entries
        ensures RowBack(w, now, Restored(now, a), id)
      {
        var i :| 0 <= i < |order| && order[i] == EntryRecord(id, w.entries[id]);
        assert RowRestored(now.entries, out, order[i]);
      }
    } else {
      var i := SomeRowNotRestored(now.entries, order);
      assert order[i] in order;
      assert !RowBack(w, now, Restored(now, a), order[i].id);
    }
  }

  /** Restore inserts the rows of the backup, each once and no two with one key. */
  lemma OrderOfArchive(w: World, a: Archive, sha: Bytes -> string)
    requires Archived(w, a, sha) && Constrained(w.entries)
    ensures var order := InsertOrder(a.entries);
      && DistinctIds(order) && DistinctKeys(order)
      && (forall r :: r in order <==> r.id in w.entries && w.entries[r.id] == r.entry)
      && (forall id :: id in w.entries ==> EntryRecord(id, w.entries[id]) in order)
  {
    hide InsertOrder;
    InsertOrderMembers(a.entries);
    var order := InsertOrder(a.entries);
    forall i, j | 0 <= i < j < |order|
      ensures !SameKey(order[i].entry, order[j].entry)
    {
      assert order[i] in order && order[j] in order;
    }
  }

  // The folders

  /** The rows as a table of parents. */
  function Tree(entries: map<Id, Entry>): Ancestry.Table {
    map x | x in entries ::
      var kind := if entries[x].isFolder then Ancestry.Folder else Ancestry.File;
      Ancestry.Row(0, entries[x].parent, entries[x].name, kind, entries[x].trashed)
  }

  /** When every row fits, restore makes no cycle if there was none in the backup and there is none in the table. */
  lemma RestoreKeepsAcyclic(w: World, a: Archive, sha: Bytes -> string, now: World)
    requires Archived(w, a, sha) && Constrained(w.entries) && Constrained(now.entries)
    requires AllFit(now.entries, InsertOrder(a.entries))
    requires Ancestry.Acyclic(Tree(w.entries)) && Ancestry.Acyclic(Tree(now.entries))
    ensures Ancestry.Acyclic(Tree(Restored(now, a).entries))
  {
    hide AllFit, InsertOrder, RestoredVersions, RestoredFiles, RestoredVersionFiles, RestoredEntries,
      Ancestry.Acyclic, Archived;
    var order := InsertOrder(a.entries);
    var out := RestoredEntries(now.entries, order);
    OrderOfArchive(w, a, sha);
    AllAcceptedIff(now.entries, order);
    RestoreGivesRowsBack(w, a, sha, now);
    AcceptedIds(now.entries, order);
    UnlistedRows(now.entries, order);
    forall x
      ensures Listed(order, x) <==> x in w.entries
    {
      ListedIffThere(w, order, x);
    }
    assert forall x :: x in w.entries ==> RowBack(w, now, Restored(now, a), x);
    assert Tree(out).Keys == Tree(now.entries).Keys + Tree(w.entries).Keys by {
      forall x
        ensures x in Tree(out) <==> x in Tree(now.entries) || x in Tree(w.entries)
      {
      }
    }
    Ancestry.OverlaidAcyclic(Tree(now.entries), Tree(w.entries), Tree(out));
  }

  lemma ListedIffThere(w: World, order: seq<EntryRecord>, x: Id)
    requires forall r :: r in order <==> r.id in w.entries && w.entries[r.id] == r.entry
    requires forall id :: id in w.entries ==> EntryRecord(id, w.entries[id]) in order
    ensures Listed(order, x) <==> x in w.entries
  {
    if i :| 0 <= i < |order| && order[i].id == x {
      assert order[i] in order;
    }
    if x in w.entries {
      var i :| 0 <= i < |order| && order[i] == EntryRecord(x, w.entries[x]);
      assert order[i].id == x;
    }
  }

  /** A refused row can close a cycle: folder B was in A; later B was moved to the root, A into B, and a new A was
      made at the root. A's row is refused, B's is not, and each is then the other's parent. */
  lemma RestoreMakesCycle(sha: Bytes -> string)
    ensures var a, b := Folder(None, "A"), Folder(Some(1), "B");
      var w := World(map[1 := a, 2 := b], map[], map[]);
      var now := World(map[1 := Folder(Some(2), "A"), 2 := Folder(None, "B"), 3 := a], map[], map[]);
      var arch := Archive(map[], map[], [], [EntryRecord(1, a), EntryRecord(2, b)], []);
      && Archived(w, arch, sha) && Constrained(w.entries) && Constrained(now.entries)
      && Ancestry.Acyclic(Tree(w.entries)) && Ancestry.Acyclic(Tree(now.entries))
      && !Ancestry.Acyclic(Tree(Restored(now, arch).entries))
  {
    var r1, r2 := EntryRecord(1, Folder(None, "A")), EntryRecord(2, Folder(Some(1), "B"));
    var w := World(map[1 := r1.entry, 2 := r2.entry], map[], map[]);
    var e := map[1 := Folder(Some(2), "A"), 2 := Folder(None, "B"), 3 := r1.entry];
    var out := map[1 := Folder(Some(2), "A"), 2 := r2.entry, 3 := r1.entry];
    ArchivedTwo(w, sha, r1, r2);
    TwoRecords(r1, r2);
    hide Accepts, Constrained, Archived, InsertOrder, RestoredEntries, Tree, Upsert;
    TwoInserts(e, r1, r2);
    CycleInserts();
    TreesOfTwo();
    assert e[2 := r2.entry] == out;
    assert Restored(World(e, map[], map[]), Archive(map[], map[], [], [r1, r2], [])).entries == out;
  }

  lemma CycleInserts()
    ensures var r1, r2 := EntryRecord(1, Folder(None, "A")), EntryRecord(2, Folder(Some(1), "B"));
      var e := map[1 := Folder(Some(2), "A"), 2 := Folder(None, "B"), 3 := r1.entry];
      && !Accepts(e, r1) && Accepts(e, r2) && Upsert(e, r2) == e[2 := r2.entry]
      && Constrained(map[1 := r1.entry, 2 := r2.entry]) && Constrained(e)
  {
    var r1, r2 := EntryRecord(1, Folder(None, "A")), EntryRecord(2, Folder(Some(1), "B"));
    var e := map[1 := Folder(Some(2), "A"), 2 := Folder(None, "B"), 3 := r1.entry];
    assert "A"[0] != "B"[0];
    assert SameKey(e[3], r1.entry);
  }

  lemma TreesOfTwo()
    ensures var a, b := Folder(None, "A"), Folder(Some(1), "B");
      && Ancestry.Acyclic(Tree(map[1 := a, 2 := b]))
      && Ancestry.Acyclic(Tree(map[1 := Folder(Some(2), "A"), 2 := Folder(None, "B"), 3 := a]))
      && !Ancestry.Acyclic(Tree(map[1 := Folder(Some(2), "A"), 2 := b, 3 := a]))
  {
    var a, b := Folder(None, "A"), Folder(Some(1), "B");
    var t1 := Tree(map[1 := a, 2 := b]);
    var t2 := Tree(map[1 := Folder(Some(2), "A"), 2 := Folder(None, "B"), 3 := a]);
    var t3 := Tree(map[1 := Folder(Some(2), "A"), 2 := b, 3 := a]);
    Ancestry.RankedIsAcyclic(t1, x => if x == 2 then 1 else 0);
    Ancestry.RankedIsAcyclic(t2, x => if x == 1 then 1 else 0);
    assert Ancestry.Up(t3, 1, 2) == Ancestry.Up(t3, 2, 1) == Ancestry.Up(t3, 1, 0) == Some(1);
    assert Ancestry.OnCycle(t3, 1);
  }

  predicate DistinctVersions(records: seq<VersionRecord>) {
    forall i, j :: 0 <= i < j < |records| ==>
      records[i].id != records[j].id && !SameSlot(records[i].version, records[j].version)
  }

  predicate SlotTaken(versions: map<Id, Version>, v: Version) {
    exists x :: x in versions && SameSlot(versions[x], v)
  }

  /** Whether a listed version finds its row, its entry or its slot as the restore needs them. */
  predicate Reinserted(entries: map<Id, Entry>, versions: map<Id, Version>, v: VersionRecord) {
    v.id !in versions && v.version.entry in entries && !SlotTaken(versions, v.version)
  }

  predicate VersionListed(records: seq<VersionRecord>, x: Id, v: Version) {
    exists i :: 0 <= i < |records| && records[i] == VersionRecord(x, v)
  }

  /** Versions that were there stay, and every other one is as listed. */
  predicate OldOrListed(versions: map<Id, Version>, out: map<Id, Version>, records: seq<VersionRecord>) {
    && (forall x :: x in versions ==> x in out && out[x] == versions[x])
    && (forall x :: x in out && x !in versions ==> VersionListed(records, x, out[x]))
  }

  lemma {:induction false} VersionsOldOrListed(entries: map<Id, Entry>, versions: map<Id, Version>,
                                               records: seq<VersionRecord>)
    ensures OldOrListed(versions, RestoredVersions(entries, versions, records), records)
  {
    if records != [] {
      var front, v := records[..|records| - 1], records[|records| - 1];
      VersionsOldOrListed(entries, versions, front);
      assert records[|records| - 1] == VersionRecord(v.id, v.version);
      forall x, u | VersionListed(front, x, u)
        ensures VersionListed(records, x, u)
      {
        var i :| 0 <= i < |front| && front[i] == VersionRecord(x, u);
        assert records[i] == VersionRecord(x, u);
      }
    }
  }

  lemma {:induction false} VersionsBack(entries: map<Id, Entry>, versions: map<Id, Version>,
                                        records: seq<VersionRecord>, k: nat)
    requires DistinctVersions(records) && k < |records| && records[k].id !in versions
    ensures records[k].id in RestoredVersions(entries, versions, records) <==> Reinserted(entries, versions, records[k])
  {
    hide AcceptsVersion, Reinserted;
    var front, n := records[..|records| - 1], |records| - 1;
    if k < n {
      VersionsBack(entries, versions, front, k);
      assert records[n].id != records[k].id;
    } else {
      NewSlot(entries, versions, records);
    }
  }

  /** The last listed version meets no slot but those taken before the restore. */
  lemma NewSlot(entries: map<Id, Entry>, versions: map<Id, Version>, records: seq<VersionRecord>)
    requires records != [] && DistinctVersions(records) && records[|records| - 1].id !in versions
    ensures var before, v := RestoredVersions(entries, versions, records[..|records| - 1]), records[|records| - 1];
      v.id !in before && (AcceptsVersion(entries, before, v.version) <==> Reinserted(entries, versions, v))
  {
    hide RestoredVersions;
    var front, v := records[..|records| - 1], records[|records| - 1];
    var before := RestoredVersions(entries, versions, front);
    VersionsOldOrListed(entries, versions, front);
    forall x | x in before && x !in versions
      ensures x != v.id && !SameSlot(before[x], v.version)
    {
      var i :| 0 <= i < |front| && front[i] == VersionRecord(x, before[x]);
      assert records[i] == front[i];
    }
  }

  /** Restore leaves the versions that exist alone and brings a lost one back as it was listed, exactly when its
      entry is there after the restore and its number has not been given away since. */
  lemma RestoreGivesVersionsBack(a: Archive, now: World, v: VersionRecord)
    requires DistinctVersions(a.versions) && v in a.versions
    ensures var out := Restored(now, a);
      && (v.id in now.versions ==> v.id in out.versions && out.versions[v.id] == now.versions[v.id])
      && (v.id !in now.versions ==>
            (v.id in out.versions <==> v.version.entry in out.entries && !SlotTaken(now.versions, v.version)))
      && (v.id !in now.versions && v.id in out.versions ==> out.versions[v.id] == v.version)
  {
    hide RestoredVersions;
    var out := Restored(now, a);
    VersionsOldOrListed(out.entries, now.versions, a.versions);
    var k :| 0 <= k < |a.versions| && a.versions[k] == v;
    if v.id !in now.versions {
      VersionsBack(out.entries, now.versions, a.versions, k);
      if v.id in out.versions {
        var i :| 0 <= i < |a.versions| && a.versions[i] == VersionRecord(v.id, out.versions[v.id]);
        assert i == k;
      }
    }
  }

  /** A parent comes before its children. */
  predicate ParentsFirst(records: seq<EntryRecord>) {
    forall i :: 0 <= i < |records| ==> ParentSeen(records, i)
  }

  predicate ParentSeen(records: seq<EntryRecord>, i: nat)
    requires i < |records|
  {
    var e := records[i].entry;
    e.parent.Some? ==> e.parent.value == records[i].id || exists j :: 0 <= j < i && records[j].id == e.parent.value
  }

  /** Into an emptied table, nothing is refused iff the folders-first order lists every parent before its children:
      a nested folder listed before its parent is silently lost. */
  lemma RestoreIntoEmptyIff(records: seq<EntryRecord>)
    requires DistinctIds(records) && DistinctKeys(records)
    ensures AllAccepted(map[], records) <==> ParentsFirst(records)
  {
    AllAcceptedIff(map[], records);
    forall i | 0 <= i < |records|
      ensures Fits(map[], records, i) <==> ParentSeen(records, i)
    {
    }
  }

  /** A nested folder listed before its parent is lost when the backup is restored into an emptied table. */
  lemma NestedFolderIsLost(sha: Bytes -> string)
    ensures var outer, inner := Folder(None, "outer"), Folder(Some(1), "inner");
      var w := World(map[1 := outer, 2 := inner], map[], map[]);
      var a := Archive(map[], map[], [], [EntryRecord(2, inner), EntryRecord(1, outer)], []);
      Archived(w, a, sha) && Constrained(w.entries)
        && Restored(World(map[], map[], map[]), a).entries == map[1 := outer]
  {
    var r1, r2 := EntryRecord(2, Folder(Some(1), "inner")), EntryRecord(1, Folder(None, "outer"));
    var w := World(map[1 := r2.entry, 2 := r1.entry], map[], map[]);
    ArchivedTwo(w, sha, r1, r2);
    TwoRecords(r1, r2);
    TwoInserts(map[], r1, r2);
    assert !Accepts(map[], r1) && Accepts(map[], r2);
    assert SameKey(r1.entry, r2.entry) == false;
  }

  /** Two files whose names were swapped after the backup keep the swapped names: each insert is refused for the
      row that the other would have changed. */
  lemma SwappedNamesStay(sha: Bytes -> string)
    ensures var x, y := File("x"), File("y");
      var w, now := World(map[1 := x, 2 := y], map[], map[]), World(map[1 := y, 2 := x], map[], map[]);
      var a := Archive(map[], map[], [], [EntryRecord(1, x), EntryRecord(2, y)], []);
      && Archived(w, a, sha) && Constrained(w.entries) && Constrained(now.entries)
      && Restored(now, a).entries == now.entries
  {
    hide Accepts, Constrained, Archived, InsertOrder, RestoredEntries;
    var r1, r2 := EntryRecord(1, File("x")), EntryRecord(2, File("y"));
    var w, e := World(map[1 := r1.entry, 2 := r2.entry], map[], map[]), map[1 := r2.entry, 2 := r1.entry];
    ArchivedTwo(w, sha, r1, r2);
    TwoRecords(r1, r2);
    TwoInserts(e, r1, r2);
    SwapIsRefused(r1, r2);
  }

  lemma SwapIsRefused(r1: EntryRecord, r2: EntryRecord)
    requires r1.id != r2.id && !SameKey(r1.entry, r2.entry) && r1.entry.parent == r2.entry.parent == None
    ensures var e := map[r1.id := r2.entry, r2.id := r1.entry];
      Constrained(map[r1.id := r1.entry, r2.id := r2.entry]) && Constrained(e) && !Accepts(e, r1) && !Accepts(e, r2)
  {
    var e := map[r1.id := r2.entry, r2.id := r1.entry];
    assert SameKey(e[r2.id], r1.entry) && SameKey(e[r1.id], r2.entry);
  }

  function Folder(parent: Option<Id>, name: string): Entry {
    Entry(parent, name, true, None, 0, None, None, false)
  }

  function File(name: string): Entry {
    Entry(None, name, false, None, 0, None, None, false)
  }

  lemma ArchivedTwo(w: World, sha: Bytes -> string, r1: EntryRecord, r2: EntryRecord)
    requires r1.id != r2.id && w == World(map[r1.id := r1.entry, r2.id := r2.entry], map[], map[])
    ensures Archived(w, Archive(map[], map[], [], [r1, r2], []), sha)
  {
  }

  lemma TwoRecords(r1: EntryRecord, r2: EntryRecord)
    requires r1.entry.isFolder == r2.entry.isFolder
    ensures InsertOrder([r1, r2]) == [r1, r2]
  {
    assert [r1, r2][..1] == [r1] && [r1][..0] == [];
    forall b
      ensures Folders([r1, r2], b) == if r1.entry.isFolder == b then [r1, r2] else []
    {
      assert Folders([r1], b) == if r1.entry.isFolder == b then [r1] else [];
    }
  }

  lemma TwoInserts(entries: map<Id, Entry>, r1: EntryRecord, r2: EntryRecord)
    ensures var e1 := if Accepts(entries, r1) then Upsert(entries, r1) else entries;
      RestoredEntries(entries, [r1, r2]) == if Accepts(e1, r2) then Upsert(e1, r2) else e1
  {
    hide Accepts, Upsert;
    assert [r1, r2][..1] == [r1] && [r1][..0] == [];
    assert RestoredEntries(entries, [r1]) == if Accepts(entries, r1) then Upsert(entries, r1) else entries;
  }

  // Verdicts

  lemma {:induction false} ArchivedIsHealthy(w: World, a: Archive, sha: Bytes -> string, records: seq<FileRecord>)
    requires forall f :: f in records ==> PayloadOk(w, a, f, sha)
    ensures Missing(a, records) == 0 && Corruptions(a, sha, records) == 0
  {
    if records != [] {
      var front, f := records[..|records| - 1], records[|records| - 1];
      assert f in records && forall g :: g in front ==> g in records;
      ArchivedIsHealthy(w, a, sha, front);
      assert PayloadOk(w, a, f, sha);
    }
  }

  /** A fresh backup verifies as healthy, and restoring it reports no corruption and every file. */
  lemma FreshBackupIsHealthy(w: World, a: Archive, sha: Bytes -> string)
    requires Archived(w, a, sha)
    ensures Healthy(Readable(a), sha) && Corruptions(a, sha, a.files) == 0
      && |a.files| - Missing(a, a.files) == |a.files|
  {
    ArchivedIsHealthy(w, a, sha, a.files);
  }

  /** A bad payload: missing, or hashing to something else than the manifest says. */
  predicate Bad(a: Archive, sha: Bytes -> string, f: FileRecord) {
    f.id !in a.payloads || sha(a.payloads[f.id]) != f.hash
  }

  /** On a readable manifest healthy means that every listed payload is there with its hash; then restore counts no
      corruption. Restore's own verdict, zero corruptions, does not see a missing payload. */
  lemma {:induction false} HealthyMeansNoBadPayload(a: Archive, sha: Bytes -> string, records: seq<FileRecord>)
    ensures Missing(a, records) == 0 && Corruptions(a, sha, records) == 0 <==>
      forall i :: 0 <= i < |records| ==> !Bad(a, sha, records[i])
    ensures Corruptions(a, sha, records) == 0 <==>
      forall i :: 0 <= i < |records| ==> Bad(a, sha, records[i]) ==> records[i].id !in a.payloads
  {
    if records != [] {
      HealthyMeansNoBadPayload(a, sha, records[..|records| - 1]);
    }
  }

  /** A verification says healthy iff there is a manifest and every payload a readable one lists is there and hashes to
      what the manifest says. */
  lemma HealthyIff(m: Manifest, sha: Bytes -> string)
    ensures Healthy(m, sha) <==>
      m != Absent && (m.Readable? ==>
        forall f :: f in m.archive.files ==> f.id in m.archive.payloads && sha(m.archive.payloads[f.id]) == f.hash)
  {
    if m.Readable? {
      var a := m.archive;
      HealthyMeansNoBadPayload(a, sha, a.files);
      assert (forall i :: 0 <= i < |a.files| ==> !Bad(a, sha, a.files[i])) <==>
        forall f :: f in a.files ==> !Bad(a, sha, f);
    }
  }
}
