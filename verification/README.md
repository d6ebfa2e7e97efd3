# PCOS: models and proofs

PCOS is a self-hosted cloud: a Rust agent on each device, a Rust backend, and a Cloudflare worker that offers the
same services. This project models the parts of it whose correctness does not show in any single function body, and
proves properties of them over all inputs, all runs and all interleavings.

| file | what it models |
|---|---|
| `Delta.dfy` | content-defined chunking: where `split_into_chunks` cuts, why an edit moves few cuts, what `diff_chunks` sends |
| `Transport.dfy` | chunk files on the server: storing, counting, assembling, finalising a resumable transfer |
| `Ancestry.dfy`, `Forest.dfy` | `file_entries` as a parent-pointer graph; create, upload, rename, move, trash, restore, purge over it |
| `Paths.dfy` | the breadcrumb walk up and the WebDAV walk down |
| `Bits.dfy`, `Bip39.dfy`, `Base32.dfy`, `Base64.dfy` | codecs over a fixed-width accumulator that loses its high bits |
| `Pairing.dfy`, `PairingRuns.dfy`, `PairingDevices.dfy`, `PairingWitnesses.dfy` | the backend's pairing store, every interleaving of its lock-held steps, the devices made, and runs that show where the guarantees end |
| `Hub.dfy`, `Limiter.dfy` | the Durable Object form with storage and reload, and the failed-attempt limiter |
| `Rebalance.dfy` | replica rebalancing, one replica a call in the backend, one pass in the worker |
| `Backup.dfy` | backup, restore and verification over table rows and file bytes |
| `Queue.dfy` | the agent's offline queue file |
| `Uri.dfy` | printing and parsing PCOS URIs |
| `Strings.dfy`, `Sets.dfy`, `Numbers.dfy`, `Wrappers.dfy` | splitting and joining strings, finite sets, minimum and maximum, `Option` and `Result` |

How the models are built. Objects whose methods update fields are classes, and each method's new state equals a
function of the old one; the lemmas are about those functions and about runs of them. SHA-256, random ids and codes,
the clock, `toLowerCase`/`toUpperCase` and the text form of a UUID are parameters. Rows are maps from ids. A database
statement that would break a unique key or a foreign key fails and changes nothing. The recursive queries are
worklist loops, level by level; the number of rounds after which the database gives a query up is a parameter, and a
call whose query is given up changes nothing. Which queries end is proved (`Ancestry.QueryEndsIffNotOnCycle`).

Where the code and its own words part, the model follows the code:

- The comment at `backend/crates/file_metadata/src/service.rs:315` rules out moves into descendants; the test in the
  next line only rules out the item itself (`Forest.MoveBelowIsAccepted`). A move the code accepts keeps the table
  without cycles iff its target is outside the moved subtree (`Forest.AcceptedMove`); otherwise the moved folder can
  not be trashed until an entry of the cycle is moved (`Forest.StuckUntilMoved`). Moving it back takes the cycle away
  (`Forest.MoveBack`).
- A resumable transfer does not look at its parent folder; it keeps a child's owner equal to its parent's iff that
  folder is the user's own (`Forest.AcceptedInit`).
- Chunks are meant to tile the file; the last byte is lost exactly when the boundary test fires on it
  (`Delta.ReassemblyIffNoFinalCut`), for zero bytes when n - 1 is a multiple of MIN
  (`Delta.ZerosLoseTheLastByteIff`). The agent's upload loses it when it also sends the file in chunks
  (`Transport.AgentUpload`), as it does with 1114113 zero bytes (`Transport.ZerosArriveShort`).
- A pairing session is called single use. Two direct redemptions that overlap make two devices, and so do two
  approvals, or a direct redemption beside an approval (`PairingWitnesses.OverlappingRedemptionsMakeTwo`,
  `PairingWitnesses.TwoApprovalsMakeTwo`, `PairingWitnesses.RedemptionBesideApprovalMakesTwo`). A session makes at
  most one device iff every call that comes back with one finds the session there without a result, or swept away
  without one and with no call back since (`PairingDevices.AtMostOneDeviceIff`).
- A rejection is meant to end the pairing; it is lifted by a claim (`PairingWitnesses.ClaimUndoesRejection`) and by
  the end of an approval, begun before the rejection or after it (`PairingWitnesses.PendingApprovalUndoesRejection`,
  `PairingWitnesses.LaterApprovalUndoesRejection`), and by nothing else (`PairingRuns.StepLiftsRejectionIff`,
  `PairingRuns.RejectionStandsIff`).
- The branch for too many failed attempts is never taken, because nothing counts one
  (`PairingRuns.AttemptsAreNeverCounted`).
- Six-digit pairing codes are drawn without a test that they are new; the indexes stay inverse to the sessions
  throughout a run iff all keys it inserts are new (`Pairing.AlwaysInverseIff`).
- Restore inserts folders first "to preserve hierarchy", but in manifest order among themselves, and ignores refused
  inserts: a folder listed before its parent is lost (`Backup.NestedFolderIsLost`), and two files that swapped names
  stay swapped (`Backup.SwappedNamesStay`). Every row comes back iff each listed one fits the table found and the rows
  listed before it (`Backup.RestoreGivesRowsBack`); then restore also makes no cycle of folders, as it can otherwise
  (`Backup.RestoreKeepsAcyclic`, `Backup.RestoreMakesCycle`).
- A backup whose manifest does not parse verifies as healthy and can not be restored
  (`Backup.HealthyButNotRestorable`).
- A finalised transfer can be finalised again, and a failed integrity check cannot be repeated
  (`Transport.FinalizeTwice`, `Transport.RetryAfterIntegrityFailure`).
- The Rust base32 decoder casts characters to `u8` first, so some letters beyond ASCII read as alphabet characters
  (`Base32.DecodersDisagreeBeyondAscii`, `Base32.UpperCaseDoesNotHelp`). Both decoders accept a string and read the
  same digits in it iff it is over the alphabet (`Base32.SameDigitsIff`), provided JavaScript upper-cases character by
  character, the alphabet as ASCII does, and turns no other character that Rust accepts into the digit Rust reads.
- The two phrase validators take different characters for whitespace. They read the same words iff the phrase has
  neither U+0085 nor U+FEFF (`Bip39.SameTokensIff`); the worker refuses every phrase with the first and the backend
  every phrase with the second (`Bip39.ValidatorsAgree`), so a phrase written with U+0085 between its words is accepted
  by the backend only (`Bip39.NextLineSplitsVerdicts`).

## Model

| member | source | states |
|---|---|---|
| Delta.SplitIntoChunks | agent/src/delta.rs:36-79 | the loop gives the chunks ended by cuts, plus the open one unless the very last byte is a cut |
| Delta.HashIsBase31 | agent/src/delta.rs:44-47 | the rolling hash of a window is the base-31 number of its bytes modulo 2^32 |
| Delta.RealCutIff | agent/src/delta.rs:10-16 | with the module's constants a byte is a cut iff its chunk has 64 KiB and the base-31 number of the window is a multiple of 262144, or its chunk has 1 MiB |
| Delta.DiffChunks | agent/src/delta.rs:83-92 | the indices of the local chunks whose hash no server chunk has, in order |
| Delta.ChunksShape | agent/src/delta.rs:43-76 | chunks are non-empty, numbered 0,1,2,…, contiguous from offset 0, hashed over their bytes, at most MAX long and all but the last at least MIN long |
| Delta.Tiling | agent/src/delta.rs:54-70 | every byte lies in exactly one chunk, except that the last byte lies in none exactly when the boundary test fires on it |
| Delta.ReassemblyIffNoFinalCut | agent/src/delta.rs:43-76 | joining the chunks gives the input back iff the boundary test does not fire on the last byte |
| Delta.ZerosLoseTheLastByteIff | agent/src/delta.rs:43-76 | a file of n zero bytes comes back one byte short iff n - 1 is a positive multiple of MIN, and whole otherwise |
| Delta.PrefixCuts | agent/src/delta.rs:43-76 | appending bytes moves no earlier cut and no earlier chunk |
| Delta.PrefixChunks | agent/src/delta.rs:43-76 | every chunk of a file but its last reappears unchanged when the file grows |
| Delta.ResyncOpen | agent/src/delta.rs:43-76 | from two interior cuts followed by equal bytes on, open chunks and cuts are the same, shifted |
| Delta.Locality | agent/src/delta.rs:36-79 | all chunks after two such cuts have equal lengths and hashes at shifted offsets, and all chunks before end by the cut |
| Delta.FirstChunkIsSpecial | agent/src/delta.rs:43-52 | interior cuts are needed: equal bytes at the start of a file and after a cut can be cut differently |
| Delta.DiffMembers | agent/src/delta.rs:83-92 | an index is sent iff it is a local chunk whose hash the server lacks |
| Delta.AppendSendsTheEnd | agent/src/delta.rs:83-92 | after appending, nothing before the old last chunk is sent again |
| Delta.EditSendsTheFront | agent/src/delta.rs:83-92 | after an edit in front of a common cut, nothing from that cut on is sent again |
| Transport.CountedChunksAssemble | backend/crates/file_metadata/src/resumable.rs:230-248 | counted chunk files assemble iff their indices are exactly 0..count-1, by pigeonhole |
| Transport.StoredPieces | backend/crates/file_metadata/src/storage.rs:77-98 | whatever the order and repetitions of writes of a file's pieces, index i holds piece i and nothing else is stored |
| Transport.PieceSize | backend/crates/file_metadata/src/resumable.rs:152-162 | offsets of one 2 MiB piece have one index, small negative ones have index 0, and pieces are 2 MiB long |
| Transport.UploadAssembles | backend/crates/file_metadata/src/storage.rs:101-146 | assembly of such writes succeeds iff the written indices are an initial segment, and gives that much of the file |
| Transport.UploadIsComplete | backend/crates/file_metadata/src/storage.rs:101-146 | it gives the whole file iff every piece was written |
| Transport.AgentUpload | agent/src/sync.rs:76-131 | the agent's upload, chunks stored in any order, leaves the file on the server iff it is sent whole or the boundary test does not fire on its last byte |
| Transport.ZerosArriveShort | agent/src/sync.rs:76-131 | with the real constants, 1114113 zero bytes are sent in chunks and arrive one byte short |
| Transport.Transfer.WriteChunk | backend/crates/file_metadata/src/resumable.rs:134-175 | refused for a finalised transfer or an undecodable payload without any change, else the payload replaces what its index held |
| Transport.Transfer.AssembleChunks | backend/crates/file_metadata/src/storage.rs:101-146 | succeeds iff chunks 0..n-1 are there; then their concatenation is stored with its hash and size and the chunks are gone, else nothing changes |
| Transport.Transfer.FinalizeTransfer | backend/crates/file_metadata/src/resumable.rs:210-300 | row, stored files, chunks and answer after every path through finalisation, errors included |
| Transport.EqIgnoresCaseOnly | backend/crates/file_metadata/src/resumable.rs:267-278 | two hashes pass the comparison iff they have equal lengths and at each position equal characters or the two cases of one letter |
| Transport.FinalizeChecksBytes | backend/crates/file_metadata/src/resumable.rs:248-290 | with all counted chunks there, a client hash of other bytes is refused and the row stays; the right one in any case, or none, stores the assembled bytes with their hash and size |
| Transport.FinalizeGaps | backend/crates/file_metadata/src/resumable.rs:230-258 | with a gap in the chunks nothing happens; with none at all the transfer becomes a file of no bytes |
| Transport.FinalizeDeclared | backend/crates/file_metadata/src/resumable.rs:258-290 | without chunks a client hash is refused iff the declared hash says something and is another one |
| Transport.FinalizedIsIntact | backend/crates/file_metadata/src/resumable.rs:225-300 | a successful finalisation leaves a row that names stored bytes with their hash and size, and has confirmed the client's hash, exactly when there was a chunk to assemble |
| Transport.FinalizeTwice | backend/crates/file_metadata/src/resumable.rs:258-264 | finalising again also succeeds, and leaves the row naming a path that holds no file |
| Transport.RetryAfterIntegrityFailure | backend/crates/file_metadata/src/resumable.rs:267-278 | a failed integrity check has consumed the chunks; the retry is judged by the hash declared at the start only |
| Transport.ResumableUpload | backend/crates/file_metadata/src/resumable.rs:134-300 | end to end: with all pieces written in any order, finalising with the file's hash stores the file; any success stores a prefix of the file with the same hash |
| Ancestry.GroundedIffNoCycleAbove | backend/crates/file_metadata/src/service.rs:512-548 | the walk up from an entry ends iff it meets no cycle |
| Ancestry.AcyclicIffGrounded | backend/crates/file_metadata/src/service.rs:512-548 | a table has no cycle iff every walk up ends |
| Ancestry.MoveInsideMakesCycle | backend/crates/file_metadata/src/service.rs:323-331 | a move below the moved entry makes it its own ancestor, in every table |
| Ancestry.MoveOutsideKeepsAcyclic | backend/crates/file_metadata/src/service.rs:323-331 | a move outside the moved subtree keeps the table acyclic |
| Ancestry.MoveIsSafeIffOutside | backend/crates/file_metadata/src/service.rs:323-331 | a move keeps an acyclic table acyclic iff its target lies outside the moved subtree |
| Ancestry.NewRowKeepsAcyclic | backend/crates/file_metadata/src/service.rs:33-38 | a new row below an existing one makes no cycle |
| Ancestry.FewerRowsAcyclic | backend/crates/file_metadata/src/service.rs:433-445 | deleting any rows makes no cycle |
| Ancestry.Descendants | backend/crates/file_metadata/src/service.rs:339-344 | the recursive query is given up iff some level is not empty after the rounds allowed, and otherwise returns exactly the entries having the root as ancestor or self |
| Ancestry.Cascade | backend/migrations/20240101000005_file_entries.sql:5 | deleting rows deletes exactly the entries at or below one of them |
| Ancestry.QueryEndsIffNotOnCycle | backend/crates/file_metadata/src/service.rs:339-344 | on a cycle no number of rounds is enough; off a cycle as many rounds as there are rows are |
| Forest.FileService.CreateFolderIn | backend/crates/file_metadata/src/service.rs:8-41 | table and answer of one call, with the missing-parent, conflict and constraint errors |
| Forest.FileService.UploadFile | backend/crates/file_metadata/src/service.rs:113-145 | table and answer of one call; no name check of its own |
| Forest.FileService.InitResumable | backend/crates/file_metadata/src/resumable.rs:79-117 | table and answer of one call; blank names and negative sizes are refused, and of the parent only the foreign key is asked |
| Forest.FileService.RenameItem | backend/crates/file_metadata/src/service.rs:267-299 | table and answer of one call |
| Forest.FileService.MoveItem | backend/crates/file_metadata/src/service.rs:302-332 | table and answer of one call; the target is tested for being an owned folder other than the item |
| Forest.FileService.DeleteItem | backend/crates/file_metadata/src/service.rs:335-354 | the trash flag is set on the whole subtree, or the statement fails or is given up and changes nothing |
| Forest.FileService.RestoreFromTrash | backend/crates/file_metadata/src/service.rs:367-398 | the trash flag is cleared on the whole subtree of a trashed item, or nothing changes |
| Forest.FileService.PermanentDelete | backend/crates/file_metadata/src/service.rs:401-448 | the subtree of a trashed item is removed, or the query is given up and nothing changes |
| Forest.FileService.EmptyTrashOf | backend/crates/file_metadata/src/service.rs:451-469 | the user's trashed entries go, with everything below them |
| Forest.StepKeepsInv | backend/crates/file_metadata/src/service.rs:8-469 | every call keeps the table acyclic, parents present, owners equal along parents and keys unique, except a move into the moved subtree and a transfer started in somebody else's folder |
| Forest.RunKeepsInv | backend/crates/file_metadata/src/service.rs:8-469 | so does every run of calls by any users |
| Forest.AcceptedMove | backend/crates/file_metadata/src/service.rs:302-332 | a move the code accepts keeps the table acyclic iff the target is not in the moved subtree |
| Forest.MoveBelowIsAccepted | backend/crates/file_metadata/src/service.rs:315-320 | the code accepts a move of a folder into a folder inside it, and a cycle results |
| Forest.MovedBelowIsStuck | backend/crates/file_metadata/src/service.rs:315-344 | right after any accepted move below the moved entry, trashing that entry is given up, however long its query may run |
| Forest.StuckUntilMoved | backend/crates/file_metadata/src/service.rs:8-469 | and so it stays in any run of other calls that moves no entry of the cycle |
| Forest.RunKeepsCycle | backend/crates/file_metadata/src/service.rs:8-469 | an entry on a cycle stays on one in every run that moves no entry of its cycle and does not remove it |
| Forest.MoveBack | backend/crates/file_metadata/src/service.rs:302-332 | moving the entry back to its former folder takes any accepted move back, also one that made a cycle |
| Forest.AcceptedInit | backend/crates/file_metadata/src/resumable.rs:79-117 | a transfer the code starts keeps the invariant iff its parent, if any, is the user's own |
| Forest.AbortsIffOnCycle | backend/crates/file_metadata/src/service.rs:335-448 | trash, restore and purge of an entry on a cycle never finish, and of any other finish in as many rounds as there are rows |
| Forest.NameClashes | backend/crates/file_metadata/src/service.rs:20-31 | for create, upload, rename and move: exactly which name clashes are refused as conflicts and which only the unique key stops |
| Forest.RefusedIff | backend/crates/file_metadata/src/service.rs:502-510 | exactly which calls answer that something is not found, and which that they make no sense |
| Forest.CreatesTheRow | backend/crates/file_metadata/src/service.rs:33-38 | an accepted folder, upload or transfer is there with its owner, parent, name and kind, live, and every other row is as before |
| Forest.RenamesTheItem | backend/crates/file_metadata/src/service.rs:290-298 | an accepted rename changes the item's name and nothing else |
| Forest.MovesTheItem | backend/crates/file_metadata/src/service.rs:323-331 | an accepted move changes the item's parent and nothing else |
| Forest.CreatedFolderTakesMoves | backend/crates/file_metadata/src/service.rs:302-332 | a folder just created takes every entry of its user |
| Forest.MarksExactlyTheSubtree | backend/crates/file_metadata/src/service.rs:335-398 | trash and restore change the flag of the entries at or below the item and nothing else |
| Forest.RestoreUndoesTrashIff | backend/crates/file_metadata/src/service.rs:335-398 | restoring right after trashing gives the table back iff nothing in the subtree was already trashed |
| Forest.TrashFailsIffShadowed | backend/migrations/20240101000005_file_entries.sql:17-18 | trashing fails iff a live entry of the subtree has a namesake beside it in the trash |
| Forest.RestoreFailsIffReplaced | backend/migrations/20240101000005_file_entries.sql:17-18 | restoring fails iff a trashed entry of the subtree has a live namesake beside it |
| Forest.PurgeLeavesNoOrphan | backend/crates/file_metadata/src/service.rs:401-448 | permanent deletion removes exactly the subtree and leaves no entry without its parent |
| Forest.EmptyTrashRemoves | backend/crates/file_metadata/src/service.rs:451-469 | an entry goes with the trash iff it or an ancestor is a trashed entry of the user; the others stay as they are |
| Forest.EmptyTrashRemovesLiveEntries | backend/crates/file_metadata/src/service.rs:451-469 | a live entry goes with the trash iff one of its ancestors is trashed |
| Paths.BuildBreadcrumb | backend/crates/file_metadata/src/service.rs:512-548 | ends whenever the walk up ends, and gives the root followed by the walk up read downwards |
| Paths.ResolvePath | backend/crates/file_metadata/src/webdav.rs:33-94 | answers one of the results that the segment-by-segment lookup allows, early stops included |
| Paths.PathIsUnique | backend/crates/file_metadata/src/service.rs:512-548 | there is one breadcrumb only |
| Paths.BreadcrumbFromTheRoot | backend/crates/file_metadata/src/service.rs:512-548 | in every table that keeps the invariant the breadcrumb exists, starts at an entry without parent, goes from parent to child and ends at the folder |
| Paths.MineIsGrounded | backend/crates/file_metadata/src/service.rs:512-548 | in every acyclic table the walk ends, also through the per-user filter |
| Paths.DownTheChain | backend/crates/file_metadata/src/webdav.rs:33-94 | with unique names, the lookup of a chain of live folders has one answer, the last entry and its parent |
| Paths.DownThenMissing | backend/crates/file_metadata/src/webdav.rs:60-90 | where the way down breaks off, at the last segment or before, there is no target and the parent is the deepest folder reached |
| Paths.MissingResolvesToFolder | backend/crates/file_metadata/src/webdav.rs:33-94 | the same for path texts: a missing last name resolves to the folder it would be in |
| Paths.RenameMovesThePath | backend/crates/file_metadata/src/service.rs:267-299 | after an accepted rename the path with the new name leads to the item, and the old path to its folder without a target |
| Paths.BreadcrumbResolves | backend/crates/file_metadata/src/webdav.rs:33-94 | what the breadcrumb method returns for an entry below live folders, joined into a path, leads the path lookup back to exactly that entry and its parent |
| Paths.WalkDownUndoesWalkUp | backend/crates/file_metadata/src/webdav.rs:33-94 | the joined names along a walk up of live folders resolve to exactly the entry it starts from and its parent, whichever rows the queries pick |
| Bits.ChopUnique | backend/crates/auth/src/recovery.rs:60-70 | only one grouping of a bit string into w-bit values with fewer than w bits left exists |
| Bits.ChopFlatten | backend/crates/auth/src/recovery.rs:108-122 | regrouping flattened values gives the values back, leftovers ignored |
| Bits.AccPush | backend/crates/auth/src/recovery.rs:60-70 | shifting a value into an accumulator of any width keeps the pending bits, whatever high bits are lost |
| Bits.AccTake | backend/crates/auth/src/recovery.rs:60-70 | shifting and masking reads the oldest pending bits and keeps the rest |
| Bits.PushUnsigned | agent/src/fs_handler.rs:446-480 | the same for an unsigned accumulator of a given width |
| Bits.PushInt32 | cloudflare/src/services/bip39.ts:2061-2092 | the same for JavaScript's signed 32-bit shifts |
| Bip39.PackLayout | backend/crates/auth/src/recovery.rs:47-84 | every entropy and checksum has twelve indices below 2048 that spell the same 132 bits |
| Bip39.LayoutIsUnique | backend/crates/auth/src/recovery.rs:88-136 | twelve indices spell one entropy and checksum only |
| Bip39.PackingIsBijective | backend/crates/auth/src/recovery.rs:47-136 | every twelve indices below 2048 are the packing of exactly one entropy and checksum, and packing those gives them back |
| Bip39.PackUnsigned | backend/crates/auth/src/recovery.rs:47-84 | the u32 loop lays out entropy and checksum bits as the indices |
| Bip39.PackSigned | cloudflare/src/services/bip39.ts:2061-2092 | the signed loop lays out the same bits, and refuses entropy that is not 16 bytes |
| Bip39.UnpackUnsigned | backend/crates/auth/src/recovery.rs:103-128 | the u32 loop recovers the entropy and checksum the indices spell |
| Bip39.UnpackSigned | cloudflare/src/services/bip39.ts:2097-2144 | so does the signed loop |
| Bip39.BuildWordMap | backend/crates/auth/src/recovery.rs:34-44 | the map holds exactly the words, each with an index of it |
| Bip39.LookUp | backend/crates/auth/src/recovery.rs:97-106 | fails iff some token is no word, else gives indices that spell the tokens |
| Bip39.GeneratePhrase | backend/crates/auth/src/recovery.rs:47-84 | the phrase is the joined words of the entropy |
| Bip39.PhraseBits | backend/crates/auth/src/recovery.rs:47-84 | the words of a phrase spell the entropy and the first four bits of its hash |
| Bip39.Validate | backend/crates/auth/src/recovery.rs:88-136 | a phrase is accepted iff its lower-cased words are the phrase of some entropy, with the two other errors characterised |
| Bip39.ValidateMnemonic | cloudflare/src/services/bip39.ts:2097-2144 | a phrase is accepted iff its tokens, as JavaScript trims, lower-cases and splits it, are the phrase of some entropy, with the two other errors characterised |
| Bip39.SameTokensIff | cloudflare/src/services/bip39.ts:2097-2107 | the two validators read the same words, or none, iff the phrase has no character that only one language takes for whitespace |
| Bip39.ValidatorsAgree | cloudflare/src/services/bip39.ts:2097-2144 | without such a character the verdicts are the same; with U+0085 the worker refuses and with U+FEFF the backend does, whatever the words |
| Bip39.NextLineSplitsVerdicts | backend/crates/auth/src/recovery.rs:88-136 | every phrase written with U+0085 between its words is accepted by the backend and refused by the worker |
| Bip39.Accepts | backend/crates/auth/src/recovery.rs:124-136 | twelve known words are a phrase iff the checksum they carry is the entropy's |
| Bip39.PhraseDeterminesEntropy | backend/crates/auth/src/recovery.rs:88-136 | for any hash, a phrase has one entropy only |
| Bip39.GeneratedIsAccepted | backend/crates/auth/src/recovery.rs:276-284 | the generated phrase splits back into its words and is accepted |
| Base32.Encode | backend/crates/auth/src/mfa.rs:18-37 | the accumulator loop gives the unpadded base32 text of section 6 of RFC 4648 |
| Base32.ForeignIsDropped | cloudflare/src/services/auth.ts:183-186 | the worker's decoder passes over every character outside the upper-case alphabet |
| Base32.Decode | backend/crates/auth/src/mfa.rs:55-72 | fails iff some character has no value, else gives the whole bytes in the bits the characters spell |
| Base32.ToBytes | cloudflare/src/services/auth.ts:183-196 | the bit-string loop gives the whole bytes of the cleaned upper-case text |
| Base32.RoundTrip | backend/crates/auth/src/mfa.rs:18-72 | decoding an encoding gives back the bytes; the encoding is over the alphabet and ceil(8n/5) long |
| Base32.DecodersAgree | cloudflare/src/services/auth.ts:183-196 | on every string over the alphabet in either case both decoders accept and agree, with floor(5n/8) bytes |
| Base32.SameDigitsIff | backend/crates/auth/src/mfa.rs:55-72 | for every character-wise upper-casing that is ASCII's on the alphabet and makes no other accepted character the digit Rust reads: the Rust decoder accepts a string and both read the same digits in it iff it is over the alphabet |
| Base32.UpperCaseDoesNotHelp | cloudflare/src/services/auth.ts:183-196 | U+0142 and U+0149 meet that premise: Rust reads 1 and 8, the worker nothing and 13 |
| Base32.DecodersDisagreeBeyondAscii | backend/crates/auth/src/mfa.rs:55-72 | U+0141 reads as A in Rust and is dropped in TypeScript |
| Base64.Encode | agent/src/fs_handler.rs:415-443 | three bytes at a time gives the sextets of the bit string, padded (section 4 of RFC 4648) |
| Base64.Decode | agent/src/fs_handler.rs:446-480 | the 32-bit accumulator loop gives the whole bytes of the sextets before the first padding sign, or the first bad character |
| Base64.RoundTrip | agent/src/fs_handler.rs:415-480 | decoding an encoding gives back the bytes, and the encoding is 4·ceil(n/3) long |
| Base64.WhitespaceIsIgnored | agent/src/fs_handler.rs:446-480 | whitespace inserted anywhere in an encoding does not change the result |
| Base64.PaddingEnds | agent/src/fs_handler.rs:446-480 | nothing counts from the first padding character on |
| Base64.RefusedForFirstForeign | agent/src/fs_handler.rs:446-480 | a text is refused iff a character before the padding is neither a digit nor whitespace, and then for the first such one |
| Pairing.PairingStore.CleanupExpired | backend/crates/device/src/service.rs:44-55 | removing expired sessions one by one, in any order, equals removing them all at once |
| Pairing.PairingStore.ClaimSession | backend/crates/device/src/service.rs:253-310 | the store and answer of one claim |
| Pairing.PairingStore.DecideSession | backend/crates/device/src/service.rs:327-379 | the store and answer of the first half of approve: a rejection takes effect, an approval only passes the check |
| Pairing.PairingStore.CommitApproval | backend/crates/device/src/service.rs:428-437 | the second half of approve, under whatever session the key finds by then |
| Pairing.PairingStore.RedeemSession | backend/crates/device/src/service.rs:493-528 | hand-out with removal, start of the direct path, or refusal |
| Pairing.FindIffNamed | backend/crates/device/src/service.rs:65-79 | a key finds the session that has it as its code, or as its token when no session has it as its code |
| Pairing.ClaimAnswers | backend/crates/device/src/service.rs:253-310 | a claim by expiry and failed attempts: what becomes of the session, and that no other changes |
| Pairing.DecideAnswers | backend/crates/device/src/service.rs:327-379 | nobody else's decision changes anything, none does after the expiry, and the owner's refusal rejects |
| Pairing.CommitAnswers | backend/crates/device/src/service.rs:428-437 | the end of an approval leaves the session approved with the result |
| Pairing.RedeemAnswers | backend/crates/device/src/service.rs:493-528 | nothing is handed out or started after the expiry or a rejection; a stored result is handed out and the session is found no more |
| Pairing.RunNeverDangles | backend/crates/device/src/service.rs:44-89 | after any run of inserts with fresh ids, removals and sweeps, every index entry points to a live session holding that key, whatever keys collide |
| Pairing.RunKeepsInverse | backend/crates/device/src/service.rs:44-89 | with fresh keys the session table and the two indexes stay mutually inverse |
| Pairing.AlwaysInverseIff | backend/crates/device/src/service.rs:44-89 | with fresh ids, the session table and the indexes are mutually inverse throughout a run iff every inserted session has fresh keys |
| Pairing.CollisionHidesSession | backend/crates/device/src/service.rs:57-89 | fresh keys are needed: a shared code leaves a live session that its code no longer finds |
| PairingRuns.NextKeepsInv | backend/crates/device/src/service.rs:253-580 | every step, of any call, keeps the invariant that ties sessions, calls in flight and past events together |
| PairingRuns.RunKeepsInv | backend/crates/device/src/service.rs:253-580 | so does every interleaving in which ids and keys are not reused |
| PairingRuns.RedeemedAtMostOnceAfterApproval | backend/crates/device/src/service.rs:505-518 | in every interleaving a session's result is handed out at most once, not under status rejected, and only after it was stored by an approval that had passed the owner check before |
| PairingRuns.ApprovedHasResult | backend/crates/device/src/service.rs:428-437 | approved implies a stored result, and the direct path starts only from pending_redeem |
| PairingRuns.AttemptsAreNeverCounted | backend/crates/device/src/service.rs:276-282 | the branch for too many failed attempts is never taken |
| PairingDevices.AtMostOneDeviceIff | backend/crates/device/src/service.rs:313-580 | in every interleaving, every session makes at most one device, approvals and direct redemptions counted, iff every call that comes back with one finds the session there without a result, or swept away without one and with no call back since |
| PairingDevices.AtMostOneDeviceIffOpen | backend/crates/device/src/service.rs:428-437 | while no sweep removes a session that a call in flight works on, that is iff each such call finds its session there without a result |
| PairingWitnesses.OverlappingRedemptionsMakeTwo | backend/crates/device/src/service.rs:574-580 | two overlapping direct redemptions of one session make two devices |
| PairingWitnesses.TwoApprovalsMakeTwo | backend/crates/device/src/service.rs:382-437 | two approvals make two, and the status query and the redemption give away the tokens of both |
| PairingWitnesses.RedemptionBesideApprovalMakesTwo | backend/crates/device/src/service.rs:530-580 | a direct redemption beside an approval makes a second one though it finds its session there |
| PairingRuns.StepLiftsRejectionIff | backend/crates/device/src/service.rs:253-580 | a step takes the rejection off a session iff it is a claim of it in time or the end of an approval of it; no step hands out a rejected session's result |
| PairingRuns.RejectionStandsIff | backend/crates/device/src/service.rs:253-580 | for the rest of a run a rejection stands iff no such step comes, and while it stands nothing is handed out |
| PairingWitnesses.ClaimUndoesRejection | backend/crates/device/src/service.rs:294-295 | a run in which a claim lifts a rejection and the result stored before is redeemed |
| PairingWitnesses.PendingApprovalUndoesRejection | backend/crates/device/src/service.rs:428-437 | a run in which an approval under way lifts a rejection |
| PairingWitnesses.LaterApprovalUndoesRejection | backend/crates/device/src/service.rs:327-437 | a run in which an approval made after the rejection lifts it and makes a second device |
| Hub.PairingHub.constructor | cloudflare/src/durable_objects/PairingHub.ts:14-28 | loading keeps exactly the unexpired stored sessions, each under its keys, in any storage order |
| Hub.PairingHub.CleanupExpired | cloudflare/src/durable_objects/PairingHub.ts:34-43 | the sweep in memory; storage stays as it is |
| Hub.PairingHub.Fetch | cloudflare/src/durable_objects/PairingHub.ts:58-235 | memory, storage, attempt records and answer after one request |
| Hub.CreateAnswers | cloudflare/src/durable_objects/PairingHub.ts:81-107 | a created session is saved and shown under its code and its token until it expires |
| Hub.ClaimRequestAnswers | cloudflare/src/durable_objects/PairingHub.ts:109-172 | a claim makes the device the candidate of the unexpired session its key names and clears the address, or counts a failure |
| Hub.BlockedClaimAnswers | cloudflare/src/durable_objects/PairingHub.ts:109-121 | a blocked address is refused and changes nothing |
| Hub.ApproveAnswers | cloudflare/src/durable_objects/PairingHub.ts:174-211 | the owner's decision sets status and result and is saved; anybody else's is refused and changes nothing |
| Hub.ConsumeAnswers | cloudflare/src/durable_objects/PairingHub.ts:224-235 | a consumed session is in neither memory nor storage, no key finds it, and no other session changes |
| Hub.StatusAnswers | cloudflare/src/durable_objects/PairingHub.ts:213-222 | the status is that of the one unexpired session of the key, and there is none iff there is no such session |
| Hub.ConsumedIsNotShown | cloudflare/src/durable_objects/PairingHub.ts:213-235 | no later status shows a consumed session |
| Hub.OnlyTheOwnerDecides | cloudflare/src/durable_objects/PairingHub.ts:109-211 | no request changes a session's owner, keys or expiry; only its owner's request approves or rejects it or sets its result, and only a claim under its key sets a candidate |
| Hub.HandledKeepsSynced | cloudflare/src/durable_objects/PairingHub.ts:58-235 | after every request storage is memory plus, at most, expired sessions |
| Hub.RunKeepsSynced | cloudflare/src/durable_objects/PairingHub.ts:58-235 | so after every run |
| Hub.ReloadIsSweep | cloudflare/src/durable_objects/PairingHub.ts:14-43 | after every run, loading from storage gives the memory swept at that time, whatever order storage lists the sessions in |
| Limiter.RateLimiter.Check | cloudflare/src/index.ts:70-78 | blocked iff a block lasts, with the seconds to wait rounded up |
| Limiter.RateLimiter.RecordFailedAttempt | cloudflare/src/index.ts:80-92 | the count goes on after a block has ended, and from the fifth failure on starts a block |
| Limiter.RunCounts | cloudflare/src/index.ts:70-96 | a key's record counts the failures admitted since its last success, and from the sixth on they are five minutes apart, whatever other keys do |
| Limiter.AdmittedIff | cloudflare/src/index.ts:70-78 | an attempt is let through iff fewer than five failures were since the last success, or the last of them is 300000 ms old |
| Limiter.AttemptCounts | cloudflare/src/index.ts:80-96 | a success let through clears the record, a failure counts one more and from the fifth on blocks for 300000 ms |
| Limiter.LimiterBound | cloudflare/src/index.ts:70-96 | since the last success, k admitted failures satisfy k ≤ 5 + floor((t_k − t_5)/300000) once k ≥ 5 |
| Hub.ClaimsAreLimited | cloudflare/src/durable_objects/PairingHub.ts:109-143 | after any run of requests the attempts per address are what the limiter holds after the run's claims |
| Hub.ClaimFailuresAreBounded | cloudflare/src/durable_objects/PairingHub.ts:109-143 | so the same bound holds for the claims of one address in any run since the object was loaded |
| Rebalance.ReplicaTable.InsertFirst | backend/crates/gateway/src/cluster.rs:243-266 | one row for the first online node that lacks the file, or none |
| Rebalance.ReplicaTable.RebalanceCluster | backend/crates/gateway/src/cluster.rs:227-273 | each listed file gets at most one more node, rows only grow, and the count is the number of rows added |
| Rebalance.ReplicaTable.FillFile | cloudflare/src/index.ts:4060-4095 | one file's rows after its pass, no other file touched, and the number added |
| Rebalance.ReplicaTable.RebalancePass | cloudflare/src/index.ts:4047-4096 | every file's rows after the pass, files not listed untouched, and the count is the number of rows added |
| Rebalance.OneMoreStep | backend/crates/gateway/src/cluster.rs:227-273 | a call adds exactly one online node while the file is short of its goal, and nothing afterwards |
| Rebalance.CallsConverge | backend/crates/gateway/src/cluster.rs:227-273 | n calls take c replicas to min(c+n, max(c, min(target, size of existing ∪ online))), reach that goal within target−c calls and then change nothing |
| Rebalance.NothingToSpread | backend/crates/gateway/src/cluster.rs:227-228 | with a target of one or fewer than two nodes online neither form adds anything |
| Rebalance.FillReachesGoal | cloudflare/src/index.ts:4047-4096 | the one-pass loop reaches the same number at once |
| Rebalance.FillIsRepeatedCalls | cloudflare/src/index.ts:4047-4096 | from the same replicas the pass and the repeated calls end with the same set of nodes |
| Rebalance.PassReachesGoal | cloudflare/src/index.ts:4047-4096 | rows and primary node together are at the goal after one pass, and the pass agrees with the calls when the primary node has a row or there is none |
| Rebalance.DeficitFalls | backend/crates/gateway/src/cluster.rs:227-273 | the total deficit never rises and stays the same only at zero |
| Backup.CreateBackup | backend/crates/backup/src/service.rs:150-210 | the archive lists every row, and holds the bytes and hash of every live file that can be read and the bytes of every version whose file can |
| Backup.Installation.RestoreBackup | backend/crates/backup/src/service.rs:350-473 | files, rows and versions after a restore, with refused inserts ignored, and the four counters |
| Backup.VerifyBackupDir | backend/crates/backup/src/service.rs:607-665 | the verdict, for an absent, an unreadable and a readable manifest |
| Backup.RestoreGivesFilesBack | backend/crates/backup/src/service.rs:346-385 | after any edits, restore gives every file in the manifest its backup-time bytes at its backup-time path, also when entries and versions share paths |
| Backup.LiveFilesComeBack | backend/crates/backup/src/service.rs:154-178 | a file is in the backup iff it was live and readable, and then its bytes come back |
| Backup.RestoreGivesVersionFilesBack | backend/crates/backup/src/service.rs:443-453 | after any edits, every version whose file could be read has its backup-time bytes at its path |
| Backup.RestoreKeepsOtherFiles | backend/crates/backup/src/service.rs:346-473 | a path that no payload is for keeps what the installation has there |
| Backup.AllAcceptedIff | backend/crates/backup/src/service.rs:405-431 | into any table, no insert is refused iff every listed row has its parent there or listed before, and no other row not listed before has its key |
| Backup.RestoreGivesRowsBack | backend/crates/backup/src/service.rs:387-436 | after any edits, every entry gets its backup-time parent, name, size, hash, path and trash flag back, with kind and MIME type as they are or, for a deleted one, as they were, iff every listed row fits in that sense |
| Backup.RestoreKeepsAcyclic | backend/crates/backup/src/service.rs:387-436 | when every listed row fits, restore makes no cycle of folders if backup and table have none |
| Backup.RestoreMakesCycle | backend/crates/backup/src/service.rs:405-431 | without that premise it can: one row is refused, the other closes a cycle |
| Backup.RestoreIntoEmptyIff | backend/crates/backup/src/service.rs:393-436 | into an empty table no insert is refused iff the folders-first order lists every parent before its children |
| Backup.NestedFolderIsLost | backend/crates/backup/src/service.rs:393-436 | a backup that lists a nested folder before its parent loses it |
| Backup.SwappedNamesStay | backend/crates/backup/src/service.rs:405-431 | two files whose names were swapped after the backup keep the swapped names |
| Backup.RestoreGivesVersionsBack | backend/crates/backup/src/service.rs:438-473 | versions that exist stay; a lost one comes back as listed iff its entry is there and its number is free |
| Backup.FreshBackupIsHealthy | backend/crates/backup/src/service.rs:607-665 | a fresh backup verifies as healthy, and restoring it counts every file and no corruption |
| Backup.HealthyMeansNoBadPayload | backend/crates/backup/src/service.rs:614-652 | healthy iff every listed payload is there with its hash, so restore counts no corruption; zero corruptions alone does not see missing payloads |
| Backup.HealthyIff | backend/crates/backup/src/service.rs:607-655 | healthy iff there is a manifest and every payload that a readable one lists is there with its hash |
| Queue.OfflineQueue.Enqueue | agent/src/queue.rs:64-72 | the id's old entry goes, the new one is added, the list is stably sorted and saved |
| Queue.OfflineQueue.Dequeue | agent/src/queue.rs:75-84 | the first entry with the id is removed and returned, or nothing changes |
| Queue.StableSortedIsSort | agent/src/queue.rs:64-72 | the sort is descending and keeps the order of equal priorities, losing nothing |
| Queue.SortIsUnique | agent/src/queue.rs:64-72 | so any stable sort gives the same list |
| Queue.DequeueRemovesTheId | agent/src/queue.rs:75-84 | with distinct ids, removing the first entry with an id removes that id |
| Queue.RunIsOrdered | agent/src/queue.rs:37-91 | every run keeps ids distinct, priorities descending, equal priorities in order of latest enqueue, and entries as last enqueued |
| Queue.RunHoldsPending | agent/src/queue.rs:37-91 | an id is queued iff it was enqueued and neither dequeued nor drained since |
| Queue.AttemptIsAtomic | agent/src/queue.rs:52-61 | an operation that crashes at any step of its save changes the queue completely or not at all |
| Queue.CrashesAreAtomic | agent/src/queue.rs:52-61 | after any run with crashes the file lists what the completed operations alone would have left |
| Uri.FromStr | agent/src/identity.rs:37-77 | the segment loop ends on every input and reads pairs after `node` and `file`, the last one winning |
| Uri.PrintThenParse | agent/src/identity.rs:17-77 | parsing what was printed gives the value back iff its cloud id has no slash |
| Uri.ParsedIsFree | agent/src/identity.rs:37-77 | every accepted value has a cloud id without a slash |
| Uri.ParsePrintParse | agent/src/identity.rs:17-77 | so parsing, printing and parsing again gives the first result, on every input |
| Uri.AcceptedShape | agent/src/identity.rs:37-53 | what is accepted has the prefix, a cloud id, the word device and the device id, and the value says so |
| Uri.LaterPairsWin | agent/src/identity.rs:54-77 | a later node or file pair wins over an earlier one, and any other segment is passed over |

## Left out

- HTTP routing, JSON shapes, SQL text, authentication, token signing and WebSockets: maps, parameters and abstract steps stand for them.
- File-system and database failures, except unique keys, foreign keys, unreadable source files, missing chunks, missing payloads and unparsable files, which are modelled.
- Storage quota checks, timestamps other than expiry and limiter times, column length limits, and the deletion of stored bytes on permanent deletion.
- Rows of two calls interleaving inside one file-service call: each call is one step.
- Temporary chunk files that a crashed write leaves behind, and a write that runs while a transfer is being finalised.
- Transport.UploadAssembles: files of at most 2^31 pieces, because the chunk index is an i32.
- Base32.DecodersAgree: JavaScript's `toUpperCase` is a parameter, assumed to be the ASCII one on strings over the alphabet.
- Interleavings at the await points inside one PairingHub request, and the second expiry test of its claim, which follows the sweep of the same request.
- Hub.ClaimFailuresAreBounded: is about one lifetime of the object, because attempts are not stored and a reload starts with none.
- Bip39.ValidatorsAgree: is about phrases that both languages lower-case character by character; their lower-casing functions are parameters.
- PairingDevices.AtMostOneDeviceIff: counts devices whose tokens a call comes back with; a call that fails after its device row was inserted leaves a row without tokens, which is not counted.
- Other writers of the file table: the WebDAV and S3 write methods and the completion of the agent's chunked upload insert rows of their own.
- Backup of share links, backup schedules and retention, edits that run while a backup is being made, and entries that become duplicates of another user's.
- Failing inserts inside the worker's rebalancing loop, and nodes that go online or offline between two calls.
- The XOR placeholder cipher, TOTP truncation, HTTP ranges, path allow-lists, the presence hub, storage policies and cluster labels: each is settled by one short branch or loop, or is not about state.
