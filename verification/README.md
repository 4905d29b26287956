# waxseal: the evidence machinery, modelled and proved

waxseal keeps a hash-chained audit trail and the evidence around it. This project models the parts whose
correctness that evidence rests on:

- **Consistency proofs** (`Binary`, `MerkleTree`, `Consistency`, `ConsistencyWalk`, `ConsistencyVerifier`,
  `HeadVectors`): the tree hash, proof generator and bit-twiddling verifier of RFC 9162 sections 2.1.1,
  2.1.4.1 and 2.1.4.2, the traced verifier that records its accumulators and names each rejection, and runs of
  successive heads.
- **The hosted chain** (`Receipts`, `Chains`, `Protocol`, `ProtocolStorage`, `RemoteClient`): the compare-and-swap append, the
  receipt log under its own lock, the two log checkers, and every interleaving of clients, handlers, crashes and
  rotations.
- **The file backend** (`TailReader`, `IntegrityScan`, `Backends`): the backward tail reader, the resumable scan,
  and the JSONL backend as a refinement of the in-memory list.
- **The attestor** (`Attestor`): key file, aggregate accumulator and sidecar, three writes with a crash possible
  between any two.
- **Codecs, paging, cache** (`Frames`, `Der`, `Paging`, `OutcomeCache`).

SHA-256 is a parameter of every definition that hashes and nothing is assumed of it. A result that needs
collision-freedom names, through a function of its inputs, the two different byte strings that collide
(`Consistency.Forgery`, `Consistency.Misfit`, `MerkleTree.LeafCollision`, `Receipts.LinkCollision` and their combinations); saying only
that some collision exists would be true of any hash with a fixed output length. Key evolution, sealing and the
aggregate step are parameters too. JSON and base64 are a codec with a round trip as its only hypothesis
(`Backends.Faithful`). Text is its UTF-8 bytes. The file system is the bytes of the files; a lock is an atomic step and
a crash stops between two writes. Clock readings are real numbers passed in, in any order.

Five places where the code does less than one might read into it are stated exactly, rather than avoided:

- the consistency verifier does not check the length of the element its walk starts from, which is the old root when
  its size is a power of two and the first proof element otherwise. Against an honest new root, an accepted old root is
  a prefix's root exactly when that element is 32 bytes, up to a named collision (`Consistency.AcceptanceExact`; inputs
  that fail are in `DigestLengthIsNeeded` and `DigestRootIsNotEnough`). Where the old root is known to be a tree hash,
  no length matters (`Consistency.AcceptedMeansPrefix`);
- `der_len` is right exactly for lengths below 256^126 (`Der.DerLenExact`);
- `der_oid` is right exactly for valid identifiers with 40 * first + second < 128 (`Der.OidExact`);
- a checkpoint with an epoch but no commitment is written without its epoch (`Frames.CheckpointFrameBinds`);
- after a scan of a file that shrank, later scans can miss a bad line exactly when the short file does not begin with
  a good, terminated line (`IntegrityScan.ShrinkExact`).

## Model

| member | source | states |
|---|---|---|
| Binary.PowerOfTwoTest | tools/gen_consistency_vectors.py:101 | the test `old_size & (old_size - 1) == 0` is true exactly of the powers of two |
| MerkleTree.ComputeSplitPoint | tools/gen_consistency_vectors.py:35-39 | the doubling loop ends at the largest power of two below n, for every n >= 2, and at 1 otherwise |
| MerkleTree.CompleteDropsTheOldRoot | tools/gen_consistency_vectors.py:56-69 | the proof made with complete=true differs from the one made with false exactly when m is a power of two, and then only by the old root at the front, which is what the verifier puts back |
| MerkleTree.PrefixHash | tools/gen_consistency_vectors.py:42-49 | the tree of a prefix that reaches past the split has the same left child as the whole tree |
| MerkleTree.TreeHashBinds | tools/gen_consistency_vectors.py:31-49 | two leaf lists of any sizes with one root are equal, or the named pair of hash inputs collides; leaf and node tags keep a leaf from passing for a node |
| MerkleTree.TreeIsLevels | tools/gen_consistency_vectors.py:27-49 | the recursion at split points is the tree built level by level: leaves hashed under tag 0, neighbours paired left to right under tag 1, an odd one carried up, and no leaves giving the hash of nothing |
| MerkleTree.LevelSplit | tools/gen_consistency_vectors.py:35-49 | cutting any level at its split point cuts the level-by-level tree at its root |
| Consistency.RebuildHonest | tools/gen_consistency_vectors.py:56-69 | undoing the generated proof level by level gives back the root of the first m leaves and of all of them |
| Consistency.RebuildLength | tools/gen_consistency_vectors.py:109-122 | the two sizes alone decide the one length a proof can have |
| Consistency.AcceptedLength | tools/gen_consistency_vectors.py:80-122 | every accepted proof, honest or not, has that length, which is at most ceil(log2 n) + 1 |
| Consistency.Completeness | tools/gen_consistency_vectors.py:72-122 | for every leaf list and 1 <= m <= n the generated proof exists and is accepted, powers of two and m = n included |
| Consistency.RebuildSound | tools/gen_consistency_vectors.py:80-122 | a path that starts from a digest and rebuilds the true new root is the generated path and rebuilds the true old root, or the named inputs collide; the later elements may have any length |
| Consistency.Soundness | tools/gen_consistency_vectors.py:80-122 | if the new root is the hash of n leaves, the proof is accepted and the element the walk starts from is 32 bytes, the old root is the hash of the first m leaves and the proof is the generated one, or the named inputs collide |
| Consistency.MisfitCollides | tools/gen_consistency_vectors.py:80-122 | if both roots are hashes of leaf lists and the walk starts from something that is not 32 bytes, the two node inputs found by walking both trees collide |
| Consistency.AcceptanceExact | tools/gen_consistency_vectors.py:80-122 | for every accepted proof against an honest new root: the old root is the hash of the first m leaves if and only if the walk starts from 32 bytes, and then the proof is the generated one; or the named inputs collide |
| Consistency.AcceptedMeansPrefix | tools/gen_contract_vectors.py:596-616 | if both roots are hashes of leaf lists, acceptance means the old list is a prefix of the new one, or the named inputs collide, whatever the lengths in the proof: a rewritten trail cannot be proved an extension |
| Consistency.DigestLengthIsNeeded | tools/gen_consistency_vectors.py:91-96 | for every hash and any two leaves, an old root of 33 bytes that is no prefix's root is accepted, with no node forged |
| Consistency.DigestRootIsNotEnough | tools/gen_consistency_vectors.py:91-96 | for every hash and any four leaves, an old root of 32 bytes is accepted at sizes 3 and 4 with no node forged; it is the prefix's root exactly if its own two inputs, which differ in length, collide |
| Consistency.RunIsPrefixSafe | tools/gen_contract_vectors.py:546-580 | in any run of heads each accepted against the one before, every head is the hash of a prefix of the last head's leaves if and only if every proof starts from 32 bytes, or the named inputs collide |
| HeadVectors.BuildHeads | tools/gen_contract_vectors.py:546-580 | for any increasing positions the loop never raises, and its heads are the honest ones, form an accepted run and every proof in it starts from 32 bytes |
| ConsistencyWalk.BelowStep | tools/gen_consistency_vectors.py:109-121 | one loop iteration on the whole tree does what it does on the subtree at the top split: same folds, same alignment |
| ConsistencyWalk.LoopIsRecursion | tools/gen_consistency_vectors.py:103-121 | on every path of the right length, honest or not, the loop over fn, sn, fr, sr ends with the roots the recursion rebuilds, and sn reaches zero at the last element and not before |
| ConsistencyVerifier.ZeroAtTheEnd | tools/gen_consistency_vectors.py:109-111 | sn is zero after a number of elements exactly when the path should end there, whatever the path's length |
| ConsistencyVerifier.VerifyConsistency | tools/gen_consistency_vectors.py:80-122 | the iterative verifier accepts exactly what the recursive reading accepts, on all inputs: bad sizes, undecodable hex, equal sizes, empty, short and long proofs |
| ConsistencyVerifier.VerifyConsistencyTraced | tools/gen_contract_vectors.py:111-169 | the traced verifier agrees with the plain one everywhere and names "none" exactly when it accepts; each rejection is named if and only if its own fault is there: sizes, equal sizes, no proof, too long, the last recorded fr not the old root, then sr not the new root, then too short; one accumulator pair is recorded per element taken |
| ConsistencyVerifier.ForgedOldRoot | tools/gen_contract_vectors.py:327-335 | an honest proof with any other old root: old_root_mismatch when the old size is no power of two, new_root_mismatch or a named collision when it is |
| ConsistencyVerifier.ForgedNewRoot | tools/gen_contract_vectors.py:337-345 | an honest proof with any other new root: new_root_mismatch |
| ConsistencyVerifier.WrongLength | tools/gen_contract_vectors.py:298-315 | one element more than an honest proof is proof_too_long, whatever the element and the roots; one less is empty_proof or one of the last three reasons |
| ConsistencyVerifier.TraceMeaning | tools/gen_contract_vectors.py:144-161 | on a generated proof, fr and sr after each element are the hashes of the old and the new tree's part of one aligned block of leaves |
| ConsistencyVerifier.RunShifts | tools/gen_contract_vectors.py:138-159 | fn and sn are always the last leaves' indices of the two trees, shifted by the same amount |
| ConsistencyVerifier.TraceHonest | tools/gen_contract_vectors.py:111-169 | every recorded pair on an honest proof hashes D[a..m] and D[a..b], where [a, b) is the block of 2^shift leaves holding leaf m - 1, cut at n |
| Frames.LpRoundTrip | tools/gen_checkpoint_vectors.py:44-48 | a length-prefixed tagged value, absent or present, parses back whatever follows it |
| Frames.LpBytes | tools/gen_checkpoint_vectors.py:44-48 | the bytes themselves: an eight-byte big-endian count that includes the tag, then 0 alone or 1 and the string |
| Frames.FieldAppended | tools/gen_vectors.py:24-33 | one more field adds its length and bytes in a descriptor, and a tagged string in every other frame |
| Frames.FrameBegins | tools/gen_checkpoint_vectors.py:36-38 | each kind of frame begins with its own line, as written in the source, and the number of its fields |
| Frames.BuildFrame | tools/gen_vectors.py:36-48 | growing the frame field by field gives the frame the round trip is about, in every kind |
| Frames.FieldsRoundTrip | tools/gen_vectors.py:24-48 | any number of fields, tagged or untagged, parse back to exactly those fields |
| Frames.FrameRoundTrip | tools/gen_checkpoint_vectors.py:51-77 | a frame parses back to its kind and its fields |
| Frames.FrameInjective | tools/gen_contract_vectors.py:94-108 | two frames are equal only if they have one kind and the same fields: header, checkpoint, aggregate, descriptor and receipt frames never coincide |
| Frames.HeaderFrameInjective | tools/gen_vectors.py:44-48 | the hashed header bytes determine all six header fields |
| Frames.HeaderParses | tools/gen_vectors.py:20-48 | the header frame parses back to the six values in the order of FIELDS |
| Frames.CheckpointFrameBinds | tools/gen_checkpoint_vectors.py:51-71 | two checkpoints have one frame exactly when they are equal, or neither has a commitment and they differ only in the epoch |
| Frames.CheckpointParses | tools/gen_checkpoint_vectors.py:51-71 | v1 holds seq, entry hash and root, v2 also the epoch, "None" if absent, and the commitment, in this order |
| Frames.AggregateCommitBinds | tools/gen_checkpoint_vectors.py:74-77 | the committed bytes determine the epoch and the accumulator |
| Receipts.ReceiptBinds | server/waxseal_server/domain/receipts.py:34-43 | equal receipt heads mean the same number of acknowledgments of the same entry hashes in the same order, or the named link frames collide; a chain without receipts can share its head only with one whose head is sixty-four zeros |
| Receipts.ReceiptChain.Acknowledge | server/waxseal_server/domain/receipts.py:76-81 | a chain that holds the replay of some hashes holds the replay of one more afterwards; a malformed hash changes nothing |
| Receipts.HonestLogSnoc | server/waxseal_server/storage/_chain_receipts.py:64-103 | a log replayed from genesis stays so exactly when the next line carries the next number and the next head |
| Receipts.ReceiptsLink | server/waxseal_server/domain/receipts.py:34-43 | in a good log line i has version 1, number i, and as head the hash of a receipt frame holding i, the previous line's head or sixty-four zeros, and the acknowledged hash |
| Receipts.FaultyMeans | server/waxseal_server/storage/_chain_receipts.py:67-102 | told from the line alone: another version is unverifiable; unparsable, unversioned, incomplete or with a hash that is not hex is malformed; otherwise the number decides before the head |
| Receipts.VerifyReceiptLog | server/waxseal_server/storage/_chain_receipts.py:50-104 | OK exactly when every non-blank line is the replay from genesis; otherwise the report points at the first line that is not, counts those before it, and gives the reason that is true of it |
| Receipts.ResumeIsReplay | server/waxseal_server/storage/_chain_receipts.py:177-183 | the last line of a good log holds the state of a replay from genesis |
| Receipts.HeadsBindLogs | server/waxseal_server/domain/receipts.py:34-81 | two good logs with one head, at whatever positions, agree on the position and on every entry hash up to it, or the named frames collide |
| Chains.LinkedSeqNos | src/waxseal/adapters/jsonl.py:194-199 | in a linked segment entry i has seq i and the hash of entry i - 1 |
| Chains.ChainStore.AppendLocked | server/waxseal_server/storage/chains.py:272-301 | stored exactly when the envelope fits the tail as it is under the lock; segments stay contiguous and linked |
| Chains.ChainStore.AcknowledgeStored | server/waxseal_server/storage/_chain_receipts.py:172-195 | resuming from the last line keeps the whole log a replay from genesis, one line longer |
| Chains.ChainStore.Interfere | server/waxseal_server/storage/chains.py:253-308 | whatever other handlers post, acknowledge or rotate meanwhile: closed segments stay, the active one and the log are only appended to, and any change of the segments stores something |
| Chains.ChainStore.Append | server/waxseal_server/storage/chains.py:253-308 | refused exactly when the envelope does not extend the tail, and then nothing changed; accepted means stored once at the tail and, with any number of other handlers' steps between the two locks, acknowledged by one line with the head of the replay up to it |
| Chains.GroupBySeq | server/waxseal_server/storage/_chain_receipts.py:135-137 | a seq is a key exactly when some entry has it, with exactly the hashes stored at it across all segments |
| Chains.CrossCheckReceipts | server/waxseal_server/storage/_chain_receipts.py:107-169 | OK exactly when every acknowledged hash is stored at its seq; otherwise the first line that is not, with the reason that is true of it |
| Chains.UnbackedMeans | server/waxseal_server/storage/_chain_receipts.py:139-167 | told from the line and the entries: beyond the head if no entry has the seq, a mismatch if some has but none with that hash |
| Protocol.StepKeepsInv | server/waxseal_server/storage/chains.py:253-308 | every step of every client, handler, crash and rotation keeps the invariant, and the log only grows |
| Protocol.EveryRunKeepsInv | server/waxseal_server/storage/chains.py:253-308 | so does every run of any length with any number of clients |
| Protocol.LogsCheckOut | server/waxseal_server/storage/_chain_receipts.py:50-169 | in every reachable state both checkers' condition for OK holds |
| Protocol.AuditRun | server/waxseal_server/storage/chains.py:323-352 | both checkers, on the state any run reaches, say OK, counting every acknowledgment given so far, or not recorded when there was none |
| Protocol.NoFork | server/waxseal_server/storage/chains.py:272-301 | in every reachable state each segment is contiguous from 0 and linked, and the stored entries are exactly the successful POSTs, in order, each once, at its seq |
| Protocol.PlacesAreStored | server/waxseal_server/storage/chains.py:294-301 | each recorded POST is stored at its place and no two share a place |
| Protocol.StoredIsPlaced | server/waxseal_server/storage/chains.py:283-301 | every stored entry other than a rotation binding is a recorded POST |
| Protocol.ReceiptsNameDistinctEntries | server/waxseal_server/storage/_chain_receipts.py:172-195 | in every reachable state two receipt lines acknowledge two different stored entries |
| Protocol.AnswersAreTheirs | server/waxseal_server/storage/chains.py:301-308 | in every reachable state each answer ever given is for its own POST: that entry is stored, and the log line under the answered number acknowledges it, with its seq, its hash and the answered head |
| Protocol.ReceiptsDiffer | server/waxseal_server/storage/_chain_receipts.py:172-195 | answers to two POSTs never carry one receipt number |
| Protocol.OneHeadPerReceipt | server/waxseal_server/storage/_chain_receipts.py:172-176 | over every run two answers with one receipt_seq are one and the same: head, entry and POST |
| Protocol.RefusalMeansMove | src/waxseal/adapters/remote.py:243-261 | a client whose built entry no longer fits read its head before the tail last moved |
| Protocol.GivingUpMeansContention | src/waxseal/adapters/remote.py:263-266 | a client that gave up saw at least 32 tail moves during its call, each one a stored POST or a rotation |
| Protocol.GivingUpAfterStart | src/waxseal/adapters/remote.py:242-266 | in any run, between the start of a call that gives up and the end of the run the tail moved at least 32 times |
| Protocol.AtMost32 | src/waxseal/adapters/remote.py:243-266 | a call loses at most 32 races, fewer whenever it attempts again, and exactly 32 when it gives up |
| ProtocolStorage.RunStorage | server/waxseal_server/storage/chains.py:253-308 | every run of the step relation can be carried out with the storage methods, which read the heads, check and store the entries, issue the receipts and rotate; the chain and what every client knows come out the same |
| RemoteClient.ReadHead | src/waxseal/adapters/remote.py:360-377 | what a writer reads, 404 included, is exactly what the next entry must carry |
| RemoteClient.Append | src/waxseal/adapters/remote.py:242-266 | with other handlers posting, acknowledging and rotating around every attempt and between its two locks, at most 32 attempts. Success: the entry is stored where there was none before the call, at its seq, and the receipt is the log line that acknowledges it; giving up: all 32 attempts were made and others moved the tail at least 32 times |
| TailReader.ReadLastLine | src/waxseal/adapters/jsonl.py:59-92 | for any bytes and any chunk size >= 1 the backward search ends with the one-pass definition: strip trailing CR and LF, take what follows the last LF, nothing if nothing is left |
| TailReader.LastLineIs | src/waxseal/adapters/jsonl.py:85-92 | that definition says: the file is a part that is empty or ends in LF, then the line, which is not empty, has no LF and does not end in CR, then only CR and LF; there is no line exactly if the file is all CR and LF |
| TailReader.LastLineInSuffix | src/waxseal/adapters/jsonl.py:85-88 | once a suffix of the file shows an inner newline, what precedes it cannot change the last line |
| IntegrityScan.Scanner.Scan | src/waxseal/adapters/jsonl.py:231-255 | reports the first bad line from the remembered offset, or from byte 0 if the file is shorter than that |
| IntegrityScan.FirstBadMeans | src/waxseal/adapters/jsonl.py:238-248 | the report is the first bad one among the lines, its number from 1 and the total length of those before it; without a report all are good |
| IntegrityScan.LinesAre | src/waxseal/adapters/jsonl.py:236-239 | the lines make up the file, each with an LF at its end, which only the last may lack, and nowhere else |
| IntegrityScan.LineOkMeans | src/waxseal/adapters/jsonl.py:240-248 | a line is good exactly if what is between its leading and trailing blanks is nothing or parses |
| IntegrityScan.RememberedIsLast | src/waxseal/adapters/jsonl.py:249-255 | a scan remembers as far as good terminated lines go from its start, and nothing new if there is none |
| IntegrityScan.ResumedScanAgrees | src/waxseal/adapters/jsonl.py:231-255 | when what is remembered is true of the file, or the file is shorter than it, the verdict, line number and byte offset are those of a scan from byte 0; what is remembered afterwards is true of the file exactly if it was before or a line was cleared |
| IntegrityScan.ScanGrowing | src/waxseal/adapters/jsonl.py:201-255 | over every sequence of growing files, unterminated tails included, every resumed scan agrees with a scan from byte 0 |
| IntegrityScan.GivesUpOldOffset | src/waxseal/adapters/jsonl.py:233-255 | a scan of a file that became shorter replaces the old offset if and only if the file begins with a good, terminated line |
| IntegrityScan.ShrinkExact | src/waxseal/adapters/jsonl.py:233-255 | after such a scan every later growth is scanned as from byte 0 if and only if the short file begins with a good, terminated line; the "only if" for any parser under which an unfinished line can still become unparseable |
| IntegrityScan.ScanRun | src/waxseal/adapters/jsonl.py:231-255 | over every sequence of files that grow, are cut, or are replaced by shorter ones, a scan agrees with one from byte 0 whenever the file has just become shorter than what is remembered, or the last one to do so began with a good line |
| IntegrityScan.ShrinkThenGrow | src/waxseal/adapters/jsonl.py:233-235 | an instance of the failing side: scanned, emptied, scanned, regrown, and a bad first line passes |
| Backends.MemoryBackend.Append | src/waxseal/adapters/memory.py:20-30 | the builder is handed the tail's seq + 1 and hash, or 0 and sixty-four zeros; the list grows by its entry, and by nothing when it raised or left out the payload, which are told apart |
| Backends.TailOfTrail | src/waxseal/adapters/jsonl.py:194-199 | the last line of the file is the last entry's |
| Backends.StoredLine | src/waxseal/adapters/jsonl.py:169-175 | text iteration with newline="" cuts the file exactly at the stored entries |
| Backends.JSONLBackend.Append | src/waxseal/adapters/jsonl.py:109-167 | the same on the file, which keeps representing the list; before every scanEvery-th append but the first the scan of the file so far decides the warning, otherwise there is none |
| Backends.ScanDueWhen | src/waxseal/adapters/jsonl.py:133-137 | a scan is due exactly when the number of the entry to come, counted from 1, is a multiple of the period and entries are stored |
| Backends.CleanTrail | src/waxseal/adapters/jsonl.py:231-255 | a scan of a trail that append wrote finds nothing, from any stored line on |
| Backends.JSONLBackend.Entries | src/waxseal/adapters/jsonl.py:169-175 | reading back gives exactly the entries the file represents |
| Backends.JSONLBackend.EntryHashes | src/waxseal/adapters/jsonl.py:177-192 | the hashes-only pass gives the hash of every entry, in order |
| Backends.RunBoth | src/waxseal/adapters/jsonl.py:109-175 | for every sequence of builders, raising and payload-less ones included, both backends return the same outcomes and read back the entries that succeeded, in order, and no scan warns; with builders that carry what they are handed, entry i has seq i and the hash of entry i - 1, or sixty-four zeros |
| Attestor.Trail.Attest | src/waxseal/adapters/attest.py:80-149 | refused exactly on an epoch gap or an accumulator that stopped short; otherwise the seal is made with the current key, the key file moves to evolve of it, the accumulator folds that one seal, and the writes happen in order up to the crash, keeping (e, evolve^e(k0)) in the key file, the sidecar a subsequence of the seals made, and any accumulator the exact fold of seals s..e-1 |
| Attestor.Trail.CheckContinuity | src/waxseal/adapters/attest.py:166-183 | the loop compares the key file with the initial key evolved epoch times; the first mismatch in order is named |
| Attestor.FullSubsequence | src/waxseal/adapters/attest.py:166-177 | a sidecar has as many lines as there were key advances exactly when it is the whole list of them |
| Attestor.AnyRun | src/waxseal/adapters/attest.py:80-183 | over every run with crashes anywhere, continuity holds exactly when no advance lost its line; with lines dropped it always fails; without crashes it always holds |
| Der.DerLenExact | tools/gen_rfc3161_vectors.py:36-40 | the length octets decode to the length, in X.690's shortest definite form, exactly when it is below 256^126 |
| Der.TlvRoundTrip | tools/gen_rfc3161_vectors.py:43-44 | tag and value parse back, whatever follows, exactly when the value is shorter than 256^126 |
| Der.BuildIntegerBody | tools/gen_rfc3161_vectors.py:50-58 | the loop builds the contents octets the round trip is about |
| Der.IntegerRoundTrip | tools/gen_rfc3161_vectors.py:47-59 | every natural number decodes back from two's complement under a decoder that takes only the shortest form |
| Der.BuildOidBody | tools/gen_rfc3161_vectors.py:62-71 | the loops over arcs and septets build the octets the round trip is about, and fail exactly where Python raises |
| Der.ArcsRoundTrip | tools/gen_rfc3161_vectors.py:64-70 | any arcs after the first two decode back from shortest-form base 128 |
| Der.OidExact | tools/gen_rfc3161_vectors.py:62-71 | an identifier decodes back exactly when it is valid and 40 * first + second is below 128 |
| Der.RequestRoundTrip | tools/gen_rfc3161_vectors.py:74-81 | a TimeStampReq is built and parses back to SHA-256's object identifier with NULL parameters, its digest and its nonce, present or absent, exactly when its contents are shorter than 256^126 |
| Der.RequestBytes | tools/gen_rfc3161_vectors.py:74-81 | the bytes themselves, for every digest: without a nonce, with nonce 0x1234, and with nonce 128, whose octets get a leading zero |
| Der.RequestInjective | tools/gen_rfc3161_vectors.py:74-81 | two such requests are equal exactly when digest and nonce are |
| Paging.CursorRoundTrip | server/waxseal_server/storage/_chain_paging.py:17-37 | a cursor decodes to what was encoded, and is refused when the identity is empty |
| Paging.CursorText | server/waxseal_server/storage/_chain_paging.py:30-37 | e, a number in digits, ~ and a non-empty identity decode to that number and identity |
| Paging.OnlyCursorText | server/waxseal_server/storage/_chain_paging.py:30-37 | and no other text decodes |
| Paging.CursorsAdvance | src/waxseal/adapters/remote.py:326-337 | cursors of different offsets differ, so the same-cursor guard cannot fire while pages advance |
| Paging.PageOfLines | server/waxseal_server/storage/chains.py:206-219 | one page is the slice [start, start + limit) of the non-blank lines, with more exactly when some lie beyond |
| Paging.RequestReads | server/waxseal_server/storage/chains.py:192-221 | a cursor issued against the first request's segment is answered from that segment, however the directory grew |
| Paging.PageRefused | server/waxseal_server/storage/chains.py:192-203 | a page is refused exactly for a cursor that does not decode or that names no segment of the chain |
| Paging.ReadAll | src/waxseal/adapters/remote.py:304-341 | while segments only grow, following cursors yields every entry once and in order: exactly the segment as the last request saw it, so at least all the first saw; no cursor is refused or repeated; the page cap ends it only when a million full pages were not enough |
| OutcomeCache.SuffixUsed | server/waxseal_server/runtime/cli.py:278-294 | moving a key to the end, or removing it, keeps the held keys a suffix of all keys by last use |
| OutcomeCache.Cli.Store | server/waxseal_server/runtime/cli.py:291-295 | the eviction loop keeps exactly the newest entries up to the bound |
| OutcomeCache.Cli.Run | server/waxseal_server/runtime/cli.py:252-296 | answers what an uncached runner would, refusing a command that is not read-only before one that is not available; serves from the cache exactly when an entry for the key is at most 30 seconds old; a listed command or an argument that is a network flag, alone or with =, is never served and leaves the cache as it was; the keys held are the most recently used ones, in that order, never more than the bound |
| OutcomeCache.SkipsWhen | server/waxseal_server/runtime/cli.py:147-152 | the cache is bypassed exactly for those commands and arguments |
| OutcomeCache.AnyRun | server/waxseal_server/runtime/cli.py:252-296 | over every sequence of calls and clock readings all answers are those of an uncached runner, an answer from the cache is what an earlier call stored and within the TTL, and the keys held are those these calls used last, in order; given that a result depends only on command, arguments and stamps |

## Left out

- SHA-256, HMAC, key evolution, JSON, base64 and UTF-8 themselves: parameters, as said above.
- Consistency.Soundness: assumes that the walk starts from 32 bytes; AcceptanceExact shows that this is necessary and sufficient.
- ConsistencyVerifier.VerifyConsistency: hex parsing is an optional byte string per argument; which texts `bytes.fromhex` accepts is not modelled.
- Chains.ChainStore.AcknowledgeStored: assumes the log on disk is the one this server wrote; the exceptions a damaged last line raises are not modelled.
- Chains.ChainStore.Append: rotation before an append is a step of its own, as in Protocol, without its size threshold, archive step and the binding entry's payload.
- Receipts.VerifyReceiptLog: a record is given already parsed, with a missing or unconvertible field as None.
- Protocol.NoFork: negative seq numbers in an envelope are not modelled; they are refused by the precondition, since a tail's successor is never negative.
- RemoteClient.Append: the transport's other HTTP statuses and the client's own receipt sidecar, which is best effort, are not modelled.
- IntegrityScan.ShrinkExact: that an unfinished line can still become unparseable is a hypothesis on the parser, needed in one direction only.
- IntegrityScan.Scanner.Scan: a line that is not UTF-8 raises a different exception than the one `append` catches; a parse is only yes or no here.
- Backends.JSONLBackend.Append: a scan period of 0, which raises, is excluded; one write call is atomic, so a torn last line is not a state of this class; the tail reader and the scan are proved over any bytes.
- Attestor.Trail.Attest: fs-hmac mode only; signer mode has no key file. Each write happens whole or not at all. Reopening leaves the files as they are.
- Frames.FrameRoundTrip: field lengths and counts that do not fit 64 bits are excluded, as `struct.pack` refuses them.
- Paging.CursorRoundTrip: the other Unicode digits that `isdigit` accepts in a forged cursor are not modelled.
- Paging.ReadAll: a request meets the directory in one state; a file that grows while one page is being read is seen as it was at the end of that page.
- OutcomeCache.Cli.Run: what goes into a stamp, the subprocess and `_classify` are parameters; two threads inside `run` at once are not modelled.
- Inclusion proofs: `verify_membership` is called but not defined in the modelled files.
- Operating-system locks, fsync and permissions: a lock is an atomic step.
- HTTP routing, the web interface, command-line parsing, the database and object-store backends, timestamp, witness and contract clients: not part of this model.
- Verdict joins, role tables, settings and identifier checks, `ChainStore.summary`: not modelled.
