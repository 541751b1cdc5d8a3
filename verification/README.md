# OP-TEE core: models and proofs

This project models the parts of OP-TEE core whose correctness rests on more than one
function, and proves what they promise over every input, every run or every reachable
state. It covers:

- **Secure-storage hash tree** (`core/tee/fs_htree.c`). A copy-on-write Merkle tree that
  keeps two versions of every block, node and header in storage. `HTreeModel` is the tree
  on values, `HTreeSync` the effect of one post-order sync pass, `HTreeCommit` the commit
  protocol under power failures, `HTreeAuth` what the root hash fixes about any storage,
  `HTreeLimits` the exact conditions under which a sync works, and `HTree` the linked
  objects of the source, proved equal to the value model.
- **Lock dependency checker** (`core/kernel/lockdep.c`). `LockGraph` and `LockBfs` hold the
  graph theory, `Lockdep` the checker object, `LockdepRuns` runs of threads that use it.
- **AES-GCM** (`core/crypto/aes-gcm*.c`). `GfAlgebra`, `Gf128`, `Ghash` and `GhashTable` prove
  bitwise and table-driven multiplication to be the field product. `GcmSpec` is the mode on
  whole inputs over any counter and length arithmetic, `Gcm` the streaming state and
  `GcmRuns` whole operations in pieces. `Sp80038d` writes out NIST SP 800-38D, sections 6.2
  to 6.5 and 7.1, on its own, and `GcmNist` compares the implementation with it.
- **TA manager** (`core/kernel/tee_ta_manager.c`). `TaBusy` has the busy flags and the
  single-instance lock, `TaSession` the life time of sessions.
- **Smaller cores.** `FileRegistry` (`core/mm/file.c`, `core/kernel/refcount.c`), `TaDb`,
  `TaDbFiles` and `TaDbFaults` (`core/tee/tadb.c`), `Tzc380` (`core/drivers/tzc380.c`), `Relocs` (`core/mm/fobj.c`),
  `Segments` (`ldelf/ta_elf.c`) and `Cts` (`core/crypto/aes-cts.c`).

How the sources are rendered:

- Code that updates state in place is a class or a method with loops, proved against
  functions on values. Concurrent code is a state machine whose steps are the critical
  sections or atomic operations of the source, and the class methods are proved to take
  exactly these steps. A wait on a condition variable ends a step; a woken thread checks
  its condition again.
- Cryptography is a parameter. AES is any function on blocks. The hash tree uses any hash
  function and any authenticated encryption that decrypts what it encrypted.
- A failed assertion of the source is an outcome of its own (`None`, `false`) where it can
  happen, and an `assert` in the method where it is proved never to happen.
- A method of an object says two things: that it takes the step of the value model or state
  machine, and, in terms of the object's own fields before and after, what it answers and
  what it changes.

Some properties hold only under a condition. Each condition below decides the property in
both directions, and a lemma gives an input on the failing side:

- A sync of the hash tree takes effect exactly when the 32-bit header counter does not
  wrap (`HTreeLimits.SyncEffectiveIff`, `HTreeLimits.WrapLosesSync`).
- A file reopens after a write and a sync exactly when the write left no gap in the tree
  (`HTreeLimits.WriteReopensIff`, `HTreeLimits.GapLosesFile`). This is for every state of
  the protocol and a hash without collisions that is never the zero digest of a new node;
  for an arbitrary hash it is proved where no nodes of an interrupted append are left in
  storage (`HTreeLimits.FreshWriteReopensIff`).
- Opening a file by the root hash of its last commit finds that commit exactly when the
  commit uses version 0 of the root or version 0 carries another hash
  (`HTreeAuth.OpenWithFindsCommit`); otherwise the older header opens, with the same nodes
  and metadata (`HTreeAuth.OpenWithShowsCommit`, `HTreeLimits.StaleHeaderOpens`).
- One GCM decryption call in place authenticates the ciphertext, whatever the key, exactly
  when it is empty or starts and ends at block boundaries (`Gcm.InPlaceAgreesIff`,
  `Gcm.InPlaceOneByte`); a decryption in pieces does exactly when every piece is a number
  of whole blocks (`GcmRuns.AuthenticatedInPlaceIff`). Encryption in place always does.
- An empty payload call between two pieces of associated data leaves the hashed bytes as
  they were exactly when the first piece is a number of whole blocks, or the second is all
  zeros and the padding adds no block (`GcmRuns.PauseKeepsIff`). For every second piece of
  one length it does exactly when the first is a number of whole blocks or the second is
  empty (`GcmRuns.PauseSafeIff`, `GcmRuns.PauseAddsBlock`).
- Ciphertext stealing works in place, whatever the key, exactly for encryption and for
  updates that are not the last; the last update of a decryption loses its tail for some
  key, whatever the data (`Cts.InPlaceSafeIff`, `Cts.InPlaceLosesTail`).
- The GCM counter agrees with inc32 of section 6.2 of SP 800-38D exactly until the low 32
  bits wrap (`GcmNist.CountersAgreeIff`, `GcmNist.IncDiffers`); the length fields agree
  exactly below 2^29 bytes (`GcmNist.BitLenAgreesIff`, `GcmNist.BitLenDiffers`).
- A file number with a removal pending becomes somebody's exactly when a new install takes
  it, and only then can a live entry lose its file (`TaDbFiles.UnthreatenedIff`,
  `TaDbFiles.FilesSurvive`, `TaDbFiles.ReuseHappens`, `TaDbFiles.ReuseLoses`).
- With writes of the TA table that may fail, file numbers stay distinct exactly as long as
  no install takes the number of a live entry (`TaDbFaults.ApartIff`); a failed delete is
  what makes this possible (`TaDbFaults.MarkedIff`, `TaDbFaults.FailedDeleteCollides`).
- `tzc_auto_configure` succeeds exactly when its plan leaves nothing over and the regions
  suffice (`Tzc380.Controller.AutoConfigure`). Every aligned power of two from 2^15 up to
  the address width fits one region (`Tzc380.AlignedFits`); no area of up to 2^14 bytes
  fits (`Tzc380.SmallIsLeft`).
- `init_rels` passes its final assertion exactly when no relocation lies at the end
  boundary, because `get_num_rels` counts that one too (`Relocs.Alloc`,
  `Relocs.EndBoundaryFails`). A last page without relocations loads unchanged exactly when
  the object has at most 65535 relocations (`Relocs.EmptyLastPageIff`,
  `Relocs.DenseOverruns`).
- A byte of a merged ELF segment keeps its file offset exactly when its segment has the
  address-to-offset difference of the first segment merged (`Segments.KeepsOffsetIff`,
  `Segments.MergeMovesOffset`).

## Model

| member | source | states |
|---|---|---|
| `HTreeCommit.CrashAtomicity` | core/tee/fs_htree.c:303-858 | From a new file, over every run of writes, metadata changes and syncs with a crash after any element write: the run goes on, the open tree shows the working content, and reopening the storage shows exactly the content of the last completed header write |
| `HTreeCommit.StepRefines` | core/tee/fs_htree.c:700-858 | One operation, complete or cut short after any number of its writes, is one step of a file with a working and a committed content |
| `HTreeCommit.RunRefines` | core/tee/fs_htree.c:700-858 | The same for runs of any length |
| `HTreeCommit.OpenFindsCommit` | core/tee/fs_htree.c:320-397 | Opening a storage that holds a commit succeeds and yields that commit's tree |
| `HTreeCommit.SyncPrefixKeeps` | core/tee/fs_htree.c:700-740 | No prefix of the node writes of a sync touches a cell the committed header reaches |
| `HTreeCommit.SyncRehashesAll` | core/tee/fs_htree.c:562-593 | After the pass, which rehashes dirty nodes only, every stored hash is the hash of the whole tree and every node is clean |
| `HTreeCommit.SyncCommits` | core/tee/fs_htree.c:742-795 | A completed sync makes the working content the committed one |
| `HTreeCommit.InvObserved` | core/tee/fs_htree.c:860-905 | In every state of the protocol reads give the last block written, and a reopened file the last one committed |
| `HTreeCommit.CreateEstablishes` | core/tee/fs_htree.c:595-670 | A new file starts the protocol with empty content on both sides |
| `HTreeSync.SyncFromEffect` | core/tee/fs_htree.c:177-199 | What the recursive pass over a subtree does: which nodes it settles, which versions it flips, which writes it issues, and that it leaves the rest alone |
| `HTreeLimits.SyncEffectiveIff` | core/tee/fs_htree.c:303-318 | A sync makes the new content visible to a reopen if and only if the counter does not wrap; on a wrap the old content stays |
| `HTreeLimits.WriteReopensIff` | core/tee/fs_htree.c:254-301 | In every state of the protocol, crashes included: after a write and a sync the file reopens if and only if the write did not skip a node, for a collision-free hash |
| `HTreeLimits.FreshWriteReopensIff` | core/tee/fs_htree.c:254-301 | The same for any hash at all, when storage holds no node beyond the tree |
| `HTreeLimits.WrapLosesSync` | core/tee/fs_htree.c:303-318 | A run from a new file ends with the counter at its limit and new content, and the sync of that is lost |
| `HTreeLimits.StaleHeaderOpens` | core/tee/fs_htree.c:326-337 | A run from a new file after which opening by the root hash gives the header before the last |
| `HTreeLimits.GapLosesFile` | core/tee/fs_htree.c:254-301 | Writing block 2 of a new file before block 1 and syncing leaves a file that does not open |
| `HTreeAuth.RootHashFixesTree` | core/tee/fs_htree.c:562-593 | Two trees whose hashes verify and whose root hashes are equal have the same shape, the same node images and the same metadata |
| `HTreeAuth.OpenFromIff` | core/tee/fs_htree.c:368-593 | From a header and a root node a tree opens if and only if the header unseals to its inner metadata, every node is the stored one its parent names, and every hash is right; everything else is a corrupt object |
| `HTreeAuth.OpenIff` | core/tee/fs_htree.c:303-397 | Without a hash, a tree opens if and only if both headers are there, one is selected, and the tree verifies from it |
| `HTreeModel.SelectHeadNewest` | core/tee/fs_htree.c:303-318 | The selected header is one whose counter has the parity of its place, the newer one if both have, and there is none exactly when neither has |
| `HTreeAuth.UnknownHash` | core/tee/fs_htree.c:326-341 | A hash that neither version of the root carries is refused |
| `HTreeAuth.OpenWithAuthentic` | core/tee/fs_htree.c:320-342 | Two storages that open under one root hash, whoever wrote them, show the same tree and metadata |
| `HTreeAuth.OpenWithFindsCommit` | core/tee/fs_htree.c:320-342 | Opening a commit under its root hash finds it if and only if it uses version 0 of the root, or version 0 is there with another hash |
| `HTreeAuth.OpenWithShowsCommit` | core/tee/fs_htree.c:320-342 | Whatever opens under that hash has the commit's nodes and metadata, under the header the loop stops at, and shows the same file under the same key |
| `HTreeAuth.CommittedHashOpens` | core/tee/fs_htree.c:320-342 | After every run with crashes, the root hash of the last commit opens what the open without a hash does if and only if that condition holds, and otherwise no other content |
| `HTree.ClosestIsDeepest` | core/tee/fs_htree.c:209-243 | The closest node is the node itself exactly when it exists and otherwise its deepest existing ancestor |
| `HTree.HashTree.FindClosestNode` | core/tee/fs_htree.c:216-243 | The walk from the root ends at that node, for every id |
| `HTree.HashTree.GetNode` | core/tee/fs_htree.c:254-301 | The node with the id, after creating the missing ones, which are fresh; keeps the others, the complete heap and its links; fails only without `create`, changing nothing |
| `HTree.HashTree.Truncate` | core/tee/fs_htree.c:907-929 | Keeps exactly the nodes up to the given block, in order and unchanged, adjusts the highest id and the dirty flag only if it drops any, keeps the heap, and its asserts hold |
| `HTree.HashTree.WriteBlock` | core/tee/fs_htree.c:810-858 | The object's new state and its storage writes are those of the value model |
| `HTree.HashTree.ReadBlock` | core/tee/fs_htree.c:860-899 | The plaintext exactly when the block's node exists, its selected cell is stored, and unsealing that cell with the tree's key and the node's iv and tag gives it; a missing node, a missing cell and a cell that does not unseal are errors; nothing changes before the error path closes the tree |
| `HTree.HashTree.ReadHandle` | core/tee/fs_htree.c:860-905 | The same answer on the caller's handle: kept with an unchanged tree on success, closed on an error |
| `HTreeModel.BlockReadsIs` | core/tee/fs_htree.c:860-905 | The read of the value model answers so, for every tree and storage |
| `HTree.HashTree.SyncOne` | core/tee/fs_htree.c:700-740 | One callback: version flip in the parent, rehash, write |
| `HTree.HashTree.SyncSubtree` | core/tee/fs_htree.c:177-207 | The recursive traversal issues exactly the writes of the value model, in order |
| `HTree.HashTree.UpdateRoot` | core/tee/fs_htree.c:742-755 | The new header, sealed over the root hash and the next counter |
| `HTree.HashTree.Sync` | core/tee/fs_htree.c:757-795 | The whole sync, as on values |
| `HTree.HashTree.VerifySubtree` | core/tee/fs_htree.c:562-593 | Accepts exactly when every hash below the node is right |
| `HTree.HashTree.InitTree` | core/tee/fs_htree.c:368-397 | Loads the committed version of every node, or reports the read error |
| `HTree.HashTree.OpenTree` | core/tee/fs_htree.c:614-670 | Opening, with or without a root hash, equals the value model's, errors included |
| `HTree.HashTree.CreateTree` | core/tee/fs_htree.c:595-670 | Creating equals the value model's |
| `Lockdep.Checker.GraphSort` | core/kernel/lockdep.c:234-252 | Succeeds if and only if the graph has no cycle, self-loops included, and then leaves every mark clear |
| `Lockdep.Checker.Visit` | core/kernel/lockdep.c:211-232 | The depth-first search extends a topological order or has met a cycle |
| `Lockdep.Checker.ShortestCycle` | core/kernel/lockdep.c:128-209 | The breadth-first search returns a cycle through the node that is shortest among those, and nothing exactly when there is none |
| `Lockdep.Checker.CycleInfo` | core/kernel/lockdep.c:292-324 | The search finds a shortest cycle, and every consecutive pair of it has an edge |
| `Lockdep.Checker.Acquire` | core/kernel/lockdep.c:334-374 | From an acyclic graph: the graph gains exactly the new node and an edge to it from every lock owned; succeeds if and only if it is still acyclic, and then records the lock; a failure comes with a cycle through the new lock that is shortest among all cycles |
| `Lockdep.Checker.TryAcquire` | core/kernel/lockdep.c:381-402 | Records the lock and its node; no edge changes |
| `Lockdep.Checker.Release` | core/kernel/lockdep.c:404-419 | Takes exactly the last matching entry out of the owner's list, or changes nothing and reports that there is none |
| `Lockdep.DropLastTakes` | core/kernel/lockdep.c:404-419 | The list of the runs loses exactly the last occurrence, and nothing when there is none |
| `Lockdep.Checker.Destroy` | core/kernel/lockdep.c:461-514 | Exactly the node and the edges from and to it are gone |
| `Lockdep.Checker.AddEdgeTo` | core/kernel/lockdep.c:77-99 | Exactly that edge is added, at the end of the list and only once |
| `LockBfs.FirstClosingIsShortest` | core/kernel/lockdep.c:128-209 | The first path that closes at the front of the queue is no longer than any cycle through the start |
| `LockGraph.NewCycleThrough` | core/kernel/lockdep.c:334-363 | A cycle that appears when edges into one node are added can be turned to start at that node |
| `LockdepRuns.NoCircularWait` | core/kernel/lockdep.c:334-419 | Over every error-free run the graph stays acyclic, and threads that record each lock before they block on it are never in a circular wait |
| `Gf128.MulCommutative` | core/crypto/aes-gcm.c:523-548 | The field product commutes |
| `Gf128.MulAssociative` | core/crypto/aes-gcm.c:523-548 | The field product is associative |
| `Gf128.MulBilinear` | core/crypto/aes-gcm.c:523-548 | The field product distributes over exclusive or, on both sides |
| `Gf128.MulXShifts` | core/crypto/aes-gcm.c:533-547 | Multiplication by the generator is a shift by one bit, with the polynomial of section 6.3 of SP 800-38D for the bit that falls out |
| `Ghash.GfMul` | core/crypto/aes-gcm.c:523-548 | The bit-by-bit loop computes the field product of any two blocks |
| `GhashTable.GhashKey.GenTable` | core/crypto/aes-gcm-ghash-tbl.c:49-91 | The table holds the product of the hash key with each of the sixteen nibbles |
| `GhashTable.Shift4IsMulX4` | core/crypto/aes-gcm-ghash-tbl.c:93-103 | Shifting by four bits and correcting with `last4` is four multiplications by the generator |
| `GhashTable.GhashKey.MultTable` | core/crypto/aes-gcm-ghash-tbl.c:109-145 | The nibble loop computes the field product, for every key and operand |
| `GcmNist.UpdateBlock` | core/crypto/aes-gcm-sw.c:24-35 | Both build options of the GHASH step compute the same product |
| `GcmSpec.GhashConcat` | core/crypto/aes-gcm-sw.c:37-51 | GHASH of two pieces is GHASH of the second from the value of the first |
| `Gcm.State.GhashUpdate` | core/crypto/aes-gcm-sw.c:37-51 | Hashes the optional head block and then all data blocks |
| `Gcm.State.GhashPadZero` | core/crypto/aes-gcm.c:27-55 | Hashes the data padded with zeros, for every length |
| `Gcm.State.Init` | core/crypto/aes-gcm.c:69-122 | Rejects tags over 16 bytes; otherwise tag mask, counter and, for encryption, the first key block are those of the nonce |
| `Gcm.State.UpdateAad` | core/crypto/aes-gcm.c:140-181 | Rejected exactly when the 32-bit payload count is not 0; otherwise, for every length, buffer fill and alignment, the state represents the concatenated associated data |
| `Gcm.State.AcceptsAadAgain` | core/crypto/aes-gcm.c:140-207 | A state whose payload count is 0, after an empty payload call or a multiple of 2^32 bytes, represents associated data again: all that was hashed, padding included |
| `Gcm.State.CryptBlock` | core/crypto/aes-gcm-sw.c:53-105 | One whole block in either mode: output, hash and key stream position |
| `Gcm.State.CryptPartial` | core/crypto/aes-gcm.c:212-244 | A partial block in either mode, with the key block prepared ahead or computed on demand; decryption hashes what the source buffer holds after the output is written |
| `Gcm.State.UpdatePayload` | core/crypto/aes-gcm.c:189-255 | For every chunk from every position, from one buffer to another or in place: the output is GCTR at that position, nothing else in the buffer changes, and the state represents what was absorbed |
| `Gcm.InPlaceEncrypts` | core/crypto/aes-gcm.c:219-223 | Encryption absorbs the same in place |
| `Gcm.InPlaceDecryptsIff` | core/crypto/aes-gcm.c:219-225 | Decryption in place absorbs the ciphertext if and only if the key stream is zero on the blocks the call covers in part |
| `Gcm.InPlaceAgreesIff` | core/crypto/aes-gcm.c:212-225 | It does for every key if and only if the call is empty or starts and ends at block boundaries |
| `Gcm.InPlaceOneByte` | core/crypto/aes-gcm.c:219-225 | One byte decrypted in place: the plaintext is absorbed |
| `Gcm.State.OperationFinal` | core/crypto/aes-gcm.c:266-288 | The tag buffer holds the tag of everything absorbed, in place or not |
| `Gcm.State.EncFinal` | core/crypto/aes-gcm.c:290-308 | Too little room for the tag is refused with nothing changed; otherwise the last output and the tag |
| `Gcm.State.DecFinal` | core/crypto/aes-gcm.c:318-336 | Accepts exactly the tag of what was absorbed, at the right length |
| `GcmRuns.Seal` | core/crypto/aes-gcm.c:69-308 | Encryption with any split of associated data and payload, any addresses, in place or not, equals the one-shot definition on the concatenated inputs |
| `GcmRuns.Unseal` | core/crypto/aes-gcm.c:69-336 | Decryption with any split gives the one-shot plaintext, accepting exactly the tag of what it authenticates |
| `GcmRuns.AuthenticatedCipher` | core/crypto/aes-gcm.c:189-255 | What it authenticates is the concatenated ciphertext, for any split between two buffers and for a split into whole blocks in place |
| `GcmRuns.AuthenticatedInPlaceIff` | core/crypto/aes-gcm.c:189-255 | In place it is, under every key and nonce, if and only if every piece is a number of whole blocks |
| `GcmRuns.SealPaused` | core/crypto/aes-gcm.c:140-308 | With an empty payload call between two parts of the associated data, the tag is that of the first part padded, followed by the second, with both lengths counted |
| `GcmRuns.PauseHarmless` | core/crypto/aes-gcm.c:201-207 | That is the one-shot tag when the first part is whole blocks, or the second is zeros and the padding adds no block |
| `GcmRuns.PauseKeepsIff` | core/crypto/aes-gcm.c:201-207 | The padded bytes that are hashed are the one-shot ones if and only if this is so |
| `GcmRuns.PauseSafeIff` | core/crypto/aes-gcm.c:201-207 | They are for every second part of a given length if and only if the first part is whole blocks or that length is 0 |
| `GcmRuns.PauseAddsBlock` | core/crypto/aes-gcm.c:201-207 | With two parts of one byte, two blocks are hashed in place of one |
| `GcmRuns.RoundTripInPieces` | core/crypto/aes-gcm.c:95-336 | Encrypting, in place or not, and decrypting with independent splits accepts the tag and gives the payload back |
| `GcmSpec.RoundTrip` | core/crypto/aes-gcm.c:189-255 | GCTR undoes itself |
| `GcmNist.IncAgreesIff` | core/crypto/aes-gcm.c:346-356 | The 128-bit increment is inc32 if and only if the low word is not all ones |
| `GcmNist.CountersAgreeIff` | core/crypto/aes-gcm.c:346-356 | The counter blocks agree with the standard's up to n if and only if the low word has room for n increments |
| `GcmNist.BitLenAgreesIff` | core/crypto/aes-gcm.c:57-67 | A length field is the standard's if and only if the length is below 2^29 bytes |
| `GcmNist.CipherAgrees` | core/crypto/aes-gcm.c:69-255 | Within the counter bound the two suites give one ciphertext |
| `GcmNist.TagAgrees` | core/crypto/aes-gcm.c:266-288 | Within the length bound the two suites give one tag |
| `GcmNist.CipherIsStandard` | core/crypto/aes-gcm.c:69-255 | The ciphertext of the second suite is that of SP 800-38D as written out in `Sp80038d`, for every input |
| `GcmNist.TagIsStandard` | core/crypto/aes-gcm.c:57-67 | And its tag, with the bit lengths of associated data and ciphertext in this order |
| `GcmNist.Lens64Is` | core/crypto/aes-gcm.c:57-67 | 64-bit length fields are the standard's bytes, for every pair of lengths |
| `GcmNist.Lens32Is` | core/crypto/aes-gcm.c:57-67 | The implementation's length block is the standard's bytes below 2^29 bytes |
| `GcmNist.Inc32Is` | core/crypto/aes-gcm.c:346-356 | inc32 in bits is inc32 in numbers: the last four bytes count modulo 2^32, the others stay |
| `GcmNist.IncCtrIs` | core/crypto/aes-gcm.c:346-356 | The implementation's increment counts on all sixteen bytes, modulo 2^128 |
| `GcmNist.CtrRoomIs` | core/crypto/aes-gcm.c:346-356 | The room of a counter block is 2^32 - 1 less the number in its last four bytes |
| `GcmNist.NonceRoom` | core/crypto/aes-gcm.c:83-91 | Under a 96-bit nonce there is room for 2^32 - 2 blocks |
| `GcmNist.IncDiffers` | core/crypto/aes-gcm.c:346-356 | A counter block whose low word is all ones has no room, and the two increments differ |
| `GcmNist.BitLenDiffers` | core/crypto/aes-gcm.c:57-67 | At 2^29 bytes the 32-bit length field is 0 and the standard's is not |
| `GcmNist.SealNist` | core/crypto/aes-gcm.c:69-308 | Encryption in any pieces, in place or not, with the implementation's counter and lengths, gives the ciphertext and tag of `Sp80038d` within the bounds |
| `GcmNist.UnsealNist` | core/crypto/aes-gcm.c:69-336 | Decryption in any pieces gives the plaintext of `Sp80038d` and accepts exactly its tag, in place too when the pieces are whole blocks |
| `TaBusy.MutualExclusion` | core/kernel/tee_ta_manager.c:95-166 | In every interleaving at most one thread is inside a non-concurrent context |
| `TaBusy.CountIsHeld` | core/kernel/tee_ta_manager.c:60-86 | The lock count is the number of single-instance contexts its owner is inside, and nobody else is inside one |
| `TaBusy.NoCycleThroughLock` | core/kernel/tee_ta_manager.c:113-135 | No circular wait contains the lock's owner or a thread waiting for the lock |
| `TaBusy.NoLostWakeup` | core/kernel/tee_ta_manager.c:75-86 | Whenever the lock or a context is free and a thread waits for it, a thread that waits for it has been signalled |
| `TaBusy.StepKeeps` | core/kernel/tee_ta_manager.c:95-166 | Every step of every thread keeps the invariant |
| `TaBusy.Manager.LockSingleInstance` | core/kernel/tee_ta_manager.c:60-73 | Takes the lock when free or already ours; its assertion holds |
| `TaBusy.Manager.UnlockSingleInstance` | core/kernel/tee_ta_manager.c:75-86 | Gives one level back, and with the last one the lock and a signal; its assertions hold |
| `TaBusy.Manager.TrySetBusy` | core/kernel/tee_ta_manager.c:95-141 | The step of the state machine; which of entering, refusing and waiting it is, and the owner, count, busy flags and signals afterwards, in every case |
| `TaBusy.Manager.WakeLock` | core/kernel/tee_ta_manager.c:63-69 | The same for a woken thread that wants the lock, which it gets exactly when it is free |
| `TaBusy.Manager.WakeBusy` | core/kernel/tee_ta_manager.c:126-135 | The same for a woken thread that wants the context, which it enters exactly when it is free |
| `TaBusy.Manager.ClearBusy` | core/kernel/tee_ta_manager.c:149-166 | The leaving step: the context is free, the lock has one level less and is free with the last one, and exactly the signals due; its assertions hold |
| `TaSession.OneExclusiveHolder` | core/kernel/tee_ta_manager.c:219-255 | In every reachable state at most one thread holds a session exclusively |
| `TaSession.RemovalIsSafe` | core/kernel/tee_ta_manager.c:257-275 | A session is freed only by its closer, and at that moment no other thread holds it or waits for it |
| `TaSession.NoLostWakeup` | core/kernel/tee_ta_manager.c:168-275 | A free session lock has a signalled waiter if it has any, a closing session no waiter that sleeps on, and a session with one reference left a signalled closer |
| `TaSession.FreedForever` | core/kernel/tee_ta_manager.c:189-275 | A freed session is never found, used or waited for again |
| `TaSession.StepKeeps` | core/kernel/tee_ta_manager.c:168-275 | Every step keeps counts, locks and the list consistent |
| `TaSession.Manager.NewSessionId` | core/kernel/tee_ta_manager.c:580-604 | The first identifier after that of the last session, going around and skipping 0, that no open session has, or 0 exactly when all are taken |
| `TaSession.Manager.InitSession` | core/kernel/tee_ta_manager.c:606-666 | Appends exactly one session, with a new identifier, one reference and no lock |
| `TaSession.Manager.FindSession` | core/kernel/tee_ta_manager.c:189-203 | The first session with the identifier, or the end of the list when none has it |
| `TaSession.Manager.PutSession` | core/kernel/tee_ta_manager.c:168-187 | One reference less, and the lock free if the caller had it, with exactly the signals due; nothing else changes; its assertion holds |
| `TaSession.Manager.GetSession` | core/kernel/tee_ta_manager.c:219-255 | Nothing exactly when no open session has the identifier or the first one that has it is being closed; otherwise that session has one reference more, and is returned if it need not be locked or could be, locked by the caller if so requested, or else waited for; nothing else changes; its assertion holds |
| `TaSession.Manager.RetryLock` | core/kernel/tee_ta_manager.c:239-250 | A woken thread gives its reference back, waits again, or takes the lock, as the session is being closed, locked, or free; nothing else changes |
| `TaSession.Manager.UnlinkSession` | core/kernel/tee_ta_manager.c:257-275 | Its three assertions hold; wakes everybody who waits for the lock; takes the session out of the list exactly when one reference is left, and otherwise marks it and waits |
| `TaSession.Manager.RetryRemove` | core/kernel/tee_ta_manager.c:269-272 | Takes the session out of the list exactly when one reference is left, and changes nothing otherwise |
| `FileRegistry.OneLivePerTag` | core/mm/file.c:117-165 | At every point of every interleaving at most one file per tag has references, and it precedes every dying one in the list |
| `FileRegistry.LookupFindsLive` | core/mm/file.c:54-64 | A search by tag meets the live file whenever there is one |
| `FileRegistry.ZeroNeverRises` | core/kernel/refcount.c:10-52 | A counter that reached 0 stays 0 |
| `FileRegistry.DoomFromDecrement` | core/kernel/refcount.c:31-52 | Only the thread whose own decrement went from 1 to 0 is bound to free the file |
| `FileRegistry.FreedOnce` | core/mm/file.c:167-177 | A file is freed by that thread, with no reference left, and never again |
| `FileRegistry.StepKeeps` | core/mm/file.c:109-177 | Every load, compare-and-swap and critical section keeps the invariant |
| `FileRegistry.Registry.FindTag` | core/mm/file.c:54-64 | The first file with the tag, or the end of the list when none has it |
| `FileRegistry.Registry.SearchTag` | core/mm/file.c:147-159 | Finds the first file with the tag and loads its counter, changing nothing, or inserts a new one with one reference at the head exactly when there is none |
| `FileRegistry.Registry.IncFound` | core/kernel/refcount.c:10-29 | One round of the increment loop for a file found by tag: a counter still at the loaded value is raised by one with one reference more, any other value is loaded again, and a dead file is replaced by a new one at the head |
| `FileRegistry.Registry.StartGet` | core/mm/file.c:109-115 | The load at the start of `file_get`, never 0 |
| `FileRegistry.Registry.IncRound` | core/kernel/refcount.c:10-29 | One round of the increment loop in `file_get`: raised by one exactly if the counter is still the loaded value; it never sees 0, so `file_get` never panics |
| `FileRegistry.Registry.StartPut` | core/mm/file.c:167-169 | The load at the start of `file_put`, never 0 |
| `FileRegistry.Registry.DecRound` | core/kernel/refcount.c:31-52 | One round of the decrement loop: lowered by one exactly if the counter is still the loaded value; its assertion holds; the last reference leaves the caller with the file to free |
| `FileRegistry.Registry.RemoveFile` | core/mm/file.c:170-172 | Takes exactly the file out of the list |
| `FileRegistry.Registry.FreeFile` | core/mm/file.c:66-79 | Gives exactly the object back |
| `TaDb.FileNumbersDistinct` | core/tee/tadb.c:142-621 | Over every interleaving no two of the live entries and installs in flight share a file number, and with the bitmap in memory every one is marked |
| `TaDb.OneEntryPerUuid` | core/tee/tadb.c:534-586 | A UUID has at most one live entry |
| `TaDb.CreateIsFresh` | core/tee/tadb.c:363-435 | A new install gets a number nobody uses |
| `TaDb.PopulateCleans` | core/tee/tadb.c:304-361 | Whatever the table held, filling the bitmap keeps exactly the first live entry of every number, clears the later ones, and marks exactly the numbers kept |
| `TaDb.PutEntryWrites` | core/tee/tadb.c:520-566 | A commit in the state machine writes one entry, at that place, for every table and entry |
| `TaDb.StepKeeps` | core/tee/tadb.c:231-621 | Every critical section keeps the invariant |
| `TaDbFiles.IntactIff` | core/tee/tadb.c:471-621 | A step loses the file of a live entry or of an install under way if and only if it is the late removal of that number |
| `TaDbFiles.UnthreatenedIff` | core/tee/tadb.c:363-621 | A pending removal comes to name a number in use if and only if a new install takes that number |
| `TaDbFiles.FilesSurvive` | core/tee/tadb.c:363-621 | Over every interleaving in which no install takes a number with a removal pending, every live entry has its file |
| `TaDbFiles.ReuseLoses` | core/tee/tadb.c:570-619 | After such a reuse the removal can follow the creation of the new file, and the commit publishes an entry without one |
| `TaDbFiles.ReuseHappens` | core/tee/tadb.c:588-619 | A run from the empty database that ends in such a reuse |
| `TaDb.CreateApartIff` | core/tee/tadb.c:363-435 | A new install keeps numbers apart if and only if no live entry has the first number the bitmap shows free |
| `TaDbFaults.ApartIff` | core/tee/tadb.c:363-621 | Whatever write fails, a step keeps numbers apart if and only if it is not such a collision |
| `TaDbFaults.MarkedIff` | core/tee/tadb.c:570-619 | With the full invariant, a step loses it if and only if it is a delete of an existing entry whose write fails while the bitmap is in memory |
| `TaDbFaults.CloseRepairs` | core/tee/tadb.c:249-262 | Closing the database brings the full invariant back |
| `TaDbFaults.NumbersStayApart` | core/tee/tadb.c:231-621 | Over every run with failing writes and no collision, numbers are apart |
| `TaDbFaults.FailedDeleteCollides` | core/tee/tadb.c:611-619 | A run in which a delete fails and the next install gets the live entry's number |
| `TaDb.Database.SetFile` | core/tee/tadb.c:142-168 | Grows the bitmap as needed and sets the bit |
| `TaDb.Database.ClearFile` | core/tee/tadb.c:170-174 | Clears the bit if there is one |
| `TaDb.Database.PopulateFiles` | core/tee/tadb.c:304-361 | The loop leaves that table and bitmap, and does nothing when the bitmap is there |
| `TaDb.Database.FindEntry` | core/tee/tadb.c:486-518 | The first entry with the UUID, or the number of entries |
| `TaDb.Database.CreateTa` | core/tee/tadb.c:363-435 | Rejects the null UUID; otherwise reserves exactly the least number clear in the filled bitmap |
| `TaDb.Database.CloseAndCommit` | core/tee/tadb.c:534-586 | Writes the entry at the first place that has its UUID, or else the first free one, or else the end; every other entry stays where it is; exactly the number of the entry replaced is free |
| `TaDb.Database.CloseAndDelete` | core/tee/tadb.c:471-484 | Exactly the number of an abandoned install is free |
| `TaDb.Database.DeleteTa` | core/tee/tadb.c:588-621 | Frees exactly the number of the first entry with the UUID and then clears that entry; fails when there is none, the UUID is null, or the write fails, which leaves the number free and the entry live |
| `TaDb.Database.OpenDb` | core/tee/tadb.c:231-247 | One more user of the database, nothing else |
| `TaDb.Database.PutDb` | core/tee/tadb.c:249-262 | One user less; the bitmap goes with the last, the table never |
| `Tzc380.Controller.AutoConfigure` | core/drivers/tzc380.c:219-289 | Succeeds if and only if the plan for the area leaves nothing over and there are regions enough, and returns the next free one; then the planned subregions are pairwise disjoint, their union is exactly the requested area, every base is a multiple of its size, all carry the requested attributes, and exactly these regions are programmed, region 0 excepted |
| `Tzc380.AlignedFits` | core/drivers/tzc380.c:243-283 | An aligned area of size 2^p, p from 15 up to the address width, takes exactly one region |
| `Tzc380.SmallIsLeft` | core/drivers/tzc380.c:243-285 | For an area of 1 to 2^14 bytes nothing is programmed and the final assertion fails |
| `Tzc380.SubMask` | core/drivers/tzc380.c:261-273 | The enabled subregions are exactly the run from the current address, as many as fit the region and the area |
| `Tzc380.TileMore` | core/drivers/tzc380.c:243-283 | A region that covers the next piece extends an exact tiling |
| `Relocs.GetNumRels` | core/mm/fobj.c:329-353 | Counts the relocations inside the object, plus one at its end boundary if there is one |
| `Relocs.RelocPaged.InitRels` | core/mm/fobj.c:355-385 | For any number of relocations, the arrays hold the offsets of exactly those inside the object and each page's 16-bit index entry |
| `Relocs.Alloc` | core/mm/fobj.c:387-420 | The final assertion fails exactly when a relocation lies at the end boundary; otherwise the object holds exactly the relocations of the table that lie inside it |
| `Relocs.RelocatedByTable` | core/mm/fobj.c:355-385 | A word of the relocated image has the offset added if and only if the table names its address |
| `Relocs.EndBoundaryFails` | core/mm/fobj.c:329-385 | A one-page table that passes the checks and fails the assertion |
| `Relocs.RelocPaged.LoadPage` | core/mm/fobj.c:437-464 | For any number of relocations, those between the page's index entry and the next page's are applied to the page; up to 65535 it then equals that page of the relocated image, so that loading all pages is relocating the whole image |
| `Relocs.PageIsRelocated` | core/mm/fobj.c:437-464 | Up to 65535 relocations the two index entries enclose exactly the page's own |
| `Relocs.EmptyLastPageIff` | core/mm/fobj.c:448-461 | A last page without relocations is left as it is, for every content and offset, if and only if there are at most 65535 |
| `Relocs.DenseOverruns` | core/mm/fobj.c:329-385 | A well-formed table of 65536 relocations with such a last page |
| `Segments.CheckSegments` | ldelf/ta_elf.c:575-595 | Passes exactly the lists all of whose sanity checks hold |
| `Segments.AdjustSegments` | ldelf/ta_elf.c:567-661 | The in-place loop computes the adjusted list; it stops at a failed assertion exactly when the list is not sane or one of the assertions fails on the original segments |
| `Segments.AdjustIsGroups` | ldelf/ta_elf.c:597-661 | Success is decided by the original list; every segment of the result is a whole run of overlapping neighbours, from the start of the first to the end of the last, with exactly their permissions and the remap mark exactly when due |
| `Segments.NoNewFlags` | ldelf/ta_elf.c:620-639 | A merged segment has no permission that none of its members had |
| `Segments.AdjustedSegments` | ldelf/ta_elf.c:567-661 | The result is ordered with disjoint page spans, no segment has more file than memory, and every original segment lies in one with at least its permissions |
| `Segments.KeepsOffsetIff` | ldelf/ta_elf.c:620-657 | Every file byte is mapped by a segment of the result, and keeps its offset there if and only if its segment is shifted like the first of its group, the group being the longest run of overlapping neighbours in the original list |
| `Segments.LeaderLeads` | ldelf/ta_elf.c:620-657 | The merge groups exactly these runs |
| `Segments.MergeMovesOffset` | ldelf/ta_elf.c:620-657 | Two segments that pass every assertion, are merged, and put the second one's bytes at other offsets |
| `Segments.RemapNeedsWrite` | ldelf/ta_elf.c:641-648 | A segment marked as remapped is writable |
| `Cts.Cipher.Update` | core/crypto/aes-cts.c:93-187 | For one buffer or two: whole-block updates are CBC, and a size that is not is refused; a last update of up to 16 bytes is refused, a longer one is ciphertext stealing; a refusal changes nothing |
| `Cts.Cipher.EncryptLast` | core/crypto/aes-cts.c:117-142 | For one buffer or two, as long as the data or longer: the output is the CBC encryption of the zero-padded data with the last two blocks swapped, cut to length, and nothing past it is written |
| `Cts.Cipher.DecryptLast` | core/crypto/aes-cts.c:143-185 | Between two buffers the output is the CBC decryption of the completed and swapped ciphertext, cut to length; in place the tail is decrypted from the plaintext block just written; nothing past it is written |
| `Cts.Cipher.CbcUpdate` | core/lib/libtomcrypt/src/modes/cbc/cbc_decrypt.c:63-88 | The block loop, in place or between two buffers, is CBC in either mode and leaves the chaining value behind |
| `Cts.CbcChains` | core/lib/libtomcrypt/src/modes/cbc/cbc_encrypt.c:57-90 | Every ciphertext block encrypts its plaintext block combined with the ciphertext block before it |
| `Cts.CtsLayout` | core/crypto/aes-cts.c:117-142 | The output is the leading CBC blocks, the last one, and as much of the one before it as the data fills |
| `Cts.InPlaceDecryptsIff` | core/crypto/aes-cts.c:168-184 | For one key, decryption in place gives the right tail if and only if the plaintext block before it decrypts, that far, like its ciphertext |
| `Cts.InPlaceLosesTail` | core/crypto/aes-cts.c:168-184 | For every ciphertext and chaining value there is an invertible cipher under which the tail is wrong |
| `Cts.InPlaceSafeIff` | core/crypto/aes-cts.c:93-187 | An update in place gives the same result under every invertible cipher if and only if it encrypts or is not the last |
| `Cts.CtsRoundTrip` | core/crypto/aes-cts.c:93-187 | Decryption inverts encryption for every length over 16 bytes |
| `Cts.CtsAppend` | core/crypto/aes-cts.c:105-107 | Whole-block updates followed by a last one encrypt as one operation on everything |
| `Cts.CtsDecAppend` | core/crypto/aes-cts.c:105-107 | And so they decrypt, wherever the cut is |

## Left out

- Hash tree, truncation and crashes: truncation is covered for the shape of the tree only; it marks no node dirty, so the commit protocol says nothing about it.
- Hash tree, torn writes: each element write is atomic, and a failed write is a crash at that point.
- HTree.HashTree.ReadBlock: a block that was never written is an error, whatever the storage would return for it.
- Lock dependency checker, lock identifiers: they are addresses, so 0, with which the source ends a reported path (core/kernel/lockdep.c:302-308), is not one.
- Lock dependency checker, allocation failure and call stacks: out of memory and the printed traces are not modelled, and only locks nobody owns are destroyed.
- Gcm.State.UpdatePayload: source and destination are one buffer or two; buffers that overlap in part are not covered.
- Gcm.State.OperationFinal: buffers as for UpdatePayload.
- Gcm.State.EncFinal: buffers as for UpdatePayload.
- Gcm.State.DecFinal: buffers as for UpdatePayload.
- Gcm.State.CryptBlocks: the copy through an aligned buffer for unaligned sources (core/crypto/aes-gcm-sw.c:81-88) has the same effect on values and is not a separate branch.
- AES-GCM, key expansion and the wrappers of the crypto API: thin code around the modelled functions.
- TA manager, contexts still initialising and panicked TAs: the model starts when a context is initialised, and TAs do not panic.
- TA manager, fairness: which waiter a signal wakes and when it runs is open, so nothing is said about how long a thread waits.
- TaSession.Manager.GetSession: a thread that already uses a session does not ask for it again; the source only asserts this for the exclusive lock.
- TaSession.Manager.InitSession: the lookup and loading of the TA, and the removal of the session when that fails, happen under the same mutex and are left out.
- TaSession.FreedForever: a new session is a new object, so reuse of a freed one's memory by the allocator is not modelled.
- FileRegistry.StepKeeps: fewer than 2^32 - 1 references to one file exist at a time, since the counter wraps silently at 2^32.
- File registry, tag length: tags are of any length; the source rejects those longer than its buffer before it looks (core/mm/file.c:121-122).
- File registry, slices: the slice list checks only the first page for conflicts and supports no general claim.
- TaDb.StepKeeps: a database starts empty; failed writes are in TaDbFaults, except one while the bitmap is filled, after which nothing is reserved.
- Tzc380.Controller.AutoConfigure: address arithmetic is unbounded, so wrap-around at 2^64 is not modelled; of region 0, whose address is fixed in hardware, the attributes are not modelled.
- Cts.Cipher.Update: buffers that overlap in part are not covered, nor are accelerated CBC implementations.
- Relocs.RelocPaged.LoadPage: words are 8 bytes and relocations lie at word boundaries, so that none crosses a page.
- Device drivers, RPC transport, pager encryption, tracing and the rest of OP-TEE core: no property that spans operations, or covered by the GCM round trip.
