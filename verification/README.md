# AevOS storage, index and protocol core: a verified model

This project models the parts of AevOS that keep data or talk to a device, and proves what each of them keeps over every
input, run or interleaving. Every call that the kernel makes under a spinlock is one atomic step. Clocks, random levels
and the success of an allocation are parameters. C strings and buffers are byte sequences, and integer wrap-around is
written out wherever the code depends on it. Code that updates things in place is a class or a method with loops; its
contract ties the new state to a function of the old one, and the lemmas are about that function.

| component | modules |
|---|---|
| B+ tree from sequence number to ring slot | `BPForest` (node steps and invariant), `HistBPTree` |
| LZ4 block codec | `Lz4Spec`, `Lz4Proofs`, `Lz4Search` (the search without its hash table), `Lz4` |
| history ring, token budget, byte format | `HistorySpec`, `HistorySerial`, `History` |
| AevOSFS | `FsSpec` (copy-on-write files), `FsDir` (directory bytes and paths), `FsSlots` (filling a directory), `FsCreate`, `FsRuns`, `FsLog` (the blocks and log entries of a write), `AevosFs` |
| vector search | `Heap`, `TopK`, `VecIndex` (flat and inverted file), `HnswSpec`, `HnswRun` (best-first search and greedy descent as relations), `HnswSearch`, `Hnsw` |
| device rings | `VirtioRx`, `VirtioProofs`, `VirtioNet`, `NvmeCq` |
| cache tiers | `LruSpec` (the recency list), `HmsCache` |
| hash map and skill registry | `Bits`, `ChainMap`, `HashMap`, `SkillRegistry` |
| conversation tree | `ChatTree`, `AevosDb`, `ChatContent` (what is stored and what stays) |
| tokenizer | `Bpe` |
| shared | `Bytes`, `Counting`, `Errno` |

Places where the code does less than its callers might expect are stated as such, each with an exact condition:

- LZ4: after a match the compressor enters the next position in its table before probing it, so the next probe can
  match itself at offset 0, which the decoder rejects. Decompression never gives wrong bytes; it gives the source back
  if and only if the first match does not end early and the room is at least the length (`RoundTripExactly`), and
  `RoundTripFails` names a text. `history_get` otherwise hands out the stored block, cut at its buffer, instead of the
  text (`PushThenRead`). The compressor can store one byte past its capacity, whether it then succeeds or fails,
  exactly when one of its room checks is met without a byte to spare and the lengths need an extension byte more than
  it counts (`StoredSize`; `ResultSize` and `OneByteOver` for a success, `FailsOneByteOver` for a failure).
- History: the eviction loop compares the 32-bit counters head and tail directly, so once they straddle 2^32 it evicts
  nothing, and it compares a 32-bit token sum, so it can stop early at a sum that wrapped. `BudgetExactly` is the
  condition, `BudgetFailsAfterWrap` a case; no run below 2^32 operations reaches either (`RunIsBudgeted`), because
  kmalloc has no block above 65536 bytes and a push of a text that needs more fails. An index rebuild skips entries
  without data, which a reload makes of entries with an empty payload (`RebuildAgreesExactly`,
  `ReloadedSurvivesRebuild`). A reload also keeps the length of a payload that got no memory; saving such a history
  computes its size with that length and writes no payload, so the bytes written are the size computed, and load back
  to the same entries, if and only if no payload was lost (`NeededIsWritten`, `RoundTrip`; `LargePayloadIsLost` is a
  case). Pushing an empty text shrinks its buffer to nothing, which frees it, and keeps the pointer (history.c:67-68,
  slab.c:329-331). The model's `Held([])` stands for that pointer, which is not NULL; what the allocator does when the
  entry is freed again is not part of this model.
- AevOSFS: creation does not look whether the name is there. A created path resolves to the new inode if and only if
  its name has 1 to 127 characters and the path did not resolve before; otherwise it resolves as it did
  (`CreationExactly`). A write that could not read a block it overwrites in part fills the rest of it with zeros
  (`FailedReadsExactly`). Mounting a volume that was formatted before reads no inode: its root directory comes back empty
  and the log head where the superblock has it (`Mount`, `SuperBlockFields`).
- Cache tiers: a put is found again if and only if the key fits its 64-byte field (`GetAfterPut`).
- Conversation tree: a push is not checked against the sessions. With a session id that has not been given out, the
  session created later under that id starts with a wrong count (`EarlyPushMiscounts`); pushes keep everything exact if
  and only if the id has been given out and the parent is of the session (`PushKeepsDbExactly`), and a count can go
  wrong later if and only if the id had not been given out (`CountsStayExactly`). A push that runs out of memory has
  already counted the child (`FailedPushExactly`); asking for the branch of an unknown leaf reports one entry that is
  not filled in (`BranchExactly`).
- Inverted file: with fewer than k candidates the heap is never built, so the first candidate scanned comes last
  (`Search`); `NearerFirstComesLast` shows results out of order.
- Graph search: the queue takes only the first 4*ef nodes that were among the ef nearest when met. A result beyond them is
  returned although its neighbours were never looked at (`ReturnedIsExplored`); with at most 4*ef such nodes all
  neighbours of all results were visited (`RunIsClosed`).
- Network receive: a completion of at most 12 bytes ends a poll with the later ones unread (`Poll`).
- B+ tree: an insertion that runs out of memory makes the binding all the same, unless it would have been the first,
  and leaves a tree that range queries still read correctly (`Insert`). Comments in the source say that a node holds
  one key too many for a moment, but its arrays are one slot short of that. The model's nodes have the spare slot.

## Model

| member | source | states |
|---|---|---|
| BPForest.LeafInsertKeeps | src/agent/hist_bptree.c:70-81 | a key put in its place in the leaf whose range holds it keeps order, routing, one depth, parent links and the leaf chain; only that leaf may now be overfull |
| BPForest.SplitLeafKeeps | src/agent/hist_bptree.c:97-116 | splitting an overfull leaf keeps all of that, with one split-off right half still to be hung into the parent, and keeps the map |
| BPForest.ScanFindsLeft | src/agent/hist_bptree.c:190-193 | the scan of the parent's keys for the separator always stops at the slot of the left half |
| BPForest.HangKeeps | src/agent/hist_bptree.c:83-94 | hanging the right half next to the left one settles the split; only the parent may now be overfull |
| BPForest.SplitInnerKeeps | src/agent/hist_bptree.c:119-147 | promoting the middle key of an overfull inner node keeps the invariant with the two halves one level up to be settled, children re-parented |
| BPForest.GrowKeeps | src/agent/hist_bptree.c:213-224 | a new root over the two halves of the old one settles the tree with height one more |
| BPForest.OnlyHome | src/agent/hist_bptree.c:58-68 | a key is in the map if and only if it is in the one leaf whose range holds it |
| BPForest.OverwriteKeeps | src/agent/hist_bptree.c:170-175 | overwriting the slot of a present key keeps the invariant and rebinds exactly that key |
| BPForest.LeavesShareOneDepth | src/agent/hist_bptree.c:149-225 | in every settled tree all leaves are exactly height nodes below the root |
| BPForest.SubtreeIsFull | src/agent/hist_bptree.c:97-147 | every subtree of height h other than a lone root leaf indexes at least 2^(h+1) keys |
| BPForest.HeightIsLogarithmic | src/agent/hist_bptree.c:149-225 | a tree of height h of at least 2 indexes at least 2^h keys |
| HistBPTree.ShiftIn | src/agent/hist_bptree.c:70-81 | the shifting loop inserts key and value at the one place that keeps the keys strictly sorted |
| HistBPTree.MoveUpperHalf | src/agent/hist_bptree.c:119-147 | the moving loop of an inner split gives exactly the split node array, parents included |
| HistBPTree.Tree.LeafSearch | src/agent/hist_bptree.c:58-68 | descent ends, at the leaf whose range holds the key |
| HistBPTree.Tree.InternalInsert | src/agent/hist_bptree.c:83-94 | keys and children shift right around the new separator and the invariant holds with this node as the only overfull one |
| HistBPTree.Tree.SplitLeafNode | src/agent/hist_bptree.c:97-116 | the upper half of the leaf moves to a new leaf that starts at the separator, and the map is unchanged |
| HistBPTree.Tree.SplitInternalNode | src/agent/hist_bptree.c:119-147 | the promoted key separates the two halves, and the map is unchanged |
| HistBPTree.Tree.Climb | src/agent/hist_bptree.c:188-225 | the climb through cascading splits and root growth ends with a settled tree and the same map, if there is memory |
| HistBPTree.Tree.Insert | src/agent/hist_bptree.c:149-225 | a valid tree stays valid and its map is the old one with this one binding updated; out of memory, which more nodes than the height rule out, the binding is made but for the first, one node is too full or one half not hung in, and range queries still see every binding |
| HistBPTree.Tree.Clear | src/agent/hist_bptree.c:53-56 | the empty tree, for the empty map |
| HistBPTree.Tree.RangeFromSeq | src/agent/hist_bptree.c:248-264 | the slots of exactly the keys from min_seq on, in key order, cut at max_out, also after an insertion that ran out of memory |
| HistBPTree.OnlyRange | src/agent/hist_bptree.c:248-264 | there is only one such key list, so the range query is determined by the map |
| Lz4Proofs.MatchAgrees | src/lib/lz4.c:45-53 | all bytes of a found match equal the bytes at its reference, also where the two overlap |
| Lz4Search.CountIsMaximal | src/lib/lz4.c:45-53 | a match is counted up to the first difference or the end |
| Lz4Search.ParseIsSearch | src/lib/lz4.c:74-133 | the table search finds exactly the sequences of a search that compares the latest position entered with the same hash, through its low 16 bits, and enters every position tried and every match end |
| Lz4Search.ParseAllIsSearch | src/lib/lz4.c:55-155 | so does the compressor over a whole text |
| Lz4Proofs.SequenceDecodes | src/lib/lz4.c:90-133 | decoding an emitted sequence gives its literals and its match, or fails exactly for offset 0, for every length extension |
| Lz4Proofs.RoundTrip | src/lib/lz4.c:55-228 | compress then decompress gives the source, or fails exactly when an offset 0 was emitted or the room is too small: never wrong bytes |
| Lz4Proofs.ZeroOffsetExactly | src/lib/lz4.c:125-133 | an offset 0 is emitted if and only if the first match from here ends early |
| Lz4Proofs.RoundTripExactly | src/lib/lz4.c:55-228 | the source comes back if and only if its first match does not end early and it fits the room |
| Lz4Proofs.ParseOverflows | src/lib/lz4.c:157-228 | with less room than the source is long, decoding any parse of it fails |
| Lz4Proofs.RoundTripFails | src/lib/lz4.c:130-133 | a concrete text that does not come back |
| Lz4Proofs.SequenceSize | src/lib/lz4.c:90-124 | a sequence takes at most the bytes it stands for and a 255th of its literals |
| Lz4Proofs.ParseFits | src/lib/lz4.c:90-154 | with n + n/255 + 4 bytes no room check fails and at most n + n/255 + 2 are written, summed over any split into sequences |
| Lz4Proofs.CompressNeverFails | src/agent/history.c:54-64 | the capacity history_push allocates is always enough |
| Lz4Proofs.StoredSize | src/lib/lz4.c:90-154 | every run, successful or not, stores at most one byte past the capacity, and does so if and only if some room check is met exactly with lengths that need an extension byte more |
| Lz4Proofs.SequenceRoom | src/lib/lz4.c:90-124 | a sequence takes exactly its estimate, one less, or one more, by the remainders of its two lengths modulo 255 |
| Lz4Proofs.ResultSize | src/lib/lz4.c:90-154 | a result is at most one byte longer than the capacity, and is so if and only if the last room check was tight and the last literals leave a remainder of 15 or more modulo 255 |
| Lz4Proofs.OneByteOver | src/lib/lz4.c:136-154 | a text of 15 bytes that takes 17 bytes of a capacity of 16 |
| Lz4Proofs.FailsOneByteOver | src/lib/lz4.c:90-138 | a text of 34 bytes that fails at a capacity of 19 after 20 bytes were stored |
| Lz4.CountFrom | src/lib/lz4.c:45-53 | the length of the common prefix |
| Lz4.EmitSequence | src/lib/lz4.c:90-124 | the bytes written are the encoding of the sequence |
| Lz4.Compress | src/lib/lz4.c:55-155 | the search loop produces exactly the specified parse, encoded, or fails exactly when the specification does, and stores exactly the specified bytes either way |
| Lz4.CopyInto | src/lib/lz4.c:216-224 | both copy paths give the overlapping match copy |
| Lz4.TakeLiterals | src/lib/lz4.c:170-189 | the literal half of a decoder turn |
| Lz4.TakeMatch | src/lib/lz4.c:195-224 | the match half of a decoder turn, failing on offset 0, on an offset before the start and on lack of room |
| Lz4.Decompress | src/lib/lz4.c:157-228 | the loop computes exactly the specified decoder, -1 for its failure |
| HistorySpec.PushKeepsGood | src/agent/history.c:46-105 | a push keeps the ring bound and strictly increasing sequence numbers below next_seq |
| HistorySpec.TruncateKeepsGood | src/agent/history.c:177-200 | truncation keeps that and leaves exactly the oldest keep entries |
| HistorySpec.PushAdds | src/agent/history.c:46-105 | a push evicts one entry of a full ring and then up to the first fit, keeps the others as they are, and adds one with the time, role, length and block of the text, one token for every four bytes begun, and the next sequence number |
| HistorySpec.DropOverIs | src/agent/history.c:76-79 | the eviction loop drops exactly up to the first suffix whose 32-bit token sum fits, and nothing once the counters straddle 2^32 |
| HistorySpec.FirstFitIsLeast | src/agent/history.c:76-79 | every longer suffix was too much, so no entry is evicted that need not be |
| HistorySpec.BudgetExactly | src/agent/history.c:71-79 | for every history and text the budget holds after a push, one live entry excepted, if and only if the first suffix that seems to fit does, or with wrapped counters nothing had to go |
| HistorySpec.SmallSumsFit | src/agent/history.c:76-79 | with unwrapped counters and fewer than 2^32 tokens the first suffix that seems to fit does |
| HistorySpec.BudgetFailsAfterWrap | src/agent/history.c:71-79 | a history that is over its budget after a push |
| HistorySpec.PushKeepsBudget | src/agent/history.c:46-105 | below 2^32 entries in all, a push keeps window_tokens exact and within the maximum unless one entry is live |
| HistorySpec.TruncateKeepsBudget | src/agent/history.c:177-200 | truncation keeps the budget |
| HistorySpec.RangeIsSlots | src/agent/hist_bptree.c:248-264 | a range query on an index of any of the live entries lists their ring slots from m on, oldest first |
| HistorySpec.RebuiltIsOk | src/agent/hist_bptree.c:227-239 | a rebuilt index binds live entries only, each to its slot, and every one that has data |
| HistorySpec.RebuildAgreesExactly | src/agent/hist_bptree.c:227-239 | a rebuild restores the index if and only if every live entry has data |
| HistorySpec.PushThenRead | src/agent/history.c:46-141 | for every text that can be pushed and every buffer, history_get gives nothing for an empty text, the text if and only if it is shorter than the buffer and does not match early, and else the stored block cut at the buffer size less one modulo 2^32 |
| HistorySpec.RunKeeps | src/agent/history.c:36-214 | in every run of push, truncate and clear, sequence numbers increase below next_seq and every live entry has data |
| HistorySpec.RunHolds | src/agent/history.c:36-214 | in every run each live entry holds the time, role, length, block and tokens of a text that some push of the run was given |
| HistorySpec.RunTokens | src/agent/history.c:9-11 | over every run the token sum is the sum of the lengths of the live texts divided by four and rounded up |
| HistorySpec.RunIsBudgeted | src/agent/history.c:36-214 | over every run below 2^32 operations, with any texts and any maximum, window_tokens is the exact sum, in bytes the lengths of the live texts divided by four and rounded up, and within the maximum unless one entry is live |
| HistorySerial.NeededIsWritten | src/agent/history.c:292-333 | never more than the computed number of bytes is written, and exactly that if and only if no live entry lost a non-empty payload |
| HistorySerial.RoundTrip | src/agent/history.c:292-400 | loading what was saved gives the same entries, maximum and numbering, ring rotated to slot 0, if and only if no live entry lost a non-empty payload |
| HistorySerial.HeaderBack | src/agent/history.c:306-313 | magic number, entry count, maximum, token window and next sequence number stand in the saved header at their places |
| HistorySerial.LoadsV1 | src/agent/history.c:335-400 | a version 1 buffer loads as its entries, numbered from 0 in order, with next_seq their number, whatever its saved window |
| HistorySerial.LargePayloadIsLost | src/agent/history.c:292-400 | a buffer with a payload of 70000 bytes loads as a good history of one entry, whose size is computed as 70053 and written as 53, and which loads back empty |
| HistorySerial.ReloadedIsGood | src/agent/history.c:335-400 | the reloaded history is valid and has the same token window |
| HistorySerial.ReloadedSurvivesRebuild | src/agent/history.c:335-400 | later rebuilds of the reloaded index keep every entry if and only if every saved entry had data that was not empty |
| HistorySerial.PushKeepsFits | src/agent/history.c:46-105 | whatever can be pushed can be saved |
| HistorySerial.RunFits | src/agent/history.c:36-214 | every history that a run reaches can be saved |
| HistorySerial.RunRoundTrip | src/agent/history.c:292-400 | every history that a run reaches is loaded back with the same maximum, numbering, token window and entries, those with an empty payload without data, and an index of all of them |
| History.Store.EvictOldest | src/agent/history.c:36-42 | the ring loses its oldest entry, and tail and window_tokens follow modulo 2^32 |
| History.Store.Rebuild | src/agent/hist_bptree.c:227-239 | the tree holds the bindings of the live entries that have data |
| History.Store.Push | src/agent/history.c:46-105 | ring, counters and B+ tree together become the pushed history, which PushAdds describes; without memory, or for a text kmalloc has no block for, nothing changes |
| History.Store.TruncateKeep | src/agent/history.c:177-200 | ring, counters and tree together become the truncated history |
| History.Store.Clear | src/agent/history.c:204-214 | ring, counters and tree together become the history of the start, with the same maximum |
| History.Store.RangeFrom | src/agent/hist_bptree.c:248-264 | the slots of the indexed live entries from min on, oldest first, up to max_out; entries with data are always indexed, and all are if all have data |
| History.Store.Get | src/agent/history.c:109-141 | the entry at a logical index, decompressed, or no entry |
| History.Store.Serialize | src/agent/history.c:292-333 | the size computed if the buffer is smaller, else the specified bytes and their number, which is the size computed if and only if no payload was lost |
| History.Store.Deserialize | src/agent/history.c:335-400 | error code, counters, ring and index as the format says, both versions, also for more entries than a ring or out of order |
| FsSpec.ReplaceWrites | src/kernel/fs/aevosfs.c:369-396 | a chunk in a fresh block patches exactly those bytes of that file, the rest of the block copied if it could be read and zero if not |
| FsSpec.FailedReadsExactly | src/kernel/fs/aevosfs.c:340-411 | over a whole write, exactly the written bytes change if and only if everything around them in the partly overwritten unreadable blocks was zero |
| FsSpec.WroteMoreWith | src/kernel/fs/aevosfs.c:340-411 | writes that meet between two blocks compose, unreadable blocks included |
| FsSpec.ReadBackWith | src/kernel/fs/aevosfs.c:304-411 | what was written is read back even if blocks could not be read meanwhile |
| FsSpec.AppendLogWrites | src/kernel/fs/aevosfs.c:69-94 | the log entry of a write changes no file |
| FsSpec.WroteMore | src/kernel/fs/aevosfs.c:340-411 | consecutive chunks compose to one write |
| FsSpec.ReadDense | src/kernel/fs/aevosfs.c:304-338 | reading a file without holes gives every byte of the range, across blocks |
| FsSpec.ReadAfterWrite | src/kernel/fs/aevosfs.c:304-411 | after a full write at or below the end the file is old[..off] + data + old[off+n..]; after a partial one the part below the old size |
| FsSpec.RangeAfterWrite | src/kernel/fs/aevosfs.c:304-411 | in any file, a range that is backed or was written reads back the written bytes and the old ones elsewhere |
| FsSpec.ReadBack | src/kernel/fs/aevosfs.c:304-411 | what was written is read back, wherever it was written |
| FsDir.SetSlotHere | src/kernel/fs/aevosfs.c:147-189 | a filled directory slot reads back its inode id, name and type |
| FsDir.SetSlotElsewhere | src/kernel/fs/aevosfs.c:147-189 | filling a slot changes no other slot of the block |
| FsDir.ComponentsJoin | src/kernel/fs/aevosfs.c:98-143 | the components of a joined path are those of the two parts |
| FsDir.ComponentsOfName | src/kernel/fs/aevosfs.c:98-143 | a name is one component if and only if it has 1 to 127 characters |
| FsSlots.FillKeepsTidy | src/kernel/fs/aevosfs.c:147-189 | a directory that fills up in scan order still does after its first free slot is filled |
| FsSlots.NewBlockKeepsTidy | src/kernel/fs/aevosfs.c:147-189 | and after it gets a new block |
| FsCreate.AddEntryExactly | src/kernel/fs/aevosfs.c:147-189 | in such a directory a lookup then finds the new name if it was absent, and every other name exactly as before |
| FsCreate.AddEntryShows | src/kernel/fs/aevosfs.c:147-189 | an absent name is then found in any directory, a present one keeps its entry in a directory filled in scan order, and all old names are still found |
| FsCreate.AddEntrySucceeds | src/kernel/fs/aevosfs.c:147-189 | an entry can be added if and only if a scanned block has a free slot, or there is a free place in the block list and a free block, which is then taken |
| FsCreate.OtherDirectoriesSame | src/kernel/fs/aevosfs.c:147-189 | no other file or directory changes |
| FsCreate.CreateKeepsOk | src/kernel/fs/aevosfs.c:259-302 | creation keeps block ownership and the allocator balance, on every error path too |
| FsCreate.CreateInExactly | src/kernel/fs/aevosfs.c:259-302 | in a directory, creation succeeds if and only if there is a free inode and room for the entry, else says which is missing; it takes one inode id and a block exactly when no slot is free |
| FsCreate.CreateReturns | src/kernel/fs/aevosfs.c:259-302 | the exact condition of every return code, and that a failure leaves all as it was but for one inode id when the directory has no room |
| FsCreate.ResolveKeeps | src/kernel/fs/aevosfs.c:98-143 | if directories keep their entries, every path that resolved still resolves to the same inode |
| FsCreate.PathCreation | src/kernel/fs/aevosfs.c:259-302 | after a successful creation in a directory that fills up in scan order or lacks the name, all old paths resolve as before, and a new path resolves to the new, empty inode of its type if and only if the name has 1 to 127 characters |
| FsCreate.LongPathIsCut | src/kernel/fs/aevosfs.c:259-302 | creating a path is creating its first 511 bytes |
| FsRuns.RunAdvances | src/kernel/fs/aevosfs.c:17-25 | over every run, device errors of writes included, log_head + free_blocks stays total_blocks, no block is handed out twice, and no block of a file is overwritten |
| FsRuns.SnapshotSurvives | src/kernel/fs/aevosfs.c:340-411 | an inode copy saved from a file reads the same bytes after any run of writes, failed ones too, and creations |
| FsRuns.PathsSurvive | src/kernel/fs/aevosfs.c:259-411 | over every run from a mount of creations, with new or present names and successful or not, and writes to files, every path that resolved keeps resolving to the same inode |
| FsRuns.CreationExactly | src/kernel/fs/aevosfs.c:259-302 | in every such state a successful creation makes its path resolve to the new inode if and only if the name has 1 to 127 characters and the path did not resolve before, and else leaves it as it was; a name that was there changes no path |
| FsRuns.WriteFrames | src/kernel/fs/aevosfs.c:340-411 | a write changes no other file, directory or lookup |
| FsLog.LogEntryRecords | src/kernel/fs/aevosfs.c:69-94 | a log entry reads back operation, inode, offset, length and data block at their places |
| FsLog.CostAdds | src/kernel/fs/aevosfs.c:340-411 | the number of blocks a write takes, two for a place and one more for a hole, adds up over its chunks |
| FsLog.LoggedMore | src/kernel/fs/aevosfs.c:340-411 | the blocks and log entries of consecutive chunks are those of one write |
| AevosFs.SuperBlockFields | src/kernel/fs/aevosfs.c:206-257 | the fields of the superblock that a mount writes |
| AevosFs.Volume.Mount | src/kernel/fs/aevosfs.c:206-257 | a device without a superblock is formatted over any content; of one with a superblock only its fields are taken; either way, if those fields agree with the device, the volume is valid, every directory fills up in scan order, and the root directory at "/" is empty |
| AevosFs.Volume.AllocBlock | src/kernel/fs/aevosfs.c:17-25 | the block at the log head, or 0 when none is free |
| AevosFs.Volume.LogAppend | src/kernel/fs/aevosfs.c:69-94 | one fresh block, if any is left, gets the entry unless the transfer fails, and no file and no other block changes |
| AevosFs.Volume.Write | src/kernel/fs/aevosfs.c:340-411 | the first rc bytes of the buffer are written, only to fresh blocks; behind every data block stands the log entry with inode, offset, length and block, unless no block was left or its transfer failed; the log head moves by exactly two blocks for each place and one for each hole; the size moves only after a full write; a short write means no direct block or no space is left, and -EIO that the last block taken could not be written; around the written bytes, exactly the partly overwritten blocks that could not be read become zero |
| AevosFs.Volume.Read | src/kernel/fs/aevosfs.c:304-338 | the bytes up to the size, the request or the first hole, or -EIO exactly if one of their blocks cannot be read |
| AevosFs.Volume.ResolvePath | src/kernel/fs/aevosfs.c:98-143 | the walk computes the specified resolution |
| AevosFs.Volume.AddDirEntry | src/kernel/fs/aevosfs.c:147-189 | the first free slot or a new block gets the entry, as specified; when that is possible is AddEntrySucceeds |
| AevosFs.Volume.CreatePath | src/kernel/fs/aevosfs.c:259-302 | error code and new volume as specified; their exact conditions are CreateReturns |
| VirtioProofs.ListOverwritesNothing | src/kernel/drivers/virtio_net.c:322-325 | a repost never overwrites an available slot the device has not taken |
| VirtioProofs.PutOverwritesNothing | src/kernel/drivers/virtio_net.c:293-299 | a used element, written before it is published, never overwrites one the driver has not read |
| VirtioProofs.PopKeeps | src/kernel/drivers/virtio_net.c:297-300 | the length read belongs to the id read before it, whatever the device does in between |
| VirtioProofs.SlotsApart | src/kernel/drivers/virtio_net.c:312-318 | the buffers are disjoint parts of one memory: what is written at the address of one descriptor is found in its buffer and nowhere else |
| VirtioProofs.NextKeeps | src/kernel/drivers/virtio_net.c:288-345 | every step of driver or device keeps the ring invariant; nothing completed or delivered is lost |
| VirtioProofs.StartKeeps | src/kernel/drivers/virtio_net.c:432-442 | the ring set-up establishes the invariant |
| VirtioProofs.RunKeeps | src/kernel/drivers/virtio_net.c:288-345 | in every interleaving, across index wrap, completions are consumed once each in used-ring order, with the bytes that the device wrote at the address of the descriptor |
| VirtioProofs.ExactlyOnePlace | src/kernel/drivers/virtio_net.c:288-345 | each descriptor is in exactly one of available, device-held, used-but-unread or with the driver, and the rings say so |
| VirtioProofs.DriverNeverStuck | src/kernel/drivers/virtio_net.c:288-330 | the driver can always finish a receive, and begins one exactly when a completion is unread |
| VirtioProofs.DeviceNeverStuck | src/kernel/drivers/virtio_net.c:312-325 | a device with a descriptor may fill all 2048 bytes at its address, which the driver then finds in the buffer, and can hand it back |
| VirtioProofs.DeviceTakesOffers | src/kernel/drivers/virtio_net.c:322-325 | a device can take a descriptor exactly when one is on offer |
| VirtioProofs.SlotsSurviveWrap | src/kernel/drivers/virtio_net.c:288-330 | ring slots can be computed from wrapped 16-bit indices if and only if the queue size divides 2^16 |
| VirtioNet.RxQueue.Poll | src/kernel/drivers/virtio_net.c:332-345 | one poll hands on the unread payloads in order, up to 64 or the first empty one, which is taken and leaves the later ones unread |
| VirtioNet.RxQueue.RecvRaw | src/kernel/drivers/virtio_net.c:288-330 | the oldest unread frame without its header, cut at the buffer size, and the queue after one whole receive; nothing when there is none |
| NvmeCq.PollIsExact | src/kernel/drivers/nvme.c:49-72 | the phase test holds if and only if an unread entry is posted, and the slot then holds the next one: never a stale slot |
| NvmeCq.ConsumeKeeps | src/kernel/drivers/nvme.c:49-72 | taking an entry keeps the queue invariant, also on wrap |
| NvmeCq.PostKeeps | src/kernel/drivers/nvme.c:49-72 | a post that respects the head doorbell overwrites nothing unread |
| NvmeCq.RoomIsExact | src/kernel/drivers/nvme.c:49-72 | the controller can post exactly while fewer than size - 1 entries wait beyond the doorbell |
| NvmeCq.RunKeeps | src/kernel/drivers/nvme.c:49-101 | in every interleaving completions are taken once each in order; after c of them head is c mod size and the phase 1 xor (c div size mod 2) |
| NvmeCq.CompletionQueue.Probe | src/kernel/drivers/nvme.c:49-72 | one probe finds the next posted entry exactly when there is one, and reports success from its status |
| NvmeCq.LateReadIsSafe | src/kernel/drivers/nvme.c:58-67 | the entry read after the head doorbell is still there: no post before the next probe overwrites it |
| Heap.RootIsLargest | src/db/vecindex.c:85-108 | the root of a heap has the largest key |
| Heap.SiftDown | src/db/vecindex.c:85-108 | sifting keeps the items and extends the heap to one more node, max-heap or min-heap |
| Heap.SiftUp | src/agent/memory.c:114-126 | the pushed item rises to its place: same items, a heap |
| TopK.Offer | src/db/vecindex.c:146-166 | after one more candidate the buffer holds the k best of all seen |
| TopK.Drain | src/db/vecindex.c:168-176 | extraction keeps the items, the first stored comes out last, and from a heap they come out best first |
| TopK.TakeRoot | src/db/vecindex.c:159-164 | replacing the worst kept item by a better candidate leaves the k best of one more |
| VecIndex.DistIsExact | src/db/vecindex.c:60-79 | int32 distances are exact up to 33025 dimensions (L2) and 131071 (inner product) |
| VecIndex.ExactLaws | src/db/vecindex.c:60-79 | the L2 value is both norms less twice the inner product, and 0 exactly for equal vectors |
| VecIndex.FlatSearch | src/db/vecindex.c:133-180 | min(k, count) stored (id, distance) pairs, best first, no omitted vector better, for both metrics |
| VecIndex.PickProbes | src/db/vecindex.c:243-250 | the probed lists are distinct and no farther than any other, whenever all distances are below INT32_MAX |
| VecIndex.Ivf.Add | src/db/vecindex.c:184-221 | the vector joins the list of its nearest centroid, the first of equals, and no other list changes |
| VecIndex.Ivf.Search | src/db/vecindex.c:225-297 | the k best of the probed lists; sorted once at least k candidates were seen or if they were scanned in heap order; with fewer the first scanned comes last; nearest distinct probes up to 33025 dimensions |
| VecIndex.NearerFirstComesLast | src/db/vecindex.c:282-293 | two candidates scanned nearer first, with more than two wanted, come out in the wrong order |
| HnswSpec.OfferKeeps | src/agent/memory.c:201-228 | an offered neighbour list stays distinct and bounded, and nothing it turned down is nearer than what it kept |
| HnswSpec.LinkKeeps | src/agent/memory.c:201-228 | linking keeps every layer sound: edges join different nodes of sufficient level, no duplicates, at most 32 or 16 |
| HnswSpec.NearerShrinks | src/agent/memory.c:252-270 | every greedy step leaves strictly fewer nearer nodes, so the descent ends |
| HnswSpec.ClosedMeansNoNearerNeighbour | src/agent/memory.c:143-196 | once all neighbours of the results were visited, no neighbour left out is nearer than any result |
| HnswRun.EntryIsExplored | src/agent/memory.c:143-196 | a best-first search explores its entry first |
| HnswRun.ReturnedIsExplored | src/agent/memory.c:143-196 | whatever it returns was explored, unless more than 4*ef nodes were admitted and it found no place in the queue |
| HnswRun.RunIsClosed | src/agent/memory.c:143-196 | with at most 4*ef nodes admitted, all neighbours of everything returned were visited |
| HnswRun.SmallRunIsExact | src/agent/memory.c:143-196 | a search that visits at most ef nodes has visited everything that can be reached from its entry |
| HnswSearch.HeapPushMax | src/agent/memory.c:114-140 | the bounded heap holds the nearest of everything pushed |
| HnswSearch.Explore | src/agent/memory.c:175-192 | the neighbour loop visits exactly the new neighbours of the node, in list order; the heap then holds the nearest of all visited and the queue those that were among the ef nearest when met, up to 4*ef |
| HnswSearch.SearchLevel | src/agent/memory.c:143-196 | a best-first search to its end: each node explored is a nearest waiting one, it stops only when ef visited nodes are nearer than every waiting one, and it returns the ef nearest of the visited nodes, all of the layer and reached along edges from the entry; with 4*ef at least the node count every neighbour of a result was visited |
| HnswSearch.SelectNearest | src/agent/memory.c:283-289 | the partial selection sort keeps the items and puts the nearest first |
| Hnsw.Descend | src/agent/memory.c:252-270 | the greedy walk goes to the first nearest neighbour, each nearer than the last, and ends at a local minimum of its layer |
| Hnsw.DescendTo | src/agent/memory.c:252-270 | the descent takes such a walk on every layer from the top down to the wanted one, each starting where the last ended |
| Hnsw.BestPrefix | src/agent/memory.c:346-358 | the first c of the ordered results are the c nearest |
| Hnsw.Graph.AddNeighbor | src/agent/memory.c:201-228 | one list changes as offered, and the graph stays sound |
| Hnsw.Graph.InsertLayer | src/agent/memory.c:277-297 | the new node's list is exactly the nearest nodes that a best-first search from the given node returns, nearest first; each of them is offered the link back, and no other list and no other layer changes |
| Hnsw.Graph.Insert | src/agent/memory.c:232-308 | a sound graph stays sound with the entry point on the maximum level; on every shared layer the new node is linked as above, the search starting where the descent ended and then at the nearest of the layer above; a full graph is unchanged |
| Hnsw.Graph.DoneLinksBack | src/agent/memory.c:201-228 | after an insertion every node the new one is linked to links back unless it is full of nearer ones |
| Hnsw.Graph.Search | src/agent/memory.c:310-362 | the top_k nearest, in order, of what a best-first search of layer 0 visits from where the greedy descent ends, a local minimum of layer 1; all neighbours of the results were visited unless more than four times the width were admitted |
| LruSpec.Ages | src/agent/hms_cache.c:189-252 | after a run on other keys an entry sits behind exactly the keys the run used, or is gone |
| LruSpec.FoundExactlyWhileRecent | src/agent/hms_cache.c:189-252 | it is found with its value if and only if the run used fewer than cap other keys |
| HmsCache.GetAfterPut | src/agent/hms_cache.c:31-37 | in any table a put is found again if and only if its key has at most 63 characters |
| HmsCache.GetRefines | src/agent/hms_cache.c:189-210 | a get on the stamped table is a move to the front of the recency list |
| HmsCache.PutRefines | src/agent/hms_cache.c:212-252 | a put is a store at the front, the least recently used entry leaving a full list |
| HmsCache.PutLoses | src/agent/hms_cache.c:240-246 | without memory a put loses the key's entry, or the least recently used one of a full table |
| HmsCache.OldestIsLast | src/agent/hms_cache.c:61-77 | the smallest tag of a full table belongs to the last of the recency list |
| HmsCache.RunRefines | src/agent/hms_cache.c:189-252 | over every run with short keys the table stays a picture of the recency list |
| HmsCache.ForgetsExactly | src/agent/hms_cache.c:189-252 | from any tier state, a key put and left alone is found with its value exactly while fewer than cap other keys were used |
| HmsCache.Tier.Get | src/agent/hms_cache.c:189-210 | value, table and clock as specified |
| HmsCache.Tier.Put | src/agent/hms_cache.c:212-252 | table and clock as specified, with and without memory |
| Bits.MaskIsMod | src/lib/hashmap.c:100 | masking with capacity - 1 is the remainder for a power of two |
| Bits.NextPow2Is | src/lib/hashmap.c:19-26 | the bit smearing gives the least power of two not below v, and 0 above 2^63 |
| ChainMap.PrependKeeps | src/lib/hashmap.c:117-130 | a new head entry binds its key and changes no other binding |
| ChainMap.SetKeeps | src/lib/hashmap.c:103-108 | overwriting a value rebinds its key and changes no other binding |
| ChainMap.CutKeeps | src/lib/hashmap.c:154-163 | unlinking an entry unbinds its key and changes no other binding |
| ChainMap.MoveOne | src/lib/hashmap.c:77-86 | relinking one entry keeps the new table sound and holding exactly the bindings passed so far |
| HashMap.Rehash | src/lib/hashmap.c:72-93 | a resize keeps the map and the number of entries, every entry in its new bucket |
| HashMap.Create | src/lib/hashmap.c:28-47 | an empty map of at least 16 buckets, less than twice what was asked; none without memory or above 2^63 |
| HashMap.Map.Put | src/lib/hashmap.c:95-131 | the map with this binding, at most three entries for four buckets; the exact condition for a failure, which leaves the map as it was, and for the doubling of the buckets |
| HashMap.Map.Get | src/lib/hashmap.c:133-145 | the value of the key, or NULL |
| HashMap.Map.Remove | src/lib/hashmap.c:147-165 | the map without the key, and its old value |
| SkillRegistry.RegisterKeeps | src/agent/skill.c:35-79 | registration keeps every binding that still fits its slot equal to the scan, stored or not |
| SkillRegistry.RetireKeeps | src/agent/skill.c:81-102 | so does switching a skill off, whatever happens to its binding |
| SkillRegistry.RegisterKeepsNames | src/agent/skill.c:48-54 | with names that fit, active names stay different; registration, removal and retirement all keep this |
| SkillRegistry.Engine.FindByName | src/agent/skill.c:104-120 | always the skill the linear scan gives, for every name, with slot 0 stored as NULL and bindings missing |
| SkillRegistry.Engine.Register | src/agent/skill.c:35-79 | a new slot bound to the name unless the registry has no memory, or none exactly when the table is full or the name is taken |
| SkillRegistry.Engine.Unregister | src/agent/skill.c:81-102 | the first slot with the id is switched off and nothing else |
| SkillRegistry.Engine.AutoRetire | src/agent/skill.c:291-316 | exactly the active skills with at least 10 calls and a success rate below 0.6 are switched off, and counted |
| ChatTree.PushKeepsExactly | src/db/aevos_db.c:228-282 | a push keeps ids, depths and child counts right if and only if the parent is 0 or a message of the same session |
| ChatTree.FailedPushExactly | src/db/aevos_db.c:241-253 | a push without memory keeps them right if and only if there is no parent message |
| ChatTree.RemoveKeeps | src/db/aevos_db.c:381-407 | removing a session keeps the trees of all others |
| ChatTree.BranchIsPath | src/db/aevos_db.c:308-337 | a branch runs from a root along parent links |
| ChatTree.PathIsBranch | src/db/aevos_db.c:308-337 | and is the only such path to its leaf |
| AevosDb.StepKeeps | src/db/aevos_db.c:179-407 | create, clear, delete and any push to a session id given out, with a parent of that session, keep the tree and every session's message count exact |
| AevosDb.PushKeepsDbExactly | src/db/aevos_db.c:228-282 | a push keeps them exact if and only if the session id has been given out and the parent is 0 or a message of the session |
| AevosDb.SidExactly | src/db/aevos_db.c:125-407 | an operation keeps the count of one session right if and only if it is not a push to it before its id is given out |
| AevosDb.RunKeeps | src/db/aevos_db.c:125-407 | in every state of every run up to the first such bad push, ids increase along parent links, depth is parent depth + 1, and child and message counts are exact |
| AevosDb.RunKeepsTree | src/db/aevos_db.c:125-407 | the trees are exact in every run with parents of the right session, whatever the session ids |
| AevosDb.RunCounts | src/db/aevos_db.c:125-407 | the count of a session is exact in every run that does not push to it before its id is given out, whatever the parents and the other sessions |
| AevosDb.EarlyPushMiscounts | src/db/aevos_db.c:228-282 | a run of two operations after which a session has a message and the count 0 |
| AevosDb.CountsStayExactly | src/db/aevos_db.c:125-282 | after a push some later run without further pushes has a wrong count if and only if the session id had not been given out |
| ChatContent.PushStores | src/db/aevos_db.c:228-282 | a push stores one message with the session, parent, text, role, tokens and time given, under the next id; older messages stay as they are but for one child more of the parent, and the active leaf of the session is the new message |
| ChatContent.PushedBranch | src/db/aevos_db.c:228-337 | the branch of the new message is the branch of its parent and then the message |
| ChatContent.PushThenBranch | src/db/aevos_db.c:228-337 | asking for the branch of the new message gives the whole chain, up to 512, and ends with what was pushed if the request has room |
| ChatContent.StepContent | src/db/aevos_db.c:125-407 | an operation takes a message away exactly when it clears or deletes its session, and else changes only the number of its children |
| ChatContent.RunContent | src/db/aevos_db.c:125-407 | over every run, whatever the pushes name, a message keeps session, parent, content and depth until its session is cleared or deleted |
| ChatContent.StepSessions | src/db/aevos_db.c:125-206 | a session comes by its creation, which fails exactly with 64 of them, and goes by its deletion alone |
| ChatContent.RunLeaves | src/db/aevos_db.c:125-407 | over every run the active leaf of a session is its newest message, unless one came before the session |
| AevosDb.Database.HistoryPush | src/db/aevos_db.c:228-282 | the tables after a push, with and without memory, and when full; what a push stores is PushStores |
| AevosDb.Database.Compact | src/db/aevos_db.c:184-193 | the compaction loop leaves exactly the other sessions' messages, in order |
| AevosDb.Database.HistoryClear | src/db/aevos_db.c:381-407 | messages gone, session kept with count 0 |
| AevosDb.Database.SessionDelete | src/db/aevos_db.c:179-206 | messages and session gone |
| AevosDb.Database.GetBranch | src/db/aevos_db.c:308-337 | for every table, even with broken or circular parent links, the listing of the at most 512 ancestors met on the way up, from the far end, cut at max_count |
| AevosDb.BranchExactly | src/db/aevos_db.c:308-337 | in a tree that listing is exactly the root-to-leaf chain; of a deeper one the 512 messages next to the leaf, and the first max_count of those; one unfilled entry for an unknown leaf |
| Bpe.BestIsBest | src/llm/llm_runtime.c:488-516 | the chosen merge is the leftmost of the highest score, and there is one whenever any pair can merge |
| Bpe.CandidateExactly | src/llm/llm_runtime.c:494-515 | two tokens can become v exactly if v is the first entry from 256 on that spells both, they have fewer than 512 bytes together, and its score is above -1e30 |
| Bpe.MergeKeepsText | src/llm/llm_runtime.c:520-524 | a merge keeps the text |
| Bpe.ReduceIsLosslessAndFinal | src/llm/llm_runtime.c:487-525 | the rewriting keeps the text and ends with no adjacent pair that can become one token |
| Bpe.Tokenize | src/llm/llm_runtime.c:469-528 | detokenizing the output gives the first min(len, max_tokens) bytes, the output is that rewriting of them, and no adjacent pair could still merge |

## Left out

- History.Store.Push: the wrap of next_seq after 2^64 pushes is excluded.
- History.Store.Deserialize: every entry with 1 to 65536 bytes of payload gets its memory.
- HistorySpec.RunIsBudgeted: for runs below 2^32 operations; the exact condition for one push in any history is BudgetExactly.
- HistBPTree.Tree.Insert: insertions into a tree left by one that ran out of memory are left out, and the history always has memory for its index; nodes have the spare slot the source arrays lack, and freed nodes are not reused.
- Lz4.Compress: the output buffer is the sequence of bytes stored so far, so what a store beyond its capacity hits is not modelled; how far it can go is StoredSize.
- AevosFs.Volume.Write: a failed transfer changes nothing on the device.
- AevosFs.Volume.AddDirEntry: device errors during creation are left out; directories are updated in place, so snapshots are about files.
- AevosFs.Volume.ResolvePath: unreadable directory blocks, which the source skips, are left out.
- AevosFs.Volume.CreatePath: transfer errors are left out, as in AddDirEntry.
- AevosFs.Volume.Mount: the device has 65536 blocks and no transfer fails; aevosfs_checkpoint, which saves inodes that no mount reads, is left out.
- FsRuns.PathsSurvive: directories are not written through aevosfs_write; for fewer than 2^64 inode ids.
- VecIndex.Ivf.Search: takes a trained index with a full centroid table; with fewer than k candidates no exact condition for a sorted result is given.
- Hnsw.Graph.Insert: ids come in order 0, 1, 2, ..., the level is drawn outside, and distances are integers that stand for the ordered float values.
- HnswSearch.SearchLevel: its two buffers always get memory; a width above 2048, or more than 65536 nodes, would get none and find nothing.
- AevosDb.Database.HistoryPush: titles and times of sessions, session lists and setting the active leaf are left out.
- HmsCache.Tier.Put: the 64-bit clock does not wrap.
- HmsCache.RunRefines: keys of 64 bytes and more, which are stored cut and never found again, are covered by GetAfterPut only.
- SkillRegistry.Engine.Register: statistics are changed by Record in place of execution; loading skills from a buffer is left out.
- VirtioNet.RxQueue.Poll: the device stands still during one poll; RunKeeps is about every interleaving.
- VirtioProofs.RunKeeps: transmit, interrupts and device reset are left out; the device conforms to section 2.6 of VIRTIO 1.1.
- NvmeCq.RunKeeps: submission, timeouts, and which command a completion answers are left out.
- Bpe.Tokenize: scores are real numbers, so not-a-number scores are left out.
- The L1 cache tier, the memory engine around the graph, index training, serialization of vectors, skills and memory.
- Transmit paths, memory-mapped registers, PCI set-up, interrupt and timer code.
- Language-model arithmetic, quantization and SIMD kernels.
- User interface, logging, system calls, scheduler, page and slab allocators, the virtual file system layer.
