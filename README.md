# zFog storage core in Dafny

zFog serves a WebDAV tree whose files live on storage backends: object
stores (Git hosting services, OSS buckets, cloud drives) reached through a
common storage interface, plus a "null" backend that remembers only sizes.
This project models the engine between the WebDAV layer and those
backends, and proves what it promises.

- **Storage registry** (`storage.dfy`). Backends carry permission bits
  (read 4, write 2, delete 1). A registry keeps the backends in key order
  and lists those that allow a given operation. The null backend saves a
  buffer as its decimal length and reads a length back as zero bytes.
- **Cryptors** (`crypto.dfy`, `base64.dfy`). The identity, a byte-wise XOR
  with the low byte of a key, and a Base64 re-encoding
  (section 4 of RFC 4648). Each is proved to be undone by its own decrypt.
- **Block manager** (`blocks.dfy`). A file is a list of blocks. Each block
  holds a CRC-16/MODBUS of its plaintext, the cryptor id and replicas on
  several backends. A write places up to `maxStorage` replicas by one of
  three placements: random, cycle or all. It first reuses the backends of
  the old replicas, saves the encrypted bytes, then deletes the replicas
  the new ones superseded. A read returns the plaintext of the first
  replica that reads back with a matching checksum.
- **Inodes and their tree** (`nodes.dfy`, `inodes.dfy`). Inodes are kept
  in a dictionary keyed by absolute path. The manager creates, removes
  (cascading to children) and moves (children first) entries, sums sizes,
  and queues a change event for each change. As written, loading an inode
  takes its `ctime` from `atime`, and `toJSON` stores `uid` in `gid`. The
  model keeps both quirks and proves exactly what a save/load round trip
  loses.
- **Savers** (`savers.dfy`). A full saver writes a timestamped snapshot of
  every inode. An array saver fans a save out to its members and loads the
  newest member snapshot.
- **Fog file system** (`fogfs.dfy`). This is the inode-based WebDAV
  backend. A write stream cuts the bytes into blocks of `blockSize` and
  writes them at consecutive indices. A read stream reads the blocks back
  in order. Create, delete and move map inode errors to WebDAV errors.
- **Zsea file system** (`zseafs.dfy`). This is the flat backend. Each
  resource is stored as objects `/block.<id>.<i>.bin` of `blockSize`
  bytes, and an index of all resources is saved as one document. The model
  covers the write stream, the index and its round trip, create, delete,
  move, and the block keys a read or a delete visits.
- **Helpers** (`retry.dfy`, `path.dfy`, `bytes.dfy`, `wrappers.dfy`). A
  retry loop, `basename` and `join`, decimal numerals and CRC-16, and the
  Option and Result types.

State that the source changes in place is modelled by classes whose
methods carry `modifies` clauses. These are the backend registry, the block
manager, the inode manager, the savers, the streams and the Zsea file
system. The backends' contents, the clock, the random choice and the id
generator become fields, parameters or nondeterministic choices.

## Model

| member | source | states |
|---|---|---|
| Storage.FullModePermitsAll | fs/storage.ts:28 | mode 7 permits every status; mode 0 permits none |
| Storage.NullSave | fs/storage.ts:47-49 | the reference is a non-empty decimal numeral |
| Storage.NullRead | fs/storage.ts:44-46 | a decimal reference reads as that many zero bytes |
| Storage.NullSaveRead | fs/storage.ts:44-49 | reading back what the null backend saved gives as many zero bytes as were saved |
| Storage.NullSaveDependsOnLengthOnly | fs/storage.ts:47-49 | two buffers get the same reference iff they have the same length |
| Storage.NullStorage | fs/storage.ts:27-43 | the null backend has the nil id, type "null" and every permission |
| Storage.Backend.Read | fs/storage.ts:6-26 | an object store reads a reference iff it holds it, and then gives the stored bytes |
| Storage.Save | fs/storage.ts:6-26 | the null backend returns the size and changes nothing; an object store either fails unchanged or stores the buffer under the reference it returns, which reads back as the buffer and is new unless it is the origin |
| Storage.Delete | fs/storage.ts:6-26 | the null backend does nothing; an object store either fails unchanged or forgets exactly that reference |
| Storage.Without | fs/storage.ts:141-144 | removing a key keeps exactly the other keys, in order and without repeats |
| Storage.FindSpec | fs/storage.ts:153-180 | the registered ids in key order, keeping the non-empty ones whose mode has the status bit |
| Storage.FindSpecMembers | fs/storage.ts:153-180 | Find lists exactly the registered non-empty ids whose mode permits the status |
| Storage.FindSpecDistinct | fs/storage.ts:153-180 | no id is listed twice |
| Storage.FindAsWritten | fs/storage.ts:173-177 | the code as written lists every non-empty id whatever the status |
| Storage.FindAsWrittenListsReadOnlyAsWritable | fs/storage.ts:173-177 | a read-only backend is listed for writing by the code as written but not by the permission test |
| Storage.StorageManager.constructor | fs/storage.ts:129-136 | an empty registry |
| Storage.StorageManager.Add | fs/storage.ts:137-140 | the backend is registered under its id, replacing one with that id in place; a new id goes last |
| Storage.StorageManager.Remove | fs/storage.ts:141-144 | only that id is unregistered |
| Storage.StorageManager.Length | fs/storage.ts:145-147 | the number of registered backends |
| Storage.StorageManager.GetStorage | fs/storage.ts:181-183 | the backend registered under the id, or none iff the id is not registered |
| Storage.StorageManager.Modes | fs/storage.ts:129-185 | the mode of each registered backend |
| Storage.StorageManager.SaveTo | fs/storage.ts:6-26 | a save through the registry changes only what that backend holds, as Save states |
| Storage.StorageManager.DeleteFrom | fs/storage.ts:6-26 | a delete through the registry only shrinks what that backend holds, as Delete states |
| Storage.StorageManager.Find | fs/storage.ts:153-180 | the listed ids are exactly the registered non-empty ids that permit the status, in key order, without repeats |
| Base64.CharValue | fs/icrypto.ts:46-57 | every 6-bit value's character is in the alphabet and decodes to that value |
| Base64.Encode | fs/icrypto.ts:46-57 | four characters per started group of three bytes, each a pad or an alphabet character |
| Base64.Decode | fs/icrypto.ts:46-57 | three bytes per four alphabet characters before the padding, rounded down, never more bytes than characters |
| Base64.DecodeEncode | fs/icrypto.ts:46-57 | decoding the encoding gives the bytes back |
| Base64.EncodeExample | fs/icrypto.ts:46-57 | "Man" encodes as "TWFu" |
| Crypto.GetCrypto | fs/icrypto.ts:9-12 | the first registered cryptor with the id, or none iff no cryptor has it |
| Crypto.XorBytes | fs/icrypto.ts:31-35 | the fresh buffer holds every input byte XORed with the key's low byte |
| Crypto.XorTwice | fs/icrypto.ts:26-45 | XOR with the same key twice gives the buffer back |
| Crypto.Encrypted | fs/icrypto.ts:14-57 | the identity and XOR keep the length; Base64 gives four characters per started group of three |
| Crypto.Decrypted | fs/icrypto.ts:14-57 | the identity and XOR keep the length; Base64 never gives more bytes than it reads |
| Crypto.Encrypt | fs/icrypto.ts:14-57 | decrypting the result gives the buffer back; the identity and XOR keep the length, Base64 gives four characters per started group of three |
| Crypto.Decrypt | fs/icrypto.ts:14-57 | the inverse transformation of each cryptor |
| Crypto.DecryptEncrypt | fs/icrypto.ts:14-57 | every cryptor reads back what it stored |
| Crypto.XorSymmetric | fs/icrypto.ts:26-45 | XOR encryption and decryption are the same operation, and an involution |
| Crypto.XorExample | fs/icrypto.ts:26-45 | key 1 turns [1,1,1,1] into zeros and back |
| Bytes.NatToStringRoundTrip | fs/ZseaFileSystem.ts:130 | a block number written in decimal parses back to itself |
| Bytes.NatToStringInjective | fs/ZseaFileSystem.ts:130 | different block numbers give different numerals |
| Bytes.CrcFromAppend | fs/inode.ts:71 | the checksum of a + b continues from the register that a leaves |
| Bytes.Crc16CheckValue | fs/inode.ts:71 | CRC-16/MODBUS of "123456789" is 0x4B37, the published check value |
| Retry.RunFrom | fs/retry.ts:6-23 | the run never makes more calls than are modelled |
| Retry.Run | fs/retry.ts:6-23 | the loop's outcome, call count and sleep count are those of the run function |
| Retry.RetryWithDefaults | fs/retry.ts:24-26 | with no limit and no pause, a run never ends with "unknow" |
| Retry.CallsBeforeLastWereRetryable | fs/retry.ts:6-23 | every call before the last failed retryably; a success is the last call's value; exactly one sleep separates consecutive calls |
| Retry.ReturnsFirstSuccess | fs/retry.ts:6-23 | the first success within the limit after retryable failures is returned, after one sleep per failure |
| Retry.CallsAtMostMaxTimes | fs/retry.ts:6-23 | at most maxTimes calls are made |
| Retry.UnlimitedNeverExhausts | fs/retry.ts:6-23 | with maxTimes -1 only a disabled failure rejects, with its inner error |
| Retry.LastPermittedFailureThrows | fs/retry.ts:13-18 | when the last permitted call fails, `e.error` or `e` is thrown with no further sleep |
| Retry.DisabledFailureStops | fs/retry.ts:13-18 | a disabled failure stops the loop at once with its inner error |
| Retry.ZeroTimesCallsNothing | fs/retry.ts:6-23 | maxTimes 0 rejects with "unknow" and calls nothing |
| Retry.TwoFailuresThenSuccess | fs/retry.ts:24-26 | two retryable failures and then a success give the success after three calls and two sleeps |
| PathUtil.FirstLineBreak | fs/path.ts:4-12 | the first line terminator, or the end |
| PathUtil.LastSlashBefore | fs/path.ts:4-12 | the last '/' before n, or -1 |
| PathUtil.Basename | fs/path.ts:4-12 | the name is a prefix of the path with its directory stripped, and no longer than the path |
| PathUtil.BasenameShape | fs/path.ts:4-12 | a path not ending in '/' has a non-empty basename that does not start with '/' |
| PathUtil.StripSingleLine | fs/path.ts:4-12 | on a single-line path the directory part ends at the last '/' |
| PathUtil.BasenameIsLastSegment | fs/path.ts:4-12 | basename is a '/'-free suffix preceded by '/' unless it is the whole path |
| PathUtil.BasenameStripsExtension | fs/path.ts:4-12 | one trailing copy of ext is removed when present, and the name is kept otherwise |
| PathUtil.BasenameExamples | test/path.test.ts:5-8 | basename("/a/b/c.txt") is "c.txt", and "c" with ".txt" |
| PathUtil.TrimLeadingSlashes | fs/path.ts:13-26 | the result is a suffix without a leading '/', and only '/' were dropped |
| PathUtil.JoinOf | fs/path.ts:13-26 | the join of the segments is never empty |
| PathUtil.Join | fs/path.ts:13-26 | the loop computes the join and never returns the empty string |
| PathUtil.JoinSkipsEmpty | fs/path.ts:13-26 | empty segments change nothing |
| PathUtil.JoinOfEmptySegments | fs/path.ts:13-26 | with no non-empty segment the result is "/" |
| PathUtil.JoinKeepsFirstSegment | fs/path.ts:13-26 | the first non-empty segment starts the result verbatim |
| PathUtil.JoinAppendsAfterSlash | fs/path.ts:13-26 | each later segment is appended, without its leading slashes, after exactly one '/' |
| PathUtil.JoinExample | test/path.test.ts:11 | join(["/a/b","c"]) is "/a/b/c" |
| Nodes.NewINode | fs/inode.ts:412-423 | a fresh inode is an empty file created and modified now, with the given id |
| Nodes.FromRecord | fs/inode.ts:399-411 | a loaded inode's ctime equals its atime |
| Nodes.ToRecord | fs/inode.ts:427-442 | the saved record's gid equals its uid |
| Nodes.FromRecordAttributes | fs/inode.ts:399-411 | loading keeps every attribute except ctime, which becomes atime |
| Nodes.SaveLoadINode | fs/inode.ts:399-442 | a save/load round trip replaces ctime by atime and gid by uid, and changes nothing else |
| Nodes.SaveLoadExact | fs/inode.ts:399-442 | an inode survives the round trip iff ctime equals atime and gid equals uid |
| Nodes.FreshINodeLosesCtime | fs/inode.ts:399-442 | a fresh inode created at a non-zero time comes back with ctime 0 |
| Nodes.IdWorker.NextId | fs/inode.ts:426 | each id is greater than every id issued before |
| Savers.CollectInodes | fs/isaver.ts:22-25 | the snapshot holds every path with its serialised inode |
| Savers.LoadFrom | fs/isaver.ts:32-40 | the stored snapshot, or the empty one when nothing is stored |
| Savers.MemorySaver.SaveInodes | fs/isaver.ts:18-31 | the stored snapshot holds the clock reading and every inode |
| Savers.MemorySaver.LoadInodes | fs/isaver.ts:86-95 | the last snapshot saved, or the empty one |
| Savers.LatestUnique | fs/isaver.ts:63-71 | at most one snapshot of a list is the one kept |
| Savers.PickLatest | fs/isaver.ts:60-80 | the first snapshot of greatest timestamp, or the empty one for an empty list |
| Savers.ArraySaver.Add | fs/isaver.ts:82-84 | members are kept in the order they were added |
| Savers.ArraySaver.SaveInodes | fs/isaver.ts:56-59 | every member holds a snapshot of the same inodes |
| Savers.ArraySaver.Loaded | fs/isaver.ts:60-62 | what each member loads, in member order |
| Savers.ArraySaver.LoadInodes | fs/isaver.ts:60-80 | the newest member snapshot, the earliest winning ties, or the empty one |
| Blocks.Put | fs/inode.ts:197-201 | the block is at the index, the others are kept, and a write past the end leaves holes |
| Blocks.Superseded | fs/inode.ts:190-195 | exactly the old replicas whose backend holds no new replica |
| Blocks.SupersededAsWritten | fs/inode.ts:190-195 | the cleanup as written deletes at most the first old replica |
| Blocks.NotSuperseded | fs/inode.ts:190-212 | the cleanup never touches a backend that holds a new replica |
| Blocks.CleanupAsWrittenOrphansReplicas | fs/inode.ts:190-195 | the cleanup as written keeps a replica that the intended cleanup deletes |
| Blocks.CleanupAgreesOnSingleReplica | fs/inode.ts:190-195 | with at most one old replica both cleanups agree |
| Blocks.StoredPreserved | fs/inode.ts:153-188 | later saves never disturb a replica already stored |
| Blocks.ReadFrom | fs/inode.ts:221-254 | a successful read has the recorded checksum; a failure is NotFound |
| Blocks.ReadSpec | fs/inode.ts:221-254 | only a present block reads, with its recorded checksum |
| Blocks.ReadAfterWrite | fs/inode.ts:221-254 | replicas stored through a cryptor read back; the first replica's plaintext is returned when it is on an object store |
| Blocks.ReadAfterWriteBlock | fs/inode.ts:69-254 | a block written through the first cryptor reads back as its plaintext |
| Blocks.CommitWritten | fs/inode.ts:69-216 | the saves and the cleanup of one write establish the write's full postcondition |
| Blocks.KeepOthers | fs/inode.ts:267-274 | exactly the replicas on other backends, in order |
| Blocks.BlockManager.constructor | fs/inode.ts:291-293 | no blocks, with the given registry, replica count, placement and cryptors |
| Blocks.BlockManager.Pick | fs/inode.ts:123-136 | a listed id iff the list is non-empty: the head for "all", the rotating position for "cycle", any for "random" |
| Blocks.SlotsAsWritten | fs/inode.ts:120-151 | over a list that may hold ids that are not writable, only writable listed ids are claimed, and an id that is not writable is never dropped from the list |
| Blocks.SlotsAsWrittenIdle | fs/inode.ts:91-151 | with no writable id listed, no choice of slots claims anything or changes the list, so the outer loop repeats the same round |
| Blocks.AllSlotsStuck | fs/inode.ts:98-151 | under "all", a head id that is not writable makes every number of slots claim nothing and keep the list, so the inner loop never ends |
| Blocks.FindAsWrittenHangsWriteBlock | fs/inode.ts:86-151 | with backends "rw" (mode 7) and "ro" (mode 4), the as-written list keeps "ro" after the first round and no later round claims anything; the permission test lists only "rw" |
| Blocks.BlockManager.Select | fs/inode.ts:98-152 | over a list of writable candidates, the claims are Selected: writable old backends reused in order, then distinct fresh candidates, within the replica count; a non-empty list gives at least one claim; "all" exhausts the candidates |
| Blocks.BlockManager.SelectNext | fs/inode.ts:99-151 | one slot: a claim while candidates remain, none only when none are left, and the claims so far stay Selected |
| Blocks.BlockManager.ReuseClaim | fs/inode.ts:101-118 | an old replica is reused iff its backend is registered and writable, with its reference as origin |
| Blocks.BlockManager.PickClaim | fs/inode.ts:120-150 | a fresh claim on a listed, registered, writable backend, none iff no id is left |
| Blocks.BlockManager.FreshSlot | fs/inode.ts:120-151 | when no old replica is reused, a fresh candidate is claimed iff one is left, and the claims stay Selected |
| Blocks.BlockManager.SaveClaim | fs/inode.ts:154-187 | a successful save becomes one replica on the claimed backend; a failure gives none |
| Blocks.BlockManager.SaveAll | fs/inode.ts:153-188 | the replicas of the successful saves, in claim order, each stored |
| Blocks.BlockManager.DeleteAll | fs/inode.ts:204-212 | only the backends of the given replicas lose objects |
| Blocks.BlockManager.Replicate | fs/inode.ts:91-189 | the rounds store at most maxStorage replicas, and "all" exhausts the candidates |
| Blocks.BlockManager.Commit | fs/inode.ts:190-213 | the block takes its new replicas and only superseded backends lose objects |
| Blocks.BlockManager.WriteBlock | fs/inode.ts:69-216 | no cryptor: an error and nothing changes; otherwise the block at the index is replaced, its count is returned, and it is stored, selected and cleaned up as stated |
| Blocks.BlockManager.AppendBlock | fs/inode.ts:60-62 | a success adds one block with the input's checksum and keeps the others |
| Blocks.BlockManager.ReadBlock | fs/inode.ts:221-254 | the read of the block at the index, with its checksum |
| Blocks.BlockManager.EraseOn | fs/inode.ts:268-272 | on success every replica on that backend is gone, and no other backend changed |
| Blocks.BlockManager.DeleteOn | fs/inode.ts:267-274 | on success the replicas on that backend are deleted and dropped from the list; on failure the list is unchanged |
| Blocks.BlockManager.DeleteBlock | fs/inode.ts:260-275 | a missing block is NoBlock; otherwise the checksum and cryptor stay, and the replicas on the backend (or all of them) are deleted |
| Blocks.BlockManager.Free | fs/inode.ts:277-284 | on success every block is emptied, keeps its checksum, and its replicas are gone from their backends; backends only shrink; NoBlock only for a hole |
| INodeTree.Base | fs/inode.ts:520-525 | the path with exactly one trailing '/' |
| INodeTree.ChildBelow | fs/inode.ts:520-525 | a child is below its parent and longer |
| INodeTree.BelowTrans | fs/inode.ts:520-525 | what is below a child is below the parent |
| INodeTree.ChildShape | fs/inode.ts:520-525 | a child is the base followed by one segment |
| INodeTree.ChildrenIn | fs/inode.ts:520-525 | exactly the keys one segment below the path |
| INodeTree.ChildrenInDistinct | fs/inode.ts:520-525 | keys given once are listed at most once |
| INodeTree.Loaded | fs/inode.ts:474-479 | every snapshot key, bound to the inode rebuilt from its record |
| INodeTree.INodeManager.constructor | fs/inode.ts:462-469 | no inodes and no events |
| INodeTree.INodeManager.Bind | fs/inode.ts:486-497 | binds one key |
| INodeTree.INodeManager.Unbind | fs/inode.ts:532-554 | unbinds one key |
| INodeTree.INodeManager.OnChanged | fs/inode.ts:502-506 | one event is queued |
| INodeTree.INodeManager.CreateINode | fs/inode.ts:486-497 | a fresh inode of the type, with a new id, replaces the path, and a Created event is queued |
| INodeTree.INodeManager.LoadSnapshot | fs/inode.ts:474-479 | every saved inode is bound over the current ones |
| INodeTree.INodeManager.Initialize | fs/inode.ts:470-485 | the snapshot is loaded, and "/" is created as a directory only when missing |
| INodeTree.INodeManager.GetINode | fs/inode.ts:512-514 | the inode at the path, or none iff absent |
| INodeTree.INodeManager.GetChildren | fs/inode.ts:520-525 | exactly the keys one segment below the path, each once |
| INodeTree.INodeManager.GetSize | fs/inode.ts:594-614 | a file's size; the only error is NotFound |
| INodeTree.INodeManager.GetSizeDefined | fs/inode.ts:594-614 | getSize fails iff the path is absent |
| INodeTree.INodeManager.GetSizeNonNegative | fs/inode.ts:594-614 | with non-negative file sizes every size is non-negative |
| INodeTree.INodeManager.RemoveINode | fs/inode.ts:532-554 | absent is NotFound with no change; a file whose blocks cannot be freed is FreeFailed with no change; a file or non-cascading removal drops only the path, queues Deleted and frees a file's blocks when asked; a cascade removes every child |
| INodeTree.INodeManager.RemoveChildren | fs/inode.ts:542-549 | on success no child remains, and nothing outside the subtree changed |
| INodeTree.INodeManager.MoveINode | fs/inode.ts:562-589 | absent is NotFound and an occupied target without overwrite is AlreadyExists, both with no change; on success the target holds the source inode and the events end with its Deleted/Created pair; a file moves exactly, with exactly that pair of events; new bindings land only under the target; a directory's whole subtree is Relocated under the target |
| INodeTree.INodeManager.Relink | fs/inode.ts:582-586 | the entry is unbound at from and bound at to, with a Deleted and a Created event, and nothing freed |
| INodeTree.INodeManager.MoveChildren | fs/inode.ts:571-580 | on success each child left its key and its inode, with its own subtree, is at join([to, basename(child)]); nothing outside the target is bound afresh |
| INodeTree.INodeManager.MoveChild | fs/inode.ts:571-580 | one child moves, keeping the frame and the landing region, and on success joins the children moved |
| INodeTree.RelocatedKeep | fs/inode.ts:562-589 | a later step that keeps the target region and binds nothing below from keeps what was relocated |
| INodeTree.MoveChildStep | fs/inode.ts:571-580 | a successful child move extends the children already moved |
| INodeTree.RelinkRelocated | fs/inode.ts:582-586 | rebinding the directory after its children keeps them relocated |
| INodeTree.DestBelow | fs/inode.ts:576-577 | a child not ending in '/' goes to the target's base followed by its basename, strictly below the target |
| INodeTree.ApartDest | fs/inode.ts:576-578 | when from and to are apart, so are a child of from and its destination under to, which lets the recursive move relocate it |
| INodeTree.LandsTrans | fs/inode.ts:571-580 | bindings that land under a child's destination land under the target |
| INodeTree.ChildrenExample | fs/inode.ts:520-525 | the children of "/" are "/a" and "/d" but not "/d/b" |
| FogFs.WriteOutcome | fs/FogFileSystem.ts:87-102 | Forbidden iff a write rejected; InsufficientStorage iff none rejected and one stored nothing; otherwise no error |
| FogFs.Chunk | fs/FogFileSystem.ts:111-123 | whole blocks followed by a short tail that together are the input |
| FogFs.AcceptFinal | fs/FogFileSystem.ts:126-140 | writing the cache as the last block leaves exactly the input |
| FogFs.FogWritable.constructor | fs/FogFileSystem.ts:77-86 | nothing received or written |
| FogFs.FogWritable.WriteBatch | fs/FogFileSystem.ts:87-102 | chunk k is written at index first+k, earlier blocks are kept, and the outcome follows WriteOutcome |
| FogFs.FogWritable.WriteChunk | fs/FogFileSystem.ts:87-102 | one block written with the chunk's checksum, which reads back as the chunk when its first replica is on a real backend |
| FogFs.FogWritable.Cut | fs/FogFileSystem.ts:104-115 | full blocks are emitted from the next index and the rest cached, so the emitted blocks and the cache make up the input |
| FogFs.FogWritable.Write | fs/FogFileSystem.ts:103-125 | the input grows by the chunk, written blocks are kept, and the outcome follows WriteOutcome |
| FogFs.FogWritable.FinalAsWritten | fs/FogFileSystem.ts:126-140 | with nothing cached the callback never runs |
| FogFs.FogWritable.Final | fs/FogFileSystem.ts:126-140 | the callback always runs, and the blocks written are exactly the bytes received |
| FogFs.Reads | fs/FogFileSystem.ts:57-75 | the read of every block index |
| FogFs.Collect | fs/FogFileSystem.ts:57-75 | every content in order, or the first failing read's error |
| FogFs.CollectErrPrefix | fs/FogFileSystem.ts:57-75 | once a prefix fails the whole run fails the same way |
| FogFs.FogReadable.constructor | fs/FogFileSystem.ts:51-56 | nothing read |
| FogFs.FogReadable.Read | fs/FogFileSystem.ts:57-75 | past the end the stream ends; otherwise the next block is pushed or its error emitted |
| FogFs.FogReadable.Drain | fs/FogFileSystem.ts:51-76 | the stream yields the contents of all blocks in order, or the first error |
| FogFs.MoveError | fs/FogFileSystem.ts:326-336 | NotFound and AlreadyExists map to their WebDAV errors, both directions; every other error is Forbidden |
| FogFs.Create | fs/FogFileSystem.ts:160-177 | an existing path is refused unchanged; otherwise an inode of the type is bound there and nothing else changes |
| FogFs.Delete | fs/FogFileSystem.ts:179-205 | an absent path is not found; success removes the path; a file is either removed alone or refused with Forbidden and kept; nothing outside its subtree changes |
| FogFs.Move | fs/FogFileSystem.ts:321-339 | the up-front NotFound and AlreadyExists answers change nothing; success puts the source inode at the target and relocates a directory's subtree under it |
| ZseaFs.NewResource | fs/ZseaFileSystem.ts:63-85 | an empty resource of the type, created and modified now |
| ZseaFs.BlockPathInjective | fs/ZseaFileSystem.ts:130 | different block numbers give different object keys |
| ZseaFs.CeilBlocks | fs/ZseaFileSystem.ts:226 | k whole blocks and a tail of r bytes need k blocks, plus one if r > 0 |
| ZseaFs.CeilBounds | fs/ZseaFileSystem.ts:226 | ceil(n/b) blocks of b bytes hold n bytes and one block fewer does not |
| ZseaFs.BlockCount | fs/ZseaFileSystem.ts:226-227 | the fewest blocks that hold the size; none exists exactly when the block size is 0 and the size positive, where the loop bound is Infinity |
| ZseaFs.BlockPathsDistinct | fs/ZseaFileSystem.ts:226-229 | a file has one key per started block, BlockCount in all, and no key twice |
| ZseaFs.ZseaFileWritable.constructor | fs/ZseaFileSystem.ts:116-124 | nothing received or saved, for any block size including 0 |
| ZseaFs.ZseaFileWritable.Save | fs/ZseaFileSystem.ts:125-140 | whole blocks are saved at the next keys until less than a block is buffered, and nothing received is lost; with block size 0 the callback never runs |
| ZseaFs.ZseaFileWritable.Write | fs/ZseaFileSystem.ts:151-158 | the input and its count grow by the chunk; no error is reported, and with block size 0 the callback never runs |
| ZseaFs.ZseaFileWritable.OnSaveCompleted | fs/ZseaFileSystem.ts:141-147 | the saved objects are exactly the input, in BlockCount(size) blocks under the keys BlockPaths gives, none empty or oversized |
| ZseaFs.TypeOf | fs/ZseaFileSystem.ts:257-264 | "file" is a file, anything else a directory |
| ZseaFs.EntryRoundTrip | fs/ZseaFileSystem.ts:237-264 | an index entry restores size, type and id; block size and dates are restored when non-zero; the resource is restored exactly iff no fallback applies |
| ZseaFs.Restored | fs/ZseaFileSystem.ts:249-267 | one resource per indexed path, each with a positive block size |
| ZseaFs.IndexRoundTrip | fs/ZseaFileSystem.ts:234-267 | reading an index back gives the same paths, each with its restored resource |
| ZseaFs.SizeSumBound | fs/ZseaFileSystem.ts:268-274 | every resource's size is at most the total |
| ZseaFs.ZseaFileSystem.constructor | fs/ZseaFileSystem.ts:216-223 | only the root directory exists, with the default block size, for any file-system block size including 0 |
| ZseaFs.ZseaFileSystem.DeleteFile | fs/ZseaFileSystem.ts:224-233 | a delete is requested for exactly the file's block keys; it returns iff the block count is finite |
| ZseaFs.ZseaFileSystem.GetINode | fs/ZseaFileSystem.ts:234-248 | the index lists every resource once, as its entry |
| ZseaFs.ZseaFileSystem.SaveINode | fs/ZseaFileSystem.ts:275-278 | one index write of the current resources |
| ZseaFs.ZseaFileSystem.Initialization | fs/ZseaFileSystem.ts:249-267 | the stored index's resources are bound over the current ones; nothing stored changes nothing |
| ZseaFs.ZseaFileSystem.Create | fs/ZseaFileSystem.ts:284-295 | a new empty resource replaces the path; a directory saves the index and succeeds iff that save does |
| ZseaFs.ZseaFileSystem.Delete | fs/ZseaFileSystem.ts:297-314 | the path and every key below it go, only the path's own blocks are deleted, and success iff the path existed, is not the root and the index saved; no answer iff its block count is infinite, never with a positive file-system block size |
| ZseaFs.ZseaFileSystem.Move | fs/ZseaFileSystem.ts:430-453 | missing source or occupied target change nothing; otherwise the target takes the source, the old target's blocks are deleted and other keys stay; no answer and no index save iff the old target's block count is infinite |
| ZseaFs.ZseaFileSystem.ReadKeys | fs/ZseaFileSystem.ts:352-366 | a missing resource is not found; otherwise exactly its block keys in order, and no answer iff its block count is infinite |
| ZseaFs.ZseaFileSystem.ReservedSizeAsWritten | fs/ZseaFileSystem.ts:268-274 | the loop as written always gives 0 |
| ZseaFs.ZseaFileSystem.ReservedSize | fs/ZseaFileSystem.ts:268-274 | the sum of all resource sizes, at least each size |
| ZseaFs.ReservedSizeGap | fs/ZseaFileSystem.ts:268-274 | a non-empty file makes the intended total positive, so the as-written 0 is wrong |
| ZseaFs.SavedKeysDistinct | fs/ZseaFileSystem.ts:125-147 | the saved block keys are pairwise distinct |

## Left out

- Network backends (Git hosting, OSS, cloud drives), LocalStorage and LocalSaver do file or network I/O. Only the storage interface's contract is modelled: a save may fail, and a successful save reads back.
- Promise concurrency, the parallelizer and AsyncLock: every batch of promises is modelled as running in order.
- The random placement (`Random.rangeInt`) is a nondeterministic choice among the candidates. The snowflake id generator is an increasing counter, and `Date.now()` is a parameter.
- JSON stringify and parse are modelled as values: the serialised inode record and the index entry.
- Storage `mode` setters, `initialize()`, WebDAV properties and locks, and the saver's `current` event hint are not modelled.
- ArraySaver members are MemorySavers. Other saver kinds need file or network I/O.
- The `finish` handlers of `_openWriteStream` (fs/FogFileSystem.ts:207-243), which update size and modification time, are not modelled, nor are the other property accessors.
- ZseaFileReadable, ZseaSerializer and `_fastExistCheck` are not modelled. For Zsea `_openReadStream` only the block keys read are modelled, not the bytes.
- Zsea requests to the storage (saves, deletes, index writes) are logged rather than performed. Whether the index save succeeds is a parameter.
- INodeTree.INodeManager.RemoveINode: a cascade is stated as shrinking the map within the subtree and removing every direct child. Exact removal of every descendant is not stated.
- INodeTree.INodeManager.MoveINode: recursion over children is bounded by a fuel parameter; running out gives TooDeep, which the source does not have.
- INodeTree.INodeManager.MoveINode: the relocation of a directory's subtree is stated only when from and to are apart (neither path's base is a prefix of the other's) and no key below from ends with '/'. A move into its own subtree, or a key such as "/a/x/", can make a child's destination collide with another child.
- INodeTree.INodeManager.MoveINode: a move with overwrite onto an existing file replaces its entry without freeing its blocks, as the source does; the old target's blocks are orphaned on the backends.
- INodeTree.INodeManager.RemoveINode: whether freeing a file's blocks fails is an unconstrained choice (the backends are not consulted), and blocks freed before a failure are not recorded.
- FogFs.Move: a child move that fails part way (AlreadyExists under the target, or TooDeep) leaves the children moved before it at their new places; only the up-front errors are stated to change nothing.
- Storage.NullRead: only decimal references are read as sizes. `Number` also accepts forms such as "" (0) and "0x10" (16); these never come from NullStorage's own save, which writes decimal numerals.
- FogFs.FogWritable.WriteChunk: the read-back is stated for the state right after that write, not after the later writes of the stream.
- FogFs.Chunk: requires a positive block size. With blockSize 0 the loop of fs/FogFileSystem.ts:110 never ends on non-empty input.
- FogFs.Delete: a deleted file's blocks are recorded as freed ids; their erasure from the backends is stated by Blocks.BlockManager.Free, which the inode tree does not call.
- ZseaFs.ZseaFileSystem.GetINode: the index order follows `for...in` key order, which is left unspecified.
- Blocks.BlockManager.Pick: the random placement is stated as any listed id, not a uniform choice.
- ZseaFs.ZseaFileSystem.Delete: the blocks of removed descendants are not deleted, as in the source.
- ZseaFs.ZseaFileWritable and ZseaFs.ZseaFileSystem accept a block size of 0, as the source does. The endless loops it causes are modelled as an outcome: with block size 0, `save` (fs/ZseaFileSystem.ts:127) and so every `_write` never call back, and `deleteFile` and `_openReadStream` never finish on a non-empty file (`Math.ceil(size / 0)` is Infinity). The model stops at that point: the unbounded empty-block saves and block deletes the loops would issue are not recorded.
- Blocks.BlockManager.WriteBlock: modelled over the corrected Find (Select requires every candidate id to be distinct, non-empty and writable). With the as-written Find the selection can loop forever; Blocks.SlotsAsWritten and its lemmas state that, and WriteBlock does not.

## Findings

| source | as written | input that shows it | evidently intended | confidence | as-written member | corrected member |
|---|---|---|---|---|---|---|
| fs/storage.ts:173-177 | the `else` branch of Find pushes every id whatever the status | a backend "ro" with mode 4 (read only) is listed by Find("canWrite") | only ids whose mode has the status bit | not executed | Storage.FindAsWrittenListsReadOnlyAsWritable | Storage.StorageManager.Find |
| fs/inode.ts:86-151 | over the as-written Find list, a listed id that is not writable is skipped but never filtered out, so WriteBlock never ends: under "all" the inner loop at line 98 keeps taking a read-only head; under "random" or "cycle" the outer loop at line 91 repeats rounds that claim nothing | backends "rw" (mode 7) and "ro" (mode 4), two replicas, "cycle": the first round claims "rw" and leaves "ro", and every later round picks "ro" and claims nothing | every round over a non-empty list claims a backend; WriteBlock is modelled over the corrected Find | not executed | Blocks.FindAsWrittenHangsWriteBlock | Blocks.BlockManager.Select |
| fs/inode.ts:190-195 | the `.every` callback returns nothing, so the cleanup stops after the first old replica | old replicas on A and B, new replica on A: the replica on B is never deleted | every superseded replica is deleted | not executed | Blocks.CleanupAsWrittenOrphansReplicas | Blocks.Superseded |
| fs/FogFileSystem.ts:126-140 | `_final` calls back only when a tail is cached | an empty stream, or one whose size is a multiple of the block size, never finishes | the callback always runs | not executed | FogFs.FogWritable.FinalAsWritten | FogFs.FogWritable.Final |
| fs/ZseaFileSystem.ts:268-274 | getReservedSize adds nothing in its loop | one file of size 5 gives 0 | the sum of the resource sizes | not executed | ZseaFs.ZseaFileSystem.ReservedSizeAsWritten | ZseaFs.ZseaFileSystem.ReservedSize |
