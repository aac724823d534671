# A verified model of gcfs

gcfs opens gocryptfs volumes without mounting them. This project models what it does to a volume and proves what
that means for the files and directories a user sees. `dafny verify dfyconfig.toml` checks all of it.

- **One encrypted file is one byte sequence.** `Offsets`, `ContentEnc`, `BlockEncryption`, `FileHeader`, `DiskImage`,
  `EncFile`, `Session`, `FileCopy`. A backing file is a growable byte array. `DiskImage.Plain` says what it stands for;
  `EncFile.OpenFile` is a handle with its cached file ID and the methods of `file.go`. `Session.Run` is the main result:
  any allowed run of reads, writes, truncates and re-opens answers, and leaves behind, what the same run does to a plain
  byte sequence. `Session.RunAndOneMore`: an operation that is not allowed leaves the file unreadable. Block size and
  nonce size are symbolic (4128 and 4136 byte blocks are instances), the AEAD is any seal/open pair that satisfies
  `ContentEnc.AeadContract`, and a toy instance shows that the contract can be met.
- **One encrypted directory is one map of plain names.** `Pad16`, `Base64`, `Names`, `DirImage`, `DirTree`, `Tidy`,
  `DirOps`, `Listing`, `VolumeRuns`. `DirOps.Volume` performs create, mkdir, remove, rmdir and rename as sequences of
  system calls that may fail when the volume is declared `faulty`, and records the state after each call.
  `Volume.Valid` says that the directories represent the plain ones and that in no recorded state a long-named entry
  was without its name. `Tidy.AllTidy` says that nothing is left over, such as a name file without its entry; a volume
  that is not faulty stays tidy. `VolumeRuns.Run`: over any run every operation is a step of the plain directories,
  and without faults it succeeds exactly when they allow it. `VolumeRuns.RunThenList`: after any run, listing a
  directory gives its plain names, each once.
- **The directory cache never shows.** `DirCache`, `PathResolution`, `ClientRuns`. The cache of twenty slots is an
  array; `PathResolution.Resolver` is the mutual recursion of `helpers.go` over it, on the directories of a
  `DirOps.Volume`; the cache may be emptied at any point of it. `ClientRuns.Run`: over any run of lookups, creates,
  mkdirs, removes, rmdirs and renames of files by path, every path means what it means in the plain directories.
- **The mirror.** `SyncTree`, `VolumeTree`, `Sync`, `SyncRuns`. Trees of directories and files with contents and times;
  the walks of both directions, pruning, dry runs, counters, and what a push followed by a restore gives back. When a
  `Sync.Destination` is a volume, each of its steps is an operation of `ClientRuns.Client`, with all its system calls,
  and `VolumeTree` proves that the directories of the volume keep showing the tree.
- **Small stateful pieces.** `Prefetch` (random bytes), `Handles` (the table of open files), and the interleaved workers
  of `BlockEncryption.EncryptBlocksParallel`.

## Where the code does less than one would expect

Each of these is stated exactly next to the operation, and proved to fail on a concrete run in `Counterexamples`.

- Truncating to zero keeps a cached file ID (file.go:325-328), so the next write leaves a file without a header. The
  file survives truncate-then-write if and only if no ID was cached (`Session.TruncateToZeroThenWrite`). Until it is
  opened again, or grows the file to a block boundary, such a handle may not write or grow otherwise (`Session.Allowed`).
- A write that skips past an unaligned last block stretches that block with zeros (file.go:473-495 adds no padding), and
  it no longer decrypts. A write leaves the file readable if and only if it starts no later than the block that holds
  the end, or the end is on a block boundary (`Session.WriteAnywhere`).
- Renaming a long name to itself, or a directory onto an empty one with a long name, deletes the name file of what is
  there afterwards (common_ops.go:82-117). Without faults a rename leaves a name lost if and only if it is one of these
  and can be done (`DirOps.Volume.Rename` with `DirOps.LosesName`).
- A file with a long name, which is one whose encryption exceeds the limit the volume is configured with
  (`Names.IsHashed`), cannot be opened for writing again (file.go:407-412), so pushing a changed one ends the sync.
  `SyncRuns.EncryptSync` dies if and only if there is such a file to write, or the base itself cannot be made.
- Renaming a directory does not touch the cache (common_ops.go:60-118). If it held no path at or below the old one
  before, it is right afterwards. If it did, and nothing expires and both parents are cached, it is wrong if and only if
  the directory can be renamed. In all cases it is wrong if and only if a directory moved and such a path is still there
  (`ClientRuns.Client.RenamePath`).
- Closing a volume closes the positions of the list of handles instead of the handles (volume.go:141-148). It works if
  and only if the handles in use are numbered without a gap (`Handles.FileTable.Close`).

## Model

| member | source | states |
|---|---|---|
| Offsets.PlainSizeRoundTrip | internal/contentenc/offsets.go:37-80 | every plaintext size survives the trip through its ciphertext size, which is a legal one |
| Offsets.CipherSizeRoundTrip | internal/contentenc/offsets.go:37-80 | the reverse trip is exact if and only if the ciphertext size is legal |
| Offsets.SizesAdjoint | internal/contentenc/offsets.go:37-87 | for p > 0: a ciphertext size reports at most p if and only if it is at most the ciphertext size of p |
| Offsets.PlainSizeMonotone | internal/contentenc/offsets.go:37-71 | a larger ciphertext, legal or not, never reports a smaller plaintext |
| Offsets.CipherSizeFits | internal/contentenc/offsets.go:74-87 | below 2^62 bytes of plaintext the ciphertext size, which bounds every step towards it, fits 64 bits |
| Offsets.OverheadFits | internal/contentenc/offsets.go:49-70 | below 2^63 bytes of ciphertext the computed overhead fits 64 bits |
| Offsets.SizeFormat | internal/contentenc/offsets.go:74-87 | with blocks of 4096 and 4128 bytes: a header of 18 bytes, the contents, and 32 bytes for every block begun |
| Offsets.ExplodePlainRange | internal/contentenc/offsets.go:91-108 | the loop ends, and its blocks cut the range in order at the block boundaries with nothing missing or repeated |
| Offsets.SplitCoversRange | internal/contentenc/offsets.go:91-108 | the pieces of a split sum to the request |
| Offsets.SplitIsUnique | internal/contentenc/offsets.go:91-108 | the range alone fixes how many blocks a split has |
| Offsets.JointRangeOfSplit | internal/contentenc/intrablock.go:50-59 | the joint ciphertext range of a split starts at its first block and holds all its blocks and nothing more |
| Offsets.SplitBlockCount | internal/contentenc/offsets.go:91-108 | a request of at most m blocks touches at most m + 1 |
| ContentEnc.RequestFitsBuffers | internal/contentenc/content.go:59-83 | any request up to the kernel limit fits the ciphertext and plaintext pool buffers, so returning them never panics |
| ContentEnc.ConcatADInjective | internal/contentenc/content.go:118-130 | the associated data tells block number and file ID apart, for numbers of 64 bits |
| ContentEnc.DecryptBlockAccepts | internal/contentenc/content.go:136-173 | exactly which ciphertexts a block decrypts from: the empty one, the all-zero full block, and those sealed under its number and file ID with a non-zero nonce |
| ContentEnc.BlockRoundTrip | internal/contentenc/content.go:261-284 | decryption undoes encryption under the same number and ID |
| ContentEnc.BlockFormat | internal/contentenc/content.go:118-173 | a block is the nonce and the plaintext sealed with 24 bytes of associated data, the block number in eight bytes, the most significant first, and the file ID; this is what is read and what is written |
| ContentEnc.DecryptBlocks | internal/contentenc/content.go:96-113 | the loop succeeds exactly when every block decrypts and returns their plaintexts joined |
| ContentEnc.PlainOfSplit | internal/contentenc/content.go:96-113 | decryption cuts at every block boundary |
| ContentEnc.PlainOfLength | internal/contentenc/content.go:96-113 | the length of the plaintext is fixed by the length of the ciphertext |
| ContentEnc.HolesAreZero | internal/contentenc/content.go:143-146 | any number of hole blocks decrypts to as many blocks of zeros |
| ContentEnc.ToyAeadIsAead | internal/contentenc/content.go:29-56 | a small cipher satisfies everything asked of the AEAD |
| BlockEncryption.DoEncryptBlocks | internal/contentenc/content.go:232-236 | slot i of the output decrypts under number first + i to input block i |
| BlockEncryption.OwnersPartition | internal/contentenc/content.go:182-207 | every slot belongs to exactly one worker, for any number of blocks and workers |
| BlockEncryption.EncryptBlocksParallel | internal/contentenc/content.go:182-207 | under every interleaving each slot is written once, and holds what the sequential loop promises |
| BlockEncryption.EncryptBlocks | internal/contentenc/content.go:212-229 | the joined output decrypts to the joined input, sequential or parallel |
| BlockEncryption.FlattenDecrypts | internal/contentenc/content.go:212-229 | blocks encrypted one by one decrypt as one run |
| FileHeader.ParseInvertsPack | internal/contentenc/file_header.go:34-69 | a header parses to an ID if and only if it is that ID packed, and the ID is not all zero |
| FileHeader.HeaderFormat | internal/contentenc/file_header.go:17-69 | a header is the bytes 0 and 2 and a 16-byte ID, which must not be all zero |
| DiskImage.BodySize | internal/contentenc/offsets.go:37-87 | the size of a readable body is the one its plaintext has, and translates back to it |
| DiskImage.ReadBlocks | file.go:106-170 | blocks n0 to n0 + m of a readable body decrypt to that part of the plaintext, short at the end |
| DiskImage.ReplaceBlocks | file.go:181-250 | writing whole encrypted blocks over a readable body writes their plaintext over its plaintext |
| DiskImage.GrowWithHoles | file.go:254-316 | growing a block-aligned body to a block boundary grows its plaintext with zeros |
| DiskImage.CutBlocks | file.go:344-368 | cutting at a block boundary cuts the plaintext there |
| DiskImage.WriteBlocks | file.go:181-250 | a write of any range that starts in reach of the end, done as encrypted blocks, is the write on the plaintext |
| DiskImage.ZeroExtendedBlockFails | internal/contentenc/content.go:136-173 | a short last block stretched with zeros no longer decrypts |
| DiskImage.WritePastUnalignedEnd | file.go:181-250 | a write that starts out of reach of an unaligned end leaves a body that does not decrypt |
| EncFile.ReadFileID | file.go:60-76 | a file of at most a header reports end of file; otherwise the ID of the header, or why it is bad |
| EncFile.CreateHeader | file.go:81-95 | the file then starts with a header that parses to the returned ID |
| EncFile.OpenFile.LoadID | file.go:106-122 | an ID is known afterwards if it was or the file has content; it agrees with the header |
| EncFile.OpenFile.DoRead | file.go:106-170 | returns the destination followed by the requested part of the plaintext, cut at its end |
| EncFile.OpenFile.LoadOrCreateID | file.go:186-203 | an ID is cached afterwards and the contents are the same; an empty file gets a header |
| EncFile.OpenFile.GatherBlocks | file.go:204-222 | the blocks to encrypt are what the touched blocks hold after the write |
| EncFile.OpenFile.DoWrite | file.go:181-250 | the contents become the write of the data at the offset (old bytes elsewhere, zeros in a gap) when it starts in reach; with a stale ID, or out of reach, the file becomes unreadable |
| EncFile.OpenFile.WriteFile | file.go:473-495 | writes all of up to 131072 bytes and nothing of more; the contents become the write when it starts in reach, and with a stale ID, or out of reach, the file becomes unreadable |
| EncFile.OpenFile.ReadFile | file.go:444-470 | returns the part of the contents that is there for up to 131072 bytes, and nothing for more; with a stale ID there is nothing |
| EncFile.AddressableFiles | file.go:123-170 | with blocks of 4096 bytes and nonces of 16, no offset of a file of up to 2^62 bytes leaves the range of the code |
| EncFile.OpenFile.ZeroPad | file.go:254-264 | extends the contents with zeros to the next block boundary, and does nothing on one |
| EncFile.OpenFile.GrowAligned | file.go:295-309 | from boundary to boundary, with a new header if the file was empty, the contents grow by zeros |
| EncFile.OpenFile.TruncateGrowFile | file.go:269-316 | on every path the contents grow by zeros to the new size, except when a stale ID is used |
| EncFile.OpenFile.Truncate | file.go:318-368 | the contents become the prefix, or themselves and zeros; exactly when the handle stays valid |
| EncFile.OpenFile.Shrink | file.go:344-368 | the contents become their prefix, at a block boundary or inside a block |
| EncFile.PlainSizeOfImage | helpers.go:172-182 | the size reported for a readable file is the length of its plaintext |
| EncFile.ReadAnswer | file.go:123-169 | decrypting and cropping the joint ciphertext range gives exactly the requested bytes |
| EncFile.WriteImage | file.go:223-250 | one ciphertext write turns a readable image into the image of the written plaintext |
| Session.Perform | file.go:392-495 | one allowed operation takes the handle, stale or not, one step and answers like the plain file; one that is not allowed leaves the file unreadable |
| Session.Run | file.go:106-368 | every allowed run on any readable file answers and ends like the run on a plain byte sequence, and the file stays readable |
| Session.PosedFiles | file.go:444-495 | with blocks of 4096 bytes and nonces of 16 the runs may ask for anything that is not empty and ends within 2^62 bytes |
| Session.RunAndOneMore | file.go:106-368 | after an allowed run, an operation leaves the file readable if and only if it is allowed: the allowed runs are all there are |
| Session.StepIsPlainStep | file.go:106-368 | whether the ID is cached never changes the bytes |
| Session.TruncateToZeroThenWrite | file.go:325-328 | for a write at any offset: readable afterwards if and only if no ID was cached, and then zeros up to the offset and the data |
| Session.WriteAnywhere | file.go:473-495 | readable afterwards if and only if the write starts in reach, and then the write on the plaintext |
| FileCopy.EncryptFile | sync.go:177-209 | for every pattern of short reads the file ends up with the contents of the source, and no write is short |
| FileCopy.DecryptFileToDisk | sync.go:324-348 | the loop ends exactly at the end of the file and has copied all of it |
| FileCopy.EncryptThenDecrypt | sync.go:177-348 | any content copied in and out again is the same |
| Pad16.Pad | internal/nametransform/pad16.go:12-29 | the array filled by the loop is the padded input (section 6.3 of RFC 5652) |
| Pad16.UnPad | internal/nametransform/pad16.go:32-64 | the checks and the loop compute the unpadding |
| Pad16.UnpadInvertsPad | internal/nametransform/pad16.go:12-64 | unpadding succeeds with x if and only if its input is x padded and x is not empty |
| Pad16.PaddedBytes | internal/nametransform/pad16.go:12-29 | padding is one to sixteen bytes up to a multiple of sixteen, each of them their number, and nothing else is |
| Base64.DecodeInvertsEncode | internal/nametransform/names.go:154-161 | strict base64url, padded or raw, decodes s to b if and only if s encodes b (sections 3.5 and 5 of RFC 4648) |
| Base64.EncodeAlphabet | internal/nametransform/names.go:154-156 | an encoding uses the URL alphabet and padding only: no dot, no slash |
| Base64.EncodeLength | internal/nametransform/names.go:154-156 | the length of an encoding |
| Base64.EncodeBits | internal/nametransform/names.go:154-156 | character i of an encoding is the letter of Table 2 of RFC 4648 for bits 6i to 6i + 5, bits past the end being zero, and then comes padding |
| Base64.Enc6IsLetter | internal/nametransform/names.go:41-45 | the 64 characters are those of that table in its order |
| Names.DecryptRawInverts | internal/nametransform/names.go:81-133 | a ciphertext name decrypts to a name if and only if it is that name encrypted |
| Names.DecryptInvertsEncrypt | internal/nametransform/names.go:65-133 | the same for the public functions, on valid names |
| Names.ValidNames | internal/nametransform/valid.go:10-27 | a name is valid if and only if it has 1 to 255 bytes, no byte 0 or 47, and is not one or two bytes 46 |
| Names.NameFormat | internal/nametransform/names.go:81-133 | whatever EME decrypts, under the IV of the directory, to the name and its padding is in base64 what is written for it, and is read as it |
| Names.EntryFormat | internal/nametransform/names.go:138-151 | the entry of a name is its encryption, or above the limit the prefix, byte by byte, and the hash of the encryption; its name file ends in .name |
| Names.OwnNames | internal/nametransform/longnames.go:14-22 | the prefix, the suffix, the directory IV and the configuration have the names of the format, byte by byte |
| Names.EntryNameInjective | internal/nametransform/names.go:138-151 | in one directory different valid names get different entries, hashed or not |
| Names.EncryptedIsOrdinary | internal/nametransform/longnames.go:53-61 | an encrypted name is never taken for a hashed entry or a name file |
| Names.HashedKinds | internal/nametransform/longnames.go:28-61 | a hashed name is a long content entry, and with the suffix it is a name file |
| Names.HashedByLength | internal/nametransform/names.go:138-151 | for every limit a valid name is hashed if and only if its encryption, whose length the name's length fixes, exceeds it; the encryption fits a name file of 344 bytes |
| Names.HashedFrom176 | internal/nametransform/names.go:138-151 | at the default limit that is from 176 bytes on |
| DirImage.PutEntry | file.go:404-424 | adding an entry (and its name file) adds the plain name, and nothing else changes |
| DirImage.DropEntry | file.go:526-534 | removing an entry removes the plain name, and nothing else changes |
| DirImage.OwnChange | directory.go:235-260 | changing an entry the volume keeps for itself changes no plain name |
| DirImage.EntryLookup | cli.go:100-117 | a plain name is there exactly when its entry is, with the same node |
| DirImage.NameFileStores | internal/nametransform/longnames.go:81-108 | the name file of a represented long name holds its encryption |
| DirImage.RepresentsIsSafe | internal/nametransform/longnames.go:123-157 | a directory that represents a plain one has no long entry without its name |
| DirImage.IvFormat | internal/nametransform/diriv.go:30-61 | a directory has an IV if and only if its IV file holds sixteen bytes, not all zero |
| DirImage.TempNames | directory.go:237 | a temporary name starts with the bytes of gocryptfs.diriv.rmdir. |
| DirOps.Volume.WriteLongNameAt | internal/nametransform/longnames.go:123-157 | the name file appears with the encrypted name, or nothing changes; no state in between is unsafe |
| DirOps.Volume.DeleteLongNameAt | internal/nametransform/longnames.go:113-116 | the name file of an absent entry goes, and the plain names stay |
| DirOps.Volume.OpenWrite | file.go:392-426 | a file is opened or created; in a tidy volume without faults if and only if it is new, with 1 to 255 bytes none of which is 0 or 47 and not one or two dots, or is a file without a name file; every state on the way is safe |
| DirOps.Volume.RemoveFile | file.go:514-536 | exactly that file goes; without faults it succeeds on every file |
| DirOps.Volume.MkdirWithIv | directory.go:20-41 | the directory appears with its IV, or everything is as before |
| DirOps.Volume.WriteDirIV | internal/nametransform/diriv.go:66-92 | the IV file holds the IV, or is gone again |
| DirOps.Volume.MakeDir | directory.go:124-196 | an empty plain directory appears with its IV; in a tidy volume without faults if and only if the name is free and has 1 to 255 bytes none of which is 0 or 47 and is not one or two dots; other directories are untouched |
| DirOps.FreeNames | internal/nametransform/valid.go:10-27 | where nothing is in the way exactly these names can be made |
| DirOps.Volume.RemoveDir | directory.go:199-261 | an empty directory goes, in a tidy volume without faults always; otherwise everything is as before; directories keep their IVs |
| DirOps.Volume.RmdirDance | directory.go:235-260 | the IV moves out, the directory goes, the IV goes; each of these states is safe and a failure restores the first |
| DirOps.Volume.Rename | common_ops.go:60-118 | the plain rename, with every state safe, in a tidy volume without faults if and only if it can be done; then a name is lost if and only if it is one of the two renames that lose one; a rename that fails loses none |
| DirOps.Volume.RenamePrepared | common_ops.go:99-117 | the rename with the name file in place, which is taken back if it fails, with all names in place; the old name file goes |
| DirOps.Volume.RenameEntry | common_ops.go:99-112 | the rename, a directory in the way removed and the rename tried again; without faults it succeeds if and only if the plain directories allow it; a failure leaves every name in place |
| DirOps.Volume.RenameInstead | common_ops.go:100-108 | the second try succeeds if and only if what was in the way was empty, without faults; with them it may be gone |
| DirOps.RmdirStates | directory.go:235-260 | every state of the removal is safe and represents the directories with or without the removed one |
| DirOps.MoveStates | common_ops.go:99-117 | moving an entry to its new name keeps every directory representing its names |
| DirOps.LosesNameKept | common_ops.go:82-98 | writing a missing name file does not change whether a rename loses a name |
| DirOps.RenameAnswer | common_ops.go:99-108 | the system call never allows a rename that the plain directories do not |
| DirOps.TidyAnswer | common_ops.go:99-108 | if all is tidy it allows exactly those they do, or reports an empty directory that is in the way |
| DirOps.TidyReach | common_ops.go:99-108 | the encrypted directories of a tidy volume lead exactly where the plain ones do |
| DirTree.ReachIsLeast | common_ops.go:99 | what lies below a directory is the least set closed under taking subdirectories |
| Tidy.TidyIsBare | directory.go:224-234 | a tidy directory without plain names holds its IV and nothing else, so rmdir does not refuse it |
| Tidy.TidyNoTemp | directory.go:236-240 | in a tidy volume no temporary name is taken |
| Listing.ListedIsPlain | cli.go:91-118 | an entry is listed as p if and only if p is a plain name there and the entry is its own |
| Listing.ListDir | cli.go:63-120 | in any order of entries, the listing is the plain directory, each name once |
| Listing.EncryptedFitsNameFile | internal/nametransform/longnames.go:93-106 | the name file of a valid name is short enough to be read back |
| Listing.LongNameRead | internal/nametransform/longnames.go:81-108 | the name of a long entry is what its .name file holds, from 1 to 344 bytes |
| VolumeRuns.Run | file.go:392-536 | over any run of creates, mkdirs, removes, rmdirs and careful renames every recorded state is safe and the plain directories take one plain step after another; without faults each succeeds if and only if they allow it |
| VolumeRuns.RunThenList | cli.go:63-120 | after any run, listing any directory gives exactly its plain names, each once |
| VolumeRuns.CarefulKeepsName | common_ops.go:82-117 | the check a client can make before a rename keeps it clear of the two that lose a name, and in a tidy volume of no other that can be done |
| DirCache.Cache.Clear | dircache.go:61-67 | every slot is free |
| DirCache.Cache.Store | dircache.go:71-96 | the slot whose turn it is holds the entry, the others are as before; a path that was not there is held once |
| DirCache.Cache.Lookup | dircache.go:101-136 | finds an entry if and only if the path is cached, and returns it |
| DirCache.Cache.Delete | dircache.go:146-154 | the first entry of that path is dropped, which is the only one if no path is held twice |
| DirCache.StoredSurvives | dircache.go:71-154 | over any run of lookups, stores and deletes of other paths an entry stays until its turn among 20 slots comes round or the cache expires, and is gone then |
| DirCache.StoreAndLookUp | dircache.go:71-154 | a path stored and looked up after such a run is found with its directory and IV if and only if fewer than 20 slots were filled and nothing expired |
| PathResolution.Resolver.PrepareAtSyscall | helpers.go:35-108 | wherever the cache expires on the way, for any cache that agrees with the directories the place is the one a walk from the root finds; only directories above the path are added, and none if the parent is there; the recursion ends |
| PathResolution.Resolver.PrepareAtSyscallMyself | helpers.go:110-126 | the same for a path itself |
| PathResolution.PrepareStep | helpers.go:69-108 | the place of a path from the directory above it, and that directory from its own place |
| ClientRuns.OpenIsPlain | helpers.go:35-108 | walking the encrypted directories is walking the plain ones |
| ClientRuns.PlaceIsPlain | helpers.go:35-126 | the place of a path is its entry in the plain directory above it, and fails exactly without that directory or with a name that is not valid |
| ClientRuns.Client.Do | directory.go:199-261 | one operation by path, with its system calls, is one step of the plain directories, and the cache still agrees, wherever it expires |
| ClientRuns.Client.RenamePath | common_ops.go:60-118 | a rename by path is the plain rename; the cache agrees afterwards if it held no path at or below the old one before, and if and only if no directory moved or it holds none then; without expiry and with both parents cached, exactly when the rename cannot be done, moves no directory, or nothing below was cached before |
| ClientRuns.NotBelowItself | common_ops.go:99 | a directory that was renamed did not move below itself |
| ClientRuns.RenamedCache | common_ops.go:60-118 | the same about the slots before and after |
| ClientRuns.Run | helpers.go:35-126 | over any run with expiry at any moment, within operations too, every path means what it means in the plain directories |
| VolumeTree.MakeDirShown | directory.go:124-196 | mkdir by path adds the directory to the tree, if and only if its parent is a directory, the path is free and the name valid |
| VolumeTree.CreateShown | file.go:392-426 | opening for writing adds the file if it is new, and fails exactly without a parent, at a directory, at an existing long name or a name that is not valid |
| VolumeTree.RemoveShown | file.go:514-536 | removing takes exactly that path out of the tree, if and only if it is a file |
| VolumeTree.RemoveDirShown | directory.go:199-261 | rmdir takes exactly that path out of the tree, if and only if it is a directory with nothing below |
| VolumeTree.ShownIsWellFormed | cli.go:63-120 | in the tree of a volume every path has its directory |
| ClientRuns.PlainOpenInjective | helpers.go:35-108 | different paths open different directories |
| ClientRuns.RemovalKeepsOpen | directory.go:259 | after an rmdir every other open path opens the same directory |
| ClientRuns.StaysCoherent | directory.go:259 | deleting the removed path from the cache is enough to keep it right |
| ClientRuns.MoveKeepsOpen | common_ops.go:60-118 | when a directory moves exactly the paths at or below the old one stop opening |
| ClientRuns.RenameWalks | common_ops.go:60-118 | the same for a rename of anything, which may also remove an empty directory and then fail |
| SyncTree.SyncedIsSource | sync.go:92-242 | with -checksum and -delete a completed sync leaves exactly the names, kinds and contents of the source under the base |
| SyncTree.SyncedBelow | sync.go:92-242 | below the base, for all options: what is there and what it is |
| SyncTree.SyncedOutside | sync.go:92-98 | outside the base only the directories that lead to it are added |
| SyncTree.WrittenFiles | sync.go:159-162 | a written file has the contents and the time of its source |
| SyncTree.SyncedFile | sync.go:67-73 | a file that both sides have stays if and only if the contents are equal (-checksum), or the sizes are and neither time is more than the window after the other; otherwise it becomes that of the source |
| SyncTree.CountedFiles | sync.go:129-163 | the counters: kept and updated by that same rule, created, directories, and deleted |
| SyncTree.FilesCounted | sync.go:129-163 | new, updated and unchanged always add up to the regular files |
| SyncTree.SecondRunIsIdle | sync.go:129-163 | a second sync of an unchanged source writes nothing, deletes nothing and changes nothing, for all options |
| Sync.Destination.Mkdir | directory.go:124-196 | one directory, on disk or by an operation of the volume, whose directories show the tree afterwards |
| Sync.Destination.Open | file.go:392-426 | the same for opening a file to write it |
| Sync.Destination.Remove | sync.go:218-240 | the same for removing a file or an empty directory |
| Sync.Destination.MkdirAll | cli.go:123-139 | all missing directories are made; it fails if and only if a file is in the way above the last component, or a missing one has a name the volume refuses |
| Sync.Destination.WriteFile | sync.go:177-209 | makes the directories above and gives the file its contents and time; fails exactly when a file is above, a directory is there, a name is refused, or, in a volume of any name limit, the file is there and has a name file |
| Sync.Destination.Prune | sync.go:212-242 | exactly the extras go and are counted, whatever the listing order; every rmdir finds its directory empty; a dry run counts the same and removes nothing |
| Sync.Destination.Visit | sync.go:101-164 | one call of the walk function makes its path what it has to be and leaves the rest |
| Sync.RemovedStep | sync.go:218-240 | handling one listed entry removes it and what is below it, as far as the source lacks them |
| Sync.PartialWellFormed | sync.go:113-118 | after any part of the walk every entry has its directory |
| SyncRuns.EncryptSync | sync.go:92-175 | for any parents-first walk, into a tidy volume without faults, through its system calls: dies if and only if the base cannot be made or a file with a name file must be written again; else the tree that the volume shows is the synced one and the report the count, and a dry run reports the same and changes nothing |
| SyncRuns.FailsAtLongEntry | file.go:407-412 | for every name limit, a file fails exactly if its entry is a hashed one, the file is there and it has to be written |
| SyncRuns.DecryptSync | sync.go:246-322 | the same for the restore, for any listing order; it dies if and only if the base is not a directory |
| SyncRuns.Walker.Walk | sync.go:255-313 | the recursive walk visits everything below a directory once |
| SyncRuns.SourceIsClosed | sync.go:110-111 | the seen paths contain the directories of their paths, so pruning never takes a needed one |
| SyncRuns.SameExtras | sync.go:169-172 | the walk neither adds nor removes an extra |
| SyncRuns.SecondRunSucceeds | sync.go:129-163 | after a completed run the next one cannot die |
| SyncRuns.PushThenRestore | sync.go:75-322 | pushing a tree and restoring it elsewhere gives its names, kinds and contents |
| Prefetch.RandPrefetcher.Read | internal/cryptocore/randprefetch.go:25-47 | panics if and only if more than 512 bytes are wanted; else the value is one contiguous part of a single refill, after everything handed out before |
| Prefetch.RandPrefetcher.Run | internal/cryptocore/randprefetch.go:25-53 | over any run no byte of any refill is handed out twice |
| Handles.FileTable.RegisterFileHandle | file.go:40-56 | the loop ends; the new file gets the least free number, and no open file loses its own |
| Handles.FileTable.CloseFile | file.go:498-511 | exactly that handle is freed; an unused number crashes |
| Handles.FileTable.Close | volume.go:133-151 | crashes if and only if the numbers in use have a gap; else all files are closed |
| Handles.OpeningKeepsGapless | file.go:40-56 | opening keeps the numbers without a gap |
| Handles.ClosingKeepsGapless | file.go:498-511 | closing keeps them so exactly for the last number |
| Counterexamples.RenameToItself | common_ops.go:82-117 | a run that loses the name of a file |
| Counterexamples.RenameOntoLongDir | common_ops.go:99-117 | a run that loses the name of a directory |
| Counterexamples.WriteFarPastTheEnd | file.go:473-495 | a run on one handle that writes a byte and another two blocks on, and leaves an unreadable file |
| Counterexamples.TruncateAndWriteAgain | file.go:325-328 | a run on one handle that leaves an unreadable file |
| Counterexamples.RenameLeavesStaleEntry | common_ops.go:60-118 | a rename by path that goes through and leaves a directory cached under a path where nothing is |
| Counterexamples.PushLongNameAgain | file.go:407-412 | a sync into a volume that dies at a changed file with a long name |
| Counterexamples.CloseWithAGap | volume.go:141-148 | a run after which closing the volume crashes |

## Left out

- The ciphers, EME and SHA-256 themselves: AEAD and EME are functions with round-trip contracts, and SHA-256 is taken to be free of collisions with an output of any length. Hashing contents in the mirror is comparing them.
- Random nonces, file IDs and directory IVs are arbitrary non-zero values; that they differ is not claimed. The random part of a temporary name is taken to be unused.
- That a real AEAD rejects a block stretched with zeros is the assumption `RejectsZeroExtension`, needed only for the direction that says a file is lost.
- 64-bit wrap-around of offsets: files are bounded by `Addressable` and `NoWrap`, under which no offset of the code wraps. Zero-length reads and writes, which the code does not handle, are excluded.
- Mutexes, two handles on one file, file descriptor duplication, fallocate, EINTR and a full disk. System calls succeed or change nothing; which of them fails is arbitrary in `DirOps`, but for the calls that undo an earlier one (in WriteLongNameAt, WriteDirIV, MkdirWithIv and RmdirDance), which are taken to succeed: the code ignores their errors.
- The cache of directories keeps numbers for file descriptors; that the code duplicates and closes descriptors is not modelled. The expiry thread is modelled as a choice to empty the cache or not, before and after each access to it.
- ClientRuns.Run: renames no directory, because that leaves the cache wrong; `ClientRuns.Client.RenamePath` does, and says when.
- The reads and writes of open files are not part of the runs by path: `Session` has them, on one file.
- Paths are lists of components: joining, cleaning and splitting of strings (sync.go:45-55, helpers.go:11-17) and relative paths are left out.
- Sync.Destination.Fill: gives a file its contents and time in one step, because `FileCopy` has the copying; a failure in the middle of a copy is left out, and so are the times of directories.
- SyncRuns.EncryptSync: the volume has no faults and nothing in it has failed before (`Sync.Mirrors`). After a remove whose second system call failed, the name file that is left over makes the code refuse a new file of that long name, and a directory that holds one is not removed. It also assumes that source and destination agree on what is a directory; unreadable entries, symbolic links and other special files are left out. The walk may come in any order that lists a directory before what it holds.
- SyncRuns.DecryptSync: reads a tree, with paths as seen from the base; that a volume lists the tree it shows is `Listing.ListDir` and `VolumeTree.Shows`.
- EncFile.OpenFile.Truncate: the code asks for the size by path, through a volume number that is never assigned (file.go:331, volume.go:65-113); the model takes the size of the backing file that is open.
- DirOps.Volume.RemoveDir: a directory without an IV, which the code removes as it is, does not occur in a valid volume.
- Volumes with plaintext names or without directory IVs, names exempted from decryption, and the reverse mode (ExplodeCipherRange).
- The configuration file, passwords, command line, the C and Java bridges, opening and creating volumes, and searching.
