# rencfs in Dafny

rencfs stores files, directories and names encrypted in a host directory. This project models
the mechanisms of it that must agree with something simple, and proves that they do:

- **Encrypted block streams** (`Primitives`, `Blocks`, `HostFiles`, `BlockBuffer`, `BlockLoader`,
  `SequentialWriter`, `SeekableWriter`, `WriterRuns`, `SeekableReader`, `ReaderRuns`, `Copying`). A plaintext is
  cut into blocks of B bytes, and block i is stored at i * (B + 28) as nonce, ciphertext and tag,
  sealed with i as associated data. Readers and writers buffer one block. They are classes, as in
  the source, proved against a byte sequence and a position: `Content` and `Pos` of a writer,
  `plain` and `Position` of a reader. `Stores(file, plain)` says that a file is a well-formed
  stream of a plaintext, and `Decode` is an independent decoder.
- **Files** (`Attributes`, `FileLayer`, `FileRuns`, `Handles`). `InodeFile` is one regular file
  with its inode record, its contents file, its open readers and its writer, all of them real
  objects of the stream layer. Its runs are proved against a model with only the content and the
  open handles. `HandleTable` is the bookkeeping of handles over all inodes.
- **Directories** (`FileNames`, `Directories`, `DirectoryStore`). `Directories` has the operations
  on plain directories (maps from names to inodes) and what they guarantee. `DirectoryStore` has
  the class that keeps each directory twice, by encrypted name and by name hash, behind three
  caches, and the proof that it does what the plain operations do.
- **The lock table** (`LockTable`): a reference-counted map as interleaved steps of threads.

B is any number above 28. The cipher is any pair of seal and open with the laws of section 2 of
RFC 5116 (open undoes seal, the text grows by the 16 bytes of the tag) under one fixed key; nonces
are arbitrary. Base64 is any encoding into the alphabet of section 4 of RFC 4648 that can be
decoded; the name hash is taken to be free of collisions. Reads of a host file may be short.
Clocks, fresh inode numbers and fresh handle numbers are parameters.

Where the code does not do what a reader expects, the exact condition is stated. `Divergences`
has inputs that meet it for all but the last two of these, `DirectoryStore.MovedKeepsParent` for
the last but one:

- The computed plaintext length is 28 short for a positive number of full blocks
  (`LengthInversion`, `GetPlaintextLen`, `LenIsPlainLen`).
- A reader that has met the end of the data cannot seek within the last block, since `pos` reports
  the start of that block while the file is at its end (`Stuck` in `Seek` and `ReadAt`).
- Reading into an empty slice skips the rest of the buffered block (`Reader.Read`).
- A writer that seeks from a clean loaded block to the missing block after a full last one keeps
  the loaded bytes, and past that block it fails (`Stale` and `Misled` in `SeekWriter.Seek`). The
  next write then stores those bytes as well (`SeekWriteFinish`). A seek from the end of those
  bytes into the next block ends up a block too low first (`Overshoots`).
- A flush of an exactly full buffer in front of a stored block does not load that block, and a
  short write then cuts it (`Strands`, `Stranded` in `SeekWriter.Flush` and `SeekWriter.Write`):
  the file decodes to nothing unless the mixture of new and old block opens (`FlushWriteFinish`).
- Shrinking a file while it is open both for reading and for writing brings the old recorded size
  back (`SizeComesBack` in `SetLen`), although `set_len` is documented to make the size the new one.
- A directory that was listed before it was moved is listed with its old parent as `..`, as long
  as nothing drops that from the cache (`ReadDir`).
- Setting attributes of a removed inode that is still cached brings its record back
  (`Namespace.SetAttrOf`), and a size set as an attribute beyond the end of a file is recorded
  (`InodeFile.SetAttrOf`).

## Model

| member | source | states |
|---|---|---|
| Primitives.LeBytesInjective | src/crypto/write.rs:67-89 | different block indices are sealed with different associated data |
| Primitives.LeBytesAt | src/crypto/write.rs:69 | the associated data is the block index with its lowest byte first |
| Blocks.Layout | src/crypto/write.rs:67-89 | in a well-formed file block i is at i * (B + 28): 12 bytes of nonce, then the text and tag sealed under it with i as associated data |
| Blocks.SpliceAt | src/crypto/buf_mut.rs:159-170 | byte by byte what a splice is |
| Blocks.PWriteAt | src/encryptedfs.rs:1511-1530 | byte by byte what a positioned write is, with zeros in the gap |
| Blocks.ZeroExtendAt | src/stream_util.rs:113-136 | byte by byte what an extension is |
| Blocks.RoomIs | src/crypto/buf_mut.rs:30-32 | a block has B - pos % B bytes left |
| Blocks.StoresDecodes | src/crypto/read.rs:29-74 | a well-formed stream decodes to the plaintext it stores, by a decoder that is independent of reader and writer |
| Blocks.OverwriteBlock | src/crypto/write.rs:67-89 | sealing block i anew at i * (B + 28), no shorter than it was, keeps the layout and splices the plaintext |
| Blocks.BlockOfSplice | src/crypto/write.rs:67-89 | a splice within block i leaves every other block as it was |
| Blocks.CutDecodes | src/crypto/write.rs:67-89 | sealing a stored block anew with fewer bytes leaves its tail behind the new one, and the file decodes to what that mixture opens to in place of the block, or to nothing |
| Blocks.IndexIsQuotient | src/crypto/write.rs:289-290 | block index and offset, which the model computes by subtraction, are quotient and remainder |
| Blocks.StoresLen | src/crypto/read.rs:170-179 | the length of a stream is a function of the plain length, and both end in the same block |
| Blocks.LengthInversion | src/crypto/read.rs:170-179 | the length formula gives the plain length back, except 28 less exactly for a positive number of full blocks |
| BlockBuffer.BufMut.Clear | src/crypto/buf_mut.rs:39-44 | empties the buffer and forgets that it was changed |
| BlockBuffer.BufMut.SeekRead | src/crypto/buf_mut.rs:60-76 | the read cursor moves within the filled part, or nothing changes; where it goes and when it is refused for each kind of seek |
| BlockBuffer.BufMut.SeekWrite | src/crypto/buf_mut.rs:79-94 | the write cursor moves within the capacity and extends the filled part, or nothing changes; where it goes and when it is refused for each kind of seek |
| BlockBuffer.BufMut.SeekAvailable | src/crypto/buf_mut.rs:99-117 | the filled part is cut or extended and pulls both cursors back into it; to where and when it is refused for each kind of seek |
| BlockBuffer.BufMut.Write | src/crypto/buf_mut.rs:159-170 | what fits is spliced into the contents at the write cursor |
| BlockBuffer.BufMut.Read | src/crypto/buf_mut.rs:177-187 | returns what is between the read cursor and the filled end, up to the limit |
| BlockLoader.FillFromFile | src/crypto/read.rs:33-47 | the loop over short reads gets exactly the bytes up to the block size or the end of the file |
| BlockLoader.DecryptBlock | src/crypto/read.rs:29-74 | loads exactly the block at the cursor; nothing at the end of the file, an error when it does not open |
| BlockLoader.StoredLoads | src/crypto/read.rs:29-74 | in a well-formed stream the load at block i yields block i, and moves to block i + 1 |
| SequentialWriter.Writer.EncryptAndWrite | src/crypto/write.rs:67-89 | the cursor was at the block; the file then stores the content if the block replaced is not longer, and is cut short otherwise |
| SequentialWriter.Writer.Write | src/crypto/write.rs:92-105 | in every state: splices exactly the bytes up to the end of the block, writes a full block out first, and what buffer, index and stored plaintext then are |
| SequentialWriter.Writer.Flush | src/crypto/write.rs:107-124 | a full changed block is written out; content and position stay |
| SequentialWriter.Writer.Finish | src/crypto/write.rs:126-142 | the file stores the content and decodes to it, or is cut short where the buffer was; a second finish is an error |
| SequentialWriter.WriteAll | src/stream_util.rs:113-136 | splices all the bytes at the position, or appends them, through writes of a block remainder each; fails exactly when the writer takes none |
| SequentialWriter.FillZeros | src/stream_util.rs:113-136 | splices exactly so many zeros at the position, or appends them, a bounded buffer at a time |
| SeekableWriter.SeekWriter.LoadBlock | src/crypto/write.rs:218-248 | on any file: the buffer becomes what the file has at the block index, an error when that does not open, and otherwise is not touched |
| SeekableWriter.SeekWriter.GetPlaintextLen | src/crypto/write.rs:250-270 | the content length, but 28 less exactly when full blocks are stored and no changed block follows them; bytes that a stale seek left do not count |
| SeekableWriter.SeekWriter.SeekOtherBlock | src/crypto/write.rs:314-345 | going to another block keeps the content and gets as near as it goes, exactly when not stale; also from bytes that a stale seek left |
| SeekableWriter.SeekWriter.SeekSameBlock | src/crypto/write.rs:293-313 | the same within a block, which may first have to be loaded; and where it leads within bytes that a stale seek left |
| SeekableWriter.SeekWriter.Seek | src/crypto/write.rs:276-355 | the position is the one given, or so far from the reported length or from the old position, before the beginning is refused, the content only gains zeros up to the target; exactly what a stale seek does instead, and what the seeks after that do, one of which puts the content right again |
| SeekableWriter.SeekWriter.Write | src/crypto/write.rs:358-376 | in every state, after stale seeks and stranding flushes too: splices the first n bytes at the position, n the rest of the block; loads the block first where needed; exactly when the layout survives or is restored |
| SeekableWriter.SeekWriter.Flush | src/crypto/write.rs:378-380 | keeps content and position; exactly when it leaves the writer stranded |
| SeekableWriter.SeekWriter.Finish | src/crypto/write.rs:383-387 | the file decodes to the content, or is cut short; nothing is written when nothing changed |
| SeekableWriter.SeekWriter.CleanLoaded | src/crypto/write.rs:218-248 | why a seek back or within a loaded clean block is never stale |
| WriterRuns.Step | src/encryptedfs.rs:1511-1530 | one seek or write keeps writer and plain document together and returns what the document says |
| WriterRuns.SeekMoves | src/crypto/write.rs:276-289 | where the document goes and what it answers for each kind of seek |
| WriterRuns.TookFirst | src/crypto/write.rs:358-376 | the document says that a non-empty write takes at least one byte and at most all, and splices exactly those |
| WriterRuns.Run | src/crypto/write.rs:218-376 | every disciplined run ended by finish leaves a file that decodes to what the same writes make of the plain bytes, gaps filled with zeros; every write returned the number of bytes spliced and every seek the position |
| SeekableReader.Reader.ReportedIsPosition | src/crypto/read.rs:165-168 | the reported position is the real one, except after a drained read, when it is the start of the last block |
| SeekableReader.Reader.LenIsPlainLen | src/crypto/read.rs:170-179 | when the computed length is the plain length |
| SeekableReader.Reader.Read | src/crypto/read.rs:112-128 | returns exactly the plain bytes at the position up to the limit or the end of the block, none exactly at the end; an empty read skips to the next block |
| SeekableReader.Reader.ReadFull | src/stream_util.rs:138-151 | fills the slice with the plain bytes at the position, or up to the end |
| SeekableReader.Reader.SeekForward | src/stream_util.rs:22-62 | skips exactly so many bytes and says how many, or stops or fails at the end |
| SeekableReader.Reader.SeekInBlock | src/crypto/read.rs:203-225 | arrives exactly unless the reader is drained |
| SeekableReader.Reader.SeekToBlock | src/crypto/read.rs:226-247 | arrives at the target in another block, drained or not |
| SeekableReader.Reader.Seek | src/crypto/read.rs:185-248 | lands on the position given, or so far from the computed length or from the reported position, at most at the computed length, exactly unless drained and asked into the last block; before the beginning is refused |
| SeekableReader.Reader.SeekExact | src/encryptedfs.rs:1359-1373 | the check of the reported position finds out whether the reader arrived |
| SeekableReader.Reader.ReadAt | src/encryptedfs.rs:1359-1379 | a positioned read returns the plain bytes, if and only if the offset is past the end or can be reached; else nothing |
| SeekableReader.ReadAtIsRight | src/encryptedfs.rs:1359-1379 | a positioned read, drained or not, is right if and only if the offset is past the end or is one the reader gets to |
| ReaderRuns.Run | src/crypto/read.rs:112-248 | every run of seeks and non-empty reads, past any number of ends of data, returns the bytes and positions that a plaintext with a position and a flag gives |
| ReaderRuns.RelativeSeeks | src/crypto/read.rs:185-201 | a relative seek is one from the start, so far from the reported position or the computed length |
| ReaderRuns.NotDrained | src/crypto/read.rs:112-248 | until the end is met, seeks from the start lead to the position or the computed length and reads return the bytes there |
| ReaderRuns.StuckRun | src/crypto/read.rs:165-248 | after that, in every run of seeks into the last block and reads, no read returns a byte and no seek gets off the start of the block |
| ReaderRuns.SeekRestores | src/crypto/read.rs:226-247 | in the model that `Run` is proved against, exactly a seek into another block restores a drained reader |
| Copying.CopyExact | src/stream_util.rs:65-110 | appends exactly the next bytes of the reader to the writer; an error exactly when there are too few |
| Copying.Rewrite | src/encryptedfs.rs:1684-1718 | the new file stores the old content cut or extended with zeros to the size; fails exactly when the recorded size promises too much |
| Copying.RewriteMeaning | src/encryptedfs.rs:1684-1718 | with the right recorded size that is truncation or extension by zeros |
| Copying.WriteSplit | src/crypto/write.rs:92-142 | any split into writes with flushes anywhere stores the concatenation |
| Copying.ReadRest | src/crypto/read.rs:112-128 | reads of any non-zero sizes to the end return the plaintext |
| Copying.ReadToEnd | src/crypto/read.rs:83-128 | the same from a new reader; terminates on every file, well-formed or not |
| Copying.RoundTrip | src/crypto/write.rs:67-142 | writing in any pieces, finishing and reading in any pieces returns the bytes |
| Divergences.OneFullBlockIsShort | src/crypto/read.rs:170-179 | the computed length of one full block is 28 short |
| Divergences.SeekWriteFinish | src/crypto/write.rs:276-376 | after seek, one write and finish the file decodes to what the write makes of the content, if and only if the seek is not stale or the left bytes happen to agree; else to what is stated |
| Divergences.StaleIsWrong | src/crypto/write.rs:218-248 | when the bytes that a stale seek left happen to be what a gap of zeros and the write give |
| Divergences.StaleSeekDoubles | src/crypto/write.rs:314-376 | seeking into the only full block and then to its end, and writing one byte, stores the rest of the block once more behind it |
| Divergences.SeekPastLeftover | src/crypto/write.rs:293-355 | a third seek, from the end of the left bytes one position on, gets there with one left byte and a block of zeros behind the content |
| Divergences.FlushWriteFinish | src/crypto/write.rs:358-387 | after flush, one write and finish the file decodes to the spliced content, unless the write cuts the stored block that the flush left unloaded; then to what the mixed block opens to; the file is right if and only if no block is cut or the mixture opens to the bytes written and the rest of the block |
| Divergences.CutIsRight | src/crypto/write.rs:67-89 | a file with a block cut short means the spliced content if and only if the mixed block opens to the spliced block |
| Divergences.StrandedWriteCuts | src/crypto/write.rs:107-142 | over two blocks: a full block, a flush and one byte reseal the second block short, and the file decodes to nothing unless the mixture opens |
| Divergences.DrainedReaderIsStuck | src/crypto/read.rs:203-225 | after everything is read, a seek to the start reports success and the next read is empty |
| Divergences.EmptyReadSkips | src/crypto/read.rs:112-128 | an empty read between two others loses the rest of a block |
| Divergences.SizeReturns | src/encryptedfs.rs:1720-1743 | cutting a file that is open for reading and writing leaves the old recorded size |
| Attributes.MergeInOrderIsLatest | src/encryptedfs.rs:1236-1266 | merging handle after handle yields the latest of all times, a description without an order |
| Attributes.SetToUnique | src/encryptedfs.rs:1275-1295 | record, handles, request and clock determine the record that is stored |
| Attributes.SetToMeans | src/encryptedfs.rs:1275-1295 | field by field what setting attributes stores: stamps of now, the greatest modification and creation time there is, the rest as asked or as before |
| Attributes.MergedSetOn | src/encryptedfs.rs:2371-2403 | the same for a record without handles |
| Attributes.LimitsAre | src/crypto.rs:53-61 | the two limits in bytes |
| Attributes.MergeOrderIrrelevant | src/encryptedfs.rs:1236-1266 | two iteration orders over the same handles give the same attributes |
| FileLayer.InodeFile.GetAttr | src/encryptedfs.rs:1236-1268 | the latest times of record and handles, and the larger of recorded and writer's size, in whatever order handles come |
| FileLayer.InodeFile.SetAttr | src/encryptedfs.rs:1275-1295 | the stored record is the request merged into the latest of all, and stamped: modification and creation time are the greatest of record, handles and request and nothing else; the size shrinks only when told to overwrite |
| FileLayer.InodeFile.SetAttrOf | src/encryptedfs.rs:1271-1295 | the same as a request from outside: the file stays in order if and only if no size beyond its end is asked for |
| FileLayer.InodeFile.ResetReaders | src/encryptedfs.rs:1968-1996 | every other read handle gets a fresh reader on what is stored; exactly when the writer's size is merged in |
| FileLayer.WriteThrough | src/encryptedfs.rs:1502-1531 | seek, clip to the size limit and one write put the first bytes given at the offset, up to the limit and the end of the block; never stale |
| FileLayer.InodeFile.Write | src/encryptedfs.rs:1471-1548 | errors for a handle that does not write and for offsets past the limit; otherwise the first bytes given are at the offset, as many as answered, up to the limit and the end of the block; the handle's times are now, and readers are fresh |
| FileLayer.InodeFile.Read | src/encryptedfs.rs:1323-1385 | through a handle that does not write, exactly the bytes of the stored plaintext or none, which readers have met the end after it, and whose access time is now |
| FileLayer.InodeFile.Flush | src/encryptedfs.rs:1552-1582 | loses no content and keeps the file in order exactly unless it empties a full buffer before a stored block |
| FileLayer.InodeFile.Open | src/encryptedfs.rs:1619-1662 | one writer at a time; the refused open leaves its read handle open; content stays |
| FileLayer.InodeFile.Release | src/encryptedfs.rs:1388-1455 | after the writer goes, the stored content is the written one, its size and the handle's times are recorded, all readers are fresh |
| FileLayer.InodeFile.FlushAndResetWriter | src/encryptedfs.rs:1751-1787 | the content is stored, recorded and writer's size are its length, the writer is fresh under the same handle |
| FileLayer.InodeFile.ReplaceContents | src/encryptedfs.rs:1684-1718 | the stored content is cut or extended with zeros, in place for zero, else through a new file |
| FileLayer.InodeFile.SetLen | src/encryptedfs.rs:1667-1743 | the new content is the old one resized, for every size; sizes and handles agree with it exactly unless shrinking with a reader and the writer open |
| FileLayer.ResizedAt | src/encryptedfs.rs:1684-1718 | byte by byte what resizing is |
| FileRuns.Step | src/encryptedfs.rs:1323-1743 | one operation does to the file and returns what it does to and from the model; times go forward, sizes shrink only in set_len |
| FileRuns.Run | src/encryptedfs.rs:1323-1743 | every run of allowed operations, flushes and settings of attributes among them, refines the model and returns its results, reads beside an open writer's block included; recorded size and writer's size are always the length of the content, and the recorded size shrinks only in set_len |
| FileRuns.WroteFirst | src/encryptedfs.rs:1500-1531 | in the model a write puts the first of its bytes at its offset, as many as it answers, at least one below the limit |
| FileRuns.ReadReturns | src/encryptedfs.rs:1351-1385 | with no writer open a read returns the bytes of the content at its offset if and only if that is past the end or can be reached, else none |
| FileRuns.OpenReads | src/encryptedfs.rs:1323-1385 | the reads whose bytes the model leaves open, and no other result |
| FileRuns.StoredBeside | src/encryptedfs.rs:1323-1385 | what a reader answers beside the writer's block is what it would answer of the content |
| FileRuns.WritesWithinLimit | src/encryptedfs.rs:1504-1526 | in every run without set_len the content never gets past its old length and the limit |
| FileRuns.StrandsBetweenBlocks | src/crypto/write.rs:107-124 | only a flush between two blocks of the content leaves the writer in disorder |
| FileRuns.SizesAgree | src/encryptedfs.rs:1425-1449 | with no writer the file decodes to the content and the recorded size is its length |
| FileRuns.CloseToOpen | src/encryptedfs.rs:1425-1449 | the next read of another handle after the writer's release returns the written bytes, if and only if not among the last 28 of full blocks (past the first) |
| Handles.GroupedInsert | src/encryptedfs.rs:2033-2063 | adding a read handle to both tables keeps one the grouping of the other |
| Handles.GroupedRemove | src/encryptedfs.rs:1396-1413 | so does removing one, with empty groups removed |
| Handles.SingleWriter | src/encryptedfs.rs:1639-1643 | an inode has at most one write handle |
| Handles.HandleTable.Open | src/encryptedfs.rs:1619-1662 | new handle numbers, each error case, the tables afterwards, including the refused write with its read handle |
| Handles.HandleTable.CheckRead | src/encryptedfs.rs:1330-1349 | a read goes on exactly for a regular file and one of the read handles grouped under it; else which error |
| Handles.HandleTable.CheckWrite | src/encryptedfs.rs:1472-1489 | a write goes on exactly for a regular file and its one write handle; else which error |
| Handles.HandleTable.Release | src/encryptedfs.rs:1388-1455 | the handle leaves every table it is in |
| LockTable.StepCounts | src/arc_hashmap.rs:21-27 | every step keeps each counter equal to the number of holders not yet decremented |
| LockTable.InsertMeans | src/arc_hashmap.rs:67-78 | an insert gives a holder of the value there was, or of the new one, and frees the lock |
| LockTable.GetMeans | src/arc_hashmap.rs:51-65 | a lookup finds exactly the keys in the table, with their values |
| LockTable.DropMeans | src/arc_hashmap.rs:21-27 | a dropped holder is gone, with its counter one less |
| LockTable.PurgeMeans | src/arc_hashmap.rs:80-83 | a purge looks at every key and takes out exactly those that nobody holds |
| LockTable.NoDeadlock | src/arc_hashmap.rs:21-83 | whenever a thread is busy, a busy thread can go on |
| LockTable.StepLinked | src/arc_hashmap.rs:46-83 | every step keeps each held or looked-up entry the one its key has in the table |
| LockTable.PurgedUnheld | src/arc_hashmap.rs:80-83 | a purged entry has no holder, and no lookup is about to take it |
| LockTable.StepInv | src/arc_hashmap.rs:21-83 | the whole invariant is kept by every step of every thread |
| LockTable.RunInv | src/arc_hashmap.rs:21-83 | and so holds in every state of every interleaved run |
| LockTable.HoldersShare | src/arc_hashmap.rs:51-77 | two live holders are of one key if and only if they share one entry, and so one value |
| LockTable.HeldStays | src/arc_hashmap.rs:21-83 | a held entry stays in the table, with a positive counter |
| LockTable.QuiescentEmpty | src/arc_hashmap.rs:21-27 | once all holders are dropped and all threads done, the table is empty |
| FileNames.EncryptFileName | src/crypto.rs:235-250 | the special entries under their own names, any other name as an encoded stream of its normalised bytes |
| FileNames.DecryptFileName | src/crypto.rs:206-220 | gives back the name that was encrypted |
| FileNames.EncodesUnique | src/crypto.rs:195-250 | the encrypted form determines the name, whatever nonces were drawn |
| FileNames.EncodesSafe | src/crypto.rs:235-250 | it has no slash and is never one of the special entries |
| FileNames.HashInjective | src/crypto.rs:252-262 | equal name hashes mean equal names, up to the two spellings of the special entries |
| FileNames.HashSafe | src/crypto.rs:252-262 | special and dot names are hashed to the special entries, no other name is |
| Directories.IndexBijection | src/encryptedfs.rs:2137-2211 | HASH and LS entries of a directory are in one-to-one correspondence with equal inode and kind |
| Directories.IndexedPut | src/encryptedfs.rs:2137-2211 | writing both files of an entry is putting it into the plain directory |
| Directories.IndexedDrop | src/encryptedfs.rs:2221-2246 | removing the HASH file and the LS file it names is removing the entry |
| Directories.HashFinds | src/encryptedfs.rs:996-1006 | looking up the hash of any name whatever finds its entry and no other |
| Directories.ListedCount | src/encryptedfs.rs:836-849 | there are as many LS files as entries |
| Directories.ChildCount | src/encryptedfs.rs:836-849 | without one or two special entries these are the ordinary children |
| Directories.SoundCreate | src/encryptedfs.rs:647-799 | creation keeps the tree sound |
| Directories.SoundRemoveFile | src/encryptedfs.rs:928-992 | so does removing a file |
| Directories.SoundRemoveDir | src/encryptedfs.rs:854-923 | so does removing an empty directory |
| Directories.SoundMove | src/encryptedfs.rs:1829-1857 | so does moving an entry, over another or not |
| Directories.SoundStep | src/encryptedfs.rs:647-1857 | every operation keeps: entries name live inodes of the recorded kind, no inode has two names, directories know their parent |
| Directories.SoundRun | src/encryptedfs.rs:647-1857 | every run of operations keeps the tree sound |
| Directories.CreateResult | src/encryptedfs.rs:655-663 | a creation succeeds if and only if the name is no dot name and free in a directory; the condition of each error |
| Directories.CreateFrame | src/encryptedfs.rs:676-760 | the name is bound to the new inode, a new directory has its two special entries, nothing else changes |
| Directories.RemoveResult | src/encryptedfs.rs:854-949 | a removal succeeds if and only if the entry is of the right kind and, for a directory, without ordinary entries; the condition of each error |
| Directories.RemoveFrame | src/encryptedfs.rs:854-992 | exactly the entry and its inode are gone, with the contents of a directory |
| Directories.RenameResult | src/encryptedfs.rs:1797-1823 | a rename succeeds if and only if both are directories, the source exists, and the target is the same, free, a file or without ordinary entries; the condition of each error |
| Directories.RenameToItself | src/encryptedfs.rs:1812-1815 | renaming an entry to itself changes nothing |
| Directories.RenameFrame | src/encryptedfs.rs:1790-1857 | a rename removes the source and the overwritten entry, maps the new name to the same inode and kind, re-parents a moved directory, and changes nothing else |
| Directories.RenameNotEmpty | src/encryptedfs.rs:1817-1823 | refused as not empty if and only if the target is a directory with ordinary entries |
| Directories.RefusedChangesNothing | src/encryptedfs.rs:647-1857 | an operation that fails changes nothing |
| Directories.RenameBack | src/encryptedfs.rs:1790-1857 | renaming to a free name and back restores every directory |
| Directories.RemoveUndoesCreate | src/encryptedfs.rs:647-992 | removing what was just created restores every directory |
| DirectoryStore.Namespace.InsertEntry | src/encryptedfs.rs:2137-2211 | the stored indexes then represent the plain directory with the entry, and the caches still agree |
| DirectoryStore.Namespace.RemoveEntry | src/encryptedfs.rs:2221-2246 | the same for removal |
| DirectoryStore.Namespace.ExistsByName | src/encryptedfs.rs:996-1006 | each error case, and whether the plain directory has the name |
| DirectoryStore.Namespace.GetInode | src/encryptedfs.rs:1219-1232 | the cache never answers for a live inode with anything but what is stored; a dead one is found exactly while cached |
| DirectoryStore.Namespace.FindByName | src/encryptedfs.rs:803-832 | nothing for an absent name; for an ordinary entry its inode, of its kind; for a dot name its inode, or what is cached of it when that is gone |
| DirectoryStore.Namespace.Len | src/encryptedfs.rs:836-849 | the number of ordinary entries |
| DirectoryStore.Namespace.SetAttr | src/encryptedfs.rs:1271-1316 | the stored record is field by field the old one with what was asked, and so is the cached one; no other record and no entry is touched |
| DirectoryStore.Namespace.SetAttrOf | src/encryptedfs.rs:1271-1316 | of a live inode the same; a dead one is an error unless cached, and then its record is back, which keeps the tree sound if and only if it was a file |
| DirectoryStore.DirectoryTimes | src/encryptedfs.rs:744-758 | creating and removing move the modification time of the directory to now, listing does not, and no other record is touched |
| DirectoryStore.RenameTimes | src/encryptedfs.rs:1859-1873 | a rename moves that of both directories, stamps what it moved, and touches no other record |
| DirectoryStore.Namespace.constructor | src/encryptedfs.rs:2097-2135 | the first directory is sound and represented |
| DirectoryStore.Namespace.Create | src/encryptedfs.rs:647-799 | state and result of the plain creation, error by error; the new record, and the touched one of the directory |
| DirectoryStore.Namespace.RemoveFile | src/encryptedfs.rs:928-992 | state and result of the plain file removal, and every record after it |
| DirectoryStore.Namespace.RemoveDir | src/encryptedfs.rs:854-923 | state and result of the plain directory removal, and every record after it |
| DirectoryStore.Namespace.Rename | src/encryptedfs.rs:1790-1876 | state and result of the plain rename, and every record after it |
| DirectoryStore.Namespace.NameOf | src/encryptedfs.rs:1096-1125 | the name of an LS file, the same from the cache as by decrypting |
| DirectoryStore.Namespace.MetaOf | src/encryptedfs.rs:1127-1161 | what is cached, or else stored, of an LS file; that is what is stored for every file but `$..`, unless an encrypted name was drawn twice |
| DirectoryStore.Namespace.ReadDir | src/encryptedfs.rs:1009-1022 | lists every entry once, the ordinary ones exactly as the plain directory has them as long as no encrypted name was drawn twice, `.` always right, and `..` right if and only if nothing else was cached of it |
| DirectoryStore.ShownSpelling | src/encryptedfs.rs:1098-1103 | the special entries are listed as `.` and `..`, other names as they are |
| DirectoryStore.MovedKeepsParent | src/encryptedfs.rs:1127-1161 | a directory listed, moved and listed again still has the old parent as `..` |
| DirectoryStore.Namespace.Evict | src/encryptedfs.rs:1086-1163 | losing any part of the caches keeps everything |
| DirectoryStore.Run | src/encryptedfs.rs:647-2246 | every run of operations, settings of attributes, listings and evictions does to the stored indexes what the operations do to plain directories and answers what those say, listings included; records of inodes that were there all along go forward, and the caches agree throughout, that of inodes and kinds of entries as long as no encrypted name was drawn twice |

## Left out

- FileRuns.Run: does not say what a read returns through a handle that may have met the end of older data, or of bytes within or just before the block that an open writer is in, because that depends on what the writer has written out; it has no flush while the writer stands between two blocks of the content, and no size set as an attribute beyond the end, for which `FileLayer.InodeFile.Flush` and `SetAttrOf` have the exact conditions.
- SeekableWriter.SeekWriter.Seek: does not cover a seek of a writer whose buffer cuts a stored block; writing, flushing and finishing it are covered.
- BlockLoader.DecryptBlock: has an error where a stored block shorter than a nonce makes the source panic.
- SeekableWriter.SeekWriter.Seek: is about well-formed files; on others a block that does not open makes the seek or write fail, which `LoadBlock` states for the loading itself.
- WriterRuns.Run: does not have seeks from the end, because the computed length is 28 short on full blocks; `SeekWriter.Seek` covers them with that length.
- FileLayer.InodeFile.Write: is about a file that exists, as is `Read`; the checks of inode and handle before it are `Handles.HandleTable.CheckWrite` and `CheckRead`.
- FileLayer.InodeFile.Read: does not say what a handle that also writes reads, because its own reader is not reset when it writes.
- FileLayer.InodeFile.SetLen: does not cover what follows a shrink after which the old size came back.
- DirectoryStore.Namespace.Create: does not open the new file; the handle that `create` returns is that of `Handles.HandleTable.Open`.
- DirectoryStore.Namespace.SetAttr: does not merge the times and size of open handles, which `FileLayer` models; so the directory layer takes files as closed.
- Directories.Allowed: names with a slash or backslash, the empty name and, except in lookups and `create`, the dot names are outside the directory operations.
- Directories.SoundStep: does not claim that the tree is free of cycles or connected, since `rename` may move a directory into itself and leaves an overwritten inode in the store.
- Positions and lengths are unbounded; the 64-bit arithmetic of cursors is not modelled.
- Names are byte sequences; that a decrypted name is UTF-8 is not modelled.
- Errors of host I/O, syncing, atomic replacement of files and crashes: every storage call succeeds at once.
- Operations of `EncryptedFs` are atomic steps; interleaving inside `open` and between file operations is not modelled.
- Removing a file or directory while it has open handles.
- `copy_file_range` and `write_all_bytes_to_fs`, whose loops write the rest of a chunk at the offset of its start.
- `read_dir_plus`, which is `read_dir` with one attribute lookup for each entry.
- Permission bits, passwords, key derivation, key storage, the expiring cache of the key, FUSE mounting and the command line.
