# PlexsDOS: a verified model

This project models the parts of PlexsDOS whose correctness depends on state kept across many
operations, and proves what they promise. Each component is one module, or a few when the proof
separates meaning from representation.

- **Kernel heap** (`HeapLayout`, `HeapMemory`, `Heap`). The boundary-tag allocator of the desktop
  manager: first fit with splitting, coalescing on both sides, a doubly linked free list threaded
  through the free blocks. Memory is an array of 32-bit words and pointers are word addresses.
  `HeapLayout` says what the blocks are, `HeapMemory` how tags and links store them, and the class
  `Heap` performs the word writes of the code. `Heap.Valid` ties the three together after every call:
  the blocks tile the pool, no two neighbours are free, the tags agree with the blocks, and the list
  is exactly the free blocks.
- **Greeter protocol** (`GreeterWire`, `GreeterClient`, `GreeterReader`, `GreeterRequest`, `GreeterAuth`).
  The codec, the client library's reading of it, the incremental frame reader, the decoding of requests
  and the authentication state machine.
  Sessions, signals and the channel are environment steps.
- **Disk images** (`Fat32Geometry`, `Fat32Image`, `Fat12`). The FAT32 disk builder and the FAT12
  floppy builder. Names follow Microsoft's FAT32 File System Specification 1.03, "FAT Data Structure"
  and "FAT Directory Structure".
- **Library algorithms** (`Glob`, `SplitJoin`, `HashTable`, `Numbers`, `Printf`, `PrintfLaws`). Each imperative
  algorithm is proved against a definition that does not mention its loops.
- **Executables** (`Comx`). Packer and loader of .comx files, with the checksum written twice.
- **Display manager** (`DisplayManager`, `SeatLedger`, `SeatFallback`). Shutdown with callbacks that re-enter, kept as
  an explicit stack of unfinished calls, and the fallback chain of seat types. The methods of
  `DisplayManager.Manager` are proved to be the steps of a transition function, and the lemmas speak of
  all its runs.

`ByteTypes` and `Options` hold shared types.

## Where the code does less than it says

The model follows the code in each of these and says when the promise holds.

- The heap's comment allows blocks of 8 bytes. A split that hands out fewer than 16 bytes writes its
  in-use footer over a list link (`HeapMemory.SplitFollowsLinks`, `Heap.OneByteExample`).
- The in-use footer lies in the client's last payload word. The heap stays consistent exactly when the
  client leaves bit 31 of it set (`HeapMemory.PayloadWriteStored`), and `calloc` itself clears it when
  the request fills the block that first fit picks (`Heap.Heap.Calloc`, `Heap.CallocExample`).
- A request above 0xFFFFFFF8 bytes wraps to a small block (`Heap.NeedCovers`).
- A server message of 1024 bytes or more is cut while its header keeps the full length
  (`GreeterWire.BuildMessage`).
- The reader's branch that gives up on a header without payload is never reached. The reader is stuck
  for good exactly when it has consumed a frame with an oversized secret count
  (`GreeterReader.Reader.JammedExactly`, `GreeterReader.Reader.ReadMany`).
- Chains are written to the first FAT only, so the second mirrors it exactly when every file is empty
  (`Fat32Image.Image.Build`). The root directory is one cluster and its 128 slots are not counted
  (`Fat32Image.SlotInRoot`).
- FAT12 allocation returns each cluster twice, so a chain holds its file exactly up to 512 bytes
  (`Fat12.ChainHoldsFile`).
- Removing a key from the hash table hides every key whose probe path crosses its slot
  (`HashTable.RemoveExact`).
- The seat type list is always absent because it is split with a limit of 0 tokens
  (`SeatFallback.SeatTypes`), so the fallback chain is never entered.
- A seat whose start is under way when the manager stops is added afterwards
  (`DisplayManager.LateSeatExample`); the seat list only shrinks exactly when stopping has begun with
  no start under way (`DisplayManager.ShrinksExactly`).
- `strtol` has no defined result for the text of INT_MIN (`Numbers.SignedDefined`).
- `%d` prints the value only if it is not positive (`PrintfLaws.SignedText10`), and the count
  `vsnprintf` returns is the full length only if the last number or string fits
  (`Printf.CountIsLength`).
- The packer takes 256 KiB of code and the loader 32 KiB (`Comx.PackedJudged`); an accepted file fits
  user memory only if its two sizes do not wrap together (`Comx.AcceptedFits`).

## Model

| member | source | states |
|---|---|---|
| HeapLayout.MergeSeparates | kernel/dm/plxdm_compat.c:3425-3466 | every block is one of the at most three merged by a free or lies wholly outside the merged run |
| HeapLayout.FreeBlockOk | kernel/dm/plxdm_compat.c:3425-3466 | freeing a live block keeps the tiling and the coalescing, takes exactly that block out of use and changes no other live block |
| HeapLayout.CarveOk | kernel/dm/plxdm_compat.c:3361-3389 | handing out part or all of a free block keeps the tiling and the coalescing and adds exactly that block to the live ones |
| HeapLayout.Disjoint | kernel/dm/plxdm_compat.c:3348-3466 | no word belongs to two blocks |
| HeapLayout.SizesSum | kernel/dm/plxdm_compat.c:3337-3346 | the sizes of the blocks met by walking the pool add up to the pool |
| HeapLayout.WalkMeetsAll | kernel/dm/plxdm_compat.c:3337-3346 | that walk meets every block once, in address order |
| HeapLayout.NothingLive | kernel/dm/plxdm_compat.c:3425-3466 | once nothing is live the pool is one free block |
| HeapLayout.FreeAllRestores | kernel/dm/plxdm_compat.c:3425-3466 | freeing all live blocks in any order restores one free block covering the pool |
| HeapMemory.UnlinkLinked | kernel/dm/plxdm_compat.c:3310-3320 | taking any block out of the doubly linked list leaves a well-linked list of the others, in order |
| HeapMemory.PushFrontLinked | kernel/dm/plxdm_compat.c:3323-3330 | inserting at the head leaves a well-linked list that starts with the new block |
| HeapMemory.LiveKept | kernel/dm/plxdm_compat.c:3348-3466 | a live block outside the rewritten range keeps every word while the list is relinked |
| HeapMemory.SplitFollowsLinks | kernel/dm/plxdm_compat.c:3364-3382 | the links a split follows are those of the block it splits if and only if it hands out at least 16 bytes |
| HeapMemory.SplitLinked | kernel/dm/plxdm_compat.c:3364-3382 | after a split the remainder stands in the list in place of the block |
| HeapMemory.SplitStored | kernel/dm/plxdm_compat.c:3364-3382 | a split re-establishes the whole heap invariant and disturbs no live block |
| HeapMemory.WholeStored | kernel/dm/plxdm_compat.c:3383-3388 | so does handing out a whole block |
| HeapMemory.PendingAbsorb | kernel/dm/plxdm_compat.c:3439-3461 | merging a free neighbour keeps the list well linked and everything outside the merged run unchanged |
| HeapMemory.AbsorbedIs | kernel/dm/plxdm_compat.c:3436-3461 | looking at the next header and the previous footer finds exactly the free blocks to merge |
| HeapMemory.FreeStored | kernel/dm/plxdm_compat.c:3463-3465 | writing the merged footer and listing the block re-establishes the whole heap invariant |
| HeapMemory.PayloadWriteStored | kernel/dm/plxdm_compat.c:3267-3278 | client writes to a payload keep the invariant if and only if bit 31 of the last payload word stays set, and never touch another live block |
| HeapMemory.FirstFitIsFirst | kernel/dm/plxdm_compat.c:3356-3392 | the block chosen is large enough and every listed block before it is not |
| HeapMemory.FirstFitFails | kernel/dm/plxdm_compat.c:3356-3393 | the scan fails if and only if no free block is large enough |
| Heap.NeedCovers | kernel/dm/plxdm_compat.c:3353-3355 | the rounded size covers header and request if and only if it does not wrap, and is less than 12 bytes larger |
| Heap.ClearedStored | kernel/dm/plxdm_compat.c:3396-3402 | clearing a request keeps the invariant if and only if the request does not reach the last byte of the block |
| Heap.ClearedBytes | kernel/dm/plxdm_compat.c:3400-3400 | clearing n bytes zeroes just those, byte by byte |
| Heap.FillsExactly | kernel/dm/plxdm_compat.c:3353-3388 | a request fills the block it gets if and only if it is a multiple of 4, at least 4, and first fit either splits or fits exactly |
| Heap.CopyStored | kernel/dm/plxdm_compat.c:3416-3418 | copying a payload into a longer block carries it over whole and leaves the in-use tag alone |
| Heap.MoveKeeps | kernel/dm/plxdm_compat.c:3415-3420 | allocate, copy, free together move the payload and keep every other live block |
| Heap.Heap.constructor | kernel/dm/plxdm_compat.c:3283-3285 | the pool starts as one free block |
| Heap.Heap.HeapInit | kernel/dm/plxdm_compat.c:3337-3346 | the first call stores that block in memory; later calls change nothing that is live |
| Heap.Heap.BlkRemoveFree | kernel/dm/plxdm_compat.c:3310-3320 | the word writes are exactly those of unlinking the block |
| Heap.Heap.BlkInsertFree | kernel/dm/plxdm_compat.c:3323-3330 | the word writes are exactly those of pushing the block on the list |
| Heap.Heap.Split | kernel/dm/plxdm_compat.c:3364-3382 | the word writes are exactly those of the split, in the order of the code |
| Heap.Heap.TakePart | kernel/dm/plxdm_compat.c:3362-3382 | a split keeps the invariant, every live block and everything outside the pool |
| Heap.Heap.TakeWhole | kernel/dm/plxdm_compat.c:3383-3388 | so does handing out a whole block |
| Heap.Heap.FindFit | kernel/dm/plxdm_compat.c:3357-3361 | the scan stops at the first listed block that is large enough |
| Heap.Heap.Malloc | kernel/dm/plxdm_compat.c:3348-3394 | the invariant is kept; NULL if and only if the size is 0 or no free block has the rounded size; otherwise the first fit is carved, the live set grows by that block and every other payload is unchanged |
| Heap.Heap.AbsorbNext | kernel/dm/plxdm_compat.c:3436-3446 | the following block is merged if and only if it is free |
| Heap.Heap.AbsorbPrevious | kernel/dm/plxdm_compat.c:3448-3461 | the preceding block is merged if and only if it is free |
| Heap.Heap.Coalesce | kernel/dm/plxdm_compat.c:3432-3463 | the tags of the merged run are written at both ends |
| Heap.Heap.Free | kernel/dm/plxdm_compat.c:3425-3466 | the invariant is kept, exactly the freed block leaves the live set, every other live payload is unchanged |
| Heap.Heap.FreeLive | kernel/dm/plxdm_compat.c:3429-3466 | the same for a block known to be live |
| Heap.Heap.ClientStore | kernel/dm/plxdm_compat.c:3267-3278 | a client may store any word of its payload, with bit 31 set in the last one |
| Heap.Heap.MallocCleared | kernel/dm/plxdm_compat.c:3399-3401 | the requested bytes are zero, other blocks unchanged, and the invariant survives if and only if the request does not fill the block first fit picks, which the caller can tell beforehand |
| Heap.Heap.Calloc | kernel/dm/plxdm_compat.c:3396-3402 | on the arguments: the size is their product modulo 2^32; without overflow NULL means that one is 0 or no free block has the rounded product, and otherwise the block has room for all elements and every byte of them is zero; whether the invariant survives is decided beforehand by the block first fit picks |
| Heap.CallocExample | kernel/dm/plxdm_compat.c:3396-3402 | calloc(1, 12) on a fresh pool breaks the invariant |
| Heap.OneByteExample | kernel/dm/plxdm_compat.c:3364-3382 | on a fresh pool a request for one byte splits, and the link the split follows is its own footer |
| Heap.Heap.CopyPayload | kernel/dm/plxdm_compat.c:3417-3418 | the whole old payload is copied and the invariant is kept |
| Heap.Heap.Move | kernel/dm/plxdm_compat.c:3415-3422 | growing carries the whole payload to a new block, frees the old one and keeps the rest; failing changes nothing |
| Heap.Heap.Realloc | kernel/dm/plxdm_compat.c:3404-3423 | NULL exactly for size 0 or when the block must grow and nothing fits; a failed call leaves the old block live and intact; a successful one keeps the whole old payload and every other block |
| GreeterWire.IntRoundTrip | kernel/dm/plxdm_greeter.c:283-293 | an integer reads back as written |
| GreeterWire.PutAllExact | kernel/dm/plxdm_greeter.c:283-311 | the bounded writers write the whole encoding if and only if it stays below the limit, and never reach the limit |
| GreeterWire.WriteInt | kernel/dm/plxdm_greeter.c:283-293 | the four bytes are written most significant first, or nothing if they would reach the limit |
| GreeterWire.WriteString | kernel/dm/plxdm_greeter.c:295-311 | length, then bytes, each dropped if it would reach the limit |
| GreeterWire.WriteHeader | kernel/dm/plxdm_greeter.c:313-318 | identifier and length stand in the first eight bytes |
| GreeterWire.HeaderLengthExact | kernel/dm/plxdm_greeter.c:346-372 | the length computed beforehand for the header is the size of the fields written, for every message |
| GreeterWire.BuildMessage | kernel/dm/plxdm_greeter.c:387-429 | offset and header length agree if and only if the message is below 1024 bytes, and then the buffer holds header and all fields |
| GreeterWire.ReadOne | kernel/dm/plxdm_greeter.c:806-858 | one read recovers one field and advances past it |
| GreeterWire.ReadRecovers | kernel/dm/plxdm_greeter.c:806-858 | reading in field order recovers every integer and string, wherever the fields stand |
| GreeterWire.MessageRecovered | kernel/dm/plxdm_greeter.c:346-429 | every message that fits is recovered whole: identifier, length and all fields in the order written |
| GreeterWire.ReadShort | kernel/dm/plxdm_greeter.c:806-858 | a read advances exactly if the data is there and otherwise gives 0 or the empty string |
| GreeterClient.PairsRecovered | reference/lightdm-core/liblightdm-gobject/greeter.c:579-598 | the client reads the hints as the pairs sent, by count or up to the end of the message |
| GreeterClient.PromptsRecovered | reference/lightdm-core/liblightdm-gobject/greeter.c:655-661 | the client reads as many prompts as were sent, each as sent |
| GreeterClient.Understood | reference/lightdm-core/liblightdm-gobject/greeter.c:789-825 | the client library, which knows identifiers and field order by itself, understands every message below the limit as the server meant it |
| GreeterClient.Exchange | kernel/dm/plxdm_greeter.c:346-429 | a message built and read is the message meant, with the protocol version capped at 1 |
| GreeterReader.OversizedHasPayload | kernel/dm/plxdm_greeter.c:974-983 | a frame with too many secrets has a payload, so giving up never happens on a bare header |
| GreeterReader.LengthIs | kernel/dm/plxdm_greeter.c:822-838 | the big-endian length in the header counts the payload only, and a length that wraps counts as none |
| GreeterReader.BatchOfFlatten | kernel/dm/plxdm_greeter.c:822-838 | a parser of complete input splits a concatenation of frames into just those frames |
| GreeterReader.Reader.constructor | kernel/dm/plxdm_greeter.c:1083-1093 | a new reader has consumed and dispatched nothing |
| GreeterReader.Reader.DispatchedIsBatch | kernel/dm/plxdm_greeter.c:876-1022 | in every reachable state the frames dispatched are those the batch parser finds in the bytes consumed |
| GreeterReader.Reader.JammedExactly | kernel/dm/plxdm_greeter.c:974-983 | the reader is stuck if and only if what it has consumed ends in an oversized frame |
| GreeterReader.OversizedExample | kernel/dm/plxdm_greeter.c:974-983 | a frame of 12 bytes that announces 0x40000000 secrets is oversized |
| GreeterReader.Reader.Receive | kernel/dm/plxdm_greeter.c:901-923 | bytes move from the channel to the buffer in order, none lost |
| GreeterReader.Reader.Dispatch | kernel/dm/plxdm_greeter.c:936-1021 | a complete frame is dispatched whole and the buffer emptied, except that an oversized one stays |
| GreeterReader.Reader.Resize | kernel/dm/plxdm_greeter.c:927-933 | enlarging the buffer keeps what it holds |
| GreeterReader.Reader.ReadCb | kernel/dm/plxdm_greeter.c:876-1022 | however the input is cut: consumed bytes equal the dispatched frames followed by the buffer, nothing is lost or reordered; available input makes progress if and only if the reader is not stuck; the watch is dropped at the end of the channel or on an oversized frame and kept while waiting for more, in or between messages |
| GreeterReader.Reader.ReadMany | kernel/dm/plxdm_greeter.c:876-1022 | the same over any number of callbacks: nothing is lost or reordered, and a stuck reader stays stuck |
| GreeterRequest.RequestRecovered | kernel/dm/plxdm_greeter.c:936-1017 | every request a greeter can express reaches the handler it names with its own arguments |
| GreeterRequest.OldConnectDecoded | kernel/dm/plxdm_greeter.c:940-953 | a CONNECT without protocol version counts as version 0 |
| GreeterRequest.OldestConnectDecoded | kernel/dm/plxdm_greeter.c:940-953 | a CONNECT with the version text only counts as not resettable and version 0 |
| GreeterRequest.SecretsRecovered | kernel/dm/plxdm_greeter.c:984-988 | the list of secrets is read back in order |
| GreeterRequest.StreamRecovered | kernel/dm/plxdm_greeter.c:876-1022 | however a stream of requests was cut into reads, the handlers are called with exactly those requests, in order |
| GreeterAuth.Greeter.constructor | kernel/dm/plxdm_greeter.c:1083-1093 | a new greeter holds no session and no login |
| GreeterAuth.Greeter.ResetSession | kernel/dm/plxdm_greeter.c:497-514 | a reset stops and drops the session in use, the remote session, the guest login and the flags, and disconnects signals |
| GreeterAuth.Greeter.SendEndAuthentication | kernel/dm/plxdm_greeter.c:419-431 | END_AUTHENTICATION is sent with sequence number, user name and result, and remembered |
| GreeterAuth.Greeter.BeginSession | kernel/dm/plxdm_greeter.c:536-567 | a created session is set up and becomes the one in use; without one the authentication ends at once with the user unknown |
| GreeterAuth.Greeter.HandleAuthenticate | kernel/dm/plxdm_greeter.c:516-568 | request, reset, then a session or an end; the session is set up without questions if and only if the user named is the autologin user, by the autologin service then and the usual one otherwise; its signals are connected |
| GreeterAuth.Greeter.HandleAuthenticateAsGuest | kernel/dm/plxdm_greeter.c:570-588 | the guest login is held afterwards exactly if guests are allowed, with no session, and the end says which |
| GreeterAuth.Greeter.HandleAuthenticateRemote | kernel/dm/plxdm_greeter.c:615-659 | the same as authenticate for a remote session whose service is known, otherwise an end |
| GreeterAuth.Greeter.HandleContinueAuthentication | kernel/dm/plxdm_greeter.c:661-714 | a continue reaches the session in use only before the end was sent; if the number of secrets is right each prompt gets its secret, in order, and otherwise an error is reported |
| GreeterAuth.Greeter.HandleCancelAuthentication | kernel/dm/plxdm_greeter.c:716-728 | the session in use is stopped and cancelling set exactly if there is one |
| GreeterAuth.Greeter.HandleStartSession | kernel/dm/plxdm_greeter.c:730-767 | START_SESSION is emitted exactly if a guest login is held or the session in use is authenticated, for the remote session if there is one |
| GreeterAuth.Greeter.HandleSetLanguage | kernel/dm/plxdm_greeter.c:769-790 | the language is set only for an authenticated session that is no guest |
| GreeterAuth.Greeter.TakeAuthenticationSession | kernel/dm/plxdm_greeter.c:1032-1044 | the session is handed over, disconnected and no longer in use |
| GreeterAuth.Greeter.SessionResult | kernel/dm/plxdm_greeter.c:470-495 | a result of any session, even a late one, keeps the invariant |
| GreeterAuth.Greeter.AuthenticationComplete | kernel/dm/plxdm_greeter.c:470-495 | the signal comes from the session in use; a cancelled one is reset first; the end carries its result, or user unknown for an authenticated user without account |
| GreeterAuth.Greeter.PamMessages | kernel/dm/plxdm_greeter.c:377-417 | the messages are passed on; the session in use is answered at once if and only if it asked nothing |
| GreeterAuth.StartAuthorised | kernel/dm/plxdm_greeter.c:730-767 | in every run START_SESSION follows an accepted guest login not reset since, or a current session whose last result was success |
| GreeterAuth.SuccessAfterCreation | kernel/dm/plxdm_greeter.c:470-568 | for a session that had not succeeded before its creation, that success came after it |
| GreeterAuth.ContinueNeedsRequest | kernel/dm/plxdm_greeter.c:661-714 | in every run, between END_AUTHENTICATION and a continue that reaches a session lies a new authenticate request |
| GreeterAuth.RepliesMatchRequest | kernel/dm/plxdm_greeter.c:419-431 | in every run each prompt and each end carries the sequence number of the latest authenticate request |
| GreeterAuth.UnattendedIsAutologin | kernel/dm/plxdm_greeter.c:547-560 | in every run a session that asks no questions was created for the autologin user, by its service |
| GreeterAuth.PromptsAre | kernel/dm/plxdm_greeter.c:678-685 | both kinds of prompt are counted and nothing else |
| GreeterAuth.CountPrompts | kernel/dm/plxdm_greeter.c:678-685 | the prompts among the messages are counted |
| GreeterAuth.BuildResponse | kernel/dm/plxdm_greeter.c:694-707 | the secrets go to the prompts in order, one each, and to nothing else |
| Fat32Geometry.GeometryFits | tools/mkvmdk.py:215-241 | for every disk size with a non-negative data area, each FAT has an entry for every cluster, FATs and data follow one another without overlap and end inside the disk, wasting less than a sector of disk, a cluster of data and a sector of each FAT |
| Fat32Geometry.ChsInverts | tools/mkvmdk.py:290-313 | the cylinder/head/sector address inverts to its block address if and only if that is below the limit, and is capped above it |
| Fat32Geometry.OrIsSum | tools/mkvmdk.py:322-326 | the or of sector and high cylinder bits loses nothing |
| Fat32Geometry.ChsBytesDecode | tools/mkvmdk.py:319-327 | each field fits a byte and the three bytes determine the address |
| Fat32Image.PatchAt | tools/mkvmdk.py:430-453 | seek and write change exactly the bytes written, past the end too |
| Fat32Image.NewEntryFields | tools/mkvmdk.py:455-463 | the directory entry reads back as name, attribute, first cluster and size |
| Fat32Image.FileKept | tools/mkvmdk.py:421-470 | writing a later file leaves an earlier one alone |
| Fat32Image.Image.WriteAt | tools/mkvmdk.py:439-440 | the bytes stand at the position sought, and every other byte of the image reads as before, past the end too |
| Fat32Image.SlotInRoot | tools/mkvmdk.py:466-468 | a directory entry lies inside the root cluster if and only if its slot is below 128 |
| Fat32Image.Regions | tools/mkvmdk.py:240-241 | the regions in byte addresses: reserved sectors, two FATs, then clusters of 4096 bytes, the last inside the disk, with the root directory in cluster 2 |
| Fat32Image.Image.WriteCluster | tools/mkvmdk.py:429-453 | one cluster: its link or end mark, and its data padded with zeros; nothing else changes |
| Fat32Image.Image.WriteChain | tools/mkvmdk.py:428-453 | all clusters of a file, consecutive and linked in order |
| Fat32Image.Image.WriteFile | tools/mkvmdk.py:421-470 | chain and directory entry of one file; nothing else changes |
| Fat32Image.Image.WriteFiles | tools/mkvmdk.py:414-470 | every non-empty file is in place, the first FAT stays empty behind their clusters, and the head of the FAT, the second FAT and the label are untouched |
| Fat32Image.Image.WriteTables | tools/mkvmdk.py:376-413 | the reserved entries of both FATs and the volume label |
| Fat32Image.Image.Build | tools/mkvmdk.py:376-472 | for every list of files that fits the disk, all are in place; the reserved entries are 0x0FFFFFF8 and twice 0x0FFFFFFF, the label entry its name and attribute; the FATs agree on a cluster if and only if it is reserved or belongs to no file, so one mirrors the other if and only if every file is empty |
| Fat32Image.FatsAgree | tools/mkvmdk.py:434-440 | the two FATs agree on a cluster if and only if it is reserved or belongs to no file |
| Fat32Image.ClusterInUse | tools/mkvmdk.py:429-440 | every cluster below the next free one has a link or an end mark in the first FAT |
| Fat32Image.FreeStep | tools/mkvmdk.py:429-470 | writing a file leaves the first FAT empty behind its clusters |
| Fat32Image.NextClusterBound | tools/mkvmdk.py:418-426 | cluster numbers stay below the reserved ones |
| Fat32Image.ChainUnique | tools/mkvmdk.py:434-440 | there is only one way to follow a chain |
| Fat32Image.FileRecovered | tools/mkvmdk.py:421-470 | following the first FAT from the entry, gathering clusters and cutting at the size gives the file back |
| Fat32Image.AllRecovered | tools/mkvmdk.py:414-472 | so for every file of a list that fits; chains of different files do not meet |
| Fat12.SetGet | tools/mkfat12.py:135-151 | an entry reads back as the 12 bits stored and every other entry, the one sharing a byte included, is unchanged |
| Fat12.PairPacked | tools/mkfat12.py:135-141 | three bytes hold two entries, the lower one in the lower 12 bits |
| Fat12.AllocateCluster | tools/mkfat12.py:126-133 | the first free entry is returned and linked from the previous cluster, but stays free itself; running past the table is an error |
| Fat12.Store | tools/mkfat12.py:143-151 | the bytes written are those of the packed entry |
| Fat12.AddFile | tools/mkfat12.py:188-212 | a chain fits if and only if half its clusters do; each cluster is returned twice; the chain is strictly increasing and ends in 0xFFF, and no earlier entry changes |
| Fat12.AddFiles | tools/mkfat12.py:188-212 | after any list of files that fits, every file has its chain, disjoint from the others |
| Fat12.ChainKept | tools/mkfat12.py:188-212 | a later chain leaves earlier chains alone |
| Fat12.FreshFilled | tools/mkfat12.py:84-97 | a new table has its two reserved entries and is otherwise free |
| Fat12.ChainHoldsFile | tools/mkfat12.py:188-212 | a chain has room for its file if and only if the file has at most 512 bytes |
| Glob.NewStar | kernel/dm/plxdm_compat.c:461-465 | at a new star the earlier one can be forgotten: whatever it could still reach, the new one reaches |
| Glob.AtStringEnd | kernel/dm/plxdm_compat.c:474-478 | once the string is used up only trailing stars may be left and no restart helps |
| Glob.PatternMatchSimple | kernel/dm/plxdm_compat.c:452-479 | the matcher, which backtracks only to the last star, terminates and returns true if and only if the pattern matches |
| SplitJoin.FindFirst | kernel/dm/plxdm_compat.c:294-318 | a token ends at the first delimiter behind its start, or at the end |
| SplitJoin.JoinSplit | kernel/dm/plxdm_compat.c:266-335 | joining the tokens with the delimiter gives the string back |
| SplitJoin.SplitTokens | kernel/dm/plxdm_compat.c:266-335 | there are at most max_tokens tokens, none but the last contains the delimiter, and the last only if the limit was reached |
| SplitJoin.CountTokens | kernel/dm/plxdm_compat.c:277-292 | the first pass counts exactly the tokens the second produces |
| SplitJoin.StrSplit | kernel/dm/plxdm_compat.c:266-335 | NULL exactly for a missing argument, an empty delimiter or a limit below 1; otherwise the tokens |
| SplitJoin.JoinLength | kernel/dm/plxdm_compat.c:346-353 | the running total exceeds the joined length by one separator |
| SplitJoin.ComputedLength | kernel/dm/plxdm_compat.c:346-353 | the length computed beforehand is the length of the result |
| SplitJoin.StrJoinv | kernel/dm/plxdm_compat.c:337-369 | every write lies inside the buffer of the computed length, and together they fill it with the joined string |
| HashTable.ProbeMod | kernel/dm/plxdm_compat.c:1202-1203 | wrapping hash plus offset at 32 bits does not change the slot |
| HashTable.ProbeInjective | kernel/dm/plxdm_compat.c:1202-1203 | a probe sequence visits no slot twice |
| HashTable.ProbeCovers | kernel/dm/plxdm_compat.c:1202-1203 | a probe sequence visits every slot |
| HashTable.FindStepDecides | kernel/dm/plxdm_compat.c:1202-1216 | probing stops at the slot of the key if and only if the map has it, and runs through only if every slot is used |
| HashTable.LookupRefines | kernel/dm/plxdm_compat.c:1221-1234 | lookup agrees with the map |
| HashTable.InsertRefines | kernel/dm/plxdm_compat.c:1196-1219 | insert updates the map, except that a new key is dropped if and only if all 32 slots are used; the count follows |
| HashTable.ReplaceInPlace | kernel/dm/plxdm_compat.c:1332-1353 | emptying a slot and inserting the same key again fills the same slot, as inserting alone does |
| HashTable.RemoveExact | kernel/dm/plxdm_compat.c:1236-1256 | after a removal another key is found if and only if its probe path does not cross the emptied slot |
| HashTable.RemoveLosesKey | kernel/dm/plxdm_compat.c:1236-1256 | two keys with the same hash for which removing the first hides the second |
| HashTable.Hashtable.constructor | kernel/dm/plxdm_compat.c:1155-1173 | a new table is the empty map |
| HashTable.Hashtable.Put | kernel/dm/plxdm_compat.c:1200-1218 | the loop shared by insert and replace fills the slot where probing stops |
| HashTable.Hashtable.Insert | kernel/dm/plxdm_compat.c:1196-1219 | over every run, the contents are the map updated, or unchanged when full and the key is new |
| HashTable.Hashtable.Lookup | kernel/dm/plxdm_compat.c:1221-1234 | the latest value of the key, or none |
| HashTable.Hashtable.Seek | kernel/dm/plxdm_compat.c:1225-1232 | the probing loop stops where the definition says |
| HashTable.Hashtable.Remove | kernel/dm/plxdm_compat.c:1236-1256 | true exactly if the key is present; only its slot and the count change |
| HashTable.Hashtable.Replace | kernel/dm/plxdm_compat.c:1332-1353 | the same effect on the map as insert, although the slot is emptied first |
| DisplayManager.AfterOk | kernel/dm/plxdm_display-manager.c:75-161 | every step, whoever makes it, keeps the invariant |
| DisplayManager.RunOk | kernel/dm/plxdm_display-manager.c:75-161 | so does every run, with callbacks re-entering at any point |
| DisplayManager.StoppedOnce | kernel/dm/plxdm_display-manager.c:75-88 | in every run STOPPED is emitted at most once |
| DisplayManager.StoppedWhenEmpty | kernel/dm/plxdm_display-manager.c:75-88 | in every run STOPPED is emitted only while stopping with no seat left |
| DisplayManager.AtRest | kernel/dm/plxdm_display-manager.c:75-161 | in every run, once every call has returned, each seat listed when stopping began has been asked to stop, in order, and STOPPED has been emitted if no seat is left |
| DisplayManager.StepNearer | kernel/dm/plxdm_display-manager.c:75-161 | once stopping, every step that has an effect lowers a measure of pending calls and seats |
| DisplayManager.ShutdownBounded | kernel/dm/plxdm_display-manager.c:75-161 | so every shutdown, however it is re-entered, takes at most that many steps |
| DisplayManager.CanGoOn | kernel/dm/plxdm_display-manager.c:75-161 | as long as a call is pending or a seat is left, some step has an effect |
| DisplayManager.ShutdownComplete | kernel/dm/plxdm_display-manager.c:75-161 | a shutdown that cannot go on has no call pending and no seat left, has asked every seat and has emitted STOPPED |
| DisplayManager.ClosedRun | kernel/dm/plxdm_display-manager.c:106-161 | once stopping with no seat being started, no run lists a seat more |
| DisplayManager.StartingGrows | kernel/dm/plxdm_display-manager.c:106-122 | while a seat is being started, some continuation lists it |
| DisplayManager.ShrinksExactly | kernel/dm/plxdm_display-manager.c:106-161 | the seat list only shrinks in every continuation if and only if stopping has begun with no seat being started |
| DisplayManager.LateSeatExample | kernel/dm/plxdm_display-manager.c:106-122 | a run in which a manager that has reported STOPPED still receives a seat |
| SeatLedger.RunLedger | kernel/dm/plxdm_display-manager.c:90-122 | in every run the seats listed were announced as added; until stopping they are exactly those added and not removed |
| SeatLedger.NoRemovalAfterStop | kernel/dm/plxdm_display-manager.c:98-99 | in every run no removal is announced once stopping has begun |
| DisplayManager.Manager.constructor | kernel/dm/plxdm_display-manager.c:32-50 | a new manager has no seats and is not stopping |
| DisplayManager.Manager.CheckStopped | kernel/dm/plxdm_display-manager.c:75-88 | carries out the check of the model |
| DisplayManager.Manager.BeginStop | kernel/dm/plxdm_display-manager.c:137-152 | the step that begins to stop; stopping again does nothing |
| DisplayManager.Manager.Remove | kernel/dm/plxdm_display-manager.c:95-95 | the first link that holds the seat is removed |
| DisplayManager.Manager.OnSeatStopped | kernel/dm/plxdm_display-manager.c:90-104 | the step for a seat that stopped: removed, announced exactly if not stopping, checked otherwise |
| DisplayManager.Manager.BeginAdd | kernel/dm/plxdm_display-manager.c:106-113 | the step that begins to add a seat; refused exactly once stopping |
| DisplayManager.Manager.ContinueStop | kernel/dm/plxdm_display-manager.c:153-161 | the step that asks the next seat of the copy to stop, or checks when all were asked |
| DisplayManager.Manager.ContinueRemoved | kernel/dm/plxdm_display-manager.c:98-104 | the step that checks after the announcement |
| DisplayManager.Manager.FinishAdd | kernel/dm/plxdm_display-manager.c:113-122 | the step that lists a seat that started, whether or not the manager began to stop meanwhile |
| DisplayManager.Manager.PerformAll | kernel/dm/plxdm_display-manager.c:75-161 | the methods, called in any order, are the runs the lemmas speak of |
| SeatFallback.NextSeat | kernel/dm/plxdm_lightdm.c:219-244 | the next seat is of the first later type that can be made, with the deprecated name mapped, if there is one; its type list is that type and all behind it, cut at 511 characters |
| SeatFallback.FallbackShrinks | kernel/dm/plxdm_lightdm.c:219-255 | each fallback leaves a strictly shorter list, even if it was cut, so falling back ends; it is the whole rest if and only if neither the room nor the token limit was reached |
| SeatFallback.SeatTypes | kernel/dm/plxdm_seat.c:158-164 | the list is absent for every property, because it is split with a limit of 0 tokens |
| Numbers.ReversedIsReverse | lib/kstdlib.c:228-250 | the digits written last first, reversed, are the digits of the number |
| Numbers.ThirtyTwoDigits | lib/kstdlib.c:279-284 | no base gives more than 32 digits |
| Numbers.UnsignedRoundTrip | lib/kstdlib.c:138-191 | parsing the digits of any 32-bit number in any base 2 to 36 gives it back and ends at the terminator |
| Numbers.SignedRoundTrip | lib/kstdlib.c:71-129 | the same for signed numbers in base 10 |
| Numbers.SignedDefined | lib/kstdlib.c:71-129 | the round trip is defined if and only if the number is not INT_MIN |
| Numbers.BaseZero | lib/kstdlib.c:89-105 | with base 0, "0x" and "0X" announce hexadecimal, "0" octal and anything else is decimal, for both parsers and behind a sign |
| Numbers.DigitTable | lib/kstdlib.c:229-234 | the digits printed are 0 to 9 and a to z |
| Numbers.CapitalDigits | lib/kstdlib.c:109-116 | capital letters are read as the small ones |
| Numbers.TerminatorStops | lib/kstdlib.c:108-123 | the parsers see nothing behind the terminator |
| Numbers.BufferRoundTrip | lib/kstdlib.c:71-300 | parsing the buffer that utoa or itoa filled gives the number back, with the end at the terminator |
| Numbers.ReverseInPlace | lib/kstdlib.c:289-297 | the swaps reverse the string |
| Numbers.Utoa | lib/kstdlib.c:262-300 | the buffer holds the digits and a terminator, the empty string for a bad base, and nothing beyond 33 bytes is written |
| Numbers.Itoa | lib/kstdlib.c:200-253 | the same, with a sign only in base 10 |
| Numbers.Strtoul | lib/kstdlib.c:138-191 | value modulo 2^32 and end of the digits, with prefix and base detection, for every base |
| Numbers.Strtol | lib/kstdlib.c:71-129 | value and end, for every base; defined if and only if the magnitude fits |
| Printf.UnsignedParses | lib/kstdio.c:16-62 | parsing the text of an unsigned conversion gives the number back at every width, padding, base and case |
| Printf.UnsignedConversions | lib/kstdio.c:121-155 | strtoul reads the text of %u, %x, %X, %o and %p back as the argument, in the base of the conversion |
| Printf.SignedValuePrinted | lib/kstdio.c:114-120 | a signed conversion prints the text asked for if and only if the value is not positive |
| PrintfLaws.SignedText10 | lib/kstdio.c:114-120 | %d and %i give the value if it is not positive and 0 otherwise, aligned to the width; a minus sign stands behind padding zeros |
| PrintfLaws.SignedReadsBack | lib/kstdio.c:114-120 | strtol reads a blank-padded %d back as the value printed |
| PrintfLaws.UnsignedText | lib/kstdio.c:121-148 | %u, %o, %x and %X give the digits in their base, aligned to the width |
| PrintfLaws.PointerText | lib/kstdio.c:149-155 | %p gives 0x and at least eight hexadecimal digits |
| PrintfLaws.OtherText | lib/kstdio.c:156-184 | %s aligns its string, %c gives one character, %% a percent sign, an unknown conversion itself behind a percent sign |
| PrintfLaws.ArgumentsTaken | lib/kstdio.c:112-184 | which conversions take an argument |
| PrintfLaws.PlainFormat | lib/kstdio.c:79-86 | a format without directives renders as itself |
| PrintfLaws.DirectiveParsed | lib/kstdio.c:88-110 | a directive written as flag, width, modifier and conversion is read as just that |
| PrintfLaws.DirectiveRendered | lib/kstdio.c:79-188 | a format is rendered directive by directive: what comes before is copied, the directive replaced by its text, the rest rendered with the arguments left |
| Printf.CountIsLength | lib/kstdio.c:64-72 | the returned count is the length of the whole text if and only if the last non-empty number or string ends inside the buffer |
| Printf.PutCounted | lib/kstdio.c:80-86 | a character is stored if there is room and counted anyway |
| Printf.PutClipped | lib/kstdio.c:49-59 | characters are stored and counted only while there is room |
| Printf.GatherDigits | lib/kstdio.c:31-42 | the local buffer of 32 characters holds the digits of any number in any base |
| Printf.FormatNumber | lib/kstdio.c:16-62 | padding, sign and digits, cut at the end of the room |
| Printf.ReadSpec | lib/kstdio.c:90-110 | flag, width and length modifier as the grammar says |
| Printf.Emit | lib/kstdio.c:112-184 | each conversion appends its text, cut at the end of the room |
| Printf.Fill | lib/kstdio.c:79-188 | the room holds exactly the beginning of the unbounded text, and nothing behind it is written |
| Printf.Vsnprintf | lib/kstdio.c:72-199 | for every format, arguments and size: the buffer holds the first size-1 characters of the unbounded text and a terminator, nothing else changes, the count is the full length if it fits and at least size-1 otherwise |
| Comx.StepsAgree | kernel/loader.c:38-40 | the kernel step, the packer step and a rotation by three with exclusive-or are the same |
| Comx.LoaderChecksum | kernel/loader.c:34-42 | the kernel computes the checksum |
| Comx.ComputeChecksum | tools/mkcomx.py:37-50 | the packer, on longer integers, computes the same checksum |
| Comx.OneByteShows | kernel/loader.c:34-42 | two inputs of equal length that differ in one byte have different checksums |
| Comx.HeaderFields | tools/mkcomx.py:79-91 | every field of a packed header reads back at its offset |
| Comx.CreateComx | tools/mkcomx.py:68-96 | the file is header and code, or refused when empty or above 256 KiB |
| Comx.UserRange | kernel/mm/paging.c:132-150 | the 32-bit test accepts exactly the ranges inside user space |
| Comx.PackedJudged | kernel/loader.c:212-255 | what the loader makes of every packed file: accepted if and only if at most 32 KiB, the features are there and the address fits |
| Comx.FeaturesAsked | kernel/loader.c:231-236 | flag bits 0, 1 and 2 ask for SSE, SSE2 and MMX, in this order |
| Comx.PackedAccepted | kernel/loader.c:212-255 | a packed file is accepted if and only if it has at most 32768 bytes, the features its flags ask for are there and its memory lies in user space; it is entered at load address plus entry offset |
| Comx.TamperingShows | kernel/loader.c:238-241 | changing any one code byte of an accepted file is rejected by the checksum |
| Comx.AcceptedFits | kernel/loader.c:242-244 | an accepted file lies inside user space if and only if its two sizes do not wrap together |
| Comx.WrappingAccepted | kernel/loader.c:242-244 | a packed file whose sizes wrap and that is accepted |
| Comx.Place | kernel/loader.c:245-247 | the code and the zeroes behind it are placed; the rest of memory is unchanged |
| Comx.LoaderRun | kernel/loader.c:212-255 | the verdict of the tests in order; memory changes only on acceptance and then holds code and zeroes at the load address |

## Left out

- Heap.Heap.Malloc: does not cover sizes above 0xFFFFFFF8, which wrap, nor a split for 1 to 8 bytes, which overwrites a link and sends later writes outside memory; both limits are exact (`Heap.NeedCovers`, `HeapMemory.SplitFollowsLinks`).
- Heap.Heap.MallocCleared: shares the limits of malloc.
- Heap.Heap.Calloc: takes the product modulo 2^32 as the code does and shares the limits of malloc.
- Heap.Heap.Realloc: shares the limits of malloc.
- Heap.Heap.Move: shares the limit of malloc on sizes.
- Heap.Heap.Split: hands out at least 16 bytes, as malloc above.
- Heap.Heap.TakePart: hands out at least 16 bytes, as malloc above.
- HeapMemory.SplitLinked: hands out at least 16 bytes, as malloc above.
- HeapMemory.SplitStored: hands out at least 16 bytes, as malloc above.
- Heap.Heap.Free: only live pointers are freed, as the C standard asks of callers.
- Comx.LoaderRun: requires that an accepted file's two sizes do not wrap together; the loop would otherwise write outside the memory of the model, the loader's own included.
- Printf.Vsnprintf: widths and positions are unbounded integers and a size is at most the buffer; overflow of int is not modelled. Formats and string arguments are given without their terminator.
- Printf.ReadSpec: a width beyond int is not modelled, because its overflow is undefined in C.
- Numbers.Strtol: an accumulation beyond long is reported as undefined, not given a value.
- Fat32Image.Image.Build: assumes that short names are already in their 11-byte form, that files are below 4 GiB, and that the list fits: at most 127 non-empty files, clusters within the FAT. Beyond that the code writes over other structures (`Fat32Image.SlotInRoot`).
- Fat32Image.Image.WriteFiles: the list fits, as for the whole image.
- Fat32Image.Image.WriteFile: the slot lies in the root cluster and the chain in the FAT.
- DisplayManager.Manager.OnSeatStopped: only seats in the list report that they stopped, as their signals are connected when they are added.
- SeatFallback.FallbackShrinks: limits below 1 are covered by `SeatFallback.SeatTypes`, since there is then no list.
- GreeterAuth.Greeter.HandleAuthenticate: the active user name kept for other components is not modelled.
- GreeterClient.Understood: what the client does with a message, its checks of sequence numbers included, is not modelled.
- PrintfLaws.DirectiveRendered: directives with a doubled zero flag are covered by the method contracts only.
- ltoa: the same code as itoa, since long and int have the same width.
- FAT12 file data and directory: only the table and its chains, because each cluster is handed out twice.
- Partition table, boot sector and FSINFO bytes other than the geometry fields: constants written at fixed places.
- The concrete string hash: the table is proved for every hash function.
- Destroy functions of hash tables, reference counts, the GList node pool: lists and values are mathematical.
- Failure of malloc inside split and join.
- Key files, D-Bus, GVariant, channels, spawning and ConsoleKit: stubs and thin wrappers.
- Interrupts, ports, CPUID, paging, scheduler and file system drivers: hardware effects.
- .COM and .EXE loading, screen output, debugger, installer and shell: user interface or simple copies.
