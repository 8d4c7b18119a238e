# Verification model of the Autarky kernel

This project models the parts of the kernel whose correctness is not visible from reading one function, and proves
what they promise. It follows the program's own layering:

* **The Autarky VM** (`autarky_vm/src`): the recursive-descent parser, type and proof erasure, the
  environment/closure evaluator with `let rec` and the POLL hook, the binary ABI decoder, the transaction id, and
  the entry point that runs them in order (`Ast`, `Grammar`, `Parser`, `CommentWall`, `RoundTrip`, `Vm`, `VmArithmetic`,
  `Scope`, `Erasure`, `Abi`, `TxId`, `Contract`).
* **The split-virtqueue receive rings** of the input and the network driver: driver and device as single memory
  accesses that interleave freely over wrapping 16-bit indices (`ReceiveRing`, `ReceiveDriver`, `QueueLayout`).
* **The FAT32 subset**: names, lookup, read, write, append with its chain walk and cycle guard, listing, mounting
  (`FatNames`, `FatDisk`, `FatFiles`, `FatAppend`, `FatChain`, `FatListing`, `FatMount`, `FatDriver`), and whole runs
  of writes, appends and reads against a plain map of files (`FatRun`).
* **The watcher ring and the ledger**: event ring, persistence cursor, receipts, and LEDGER.LOG end to end
  (`Watcher`, `WatcherDriver`, `Receipt`, `Ledger`), on a volume that other files share (`SharedVolume`) and for the
  contracts that commit to it (`ContractLedger`).
* **The IPC mailbox and the shell's request loop** (`Mailbox`, `Shell`).
* **The DMA heap and the page tables**: bump allocation, the tables entry by entry against the Arm VMSAv8-64
  translation walk (4 KB granule, 39-bit addresses), the framebuffer window (`DmaHeap`, `Mmu`, `MmuDriver`,
  `Framebuffer`).

`Machine`, `Modulo`, `Bits` and `Digits` hold machine integers, remainders, bitwise operations and numerals.

Pure code is modelled by functions. Code that changes things step by step is modelled by classes and methods with
loops over the same fields and buffers, each proved equal to a specification function; the theorems are about those
functions. A precondition of a method is what its callers in the repository guarantee.

Where a natural claim turned out to be false of the code, the code was kept and the claim replaced:

* *Evaluation depends only on the free variables* fails for the usual notion of free variable: `let rec` renames a
  closure that already carries a recursive name (`Scope.BoundRecNameIsNotEnough` gives two environments that agree
  on the free variables and two different outcomes). It is proved for programs whose
  `let rec` right-hand sides are lambdas, and for all programs with a notion that does not count the bound name.
* *Appending concatenates* fails in two ways. From 512 bytes on, the bytes go to the size modulo 512 of the one sector
  that is ever read, and `FatAppend.AppendPastSector` says exactly when a read still shows the concatenation. On a file
  that owns no cluster, as an empty file made on another system, they go to a sector below the data area:
  `FatAppend.AppendConcatenates` says that below 512 bytes the cluster number is the whole condition,
  `FatAppend.ClusterlessAppend` what is overwritten, `FatAppend.ClusterlessHitsFat` exactly when that is the FAT, and
  `FatAppend.ClusterlessWipesFat` that the file system can be lost by it.
* *Writing replaces* fails for a name that exists: a second entry is made, and `FatFiles.WriteExistingShadows` says
  exactly which one readers see.
* *Every commit is persisted by the next sync* fails once the ring is full and the cursor has met the head: from
  then on nothing is ever persisted again. `Watcher.SyncPersists`, `Watcher.SyncSticks`, `Watcher.LogSticks` and
  `Watcher.StuckForGood` say exactly when that state is entered and that it is never left.
* *The framebuffer window shows only the framebuffer* fails when the size is not a whole number of pages
  (`Framebuffer.WindowShowsNext` gives the exact condition for the next allocation of `gpu_init`).
* *The ABI text is canonical* holds for the bytes but not for the hexadecimal text (`Abi.SignSpellsZero`): among the
  accepted texts of a tree, its own encoding is the one of lower-case digits only (`Abi.CanonicalText`).
* *A receipt reads back* fails for the volume -2^31, whose numeral the conversion spoils, and for no other
  (`Receipt.ReceiptReads`).

## Model

| member | source | states |
|---|---|---|
| ParserObject.Parser.SkipWhitespace | autarky_vm/src/parser.rs:22-36 | leaves the position at the first character that is neither blank nor behind an `@` |
| ParserObject.Parser.IsEof | autarky_vm/src/parser.rs:13-16 | true exactly when only blanks or a comment remain |
| ParserObject.Parser.ReadWord | autarky_vm/src/parser.rs:38-62 | returns the next token and stops right behind it; a non-empty token moves the position |
| ParserObject.Parser.ParseType | autarky_vm/src/parser.rs:64-88 | the stateful type parser computes the grammar's type parse: on success the same type and final position, on failure the same error |
| ParserObject.Parser.Parse | autarky_vm/src/parser.rs:90-169 | the stateful parser terminates and computes the grammar's parse: on success the same tree and final position, strictly ahead, on failure the same error |
| Grammar.ParseExpr | autarky_vm/src/parser.rs:90-169 | the grammar is total, and a successful parse consumes at least one character |
| Grammar.ParseType | autarky_vm/src/parser.rs:64-88 | a successful type parse consumes at least one character |
| Grammar.ReadWord | autarky_vm/src/parser.rs:38-62 | the empty token is returned exactly at the end of the visible text; any other token consumes text |
| CommentWall.SilentSuffix | autarky_vm/src/parser.rs:22-62 | blanks, or blanks and a comment, after a program change neither tree nor error nor end-of-input verdict |
| CommentWall.TheWall | autarky_vm/src/parser.rs:28-31 | for every p and q, parsing `p@q` gives the tree or error, and the end-of-input verdict, of parsing p |
| RoundTrip.TypeComesBack | autarky_vm/src/parser.rs:64-88 | a printed type parses back and stops exactly where it ended |
| RoundTrip.ComesBack | autarky_vm/src/parser.rs:90-169 | a printed expression, followed by anything after a break, parses back to itself and stops exactly at what follows |
| RoundTrip.PrintThenParse | autarky_vm/src/parser.rs:90-169 | the space-separated rendering of every printable expression parses to that expression, alone or before any separated suffix |
| Ir.ErasureForgetsOnlyProofs | autarky_vm/src/ir.rs:30-60 | two expressions erase to the same term if and only if they differ only in parameter types and tail flags |
| Erasure.ErasurePreservesMeaning | autarky_vm/src/ir.rs:30-60 | for every fuel, environment and POLL stream, evaluating the erased term gives the erased outcome of a big-step meaning of the annotated syntax |
| Erasure.AnnotationsInvisible | autarky_vm/src/ir.rs:44-45 | expressions that differ only in annotations have the same outcome |
| Vm.MoreFuelSameOutcome | autarky_vm/src/vm.rs:28-153 | a run that finished finishes the same way, with the same polls, under any larger fuel |
| Machine.Wrap64 | autarky_vm/src/vm.rs:41-55 | release-mode arithmetic is exact modulo 2^64 and lands in the i64 range |
| Machine.QuotientInRange | autarky_vm/src/vm.rs:56-60 | a truncated i64 quotient stays in range for every pair except i64::MIN / -1 |
| VmArithmetic.DivisionTruncates | autarky_vm/src/vm.rs:56-60 | division leaves a remainder smaller than the divisor with the sign of the dividend |
| VmArithmetic.SubtractionUndoes | autarky_vm/src/vm.rs:41-49 | subtraction undoes addition, wrap-around included; sums in range are exact |
| VmArithmetic.RecursionSums | autarky_vm/src/vm.rs:97-108 | a closure that calls itself by its recursive name does so at every depth: for every n it sums 1 to n modulo 2^64 |
| VmArithmetic.RecursiveProgramSums | autarky_vm/src/vm.rs:133-142 | the `let rec` program around that closure answers the sum, from any environment |
| Scope.DependsOnlyOnFreeVars | autarky_vm/src/vm.rs:28-153 | environments that agree on the free variables give the same verdict, error and polls, and related values, for every fuel and stream |
| Scope.CallEnvsAgree | autarky_vm/src/vm.rs:97-108 | calling related closures on related arguments runs the body in environments that agree on its free variables |
| Scope.UnusedBindingInvisible | autarky_vm/src/vm.rs:28-153 | for any program and environment, binding a name that is not free changes no outcome; closure-free results are equal |
| Scope.RelatedGroundEqual | autarky_vm/src/vm.rs:12-21 | related values without closures are equal |
| Scope.ScopeSafety | autarky_vm/src/vm.rs:28-153 | a term in scope never faults with an unbound variable, for any fuel, and yields only well-scoped values |
| Scope.ContractNeverUnbound | autarky_vm/src/lib.rs:151-157 | a contract over SYS_COMPUTE, SYS_CREDITS and POLL never meets an unbound variable |
| Scope.BoundRecNameIsNotEnough | autarky_vm/src/vm.rs:133-142 | a term closed in the usual sense that answers 1 where `f` is bound to the identity and faults with an unbound `f` where it is not, because `let rec` overwrites a recursive name |
| Abi.DecodeEncoded | autarky_vm/src/abi.rs:28-61 | decoding an encoding followed by any bytes returns the tree and exactly those bytes |
| Abi.Canonical | autarky_vm/src/abi.rs:28-61 | every successful parse consumed exactly the encoding of its result |
| Abi.PrefixFree | autarky_vm/src/abi.rs:28-61 | no encoding is a proper prefix of another |
| Abi.IntBytes | autarky_vm/src/abi.rs:41-44 | big-endian two's complement of an i64 is eight bytes that read back as it |
| Abi.DeserializeExactly | autarky_vm/src/abi.rs:7-16 | deserializing text succeeds with e if and only if the text is hexadecimal for exactly one encoding, that of e |
| Abi.DeserializeInvertsHex | autarky_vm/src/abi.rs:7-26 | lower-case hex of an encoding deserializes to its tree; any trailing byte is rejected as such |
| Abi.HexRoundTrip | autarky_vm/src/abi.rs:18-26 | hex text decodes to the bytes it was made from |
| Abi.CanonicalText | autarky_vm/src/abi.rs:7-26 | a text that deserializes to a tree is that tree's own encoding if and only if it consists of decimal digits and the letters a to f |
| Abi.SignSpellsZero | autarky_vm/src/abi.rs:24 | a plus sign before a digit decodes like a zero, so the text has second spellings |
| TxId.GenerateTxId | autarky_vm/src/lib.rs:57-75 | the byte loop and the two salts compute the specified id |
| TxId.TimesIsBijection | autarky_vm/src/lib.rs:63 | multiplying by the FNV prime modulo 2^64 is undone by multiplying by its inverse, both ways |
| TxId.NonceBijection | autarky_vm/src/lib.rs:57-75 | for a fixed source and volume, nonces and ids correspond one to one |
| TxId.DistinctNonces | autarky_vm/src/lib.rs:70-72 | ids of equal source and volume are equal if and only if the nonces are |
| TxId.DistinctVolumes | autarky_vm/src/lib.rs:66-68 | ids of equal source and nonce are equal if and only if the volumes are |
| TxId.OneByteChanged | autarky_vm/src/lib.rs:60-64 | sources of equal length that differ in one byte get different ids |
| TxId.HashBytesInjective | autarky_vm/src/lib.rs:60-64 | different hash states stay different through any bytes that follow |
| Contract.Volume | autarky_vm/src/lib.rs:165-168 | the committed volume is the i32 congruent to an integer result modulo 2^32, and zero for any other result |
| Contract.WallCommitsTheSame | autarky_vm/src/lib.rs:96-183 | text after an `@` changes neither the answer nor the committed volume of a contract; only emptiness is noticed elsewhere |
| Contract.ExecuteMeans | autarky_vm/src/lib.rs:123-183 | an accepted contract answers what its syntax tree means in the seeded environment; anything else commits nothing |
| Contract.PrintedContractMeans | autarky_vm/src/lib.rs:123-183 | printing a tree, walling it off and executing it answers the meaning of the tree |
| Contract.AcceptedNeverUnbound | autarky_vm/src/lib.rs:151-157 | an accepted contract over the system names never faults with an unbound variable |
| Contract.RerunsAreDistinct | autarky_vm/src/lib.rs:164-178 | two commits of one text, whatever the network and the fuel contributed: at equal volumes the ids are equal if and only if the timer values are, at equal timer values if and only if the volumes are |
| Contract.VerdictIsFinal | autarky_vm/src/lib.rs:123-183 | more fuel never changes a verdict that was reached |
| ReceiveRing.StepKeeps | kernel/virtio.c:300-334 | every single memory access of driver or device keeps the protocol invariant |
| ReceiveRing.EveryInterleaving | kernel/virtio.c:264-334 | after any interleaving from set-up each descriptor occurs exactly once over the available, device-held, used and in-hand places and nothing else occurs, the next access spares everything unread, and the driver has received exactly the first completions in order |
| ReceiveRing.KernelQueues | kernel/virtio_net.c:149-213 | the input queue of 256 and the net queue of 8 keep the invariant over every run |
| ReceiveRing.Level | kernel/virtio_net.c:201-208 | published minus consumed is the queue size, give or take the one in the driver's hand |
| ReceiveRing.IndexTestIsExact | kernel/virtio.c:304 | the 16-bit comparison of indices says exactly whether an unread completion exists, across wrap-around |
| ReceiveRing.StepSparesUnread | kernel/virtio.c:322-326 | no access overwrites an unread slot of either ring or a buffer outside the device's hands |
| ReceiveRing.TakesInOrder | kernel/virtio.c:322-326 | the device takes ids in the order the driver published them |
| ReceiveRing.IdsInRange | kernel/virtio.c:306-307 | every id read from shared memory indexes the buffer array |
| ReceiveDriver.Queue.constructor | kernel/virtio.c:266-276 | set-up leaves every buffer offered to the device, the state all runs start from |
| ReceiveDriver.Queue.Poll | kernel/virtio_net.c:168-213 | a poll returns the oldest unread completion if there is one and performs exactly its list of single accesses, otherwise changes nothing |
| ReceiveDriver.Queue.Deliver | kernel/virtio.c:300-334 | an event that an idle device puts into the oldest buffer offered is what the next poll returns |
| ReceiveDriver.PollRecyclesOne | kernel/virtio.c:304-331 | a poll puts the descriptor it read at the end of what is published and keeps the invariant, in the order of either driver |
| ReceiveDriver.PollFromReachable | kernel/virtio.c:304-331 | in every reachable state the index test is exact and a poll leads to a reachable state |
| QueueLayout.RingsAgree | kernel/virtio.c:195-204 | the rings do not overlap; the used ring is where a legacy device expects it if and only if the available ring does not end on a page boundary |
| QueueLayout.LegalSizesAgree | kernel/virtio.c:195-218 | for every power-of-two queue size driver and device agree on the used ring |
| FatNames.FormatFatName | modules/fs/fat32.c:180-199 | the loops compute the padded, upper-cased 8.3 form of any name |
| FatNames.DisplayedNameFormats | modules/fs/fat32.c:160-199 | formatting the displayed form of a well-formed directory name gives back its 11 bytes |
| FatNames.DisplayedBytes | modules/fs/fat32.c:160-173 | a displayed name is at most 12 bytes and holds neither newline nor terminator |
| FatDriver.FileSystem.Init | modules/fs/fat32.c:27-59 | mounts if and only if the boot sector is signed and has a cluster size; a sound boot sector gives the layout in which clusters have distinct sectors; with zero sectors per cluster every field but the guard limit is set |
| FatDriver.FileSystem.Find | modules/fs/fat32.c:215-226 | read's search finds the first slot with the name before the end mark |
| FatDriver.FileSystem.FindAnywhere | modules/fs/fat32.c:318-324 | append's search finds the first slot with the name, end mark or not |
| FatDriver.FileSystem.TakeCluster | modules/fs/fat32.c:255-261 | first fit over the FAT sector, marking exactly the cluster it takes |
| FatDriver.FileSystem.ReadFileContent | modules/fs/fat32.c:201-243 | fills the caller's buffer with exactly the specified result in every error case and on success; a size past the sector buffer fills it with that sector, then with bytes that are not specified, and terminates it |
| FatDriver.FileSystem.AllocateFirst | modules/fs/fat32.c:249-276 | takes the first free cluster, writes the FAT back and fills the first sector, or leaves the disk alone |
| FatDriver.FileSystem.WriteFileContent | modules/fs/fat32.c:245-305 | through two shared sector buffers, does to the disk exactly what the specification says |
| FatDriver.FileSystem.AppendFileContent | modules/fs/fat32.c:308-385 | the same for append, with its fallback, chain walk, guard and second directory read |
| FatDriver.FileSystem.FollowChain | modules/fs/fat32.c:342-355 | the traversal loop terminates and computes the specified walk |
| FatDriver.FileSystem.GrowFile | modules/fs/fat32.c:357-384 | fills the last sector up and enlarges the entry by what went in |
| FatDriver.FileSystem.PutLine | modules/fs/fat32.c:160-175 | the two character loops append the displayed name and a newline, cut at the end of the buffer |
| FatDriver.FileSystem.GetDirList | modules/fs/fat32.c:144-178 | the listing loop writes exactly the specified text, terminated, within the buffer |
| FatMount.MountGivesLayout | modules/fs/fat32.c:21-52 | a sound boot sector gives a layout in which clusters map to distinct sectors above the FAT |
| FatMount.GuardCoversClusters | modules/fs/fat32.c:49-52 | the guard's limit is at least the number of clusters in the data area |
| FatFiles.FormattedIsSound | modules/fs/fat32.c:245-305 | a freshly formatted volume is sound, holds no file and has room for one |
| FatFiles.SectorsDiffer | modules/fs/fat32.c:21-25 | different clusters map to different sectors in a sound layout, 32-bit wrap-around included |
| FatFiles.WriteKeepsInv | modules/fs/fat32.c:245-305 | every write, successful or not, keeps live entries on distinct allocated clusters apart from FAT and directory |
| FatFiles.WriteThenRead | modules/fs/fat32.c:201-305 | a new file of at most 512 bytes reads back as written, cut to the buffer |
| FatFiles.WriteSparesOthers | modules/fs/fat32.c:245-305 | a write changes no read of any other name |
| FatFiles.FullVolume | modules/fs/fat32.c:263-289 | a full FAT leaves the disk unchanged; a full directory leaves every read unchanged |
| FatFiles.WriteExistingShadows | modules/fs/fat32.c:282-302 | writing an existing name makes a second entry; readers find the new one if and only if no older one stands before it |
| FatFiles.WriteHolds | modules/fs/fat32.c:245-305 | after a write the file is one terminated cluster with exactly the data |
| FatFiles.HeldReads | modules/fs/fat32.c:201-243 | a file that holds some bytes reads as those bytes, cut to the buffer |
| FatAppend.AppendEffect | modules/fs/fat32.c:308-385 | an append to a present name fills up the last sector of its chain and enlarges the entry, and changes nothing else; a bad chain or an unreadable sector leaves the disk alone |
| FatAppend.AppendKeepsInv | modules/fs/fat32.c:308-385 | appending, creation included, keeps the file system sound and every name in place, unless the bytes go to the FAT or the directory |
| FatAppend.AppendSparesOthers | modules/fs/fat32.c:308-385 | appending changes no read of another name, unless the bytes go to the directory or to the very sector that name reads |
| FatAppend.AppendReads | modules/fs/fat32.c:362-383 | after an append to a one-cluster file of any size, a read shows its sector with the new bytes at the old size modulo 512, as far as the new size goes |
| FatAppend.AppendHolds | modules/fs/fat32.c:308-385 | appending to a file below 512 bytes leaves the first 512 bytes of the concatenation |
| FatAppend.AppendPastSector | modules/fs/fat32.c:362-383 | from 512 bytes on, below the wrap of the size, an append overwrites at the size modulo 512; a read shows the start of the concatenation if and only if the new bytes repeat the old ones |
| FatAppend.ClusterZero | modules/fs/fat32.c:21-25 | cluster 0 stands for the sector two clusters below the data area, modulo 2^32, and for the directory exactly if root cluster times cluster size is 2^32 |
| FatAppend.ClusterlessAppend | modules/fs/fat32.c:335-384 | an append to an entry of cluster 0 writes that sector if it exists and enlarges the entry; the file is not found before or after |
| FatAppend.ClusterlessHitsFat | modules/fs/fat32.c:357-372 | after such an append the FAT is overwritten at the size modulo 512 if the sector two clusters below the data area is the FAT, and is unchanged otherwise |
| FatAppend.ClusterlessWipesFat | modules/fs/fat32.c:357-372 | on a volume with two clusters between FAT and data, appending 512 zero bytes to an empty file without a cluster ends the soundness of the file system |
| FatAppend.AppendConcatenates | modules/fs/fat32.c:308-385 | for a present, unlinked file below 512 bytes, a read after an append shows the first 512 bytes of the concatenation if and only if the file owns a cluster |
| FatAppend.ClusterlessDirectory | modules/fs/fat32.c:357-384 | where cluster 0 stands for the directory, 28 bytes appended to an empty file without a cluster give its entry a cluster, and the next read shows the concatenation after all |
| FatAppend.AppendAllHolds | modules/fs/fat32.c:308-385 | any sequence of appends that fits one sector reads back as the concatenation, other files untouched |
| FatAppend.AppendAllCreates | modules/fs/fat32.c:326-330 | the same from nothing, the first append creating the file |
| FatRun.StepRepresents | modules/fs/fat32.c:245-385 | on a disk that represents a map from names to files, every write and append, new or existing name, full directory or not, is that operation on the map |
| FatRun.EveryRead | modules/fs/fat32.c:201-385 | from a formatted volume, after every run of writes and appends of any lengths under any names, every read answers what the map answers |
| FatRun.ExtendedText | modules/fs/fat32.c:362-383 | in the map, appending to less than 512 bytes leaves the first 512 bytes of the concatenation |
| FatFiles.LookupIs | modules/fs/fat32.c:215-226 | the search result is the first matching slot before the end mark |
| FatChain.GuardIsExact | modules/fs/fat32.c:342-355 | with links in range and enough tolerated links, the walk aborts if and only if the chain is circular, and otherwise reaches its last cluster |
| FatChain.AppendAbortsOnCycles | modules/fs/fat32.c:335-355 | append aborts if and only if the file's chain is circular, and then the disk is untouched |
| FatChain.RevisitingNeverEnds | modules/fs/fat32.c:345-348 | a chain that revisits a cluster repeats for ever |
| FatChain.Pigeonhole | modules/fs/fat32.c:351-354 | among more visited clusters than usable ones two coincide |
| FatListing.ListingSelects | modules/fs/fat32.c:144-199 | whenever all lines fit the buffer, each line of the listing, given back as a file name, selects the very entry it shows |
| FatListing.BigBufferUncut | modules/fs/fat32.c:144-178 | sixteen well-formed names fit any buffer of more than 208 bytes, which is what listings are read into |
| FatListing.LineComesOff | modules/fs/fat32.c:160-175 | cutting a listing at its newlines gives back the displayed names |
| Watcher.EveryRun | kernel/watcher.c:36-70 | after any run the ring holds the last 64 events, and what is persisted is the commits of a prefix of the log, each once, in order |
| Watcher.HoldsMostRecent | kernel/watcher.c:54-69 | the ring's contents are exactly the most recent events, oldest first |
| Watcher.SyncPersists | kernel/watcher.c:152-180 | a sync persists exactly the commits not yet persisted, or nothing if the ring is full and the cursor at the head |
| Watcher.EarlySyncPersistsAll | kernel/watcher.c:152-180 | with fewer than 64 events logged a sync persists everything |
| Watcher.VisibleGapIsSynced | kernel/watcher.c:155-180 | a cursor apart from the head shows 1 to 63 unsynced events, and exactly their commits are persisted |
| Watcher.SyncSticks | kernel/watcher.c:180 | a sync gets stuck if and only if 64 events have been logged |
| Watcher.LogSticks | kernel/watcher.c:58-69 | a log gets stuck if and only if it is the 64th unsynced event |
| Watcher.StuckForGood | kernel/watcher.c:36-180 | once stuck, no later run persists anything more |
| Watcher.LastEffectiveSync | kernel/watcher.c:36-180 | after the 64th event at most one more sync persists anything |
| WatcherDriver.WatcherState.constructor | kernel/watcher.c:21-34 | an empty ring of unstamped events |
| WatcherDriver.WatcherState.LogEvent | kernel/watcher.c:36-70 | records the event with the first 63 bytes of its context and moves head, tail, count and cursor as specified |
| WatcherDriver.WatcherState.CommitLedger | kernel/watcher.c:122-149 | logs a commit whose context is the whole receipt, uncut, for every i32 volume |
| WatcherDriver.WatcherState.SyncToDisk | kernel/watcher.c:152-185 | appends exactly the specified commits to LEDGER.LOG in order and moves the cursor to the head |
| Receipt.ReceiptReads | kernel/watcher.c:122-142 | a receipt reads back to exactly its hash and volume, and does not read at all if and only if the volume is -2^31 |
| Receipt.ReceiptFits | kernel/watcher.c:44-52 | a receipt is at most 41 printable characters, so the 63-byte copy never cuts it |
| Receipt.U64ToHex | kernel/watcher.c:95-102 | sixteen upper-case digits, most significant first, terminated |
| Receipt.I32ToDecimal | kernel/watcher.c:104-119 | the signed decimal numeral, terminated, for every i32 above -2^31, and for that one what its wrapped negation gives |
| Receipt.FormatReceipt | kernel/watcher.c:122-142 | assembles the receipt of hash and volume, terminated, in 64 bytes |
| Ledger.RunInStep | kernel/watcher.c:152-180 | over any run the ledger file holds exactly the text of what has been persisted |
| Ledger.FormattedStarts | kernel/watcher.c:152-180 | a freshly formatted volume is a start for the ledger theorems |
| Ledger.LedgerReadsBack | kernel/watcher.c:122-180 | from start-up without a ledger file, after any run of fewer than 64 events ended by a sync, LEDGER.LOG decodes to the transactions in order, each to its hash and volume or, at -2^31, to nothing |
| Ledger.WrittenDecodes | kernel/watcher.c:171-172 | the persisted text, cut at newlines, decodes receipt by receipt |
| SharedVolume.StepInStep | kernel/watcher.c:152-180 | a write or append of another file, a log or a sync keeps the disk in step with the map of files and the log file in step with what was persisted |
| SharedVolume.SharedLog | kernel/watcher.c:36-180 | after any interleaving of writes and appends of other files with logging and syncing, the log decodes to the committed transactions, or does not exist, and then sixteen file operations had filled the directory; every read of any file is that of the map |
| ContractLedger.ItemsRecord | autarky_vm/src/lib.rs:164-178 | the commits among the events of any run of executions record exactly the ids and volumes of the contracts that came to a result, in order |
| ContractLedger.ContractsReachTheLedger | kernel/syscall.c:155-203 | executing contracts and syncing in any order, a last sync at the end, LEDGER.LOG decodes to exactly those ids and volumes, or does not exist if there are none |
| Mailbox.Ring.KernelSend | kernel/syscall.c:16-22 | queues the message at the end, or drops it if 255 are waiting |
| Mailbox.Ring.IpcReceive | kernel/syscall.c:224-233 | takes the oldest message, or answers that there is none |
| Mailbox.Ring.DrainHardware | kernel/syscall.c:41-68 | queues keyboard and then host bytes as key presses, carriage returns turned into line feeds |
| Mailbox.Ring.IpcSend | kernel/syscall.c:80-223 | answers a request to the kernel into the mailbox, queues anything else |
| Shell.CommandSplits | modules/shell_gui/main.c:307-315 | a line is taken apart at its first dot and at the first space behind it |
| Shell.RoundDelivers | modules/shell_gui/main.c:292-460 | a round of the loop leaves only key presses in the mailbox, and the answer to its request was accepted, last, within 255 receives |
| Shell.EveryAnswerDelivered | modules/shell_gui/main.c:292-460 | over every run and every finite input no answer is dropped and every wait ends within 255 receives |
| Shell.FullMailboxLosesAnswer | kernel/syscall.c:16-22 | an answer is accepted if and only if the mailbox is not full |
| Shell.Terminal.WaitFor | modules/shell_gui/main.c:326-334 | the wait loop terminates, having received exactly up to the answer |
| Shell.Terminal.Turn | modules/shell_gui/main.c:293-460 | one turn of the loop performs exactly the specified round |
| Shell.Terminal.Serve | modules/shell_gui/main.c:292-460 | any number of turns performs exactly the specified run and keeps the mailbox sound |
| DmaHeap.AlignUpIsLeast | kernel/virtio.c:58-61 | add-and-mask gives the first aligned address at or above the cursor |
| DmaHeap.Heap.Allocate | kernel/virtio.c:57-67 | returns the aligned block, moves the cursor behind it, and clears exactly its bytes |
| DmaHeap.RunsAreDisjoint | kernel/virtio.c:57-67 | any run of allocations returns aligned, pairwise disjoint blocks at rising addresses |
| MmuDriver.PageTables.InitTables | kernel/mmu.c:30-81 | the steps leave every entry of the six tables as specified |
| MmuDriver.PageTables.FillKernel | kernel/mmu.c:46-64 | kernel RAM privileged, then exactly the blocks that meet the EL0 region opened |
| MmuDriver.PageTables.MapFramebuffer | kernel/mmu.c:107-126 | nothing for a null address; otherwise exactly the first 1024 pages of the framebuffer |
| Mmu.DescriptorDecodes | kernel/mmu.c:8-16 | address and attribute bits do not disturb each other in a descriptor |
| Mmu.InitialMeaning | kernel/mmu.c:30-81 | after initialisation every 39-bit address faults or translates to itself, and is open to user code exactly in RAM blocks that meet the EL0 region |
| Mmu.FramebufferMeaning | kernel/mmu.c:107-126 | after mapping, 0x20000000+k translates to phys+k on the mapped pages, open to user code, and every other translation is unchanged |
| Framebuffer.WindowShows | kernel/mmu.c:107-126 | the window reaches a physical byte if and only if it lies in the mapped pages |
| Framebuffer.WindowIsPrivate | kernel/virtio.c:145-156 | a framebuffer of whole pages shares no byte of its window with any other allocation of the run |
| Framebuffer.WindowShowsNext | kernel/virtio.c:145-148 | user code sees a byte of the allocation made right after the framebuffer if and only if the size, rounded up to 8, stops short of the mapped pages |
| Bits.OrPage | kernel/mmu.c:48-51 | or-ing flags into a page-aligned address adds them |
| Bits.AndNotRoundsDown | kernel/virtio.c:60 | masking with the complement of 2^k - 1 rounds down to a multiple of 2^k |

## Left out

- Scope.DependsOnlyOnFreeVars: with the usual free variables it needs the lambda restriction; the exact condition would speak of what a right-hand side evaluates to, so only the sufficient syntactic one is given, and a second notion that needs no restriction.
- Scope.ScopeSafety: the same restriction applies.
- Watcher.EveryRun: an event logged at timer value zero is never persisted by the code; the theorems speak of the events with a non-zero timestamp.
- Receipt.I32ToDecimal: negating -2^31 is undefined in C; it is modelled as the wrap-around that compiled code performs.
- Abi.DeserializeExactly: hexadecimal text is a sequence of characters; a byte offset inside a non-ASCII character, where the slice would panic, is not told apart from a malformed digit.
- Erasure.ErasurePreservesMeaning: the nine binary operators share one constructor; i64::MIN / -1, where the release build panics, is a separate outcome.
- Grammar.ParseExpr: a position is the text from there on rather than a byte offset; a float literal is identified with its text, and float values are not computed.
- FatDriver.FileSystem.ReadFileContent: the buffer has at least 17 bytes, because the code writes the terminator of its message at index 16 whatever the size it is given; what it copies from the memory behind the sector buffer is arbitrary bytes.
- FatDriver.FileSystem.AppendFileContent: a link past the 128 entries of the FAT sector ends the walk with a report; the memory read behind the buffer is not modelled.
- FatDriver.FileSystem.FollowChain: the same report ends the loop.
- FatChain.GuardIsExact: speaks of links inside the 128 entries, for the same reason.
- FatAppend.AppendHolds: speaks of files of one cluster, since read only looks at the first sector of the first cluster; where the bytes go on longer chains is in FatAppend.AppendEffect and FatChain.GuardIsExact.
- FatAppend.AppendPastSector: the wrap of the 32-bit size is in FatAppend.AppendReads, not here.
- FatAppend.AppendConcatenates: excludes the geometry in which cluster 0 stands for the directory (FatAppend.ClusterZero), where the equivalence is false: FatAppend.ClusterlessDirectory has the bytes.
- FatAppend.ClusterlessAppend: the same geometry is excluded.
- FatAppend.ClusterlessHitsFat: the same geometry is excluded.
- FatRun.EveryRead: starts from a formatted volume, so chains longer than one cluster and files without a cluster, which the code itself never makes, do not occur.
- Ledger.LedgerReadsBack: speaks of runs that the ring and one sector can hold; beyond them Watcher.StuckForGood and FatAppend.AppendPastSector say what is lost.
- SharedVolume.SharedLog: the same runs.
- ContractLedger.ContractsReachTheLedger: the same runs; only executions and syncs are run, and a commit at timer value zero is excluded.
- FatMount.MountGivesLayout: a cluster limit of 2^32 - 1 is excluded, since the guard counter could then wrap.
- DmaHeap.RunsAreDisjoint: exhaustion of the 64-bit address space and of the mapped 4 MB is the caller's concern, as in the source.
- Mmu.InitialMeaning: system registers, memory attributes beyond device/normal as constants, caches and barriers are not modelled; flags are or-ed as one constant.
- Sector reads and writes succeed on every sector of the modelled disk; a missing sector is an I/O error. As in the source a failed write goes unnoticed.
- The device appears only as steps that return ids it was given, in any order; VirtIO probing, feature bits, GPU commands and the block-device request loop are not modelled.
- Cache maintenance, MMIO, interrupts, boot and exception vectors are hardware effects; memory is coherent.
- `fs_list_root`, `fs_read_test_file` and `watcher_dump_history` only print.
- Payload copying of requests, handler texts, screen output and the keymap are not modelled; a handler's text is arbitrary.
- Keyboard and host input are finite between two drains.
- The scan of network packets for a volume is replaced by an arbitrary stream of integers for POLL.
- In `autarky_execute`, the length-limited copy out of C memory, the UTF-8 check, result formatting, and the constant gas value are left out; the timer value is a parameter.
- Fuel bounds the depth of evaluation; exhaustion of the real stack or heap is not modelled.
