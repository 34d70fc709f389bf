# Models of mu_msvm's stateful components

mu_msvm is the UEFI firmware of Hyper-V guests. This Dafny project models the
parts of it that keep state across steps and proves what they promise for all
inputs and all runs. `dafny verify dfyconfig.toml` checks everything.

- **Page tables** (`PageTables`, `PageTableEdit`, `PageTableSteps`,
  `PageTableRun`, `PageTableRefill`, `PageTableRounds`, `PageTablePool`,
  `PageTableEditor`, `PageTableQuery`, `PageTableSession`, `PageTableExamples`,
  `MpPageTables`). Memory is a map from page frames to 512-entry tables. A ghost
  layout gives every table one place, which makes the tables a tree without
  sharing; a walk gives every page its translation and the flags of its leaf. A
  run of the edit loop is a sequence of rounds, and a round that splits may
  renew the pool of table pages, which marks a new buffer read-only in the same
  tables. The edit theorem is about every page of the address space, on every
  exit of the loop.
- **VMBus ring** (`RingArithmetic`, `RingProtocol`, `RingSafety`,
  `RingProgress`, `RingEndpoint`). Producer and consumer are a state machine with
  one shared read or write per step; the theorems hold over every interleaving.
  `RingEndpoint` is the in-place form of one endpoint whose opposite may store
  anything at any time.
- **Hypervisor ledgers** (`PinRanges`, `PinLedger`, `HostVisibility`). The
  hypervisor is an adversary that may fail any call after any prefix and report
  any always-pinned subranges; what it keeps pinned itself is a ghost set, and a
  ghost count of failed calls tells when a method has to succeed. `FAIL_FAST`
  does not return: a method that reaches it answers Halted and promises nothing.
  Pin counts and visible pages are functions of the page number.
- **MTRR painter** (`MtrrPainter`). The painted memory space map is a function
  of the address; the paints of a refresh are a log, whose last covering entry
  counts.
- **HSM encoding** (`Mbor`, `MborCodec`, `ResponseHeader`). Encodings and
  decoders are functions on bytes; the encoder and decoder objects that work at
  a position of a buffer are proved against them.
- **HKDF** (`Hkdf`). HMAC is any function with 32-byte results, and any call of
  it may fail.

## Findings

Where the code does not do what one would expect, or what its comments say, the
model follows the code and states when the expectation holds.

- The ring distance formulas are exact if and only if the ring holds at most
  2^31 bytes (`WrapAroundExact`).
- An entry that becomes zero leaves the map. Converting a 4 KiB entry and
  splitting a 2 MiB one can do that, exactly under the conditions of
  `ConvertKeepsMapExactly` and `SplitKeepsMapExactly` (`ConvertLoses`,
  `SplitLoses`).
- A split sets the encryption bit in every new entry even if the leaf had it
  clear (`EncryptionKeptExactly`).
- `SplitPage` reads its entry again after the allocator, which may renew the
  pool and edit the same tables. If the new buffer lies in the 1 GiB leaf being
  split, the entry has become a link by then, and the whole 1 GiB block ends up
  mapped to itself, writable and executable, the read-only buffer included
  (`ResumedSplitExactly`, `SpoiltBlock`).
- `EfiGetMemoryAttributes` clears only the SEV mask from an entry's address. A
  TDX shared bit stays in it and makes the loop step over the pages behind the
  leaf (`LooksEverywhereExactly`, `SharedHidesReadOnly`).
- `EfiUpdatePageRangeAcceptance` revokes nothing on TDX, and asks an SVSM to
  validate pages even when acceptance is to be revoked. Whether a page can be
  accepted and visible then depends on the hypervisor (`Show`, `BothAtOnce`).
- Always-pinned subranges that the hypervisor reports out of order can be pinned
  (`UnsortedGapsExactly`), and so can a single page that a full answer leaves out
  (`PiecesExactly`).
- The page-table allocator fails with a fresh buffer of 511 free pages in hand if
  there was nothing to mark read-only in it, because it takes "nothing changed"
  for an error, which debug builds assert against (`AllocatePageTableMemory`,
  `WhyOutOfResources`).
- A failed pin takes off every record with the request's base and count, older
  ones included; it restores the ledger if and only if there were none
  (`WithoutRestores`).
- Hiding one protection object hides pages that overlapping ones still track
  (`DropExactly`).
- `AziHsmMborDecodeBoolean` documents an error for a wrong marker but takes any
  marker as false (`BooleanMarkers`).
- `DecodeApiRevision` accepts one field twice, and then the other keeps its
  former value (`RevisionCompleteExactly`, `RepeatedMajorAccepted`).

## Model

| member | source | states |
|---|---|---|
| `PageTables.Step` | MsvmPkg/CpuDxe/CpuPageTable.c:291-359 | in a tree of tables a walk that follows a link stays in the tree, one level down, in the table that covers its page |
| `PageTables.LookupCovers` | MsvmPkg/CpuDxe/CpuPageTable.c:269-359 | the leaf that a walk of 4 or 5 levels finds covers the page walked for, at its own 4 KiB, 2 MiB or 1 GiB level, and is no link |
| `PageTables.SameLeaf` | MsvmPkg/CpuDxe/CpuPageTable.c:269-359 | all pages of a leaf's block end at that leaf |
| `PageTables.LeafPageMasks` | MsvmPkg/CpuDxe/CpuPageTable.c:60-62 | the page a leaf maps is its address field with the low bits of its size masked off, plus the page's offset |
| `PageTableEdit.EditMeans` | MsvmPkg/CpuDxe/CpuPageTable.c:400-490 | editing a mapping flag by flag is the set operation of Assign, Set or Clear on its RP, RO and XP attributes, and XP stays as it is without execute-disable support |
| `PageTableEdit.ConvertEntryMeans` | MsvmPkg/CpuDxe/CpuPageTable.c:400-490 | the three switch statements on P, RW and NX compute that edit of the leaf and change nothing else of the mapping |
| `PageTableEdit.ConvertDropsExactly` | MsvmPkg/CpuDxe/CpuPageTable.c:339-356 | an edited leaf becomes an entry the walk takes for empty exactly when it is a 4 KiB entry of a page other than the first that maps physical page 0, has no bit beside P, RW and NX, and the request leaves all three clear |
| `PageTableEdit.ChildDrops` | MsvmPkg/CpuDxe/CpuPageTable.c:566-603 | an entry of the new table is empty for its page exactly when the leaf is a 2 MiB leaf that maps physical page 0 with no bit the split hands on, the page is the leaf's first and not page 0, and the platform has no encryption bit |
| `PageTableEdit.WriteKeepsTree` | MsvmPkg/CpuDxe/CpuPageTable.c:480-488 | rewriting a leaf keeps the tables a tree without sharing |
| `PageTableEdit.WriteOutside` | MsvmPkg/CpuDxe/CpuPageTable.c:480-488 | and keeps the walk and the translation of every page outside the leaf's block |
| `PageTableEdit.WriteInside` | MsvmPkg/CpuDxe/CpuPageTable.c:480-488 | and gives every page inside it the new leaf's flags under the same upper levels, or no mapping if the new entry is empty |
| `PageTableEdit.ChildMapping` | MsvmPkg/CpuDxe/CpuPageTable.c:566-603 | entry i of the new table maps its pages to the same physical pages and with the same P, RW, NX, user, accessed and dirty bits as the leaf that is split |
| `PageTableEdit.SplitKeepsTree` | MsvmPkg/CpuDxe/CpuPageTable.c:537-606 | splitting into a page outside the tree keeps a tree without sharing |
| `PageTableEdit.SplitOutside` | MsvmPkg/CpuDxe/CpuPageTable.c:537-606 | splitting keeps every page outside the leaf's block |
| `PageTableEdit.SplitInside` | MsvmPkg/CpuDxe/CpuPageTable.c:537-606 | and inside it keeps every translation up to the encryption bit and moves the leaf one level down, but for the page whose new entry is empty |
| `PageTableSteps.ConvertLeaf` | MsvmPkg/CpuDxe/CpuPageTable.c:809-855 | one conversion edits exactly the pages of one leaf, for every page of the address space, and drops exactly the page whose entry becomes zero |
| `PageTableSteps.SplitLeaf` | MsvmPkg/CpuDxe/CpuPageTable.c:809-855 | one split keeps the translation of every page of the address space, lowers the leaf of the block, and drops exactly the page whose new entry is zero |
| `PageTableSteps.ConvertKeepsMapExactly` | MsvmPkg/CpuDxe/CpuPageTable.c:339-356 | a conversion loses no mapped page if and only if the leaf is not a bare 4 KiB entry of physical page 0, away from page 0, that the request clears |
| `PageTableSteps.SplitKeepsMapExactly` | MsvmPkg/CpuDxe/CpuPageTable.c:566-603 | a split loses no mapped page if and only if the leaf is not such a 2 MiB leaf, away from page 0, on a platform without an encryption bit |
| `PageTableSteps.EncryptionKeptExactly` | MsvmPkg/CpuDxe/CpuPageTable.c:580-603 | a split keeps a page's encryption bit exactly when the platform has none or the leaf had it set |
| `PageTableSteps.BlockRange` | MsvmPkg/CpuDxe/CpuPageTable.c:502-523 | a page aligned to a leaf size starts a block of exactly that many pages |
| `PageTableSteps.NeedSplitPage` | MsvmPkg/CpuDxe/CpuPageTable.c:502-523 | no split exactly when the page is a multiple of the leaf size and the range reaches the leaf's end; a split is always to a smaller size, to 2 MiB only where a 2 MiB page fits, and a 1 GiB leaf goes to 4 KiB only where none does |
| `PageTableRun.ReachedConvert` | MsvmPkg/CpuDxe/CpuPageTable.c:809-855 | a converting round moves the cut past the leaf: edited before the cut, kept after it, and a page is lost only if its mapping has no bit left |
| `PageTableRun.ReachedSplit` | MsvmPkg/CpuDxe/CpuPageTable.c:809-855 | a splitting round keeps the same with the cut in place |
| `PageTableRun.ReachedMark` | MsvmPkg/CpuDxe/CpuPageTable.c:1168-1181 | marking a new buffer in between makes its pages read-only and keeps the rest of what the run has done |
| `PageTableRun.ReachedSpoil` | MsvmPkg/CpuDxe/CpuPageTable.c:587-598 | and a split that takes a link for a leaf changes exactly one 1 GiB block, whose pages were not edited yet |
| `PageTableRefill.LeafSurvives` | MsvmPkg/CpuDxe/CpuPageTable.c:587-598 | after a renewal the entry that SplitPage reads again is still the leaf it was called for, if it is a 2 MiB leaf or a 1 GiB leaf that does not cover the buffer |
| `PageTableRefill.ResumedSplitExactly` | MsvmPkg/CpuDxe/CpuPageTable.c:571-603 | the split that resumes after a renewal keeps every translation of the marked tables if and only if its leaf is a 2 MiB leaf or lies in another 1 GiB block than the new buffer |
| `PageTableRefill.SpoiltBlock` | MsvmPkg/CpuDxe/CpuPageTable.c:587-603 | otherwise every page of that 1 GiB block ends up mapped to itself, present, writable and executable, and every other page is kept |
| `PageTableRounds.ReachedRound` | MsvmPkg/CpuDxe/CpuPageTable.c:809-855 | every round of the loop, with or without a renewal, keeps the account of every page |
| `PageTableRounds.RoundShrinks` | MsvmPkg/CpuDxe/CpuPageTable.c:809-855 | a round that splits makes the leaf at its page smaller, resumed or not |
| `PageTableRounds.SpoiltAtEnd` | MsvmPkg/CpuDxe/CpuPageTable.c:809-855 | a 1 GiB leaf that the loop splits holds the first or the last page of the range |
| `PageTableRounds.ExecutionRuns` | MsvmPkg/CpuDxe/CpuPageTable.c:805-862 | every execution of the loop, at each of its points: the range before the cut is edited, new buffers are read-only up to a page that is not mapped or lost, at most the two 1 GiB blocks at the ends of the range are spoilt, and only if they hold a new buffer; every other page keeps its translation |
| `PageTableRounds.ExecutionInBlock` | MsvmPkg/CpuDxe/CpuPageTable.c:1168-1181 | an execution over one aligned 2 MiB block without a renewal splits at most one leaf, the 1 GiB leaf over it |
| `PageTableRounds.NothingMarked` | MsvmPkg/CpuDxe/CpuPageTable.c:1168-1181 | a marking that leaves the tables as they are found no 1 GiB leaf over the buffer and no writable page before the first one that is not mapped |
| `PageTableRounds.MarkingRunChanges` | MsvmPkg/CpuDxe/CpuPageTable.c:1168-1181 | and one in which any round changed the tables found such a leaf or page, so its changes never cancel out |
| `PageTablePool.Pool.Take` | MsvmPkg/CpuDxe/CpuPageTable.c:1203-1232 | a page handed out was never handed out before; offset and free pages sum to the pool size |
| `PageTablePool.Pool.Add` | MsvmPkg/CpuDxe/CpuPageTable.c:1128-1165 | a new buffer's header page is not part of what can be handed out |
| `PageTableEditor.Editor.FillTable` | MsvmPkg/CpuDxe/CpuPageTable.c:580-600 | the loop over 512 entries builds exactly the specified table |
| `PageTableEditor.Editor.SplitPage` | MsvmPkg/CpuDxe/CpuPageTable.c:537-606 | splits exactly if the pool has a page, or is unlocked and gets a buffer that has something to mark; the allocation may renew the pool and mark the new buffer, and the entry read again is split as it is found; without a page it leaves the tables alone |
| `PageTableEditor.Editor.AllocatePageTableMemory` | MsvmPkg/CpuDxe/CpuPageTable.c:1203-1232 | gives a page if and only if one was free, or the pool was unlocked, a buffer came and there was something to mark in it; an empty unlocked pool always takes and adds the next buffer, and the page comes exactly if marking it changed the tables; a page is new, lies in one buffer, is no header and no table in use |
| `PageTableEditor.Editor.InitializePageTablePool` | MsvmPkg/CpuDxe/CpuPageTable.c:1111-1184 | reports a change if and only if the pool was unlocked, a buffer came and had something to mark, which is exactly when the tables changed; marking uses at most one of its pages, never renews the pool again, and splits no leaf but a 1 GiB leaf over the buffer; while locked nothing happens |
| `PageTableEditor.Editor.ConvertPageEntryAttribute` | MsvmPkg/CpuDxe/CpuPageTable.c:400-490 | writes exactly the converted entry and reports whether it differs |
| `PageTableEditor.Editor.ConvertRound` | MsvmPkg/CpuDxe/CpuPageTable.c:809-855 | each round either converts one leaf and moves on by its size, or splits and lowers the leaf level; IsSplitted is set exactly by a split and IsModified exactly if the tables changed; it runs out of pages only at a leaf that has to be split; length never underflows |
| `PageTableEditor.Editor.ConvertPages` | MsvmPkg/CpuDxe/CpuPageTable.c:805-862 | the loop with its renewals is an execution that ends at the end of the range on success, at an unmapped page on EFI_UNSUPPORTED, and in a round that got no page otherwise; buffers are taken from AllocateAlignedPages in order; IsSplitted and IsModified tell whether some round split or changed the tables; terminates on (length, leaf level) |
| `PageTableEditor.WhyOutOfResources` | MsvmPkg/CpuDxe/CpuPageTable.c:1111-1224 | a pass that runs out of pages stands at a leaf that has to be split, with a pool that is empty and locked, or got no buffer, or got one in which there was nothing to mark |
| `PageTableEditor.OnePass` | MsvmPkg/CpuDxe/CpuPageTable.c:805-862 | a range within the address space takes one pass over exactly its pages |
| `PageTableEditor.SplitsAlike` | MsvmPkg/CpuDxe/CpuPageTable.c:502-523 | up to the top of the address space the loop splits as if the range ended there |
| `PageTableEditor.Editor.ConvertMemoryPageAttributes` | MsvmPkg/CpuDxe/CpuPageTable.c:705-866 | the same in bytes for any range, with every early rejection and its status; a range past the top of the address space is edited in passes laid out from its first page to the top and from page 0 on, each from where the last one ended; every failure has its reason at the last pass, or is the zero entry of page 0 met at another address |
| `PageTableSession.Serve` | MsvmPkg/CpuDxe/CpuPageTable.c:705-1232 | over any run of allocations, edits and renewals the pages returned are pairwise different, none was handed out before and none ever becomes a table |
| `PageTableQuery.LeafRun` | MsvmPkg/CpuDxe/CpuPageTable.c:1691-1712 | in an identity map the pages up to the end of a leaf have its attributes, and its masked address gives that end |
| `PageTableQuery.LooksEverywhereExactly` | MsvmPkg/CpuDxe/CpuPageTable.c:1691-1712 | the loop looks at every page of a mapped region if and only if no leaf whose shared bit is outside the encryption mask ends inside the region |
| `PageTableQuery.IdentityLeaves` | MsvmPkg/CpuDxe/CpuPageTable.c:1691-1712 | a mapped region of an identity map is made of leaves, for which this holds |
| `PageTableQuery.RegionExactly` | MsvmPkg/CpuDxe/CpuPageTable.c:1691-1712 | without such a leaf, the pages it looks at agree on A exactly when all pages of the region are mapped with A |
| `PageTableQuery.UniformOrDiffer` | MsvmPkg/CpuDxe/CpuPageTable.c:1679-1689 | the pages it looks at have one set of attributes exactly when none of them is unmapped and no two differ |
| `PageTableQuery.AnswersExactly` | MsvmPkg/CpuDxe/CpuPageTable.c:1679-1689 | attributes are found if and only if no page looked at is unmapped and no two differ |
| `PageTableQuery.GetMemoryAttributes` | MsvmPkg/CpuDxe/CpuPageTable.c:1628-1720 | returns A exactly when all pages it looks at are mapped with A; EFI_UNSUPPORTED when the first page that is not like those before it is not mapped, and EFI_NO_MAPPING when it is mapped with other attributes |
| `PageTableSession.AssignThenGet` | MsvmPkg/CpuDxe/CpuPageTable.c:896-926 | assign then get returns the assigned RP, RO and XP across mixed leaf sizes, unless a renewal put its read-only buffer into the range and RO was not assigned |
| `PageTableExamples.ConvertLoses` | MsvmPkg/CpuDxe/CpuPageTable.c:339-356 | tables on which setting RO on a page unmaps it |
| `PageTableExamples.SplitLoses` | MsvmPkg/CpuDxe/CpuPageTable.c:566-603 | tables on which splitting a 2 MiB leaf unmaps its first page |
| `PageTableExamples.SharedHidesNext` | MsvmPkg/CpuDxe/CpuPageTable.c:1676-1712 | whatever page b + 1 is, a shared bit on page b makes a query of both return the attributes of page b |
| `PageTableExamples.SharedHidesReadOnly` | MsvmPkg/CpuDxe/CpuPageTable.c:1676-1712 | tables on which the query of a shared and a read-only page finds no attributes |
| `MpPageTables.SharedAbove` | MsvmPkg/CpuDxe/CpuPageTable.c:1777-1784 | above the shared table the walks of the mailbox and of page 0 coincide |
| `MpPageTables.TreeBuilt` | MsvmPkg/CpuDxe/CpuPageTable.c:1800-1843 | the 4 to 7 tables form a tree without sharing, for all four sharing depths |
| `MpPageTables.LowWalk` | MsvmPkg/CpuDxe/CpuPageTable.c:1825-1854 | below the shared table, the extra tables translate exactly the low 256 pages |
| `MpPageTables.ChainWalk` | MsvmPkg/CpuDxe/CpuPageTable.c:1800-1822 | each table of the mailbox's walk translates exactly the mailbox page and, down to the shared table, the low 256 pages |
| `MpPageTables.MapsExactly` | MsvmPkg/CpuDxe/CpuPageTable.c:1758-1856 | for every mailbox page and every page below 2^48 bytes: the low 1 MiB and the mailbox page map to themselves, present, writable and executable; no other page is mapped |
| `MpPageTables.FillChain` | MsvmPkg/CpuDxe/CpuPageTable.c:1800-1822 | the loop over the four levels writes exactly the walk of the mailbox |
| `MpPageTables.FillLinks` | MsvmPkg/CpuDxe/CpuPageTable.c:1825-1841 | the loop over the extra levels writes exactly the links of page 0's walk and ends at the last table |
| `MpPageTables.FillLow` | MsvmPkg/CpuDxe/CpuPageTable.c:1843-1854 | the last loop writes exactly the 256 identity entries |
| `MpPageTables.InitializeMpPageTables` | MsvmPkg/CpuDxe/CpuPageTable.c:1758-1858 | the tables built in place satisfy the theorem, with exactly 4 + ExtraPageCount pages |
| `RingArithmetic.WrapAroundExact` | MsvmPkg/EmclDxe/RingBuffer.c:151-259 | the 32-bit wrap-around formulas give ring distance and free space for all pointers exactly when the ring holds at most 2^31 bytes |
| `RingArithmetic.AvailablePlusFree` | MsvmPkg/EmclDxe/RingBuffer.c:151-259 | available + free = ring size - 1 |
| `RingArithmetic.StreamDistance` | MsvmPkg/EmclDxe/RingBuffer.c:151-259 | what the formulas compute from two pointers is the distance of their positions in the unbounded stream |
| `RingProtocol.TrailerRoundTrip` | MsvmPkg/EmclDxe/RingBuffer.c:739-741 | the trailer word gives back the packet's offset |
| `RingSafety.KeepReadOut1` | MsvmPkg/EmclDxe/RingBuffer.c:290-319 | the producer's first read of Out keeps the invariant, whatever it decides |
| `RingSafety.KeepWritePending` | MsvmPkg/EmclDxe/RingBuffer.c:341-359 | publishing PendingSendSize, capped at the ring size - 1, keeps it |
| `RingSafety.KeepReadOut2` | MsvmPkg/EmclDxe/RingBuffer.c:368-393 | the second read of Out keeps it, and a send that fails records a blocked producer |
| `RingSafety.KeepWriteTail` | MsvmPkg/EmclDxe/RingBuffer.c:715-741 | zeroing the packet's last word keeps the stream and starts the frame |
| `RingSafety.KeepStage` | MsvmPkg/EmclDxe/RingBuffer.c:715-760 | completing a frame appends the padded packet and its trailer to the stream |
| `RingSafety.KeepCopy1` | MsvmPkg/EmclDxe/RingBuffer.c:908-946 | the first copy of a folded write puts the stream's bytes at their slots |
| `RingSafety.KeepCopy2` | MsvmPkg/EmclDxe/RingBuffer.c:908-946 | and so does the second |
| `RingSafety.KeepReadOut3` | MsvmPkg/EmclDxe/RingBuffer.c:464-501 | the signal decision of an insertion keeps the wake-up invariant |
| `RingSafety.KeepReadLength` | MsvmPkg/EmclDxe/RingBuffer.c:832-869 | the consumer finds the length of the next frame of the stream |
| `RingSafety.KeepCopyOut1` | MsvmPkg/EmclDxe/RingBuffer.c:961-1009 | copying out up to the fold takes the frame's bytes in order |
| `RingSafety.KeepWriteOut` | MsvmPkg/EmclDxe/RingBuffer.c:556-558 | publishing Out gives up exactly the frames received |
| `RingSafety.RemovalDecision` | MsvmPkg/EmclDxe/RingBuffer.c:572-616 | a removal signals, or a published pending size still does not fit |
| `RingSafety.KeepReadIn2` | MsvmPkg/EmclDxe/RingBuffer.c:578-616 | the signal decision of a removal keeps the invariant |
| `RingSafety.KeepNext` | MsvmPkg/EmclDxe/RingBuffer.c:277-1009 | every step of either endpoint, one shared read or write at a time, keeps the whole invariant |
| `RingSafety.InitialInv` | MsvmPkg/EmclDxe/RingBuffer.c:33-90 | a ring of any size and contents, with In and Out at any one valid place, satisfies the invariant |
| `RingSafety.Reachable` | MsvmPkg/EmclDxe/RingBuffer.c:277-1009 | so it holds in every state of every interleaving from such a ring |
| `RingSafety.Delivery` | MsvmPkg/EmclDxe/RingBuffer.c:661-1009 | in every interleaving the packets received are byte for byte a prefix of the packets committed, and no endpoint ever reports corruption |
| `RingSafety.UnreadBytesKept` | MsvmPkg/EmclDxe/RingBuffer.c:661-946 | no step changes a byte that was staged and not yet removed |
| `RingSafety.OnlyGrows` | MsvmPkg/EmclDxe/RingBuffer.c:418-617 | the stream only grows and Out only moves forward |
| `RingSafety.IdleConsumerIsSignalled` | MsvmPkg/EmclDxe/RingBuffer.c:418-502 | no lost wake-up: a consumer that went idle and has data was signalled, or the insertion in progress is about to signal |
| `RingSafety.BlockedProducerIsSignalled` | MsvmPkg/EmclDxe/RingBuffer.c:277-617 | no stranded producer: after BUFFER_TOO_SMALL, every continuation that keeps the pending size, commits what is staged and empties the ring contains a removal that signals |
| `RingSafety.RemovalSignalsExactly` | MsvmPkg/EmclDxe/RingBuffer.c:591-616 | on stream positions, a removal signals if and only if the pending size it read is not zero, fits behind the committed bytes at the new Out, did not fit at the old one, and the producer is not a ring past the old Out |
| `RingSafety.InsertionSignalsExactly` | MsvmPkg/EmclDxe/RingBuffer.c:486-501 | an insertion signals if and only if the consumer stands exactly at the old In and the mask it read was clear |
| `RingSafety.SignalsExactly` | MsvmPkg/EmclDxe/RingBuffer.c:418-617 | over every interleaving, no other step raises a signal |
| `RingProgress.ReceiveAnswers` | MsvmPkg/EmclDxe/RingBuffer.c:779-1009 | from every reachable state, a receive that is not interrupted delivers the next packet within five steps if one has been committed, and returns without one otherwise |
| `RingProgress.SendAnswers` | MsvmPkg/EmclDxe/RingBuffer.c:277-946 | a send stages its padded packet within six steps if and only if the packet and its trailer leave a byte free between the staged bytes and Out; otherwise nothing is staged, and a size that could ever fit is left pending |
| `RingProgress.CompletionAnswers` | MsvmPkg/EmclDxe/RingBuffer.c:418-617 | completing an insertion publishes all that is staged, and completing a removal all that was read |
| `RingEndpoint.PacketContext.InitRingBufferControl` | MsvmPkg/EmclDxe/RingBuffer.c:33-90 | adopts the four public pointers read, or rejects the ring exactly when one is not valid |
| `RingEndpoint.PacketContext.CheckSendBufferFreeBytes` | MsvmPkg/EmclDxe/RingBuffer.c:277-398 | success, too-small, invalid and corrupt each with its meaning, against any values the other endpoint stores; the pending size published is the capped one |
| `RingEndpoint.PacketContext.GetSendBuffer` | MsvmPkg/EmclDxe/RingBuffer.c:661-764 | succeeds whenever the frame fits before the cached Out; on success the frame fits in free space, only its last word and trailer are written, and the new offset is valid; too-small and invalid each with its meaning |
| `RingEndpoint.FoldedWrite` | MsvmPkg/EmclDxe/RingBuffer.c:908-946 | the two copies of a folded write are one write in ring order |
| `RingEndpoint.PacketContext.WritePacketSingleMapped` | MsvmPkg/EmclDxe/RingBuffer.c:908-946 | writes the packet in ring order and nothing else |
| `RingEndpoint.PacketContext.CompleteInsertion` | MsvmPkg/EmclDxe/RingBuffer.c:418-502 | publishes In, and signals exactly when the old In is the Out it read and the mask it read is zero |
| `RingEndpoint.PacketContext.GetReceiveBuffer` | MsvmPkg/EmclDxe/RingBuffer.c:779-894 | whatever is in shared memory, a packet returned lies with its trailer between the offset and the captured In, and all cached pointers stay aligned and inside the ring |
| `RingEndpoint.PacketContext.ReadPacketSingleMapped` | MsvmPkg/EmclDxe/RingBuffer.c:961-1009 | returns the ring's bytes in ring order across the fold |
| `RingEndpoint.PacketContext.CompleteRemoval` | MsvmPkg/EmclDxe/RingBuffer.c:524-617 | publishes Out, and signals exactly when the pending size read is not zero, fits between In and the new Out, and did not fit between In and the old Out; otherwise tells newly empty exactly when Out has reached In |
| `PinRanges.PrefixPages` | MsvmPkg/EfiHvDxe/EfiHvPinning.c:14-61 | any prefix of the built range list holds each page of an unbroken run once |
| `PinRanges.BoundsExactly` | MsvmPkg/EfiHvDxe/EfiHvPinning.c:255-283 | the bounds of a range hold a page exactly when it lies in one of the range's 4 KiB, 2 MiB or 1 GiB pages, told in bytes |
| `PinRanges.GapsHold` | MsvmPkg/EfiHvDxe/EfiHvPinning.c:467-525 | for subranges in any order, the gaps hold every page outside them once, no page twice and none outside the range |
| `PinRanges.SortedGapsSkip` | MsvmPkg/EfiHvDxe/EfiHvPinning.c:467-525 | for subranges in order of their bases, the gaps hold no always-pinned page |
| `PinRanges.UnsortedGapsExactly` | MsvmPkg/EfiHvDxe/EfiHvPinning.c:467-525 | in whatever order they come, an always-pinned page falls into a gap if and only if the first subrange of the list that ends behind it, and starts inside the range, starts behind it |
| `PinRanges.UnsortedGapsPin` | MsvmPkg/EfiHvDxe/EfiHvPinning.c:467-525 | such a list, out of order, whose second subrange is pinned |
| `PinRanges.PiecesHold` | MsvmPkg/EfiHvDxe/EfiHvPinning.c:434-525 | the same over all pieces of the recursive halving of a request |
| `PinRanges.SortedPiecesSkip` | MsvmPkg/EfiHvDxe/EfiHvPinning.c:434-525 | and in order, no always-pinned page of any piece is pinned |
| `PinRanges.PiecesExactly` | MsvmPkg/EfiHvDxe/EfiHvPinning.c:434-525 | if the hypervisor tells the truth about a set of pages, all of it unless its answer is full, the gaps of the halved request hold every requested page outside the set once and no page of the set, but for a single page whose full answer does not report it |
| `PinRanges.WithoutRestores` | MsvmPkg/EfiHvDxe/EfiHvPinning.c:210-253 | removing a request's records restores the list exactly when none was tracked; otherwise some page loses a pin |
| `PinRanges.RecordsCover` | MsvmPkg/EfiHvDxe/EfiHvPinning.c:180-208 | the records of a request cover each page as often as its gaps do |
| `PinLedger.CountPages` | MsvmPkg/EfiHvDxe/EfiHvPinning.c:14-31 | sums the pages of the ranges |
| `PinLedger.BuildRanges` | MsvmPkg/EfiHvDxe/EfiHvPinning.c:33-61 | builds consecutive ranges of at most 0x800 pages, at most 511 of them, that cover the request or are full |
| `PinLedger.Ledger.PinUnpin` | MsvmPkg/EfiHvDxe/EfiHvPinning.c:63-178 | over partial hypercalls, exactly the first pages reported as processed are pinned or unpinned once; it succeeds exactly if no hypercall failed, and then all are; terminates |
| `PinLedger.Ledger.Track` | MsvmPkg/EfiHvDxe/EfiHvPinning.c:180-208 | appends one record, or none when memory is short |
| `PinLedger.Ledger.PinAndTrack` | MsvmPkg/EfiHvDxe/EfiHvPinning.c:332-393 | a failed pin or record leaves counts and list as they were |
| `PinLedger.Ledger.PinGaps` | MsvmPkg/EfiHvDxe/EfiHvPinning.c:467-525 | pins exactly the specified gaps, or a front part of them on an error |
| `PinLedger.Ledger.PinSkippingAlwaysPinned` | MsvmPkg/EfiHvDxe/EfiHvPinning.c:395-528 | succeeds exactly if no call failed; the recursion ends, its pieces tile the request, each was swept with an answer of the hypervisor that is not full unless it is a single page, and PinApplied is true exactly when something was pinned |
| `PinLedger.Ledger.UnpinTracked` | MsvmPkg/EfiHvDxe/EfiHvPinning.c:210-253 | removes and unpins exactly the records of the key and says whether there were any |
| `PinLedger.Ledger.PinAddressRange` | MsvmPkg/EfiHvDxe/EfiHvPinning.c:534-599 | counts stay equal to the number of covering records; success, exactly if no call failed, adds one pin per page of the gaps, which with a truthful hypervisor are the requested pages it does not keep pinned itself; a failed request restores counts and list exactly when its key was not tracked |
| `PinLedger.Ledger.UnpinAddressRange` | MsvmPkg/EfiHvDxe/EfiHvPinning.c:601-638 | returns if and only if the request is aligned, its key is tracked and no hypercall fails, and then its records are gone and the counts match |
| `PinLedger.Ledger.Teardown` | MsvmPkg/EfiHvDxe/EfiHvConnection.c:316-341 | brings the list to empty and every count to zero |
| `PinLedger.Session` | MsvmPkg/EfiHvDxe/EfiHvPinning.c:534-638 | every run of pins and unpins, failed ones included, followed by the teardown ends with no page pinned |
| `HostVisibility.DropExactly` | MsvmPkg/EfiHvDxe/EfiHvPageVisibility.c:446-466 | hiding one object's pages leaves exactly the other objects' pages visible if and only if none overlaps it |
| `HostVisibility.LogMore` | MsvmPkg/EfiHvDxe/EfiHvPageVisibility.c:113-240 | the log of states grows by states that differ from the one before in one page |
| `HostVisibility.Ledger.SetVisible` | MsvmPkg/EfiHvDxe/EfiHvPageVisibility.c:187-198 | one page changes, and the new state is logged; on TDX the hypervisor may take the private mapping of a page it shows |
| `HostVisibility.Ledger.UpdateAcceptance` | MsvmPkg/Library/HostVisibilityLib/HostVisibilityLib.c:524-597 | one page at a time, exactly the range is accepted or given up; on TDX revoking does nothing, and an SVSM is asked to validate either way |
| `HostVisibility.Ledger.ModifyInBatches` | MsvmPkg/EfiHvDxe/EfiHvPageVisibility.c:131-212 | over partial hypercalls, exactly the first pages reported as processed change; it succeeds exactly if no hypercall failed, and then all change |
| `HostVisibility.Ledger.Modify` | MsvmPkg/EfiHvDxe/EfiHvPageVisibility.c:9-260 | with no paravisor, acceptance is revoked before showing and granted after hiding, as far as the platform's library does so; on a guarded platform no page is accepted and visible at any step |
| `HostVisibility.Ledger.Show` | MsvmPkg/EfiHvDxe/EfiHvPageVisibility.c:9-260 | showing pages leaves none of them accepted and visible if and only if the platform is guarded (SNP without an SVSM, or TDX whose hypervisor takes the private mapping), or on TDX none was accepted |
| `HostVisibility.BothAtOnce` | MsvmPkg/Library/HostVisibilityLib/HostVisibilityLib.c:524-597 | on TDX without that assumption, or SNP with an SVSM, an accepted page that is shown is accepted and visible |
| `HostVisibility.Ledger.MakeVisible` | MsvmPkg/EfiHvDxe/EfiHvPageVisibility.c:262-415 | succeeds if and only if the request is well formed, not empty and no call fails, and then shows and tracks it; a partial failure is reverted; for a request that overlaps no object, visible pages stay the union of the objects |
| `HostVisibility.Ledger.MakeNotVisible` | MsvmPkg/EfiHvDxe/EfiHvPageVisibility.c:417-467 | a null handle does not return; otherwise the object's pages are hidden and it is no longer tracked; for objects that do not overlap, visible pages stay their union |
| `HostVisibility.Ledger.Teardown` | MsvmPkg/EfiHvDxe/EfiHvConnection.c:304-314 | hides every object's pages and empties the list |
| `HostVisibility.Session` | MsvmPkg/EfiHvDxe/EfiHvPageVisibility.c:262-467 | every run of requests that do not overlap, followed by the teardown, ends with no page visible unless a call failed; the log of the run starts with the first state, ends with the last and changes one page at a time, and on a guarded platform none of its states has a page both accepted and visible |
| `MtrrPainter.Search` | MsvmPkg/CpuDxe/CpuDxe.c:585-616 | finds the range exactly when its last address lies in the map, and returns the descriptors of its first and last address |
| `MtrrPainter.RegionIs` | MsvmPkg/CpuDxe/CpuDxe.c:668-693 | the region painted in a descriptor is what it shares with the range |
| `MtrrPainter.PaintDescriptor` | MsvmPkg/CpuDxe/CpuDxe.c:661-693 | paints exactly that region, and only of existing memory |
| `MtrrPainter.SetRange` | MsvmPkg/CpuDxe/CpuDxe.c:633-698 | paints the whole range if it ends in the map and nothing otherwise |
| `MtrrPainter.LastCovering` | MsvmPkg/CpuDxe/CpuDxe.c:911-962 | the last MTRR of a pass that covers an address, or none |
| `MtrrPainter.PassTop` | MsvmPkg/CpuDxe/CpuDxe.c:911-962 | a pass leaves every address with the type of the last MTRR of the pass that covers it |
| `MtrrPainter.PaintPass` | MsvmPkg/CpuDxe/CpuDxe.c:911-962 | each of the three loops paints exactly its MTRRs, in order |
| `MtrrPainter.FixedKindIs` | MsvmPkg/CpuDxe/CpuDxe.c:705-761 | the register and byte of the fixed table that an address below 1 MiB belongs to |
| `MtrrPainter.RunsTop` | MsvmPkg/CpuDxe/CpuDxe.c:964-1015 | the coalesced runs give every address below 1 MiB its fixed type and touch no other |
| `MtrrPainter.PaintFixed` | MsvmPkg/CpuDxe/CpuDxe.c:964-1015 | the runs painted partition the first 1 MiB, each has one type, and neighbours differ |
| `MtrrPainter.PaintedByPrecedence` | MsvmPkg/CpuDxe/CpuDxe.c:895-1015 | painting in this order gives every address the type of the precedence rule: fixed below 1 MiB, else uncached, else the last other range, else write-back, else the default |
| `MtrrPainter.MixExactly` | MsvmPkg/CpuDxe/CpuDxe.c:540-564 | painting type 0, 1, 4, 5 or 6 gives an address UC, WC, WT, WP or WB if the descriptor is capable of it, any other type none of them, and every non-cache bit stays as it was |
| `MtrrPainter.ByteOfIs` | MsvmPkg/CpuDxe/CpuDxe.c:978-985 | the byte shifted out of a fixed register is its k-th byte |
| `MtrrPainter.Precedence` | MsvmPkg/CpuDxe/CpuDxe.c:895-1015 | the type of an address: its fixed byte below 1 MiB, else 0 if a valid range of type 0 covers it, else the type of the last covering range that is not write-back, else 6 if one covers it, else the default |
| `MtrrPainter.PaintDefault` | MsvmPkg/CpuDxe/CpuDxe.c:895-909 | gives all existing memory the default type and touches nothing else |
| `MtrrPainter.Refresh` | MsvmPkg/CpuDxe/CpuDxe.c:797-1016 | after the refresh an existing address has exactly the cache bit of its type by precedence, if its descriptor is capable of it, and its old non-cache bits; all others keep theirs |
| `Mbor.NumberRoundTrip` | MsvmPkg/AziHsmDxe/AziHsmMbor.c:31-180 | big-endian bytes give back the number |
| `Mbor.BytesRoundTrip` | MsvmPkg/AziHsmDxe/AziHsmMbor.c:31-180 | and the number gives back the bytes |
| `Mbor.Padding` | MsvmPkg/AziHsmDxe/AziHsmMbor.c:695-699 | less than four bytes that align the payload to four |
| `Mbor.Wire` | MsvmPkg/AziHsmDxe/AziHsmMbor.c:10-24 | the bytes of every encodable value: marker 0x18 to 0x1B and 1, 2, 4 or 8 big-endian bytes for numbers, 0x14 or 0x15 for booleans, 0xA0 plus the count for maps, 0x80 plus the padding, two length bytes and zeros before a payload |
| `Mbor.RoundTrip` | MsvmPkg/AziHsmDxe/AziHsmMbor.c:377-1308 | the matching decoder reads every encodable value back from any buffer it stands in and stops where the encoder stopped |
| `Mbor.StreamRoundTrip` | MsvmPkg/AziHsmDxe/AziHsmMbor.c:377-1308 | a whole sequence of values, encoded behind any bytes and followed by any, decodes to the same values and ends at the same position |
| `Mbor.EncodedReads` | MsvmPkg/AziHsmDxe/AziHsmMbor.c:377-1308 | each decoder of such a sequence finds its value where the one before it stopped |
| `Mbor.AcceptsExactly` | MsvmPkg/AziHsmDxe/AziHsmMbor.c:891-1308 | what a decoder accepts is an encoder's output exactly when a boolean marker is one of the two and padding is the aligning one |
| `Mbor.BooleanMarkers` | MsvmPkg/AziHsmDxe/AziHsmMbor.c:1086-1110 | every marker but the one for true decodes to false, markers that no encoder writes included |
| `Mbor.Decode` | MsvmPkg/AziHsmDxe/AziHsmMbor.c:852-1308 | the position never leaves the buffer, on success or error |
| `MborCodec.Encoder.Init` | MsvmPkg/AziHsmDxe/AziHsmMbor.c:198-222 | initializes once, and rejects an empty buffer and a second initialization |
| `MborCodec.Encoder.Write` | MsvmPkg/AziHsmDxe/AziHsmMbor.c:297-366 | writes all the bytes or none, and nothing past the position |
| `MborCodec.Encoder.EncodeNumber` | MsvmPkg/AziHsmDxe/AziHsmMbor.c:376-531 | writes the encoding, or the part of it that fits |
| `MborCodec.Encoder.EncodeBoolean` | MsvmPkg/AziHsmDxe/AziHsmMbor.c:542-570 | the same for booleans |
| `MborCodec.Encoder.EncodeMap` | MsvmPkg/AziHsmDxe/AziHsmMbor.c:582-610 | the same for maps of up to 15 fields; more are rejected |
| `MborCodec.Encoder.EncodeBytes` | MsvmPkg/AziHsmDxe/AziHsmMbor.c:623-659 | the same for bytes |
| `MborCodec.Encoder.EncodePaddedBytes` | MsvmPkg/AziHsmDxe/AziHsmMbor.c:674-733 | the same for padded bytes, whose payload starts at a multiple of four |
| `MborCodec.Encoder.EncodeAll` | MsvmPkg/AziHsmDxe/AziHsmMbor.c:376-733 | a sequence succeeds exactly when it fits and then writes exactly its encoding; otherwise it writes a front part of it |
| `MborCodec.EncodeThenDecode` | MsvmPkg/AziHsmDxe/AziHsmMbor.c:198-1308 | any values that fit into the memory are written by the encoder object and read back by the decoder object, which stops where the encoder stopped |
| `MborCodec.Decoder.Init` | MsvmPkg/AziHsmDxe/AziHsmMbor.c:748-773 | as for the encoder |
| `MborCodec.Decoder.Read` | MsvmPkg/AziHsmDxe/AziHsmMbor.c:851-876 | reads within capacity or not at all |
| `MborCodec.Decoder.DecodeNumber` | MsvmPkg/AziHsmDxe/AziHsmMbor.c:890-1073 | answers, value and position as specified, errors included |
| `MborCodec.Decoder.DecodeBoolean` | MsvmPkg/AziHsmDxe/AziHsmMbor.c:1086-1110 | the same; any marker is taken |
| `MborCodec.Decoder.DecodeMap` | MsvmPkg/AziHsmDxe/AziHsmMbor.c:1124-1154 | the same |
| `MborCodec.Decoder.DecodeBytes` | MsvmPkg/AziHsmDxe/AziHsmMbor.c:1169-1218 | the same; the payload goes to the front of the caller's buffer and nothing else of it changes; padded markers are rejected |
| `MborCodec.Decoder.DecodePaddedBytes` | MsvmPkg/AziHsmDxe/AziHsmMbor.c:1235-1308 | the same; padding that is not zero is rejected |
| `ResponseHeader.FieldsDecoded` | MsvmPkg/AziHsmDxe/AziHsmDdi.c:1021-1116 | on success no identifier came twice, the required ones came, the flags say which optional ones came, and the position moved by the sum of the field sizes |
| `ResponseHeader.HeaderDecoded` | MsvmPkg/AziHsmDxe/AziHsmDdi.c:969-1121 | a decoded header has operation, status and FIPS once, optional fields at most once, and consumed 18 bytes plus 17 for a revision and 5 for a session |
| `ResponseHeader.RevisionCompleteExactly` | MsvmPkg/AziHsmDxe/AziHsmDdi.c:392-457 | a decoded revision is independent of what it held before exactly when its two fields differ |
| `ResponseHeader.RepeatedMajorAccepted` | MsvmPkg/AziHsmDxe/AziHsmDdi.c:430-452 | a revision with the major number twice is accepted and keeps the old minor number |
| `ResponseHeader.RevisionDecodes` | MsvmPkg/AziHsmDxe/AziHsmDdi.c:323-457 | a revision encoded with both fields decodes to itself |
| `ResponseHeader.FieldsDecode` | MsvmPkg/AziHsmDxe/AziHsmDdi.c:1021-1116 | fields with distinct identifiers decode in whatever order they stand |
| `ResponseHeader.HeaderDecodes` | MsvmPkg/AziHsmDxe/AziHsmDdi.c:969-1121 | a header with the required fields and none twice decodes and holds exactly the fields' values |
| `ResponseHeader.OrderIndependent` | MsvmPkg/AziHsmDxe/AziHsmDdi.c:969-1121 | every permutation of a header's fields fills in the same header |
| `ResponseHeader.HeaderRoundTrip` | MsvmPkg/AziHsmDxe/AziHsmDdi.c:969-1121 | a header encoded with its fields in any order decodes to the same header, whatever surrounds it |
| `ResponseHeader.DecodeApiRevision` | MsvmPkg/AziHsmDxe/AziHsmDdi.c:392-457 | status, value and position as specified |
| `ResponseHeader.DecodeResponseHeader` | MsvmPkg/AziHsmDxe/AziHsmDdi.c:969-1121 | status, header, size and position as specified, every error included |
| `ResponseHeader.RequestSize` | MsvmPkg/AziHsmDxe/AziHsmDdi.c:850-948 | the encoded size of a request header: 8 bytes plus 17 for a revision and 5 for a session |
| `ResponseHeader.RequestIs` | MsvmPkg/AziHsmDxe/AziHsmDdi.c:882-944 | the fields of a request are the field count, identifier 1 with the revision if valid, identifier 2 with the operation, and identifier 3 with the session if valid |
| `ResponseHeader.PlainRequest` | MsvmPkg/AziHsmDxe/AziHsmDdi.c:897-931 | the eight bytes of a request that has an operation only |
| `ResponseHeader.EncodeRequestHeader` | MsvmPkg/AziHsmDxe/AziHsmDdi.c:850-948 | what it writes decodes to the field count, identifier 1 with the revision if valid, identifier 2 with the operation and identifier 3 with the session if valid, and the decoder ends at the encoder's position; it succeeds exactly if the buffer has room for 8 bytes plus 17 for a revision and 5 for a session, and writes a front part with EFI_BUFFER_TOO_SMALL otherwise |
| `Hkdf.BlocksLength` | MsvmPkg/AziHsmDxe/AziHsmBKS3.c:695-725 | n blocks are 32 n bytes |
| `Hkdf.ExpandedPrefix` | MsvmPkg/AziHsmDxe/AziHsmBKS3.c:669-755 | a shorter key is the front of a longer one |
| `Hkdf.Expand` | MsvmPkg/AziHsmDxe/AziHsmBKS3.c:669-755 | for every size up to 255 blocks it succeeds exactly if every HMAC does, and the key is the first bytes of T(1) T(2) ... of section 2.3 of RFC 5869, nothing past it is written, and the loop ends by the full output before the 8-bit counter wraps |

## Left out

- PageTableRounds.ExecutionRuns: pages of a range that the hypervisor's or another processor's accesses change (accessed and dirty bits set by the hardware) are not modelled: the tables change only by this code.
- PageTableEditor.Editor.ConvertMemoryPageAttributes: the paging-context argument, CR0.WP, TLB flushes and the SMM checks are not modelled.
- PageTableQuery.GetMemoryAttributes: stated for regions that map to themselves, as the source's step relies on (MsvmPkg/CpuDxe/CpuPageTable.c:1691-1712); sizes are not limited to 63 bits.
- PageTableEditor.Editor.SplitPage: entry bits beyond P, RW, NX, user, accessed, dirty, PS and one encryption bit are carried along as one number when an entry is edited and dropped by a split, as in the source.
- PageTableEditor.Editor.AllocatePageTableMemory: requests of one page, the only size used; the pool list pointers are left out. AllocateAlignedPages returns aligned buffers that are not in use, inside the address space, or none.
- MpPageTables.InitializeMpPageTables: the mailbox address is page-aligned and below 2^48, as the source takes it to be.
- RingSafety.KeepNext: a sender passes a packet smaller than the ring whose descriptor states its aligned size. Memory accesses are sequentially consistent, which the source's barriers provide for; the interrupt-expectation counters and the mask-skip statistics are left out.
- RingSafety.BlockedProducerIsSignalled: the trailer check of debug builds is part of the consumer's steps.
- RingEndpoint.PacketContext.GetSendBuffer: the packet is smaller than the ring, as the source reduces its offsets before it checks the free space.
- RingEndpoint.PacketContext.WritePacketSingleMapped: the offset is 8-aligned and less than two ring sizes, as its single reduction needs.
- RingProgress.ReceiveAnswers: the call is not interrupted by the other endpoint; interleaved calls are the subject of the invariants.
- PinLedger.Ledger.Hypercall: a range that the hypervisor reports as processed has been processed, and no other.
- HostVisibility.Ledger.Modify: the path taken before the hypercall connection is up calls a platform library that is not part of this model; zeroing of page contents is left out.
- HostVisibility.Ledger.UpdateAcceptance: pages are accepted one by one, where the source also tries 2 MiB at a time.
- HostVisibility.Ledger.SetVisible: that the hypervisor takes the private mapping of a page it shows on TDX is an assumption about the platform, a parameter of the model.
- MtrrPainter.Refresh: the memory space map is sorted, starts at 0, has no gaps and covers the first 1 MiB, a valid MTRR is not empty, and setting attributes in the map does not fail.
- MborCodec.Decoder.DecodeBytes: the caller's buffer holds the payload, whose size the source does not check, and is not the decoder's own.
- ResponseHeader.EncodeRequestHeader: the fields are in range of their C types; the field count check, which cannot fail, is left out.
- Hkdf.Expand: clearing of intermediate key material is left out.
- IA-32 PAE paging, ACPI patching, the HSM device queues, sealing, timers, synthetic interrupts and message posting are not modelled: device I/O and thin wrappers.
- The handle table of EfiHandleTable.c, an array of slots behind two accessors, is not modelled.
