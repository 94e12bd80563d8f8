# NasuaOS in Dafny

A model of the parts of NasuaOS that keep books, codes and protocols, with proofs about them. Imperative code is
modelled by classes and methods with loops; each is proved to compute a function of values, and the theorems are about
those functions and over whole runs.

- **Memory** (`Pmm`, `PageTables`, `AddressSpaces`, `SpaceEdits`, `OutsideEdits`, `SpaceSteps`, `SpaceLifetime`,
  `KernelSpace`, `LargePages`, `UserRange`, `MemoryRuns`, `Vmm`, `Heap`, `HeapRuns`): the bitmap allocator, four-level
  page tables whose nodes are frames of that allocator, user address spaces that own their tables and pages, the kernel's
  mappings, and the bump heap. Physical memory is a sequence of frames of 512 entries; the invariant says which frame is
  a node of which tree, held by a caller, reserved or free, and that nothing is in two of these.
- **QR codes** (`Bytes`, `Galois`, `ReedSolomon`, `CodeDistance`, `QrEcc`, `QrBits`, `QrCodewords`, `QrData`, `QrSymbol`,
  `QrCapacity`, `QrFormat`, `QrDecode`, `QrDrawing`, `QrLaws`, `QrEncode`): GF(256) and its tables, Reed-Solomon division and the
  distance of the code, packing, interleaving, placement, masking, format bits, and an independent reader that recovers
  the text from the finished matrix (ISO/IEC 18004:2015, sections 7.4 to 7.9).
- **Network** (`Words`, `TcpSegments`, `TcpSteps`, `Tcp`, `Checksum`, `Packets`, `Dhcp`, `WireLaws`): the TCP client
  against a network that loses, repeats and reorders, what it answers, its stop-and-wait writer and its request loop;
  Internet checksums and delivery of IPv4, UDP and TCP packets; the DHCP client, its messages and a server's replies.
- **Accounts** (`AccountFile`, `AccountSteps`, `AccountRuns`, `Accounts`): the account table, its text form, commands as
  transactions with rollback, the stored file, and a state machine of commands and typed passwords that says who can be
  logged in after any run.
- **Browser text engine** (`Selector`, `Chunked`, `Layout`, `Paths`): selector matching, chunked decoding in place, line
  layout, and path normalisation, the last also for cd, ls and tree.

`Wrappers` holds the optional value, counting and division. `dafny verify dfyconfig.toml` checks the whole project.

How the outside world enters: a send or a disk write is a parameter that says whether it succeeds; arrivals and tick
counts of the TCP client come as a sequence of polls, and the deadline has passed when it is used up; the salt, the
password hash, the QR penalty, new DHCP transaction numbers and the width of the page at an offset are parameters. A TCP
segment is genuine when it carries a piece of the peer's stream at its offset, with FIN only at the end, or is an empty
acknowledgement behind the FIN, and lies within 2^32 of the current position; the history variable `genuine` says that
all segments so far were. It holds on every network whose arrivals are such segments of a stream shorter than 2^32 - 2,
whatever their order and number (`Tcp.Connection.Sound`). Everything about the send window holds for any segments.

Where the code does less than one would expect, the model follows the code:

- the used-page counter is decremented twice for each locked low page, so it does not complement the free counter
  (`Pmm.PageAllocator.Init` gives its exact value);
- `map_page` and `unmap_page` ignore the large-page bit that `translate` honours; `LargePages.MapPageExact` and
  `LargePages.UnmapPageExact` say exactly when they take effect;
- a `kmalloc` that fails half way keeps the pages it has mapped, and one whose size wraps to no pages succeeds with an
  empty block (`Heap.PagesSuffice`), where the source then writes the header to a page that is not mapped;
- creating an address space over a live one strands the frames of the old one (`SpaceLifetime.CreateExact`);
- `http_get` sets `next_sequence` back to the start of the request, so the send window is stated for stream mode only;
  there, a write after a failed write can exceed it (`TcpSteps.FailedWriteLeavesWindow`), and `TcpSteps.SendDataWindow`
  says exactly when;
- the right to administer needs the flag and the name "root", so renaming root can leave nobody with it
  (`AccountSteps.RenameKeepsRoot`);
- greedy selector matching misses matches exactly for selectors with a child combinator left of a descendant combinator
  (`Selector.CompleteIff`); text behind the eighth compound makes the source write `relations[7]`, one past the end of
  its array, before the selector is refused or, after a final `>`, accepted;
- a universal selector with an id or class behind it matches only elements tagged "*" (`Selector.StarOnlyAlone`);
- version 10 uses two blocks with 36 check bytes each and no version information is drawn, so the QR theorems are about
  the encoder's own table.

## Model

| member | source | states |
|---|---|---|
| Pmm.SumIsUnion | resources/drivers/memory/functions/pmm.cpp:121-141 | summing usable pages region by region is never less than their number, and equals it exactly when no two regions share a page |
| Pmm.CountFree | resources/drivers/memory/functions/pmm.cpp:112-153 | the counter after locking the first MiB is the number of clear bits exactly when no page lies in two usable regions |
| Pmm.PageAllocator.SetBit | resources/drivers/memory/functions/pmm.cpp:19-22 | exactly one bit of the bitmap becomes set |
| Pmm.PageAllocator.ClearBit | resources/drivers/memory/functions/pmm.cpp:24-27 | exactly one bit of the bitmap becomes clear |
| Pmm.PageAllocator.MarkUsable | resources/drivers/memory/functions/pmm.cpp:121-141 | after the loop over the memory map a bit is clear exactly when a usable region covers the page; both counters are given, the used one with its 64-bit wrap |
| Pmm.PageAllocator.LockLow | resources/drivers/memory/functions/pmm.cpp:144-154 | the pages of the first MiB are used again; the used counter loses each of them a second time |
| Pmm.PageAllocator.Init | resources/drivers/memory/functions/pmm.cpp:60-166 | a page is free exactly when it is covered and above 1 MiB; the free counter equals the number of clear bits if and only if the usable regions are disjoint; the exact, wrapped value of the used counter |
| Pmm.PageAllocator.AllocPage | resources/drivers/memory/functions/pmm.cpp:169-183 | returns the lowest clear page and sets only its bit, or 0 exactly when none is left; the free counter stays equal to the number of clear bits |
| Pmm.PageAllocator.FreePage | resources/drivers/memory/functions/pmm.cpp:186-201 | clears exactly that page's bit if it was set; the free counter stays equal to the number of clear bits |
| PageTables.PutFrame | resources/drivers/memory/functions/vmm.cpp:155-221 | writing an entry that a walk does not consult does not change where the walk ends |
| PageTables.ReachIsLocated | resources/drivers/memory/functions/vmm.cpp:474-527 | the frames met by nested 512-entry loops are exactly the frames some index path leads to |
| SpaceEdits.WriteOnlyAt | resources/drivers/memory/functions/vmm.cpp:50-136 | overwriting one entry with nothing behind it moves only the node at that place, in any tree |
| SpaceEdits.TakeInv | resources/drivers/memory/functions/pmm.cpp:169-183 | an allocation by a caller keeps the ownership invariant and moves no node |
| SpaceEdits.GiveBackInv | resources/drivers/memory/functions/pmm.cpp:186-201 | a caller giving a frame back keeps the ownership invariant and moves no node |
| SpaceEdits.LinkInv | resources/drivers/memory/functions/vmm.cpp:346-373 | linking a held frame under a free entry makes it a node of that tree and nothing else |
| SpaceEdits.UnlinkInv | resources/drivers/memory/functions/vmm.cpp:375-402 | clearing a last-level entry turns its page back into a held frame and nothing else |
| SpaceSteps.GrowInv | resources/drivers/memory/functions/vmm.cpp:50-136 | creating missing tables on a walk keeps the invariant and every mapped page even when memory runs out half way, and fails only when no frame is left |
| SpaceSteps.FindIsWhere | resources/drivers/memory/functions/vmm.cpp:50-136 | in a user tree the read-only walk finds exactly the node at that path |
| SpaceSteps.MapUserCorrect | resources/drivers/memory/functions/vmm.cpp:346-373 | adds exactly the one page or none; a failure with valid arguments and a free page means memory is exhausted; the frame passes from the caller to the space; the rights are in UserRange.MapUserGrants |
| SpaceSteps.UnmapUserCorrect | resources/drivers/memory/functions/vmm.cpp:375-402 | succeeds exactly for a mapped page of the space, removes exactly it and frees exactly its frame |
| SpaceLifetime.CreateCorrect | resources/drivers/memory/functions/vmm.cpp:305-344 | a new space is one new root and no other node, shares the kernel half and takes the lowest free slot; a failure changes no bit and means no frame or no free PML4 slot |
| SpaceLifetime.CreateOver | resources/drivers/memory/functions/vmm.cpp:305-344 | creating over a live space strands exactly the frames it owned: used, and owned by nobody |
| SpaceLifetime.CreateExact | resources/drivers/memory/functions/vmm.cpp:305-344 | ownership stays exact if and only if the structure was unused |
| SpaceLifetime.SyncCorrect | resources/drivers/memory/functions/vmm.cpp:454-467 | synchronising moves no node or page of anyone and makes the kernel halves agree |
| SpaceLifetime.OwnedIsNodes | resources/drivers/memory/functions/vmm.cpp:474-527 | the set of frames that destroying frees is exactly the set of nodes of the space |
| SpaceLifetime.DestroyCorrect | resources/drivers/memory/functions/vmm.cpp:474-527 | refused exactly for the active or an unknown space; otherwise exactly the frames the space owned were used and are free now, and no other bit, node or page changed |
| KernelSpace.PathIsPage | resources/drivers/memory/functions/vmm.cpp:155-170 | two addresses have the same four indices exactly when they lie in the same page of the 48-bit space |
| KernelSpace.MapPageCorrect | resources/drivers/memory/functions/vmm.cpp:155-221 | without a large page on the way, success gives the page the new frame with the write and user rights asked for, executable and small, and every other page its old translation; failure changes no translation and means no frame was left |
| KernelSpace.UnmapPageCorrect | resources/drivers/memory/functions/vmm.cpp:223-258 | removes exactly one translation and reports whether there was one |
| KernelSpace.ClearIsEntries | resources/drivers/memory/functions/vmm.cpp:260-303 | a way is clear exactly when no entry on it has the large-page bit |
| KernelSpace.MapOverLargePage | resources/drivers/memory/functions/vmm.cpp:155-221 | with a 2 MiB page on the way, map_page reports success, writes its entry into the data page and leaves the old translation |
| KernelSpace.HugeTranslates | resources/drivers/memory/functions/vmm.cpp:260-303 | an address in a 1 GiB page translates into its frames with its offset |
| KernelSpace.LargeTranslates | resources/drivers/memory/functions/vmm.cpp:260-303 | an address in a 2 MiB page translates into its frames with its offset |
| OutsideEdits.SameTablesInv | resources/drivers/memory/functions/vmm.cpp:155-258 | an edit of frames that are no node moves no node, changes no entry and keeps ownership exact but for the frames it took |
| LargePages.MapPageBlocked | resources/drivers/memory/functions/vmm.cpp:155-221 | on a blocked way no translation, node or entry of any tree changes, whatever is reported, and the frames taken belong to no tree |
| LargePages.MapPageExact | resources/drivers/memory/functions/vmm.cpp:155-221 | after a success the page has the new frame if and only if no large page, of 1 GiB or 2 MiB, blocked the way or it had that frame before; every other page keeps its translation; a failure means no frame was left |
| LargePages.UnmapPageExact | resources/drivers/memory/functions/vmm.cpp:223-258 | afterwards the page has no translation if and only if no large page blocked the way; every other page keeps its translation |
| LargePages.BlockedInv | resources/drivers/memory/functions/vmm.cpp:155-221 | the machine of the next two rows meets the ownership invariant |
| LargePages.BlockedBySmall | resources/drivers/memory/functions/vmm.cpp:155-221 | one machine with a 2 MiB page: map_page reports success and the address keeps its old frame |
| LargePages.BlockedByHuge | resources/drivers/memory/functions/vmm.cpp:155-221 | one machine with a 1 GiB page: map_page takes a frame for a table nothing will find again, reports success, and the address keeps its frame |
| KernelSpace.KernelHalfShared | resources/drivers/memory/functions/vmm.cpp:454-467 | while the halves agree, a kernel-half address translates in a user space as in the kernel |
| UserRange.EffectiveIsLeaf | resources/drivers/memory/functions/vmm.cpp:50-136 | rights combined over all four levels of a user tree are those of the last level |
| UserRange.PageAllowedIsAllowed | resources/drivers/memory/functions/vmm.cpp:404-437 | the test of one page is the verdict of the hardware walk for each address in it |
| UserRange.UserRangeIsHardware | resources/drivers/memory/functions/vmm.cpp:404-437 | is_user_range is true exactly when the range is non-empty, ends below 2^47, and the combined rights of all levels grant the access at every byte |
| UserRange.MapUserGrants | resources/drivers/memory/functions/vmm.cpp:346-373 | after a successful map_user_page the hardware walk leads from every byte of the page to the given frame and allows a write exactly if the flags do and execution exactly unless they forbid it; no access to any other byte of any space changes |
| UserRange.UnmapUserRevokes | resources/drivers/memory/functions/vmm.cpp:375-402 | after a successful unmap_user_page no access to a byte of the page goes through, and every other access as before |
| MemoryRuns.StepInv | resources/drivers/memory/functions/vmm.cpp:305-527 | every operation, successful or not, keeps ownership exact |
| MemoryRuns.RunInv | resources/drivers/memory/functions/vmm.cpp:305-527 | so does every run of create, map, unmap, sync, activate, destroy, kernel mappings and frame allocation over any number of spaces |
| MemoryRuns.SpacesDisjoint | resources/drivers/memory/functions/vmm.cpp:305-527 | after any run a frame of a space belongs to it alone, at one place in its tree, and to no caller |
| MemoryRuns.NothingLeaks | resources/drivers/memory/functions/vmm.cpp:474-527 | once all spaces are destroyed and all frames given back, a page is used exactly if it was reserved or is a kernel table |
| MemoryRuns.BootInv | resources/drivers/memory/functions/vmm.cpp:138-153 | the invariant holds at the start for kernel tables that are distinct used frames |
| Vmm.Manager.CreateTable | resources/drivers/memory/functions/vmm.cpp:15-31 | a zeroed frame taken at the lowest clear bit, or none when all are used |
| Vmm.Manager.GetUserLeafTable | resources/drivers/memory/functions/vmm.cpp:50-136 | the pointer walk computes the growing or read-only walk of the model |
| Vmm.Manager.MapUserPage | resources/drivers/memory/functions/vmm.cpp:346-373 | refines the map step on bitmap and tables, whose effect on every access is UserRange.MapUserGrants |
| Vmm.Manager.UnmapUserPage | resources/drivers/memory/functions/vmm.cpp:375-402 | refines the unmap step on bitmap and tables |
| Vmm.Manager.IsUserRange | resources/drivers/memory/functions/vmm.cpp:404-437 | terminates for all inputs and computes the range test of the model |
| Vmm.Manager.MapKernelPage | resources/drivers/memory/functions/vmm.cpp:155-221 | refines the kernel map step |
| Vmm.Manager.UnmapKernelPage | resources/drivers/memory/functions/vmm.cpp:223-258 | refines the kernel unmap step |
| Vmm.Manager.TranslateKernel | resources/drivers/memory/functions/vmm.cpp:260-303 | computes the translation of the model, large pages included |
| Vmm.Manager.CreateUserAddressSpace | resources/drivers/memory/functions/vmm.cpp:305-344 | refines the create step |
| Vmm.Manager.SyncKernelMappings | resources/drivers/memory/functions/vmm.cpp:454-467 | refines the sync step |
| Vmm.Manager.ActivateAddressSpace | resources/drivers/memory/functions/vmm.cpp:439-452 | refines the activate step |
| Vmm.Manager.DestroyUserAddressSpace | resources/drivers/memory/functions/vmm.cpp:474-527 | the nested loops refine the destroy step |
| Heap.PagesSuffice | resources/drivers/memory/functions/heap.cpp:28-36 | the computed pages hold header and payload exactly when the two 64-bit additions do not wrap, and are never more than needed |
| Heap.KmallocCorrect | resources/drivers/memory/functions/heap.cpp:28-65 | a new block lies above all others, each of its pages has its own new frame, no mapped page moves; a failure changes no block and means size 0 or no frame left |
| Heap.KfreeCorrect | resources/drivers/memory/functions/heap.cpp:67-90 | exactly the block's frames become free, exactly its pages are unmapped |
| Heap.HeapTranslates | resources/drivers/memory/functions/heap.cpp:67-90 | the lookup kfree makes finds the frame of each heap page |
| Heap.HeapRunInv | resources/drivers/memory/functions/heap.cpp:28-90 | every run of kmalloc and kfree, failures half way included, keeps the heap invariant; every mapped page is small and writable by the kernel alone |
| HeapRuns.StepKeepsHeap | resources/drivers/memory/functions/vmm.cpp:155-527 | no operation of a caller that gives away no heap frame and names no heap page moves a heap page |
| HeapRuns.MixedRunInv | resources/drivers/memory/functions/heap.cpp:28-90 | every interleaving of heap requests with page allocation, kernel mappings and address space operations of callers that keep off the heap keeps both invariants |
| HeapRuns.HeapApart | resources/drivers/memory/functions/heap.cpp:28-90 | after any such run a frame behind a heap page is used, behind no other heap page, and a node of no address space |
| HeapRuns.EmptyHeap | resources/drivers/memory/functions/heap.cpp:15-26 | the heap starts in its invariant on any machine whose heap range no large page blocks |
| Heap.BlocksDisjoint | resources/drivers/memory/functions/heap.cpp:28-90 | after any run two live blocks share neither page nor frame |
| Heap.KernelHeap.KernelAlloc | resources/drivers/memory/functions/heap.cpp:28-65 | the loop refines kmalloc on tables, bitmap and header |
| Heap.KernelHeap.KernelFree | resources/drivers/memory/functions/heap.cpp:67-90 | the loop refines kfree |
| Galois.MulComm | resources/libs/qr_code/qr_code.cpp:134-142 | multiplication modulo 0x11D is commutative |
| Galois.MulAssoc | resources/libs/qr_code/qr_code.cpp:134-142 | multiplication modulo 0x11D is associative |
| Galois.MulAdds | resources/libs/qr_code/qr_code.cpp:134-142 | multiplication distributes over exclusive or on both sides |
| Galois.AlphaAdd | resources/libs/qr_code/qr_code.cpp:103-131 | the product of powers of x is the power of the sum |
| Galois.AlphaPeriod | resources/libs/qr_code/qr_code.cpp:103-131 | powers of x repeat after 255 |
| Galois.AlphaInjective | resources/libs/qr_code/qr_code.cpp:103-131 | and not earlier |
| Galois.AlphaSurjective | resources/libs/qr_code/qr_code.cpp:103-131 | every non-zero byte is a power of x |
| Galois.Tables.InitGaloisField | resources/libs/qr_code/qr_code.cpp:103-131 | the loops fill exp with the powers of x, over both halves, and log with the exponent of every non-zero byte |
| Galois.Tables.GfMultiply | resources/libs/qr_code/qr_code.cpp:134-142 | the table product is the polynomial product modulo 0x11D |
| ReedSolomon.GeneratorRoots | resources/libs/qr_code/qr_code.cpp:389-423 | the generator of degree n vanishes at alpha^0 to alpha^(n-1) |
| ReedSolomon.GeneratorMonic | resources/libs/qr_code/qr_code.cpp:389-423 | and is monic |
| ReedSolomon.ClockEval | resources/libs/qr_code/qr_code.cpp:426-456 | one turn of the shift register is, at every root, one step of polynomial division |
| ReedSolomon.CodewordVanishes | resources/libs/qr_code/qr_code.cpp:426-456 | data followed by its check bytes vanishes at alpha^0 to alpha^(n-1), for every data block and length |
| CodeDistance.WeightBound | resources/libs/qr_code/qr_code.cpp:426-456 | a non-zero word of at most 255 bytes that vanishes at n roots has more than n non-zero bytes |
| CodeDistance.CodewordDistance | resources/libs/qr_code/qr_code.cpp:426-456 | codewords of different data blocks differ in more than n bytes |
| CodeDistance.CheckBytesUnique | resources/libs/qr_code/qr_code.cpp:426-456 | no other check bytes complete the data to a word that vanishes at the n roots |
| QrEcc.MakeGenerator | resources/libs/qr_code/qr_code.cpp:389-423 | the in-place loops build the product of the (x + alpha^i) |
| QrEcc.MakeEcc | resources/libs/qr_code/qr_code.cpp:426-456 | the in-place shift register leaves the check bytes |
| QrBits.PackBits | resources/libs/qr_code/qr_code.cpp:459-470 | packing the bits of bytes gives the bytes back |
| QrBits.BitsPack | resources/libs/qr_code/qr_code.cpp:459-470 | and the other way round for whole bytes |
| QrBits.CountRoundTrip | resources/libs/qr_code/qr_code.cpp:490-495 | a count that fits its field is read back |
| QrCodewords.SelectVersion | resources/libs/qr_code/qr_code.cpp:828-847 | the smallest version that holds the text, or 0 exactly when none does |
| QrCodewords.CountFits | resources/libs/qr_code/qr_code.cpp:473-495 | a text that fits a version has a length its count field can hold |
| QrCodewords.ReadTextRoundTrip | resources/libs/qr_code/qr_code.cpp:473-534 | mode, count and bytes read from the data bits give the text, whatever terminator and padding follow |
| QrCodewords.BlocksVanish | resources/libs/qr_code/qr_code.cpp:537-600 | each block taken out of the interleaved codewords is a Reed-Solomon codeword |
| QrCodewords.DeinterleaveRoundTrip | resources/libs/qr_code/qr_code.cpp:537-600 | taking the interleaved data blocks apart gives the data codewords back |
| QrData.WriteBit | resources/libs/qr_code/qr_code.cpp:459-470 | the bit lands behind those written, and no other bit changes |
| QrData.MakeDataCodewords | resources/libs/qr_code/qr_code.cpp:473-534 | the loops write mode, count, text, terminator, alignment and alternating pad bytes |
| QrData.MakeCodewords | resources/libs/qr_code/qr_code.cpp:537-600 | the loops write the interleaved data and check bytes of all blocks |
| QrSymbol.ColumnSix | resources/libs/qr_code/qr_code.cpp:631-643 | column 6, which the walk skips, holds function modules only |
| QrSymbol.WalkInjective | resources/libs/qr_code/qr_code.cpp:631-683 | no two steps of the zigzag meet the same module |
| QrDrawing.StepOf | resources/libs/qr_code/qr_code.cpp:631-683 | every module outside column 6 is met by a step |
| QrCapacity.Capacity | resources/libs/qr_code/qr_code.cpp:603-683 | in all ten versions the free modules number at least eight per codeword |
| QrFormat.MakeFormatBits | resources/libs/qr_code/qr_code.cpp:297-312 | the division loop computes the format word |
| QrFormat.FormatTable | resources/libs/qr_code/qr_code.cpp:297-312 | the eight format words of level L, as in the standard's table |
| QrFormat.MaskBits | resources/libs/qr_code/qr_code.cpp:297-312 | the mask number is readable from three bits of the format word |
| QrDrawing.MaskIsRule | resources/libs/qr_code/qr_code.cpp:349-387 | the encoder's eight masks are those of the reader, which has its own copy of the standard's table for row and column |
| QrLaws.MaskLaws | resources/libs/qr_code/qr_code.cpp:349-387 | mask 0 alternates in both directions, mask 1 with the row alone, mask 2 repeats every third column, mask 3 runs along diagonals |
| QrLaws.BlockMaskLaws | resources/libs/qr_code/qr_code.cpp:349-387 | mask 4 alternates between blocks three wide and two high |
| QrLaws.ProductMaskLaws | resources/libs/qr_code/qr_code.cpp:349-387 | masks 5 to 7 in terms of the product of the coordinates modulo 6 and 3 |
| QrLaws.FormatPlaces | resources/libs/qr_code/qr_code.cpp:315-346 | the fifteen places of both format copies |
| QrLaws.WalkLaws | resources/libs/qr_code/qr_code.cpp:631-683 | the walk starts in the lower right corner, goes right to left in a pair, up and down in turn, and skips column 6 |
| QrLaws.FinderPicture | resources/libs/qr_code/qr_code.cpp:171-204 | the picture of a finder, module by module |
| QrLaws.AlignmentPicture | resources/libs/qr_code/qr_code.cpp:224-294 | the picture of an alignment pattern |
| QrLaws.PatternsInPlace | resources/libs/qr_code/qr_code.cpp:603-628 | the three finders stand in their corners and the timing lines alternate |
| QrLaws.CapacityTable | resources/libs/qr_code/qr_code.cpp:828-847 | the number of bytes each of the ten versions holds |
| QrLaws.PayloadLayout | resources/libs/qr_code/qr_code.cpp:473-507 | the data bits start with mode 4 and the count and go on with the text |
| QrLaws.FillingLayout | resources/libs/qr_code/qr_code.cpp:508-534 | behind the text stand zero bits to a byte boundary, four if there is room, then 236 and 17 in turn |
| QrLaws.InterleaveOrder | resources/libs/qr_code/qr_code.cpp:537-600 | the interleaved data codewords take one from each block in turn |
| QrDecode.ReadPairsAt | resources/libs/qr_code/qr_code.cpp:631-683 | walking a drawn symbol and unmasking yields its data bits in order |
| QrDecode.DecodeRoundTrip | resources/libs/qr_code/qr_code.cpp:473-683 | any matrix that shows the codewords under some mask and the format word decodes to the text |
| QrDrawing.DrawingShowsData | resources/libs/qr_code/qr_code.cpp:631-683 | in the finished picture every free module carries its bit; drawing the format touches none of them |
| QrDrawing.DrawingShowsFormat | resources/libs/qr_code/qr_code.cpp:315-346 | both format copies and the dark module are in the finished picture |
| QrDrawing.DrawingDecodes | resources/libs/qr_code/qr_code.cpp:824-885 | for every mask the finished picture decodes to the text |
| QrEncode.Encoder.SetModule | resources/libs/qr_code/qr_code.cpp:155-168 | one module changes; coordinates outside the symbol are ignored |
| QrEncode.Encoder.DrawFinder | resources/libs/qr_code/qr_code.cpp:171-204 | finder and separator are drawn and marked, clipped to the symbol; nothing else changes |
| QrEncode.Encoder.DrawTiming | resources/libs/qr_code/qr_code.cpp:207-221 | the two timing lines, and nothing else |
| QrEncode.Encoder.DrawAlignmentPatterns | resources/libs/qr_code/qr_code.cpp:224-294 | the alignment patterns that do not run into a finder, and nothing else |
| QrEncode.Encoder.BuildFunctionPatterns | resources/libs/qr_code/qr_code.cpp:603-628 | marks exactly the function modules and draws exactly the patterns |
| QrEncode.Encoder.PlaceData | resources/libs/qr_code/qr_code.cpp:631-683 | each free module gets its bit, turned over where the mask holds, the masks being those of QrDrawing.MaskIsRule; no function module is overwritten |
| QrEncode.Encoder.DrawFormatBits | resources/libs/qr_code/qr_code.cpp:315-346 | turns the placed picture into the finished one by writing format modules only |
| QrEncode.Encoder.ChooseMask | resources/libs/qr_code/qr_code.cpp:852-878 | keeps the first picture of least penalty among the eight masks, for any penalty function |
| QrEncode.Encoder.EncodeQr | resources/libs/qr_code/qr_code.cpp:824-885 | succeeds exactly when some version holds the text; uses the smallest; the resulting matrix is the finished picture under the first mask of least penalty and decodes to the text by a reader with its own masks |
| Words.WrapInjective | resources/drivers/network/functions/tcp.cpp:456-460 | positions closer than 2^32 are told apart by their sequence numbers |
| Words.AckInWindow | resources/drivers/network/functions/tcp.cpp:445-449 | the two signed 32-bit comparisons accept exactly the numbers of outstanding positions |
| Words.SignedDifference | resources/drivers/network/functions/tcp.cpp:335-346 | the signed difference of two sequence numbers is the difference of their positions |
| TcpSegments.PayloadInOrder | resources/drivers/network/functions/tcp.cpp:456-499 | for a genuine segment within 2^32, the number tests say exactly where its payload and its end lie |
| TcpSegments.TakeInOrderTracks | resources/drivers/network/functions/tcp.cpp:460-496 | taking an in-order payload advances the position and keeps the received bytes the peer's |
| TcpSegments.PeerMssFromOptions | resources/drivers/network/functions/tcp.cpp:116-147 | terminates for all option bytes and returns the least of 1460 and the well-formed advertised sizes of at least 536 |
| TcpSteps.OpenKeeps | resources/drivers/network/functions/tcp.cpp:425-432 | the SYN-ACK that opens the connection establishes the stream position and keeps the window |
| TcpSteps.TakeAckWindow | resources/drivers/network/functions/tcp.cpp:443-454 | an acknowledgement moves una exactly when it names an outstanding position, to that position, for any number received |
| TcpSteps.AckBeforeSyn | resources/drivers/network/functions/tcp.cpp:443-454 | before our SYN is sent no acknowledgement number is accepted |
| TcpSteps.TakePayloadKeeps | resources/drivers/network/functions/tcp.cpp:456-499 | payload handling keeps the received bytes a prefix of the peer's stream |
| TcpSteps.TakeFinKeeps | resources/drivers/network/functions/tcp.cpp:501-522 | the peer is taken as closed only at the end of its stream; our FIN takes one number |
| TcpSteps.HandleKeeps | resources/drivers/network/functions/tcp.cpp:403-523 | every arriving segment keeps prefix, window and retransmission records |
| TcpSteps.HandleProgress | resources/drivers/network/functions/tcp.cpp:403-523 | an in-order payload is taken as far as it fits and an in-order FIN closes; a genuine segment from elsewhere changes neither; the answers are in TcpSteps.HandleAnswers |
| TcpSteps.ProcessAnswers | resources/drivers/network/functions/tcp.cpp:443-523 | what is sent in answer to any segment on an open connection: for a payload, in order or not, one acknowledgement of what has been received; for a FIN another; and our FIN exactly with the one that closes the stream |
| TcpSteps.HandleAnswers | resources/drivers/network/functions/tcp.cpp:403-523 | for the peer's segments the numbers acknowledged are those of the first position not received, after the payload and after the FIN |
| TcpSteps.SynAckAnswered | resources/drivers/network/functions/tcp.cpp:425-437 | the first and every repeated SYN-ACK is acknowledged |
| TcpSteps.DroppedSilently | resources/drivers/network/functions/tcp.cpp:403-441 | segments of no connection, resets, and anything before the SYN-ACK are not answered and change nothing but the reset mark |
| TcpSteps.HandleAllKeeps | resources/drivers/network/functions/tcp.cpp:403-523 | the same over every sequence of arrivals, lost, repeated or reordered |
| TcpSteps.HandleAllGenuine | resources/drivers/network/functions/tcp.cpp:403-523 | when every arrival is a piece of a peer's stream shorter than 2^32 - 2, or an empty acknowledgement behind its FIN, in any order and number, no segment is confused with another |
| TcpSteps.HandleAllReset | resources/drivers/network/functions/tcp.cpp:403-523 | arrivals reset an active connection if and only if one of them carries RST |
| TcpSteps.SendDataWindow | resources/drivers/network/functions/tcp.cpp:320-331 | sending n bytes keeps the window if and only if nxt - una, in 32 bits, plus n is at most the MSS (one more with a FIN) |
| TcpSteps.Unacknowledged | resources/drivers/network/functions/tcp.cpp:320-331 | the 32-bit difference nxt - una is the number of unacknowledged positions; between successful writes a whole segment fits |
| TcpSteps.FailedWriteLeavesWindow | resources/drivers/network/functions/tcp.cpp:305-362 | after the handshake and a full segment sent four times without an answer, one more byte leaves the window |
| TcpSteps.SynWindow | resources/drivers/network/functions/tcp.cpp:798-809 | sending the first SYN opens the window whatever arrived before it |
| TcpSteps.WaitTest | resources/drivers/network/functions/tcp.cpp:335-346 | the writer's loop test is true exactly while a position of the chunk is unacknowledged |
| Tcp.Connection.Enqueue | resources/drivers/network/functions/tcp.cpp:463-475 | the ring holds its old bytes followed by the new ones, across the wrap |
| Tcp.Connection.AppendResponse | resources/drivers/network/functions/tcp.cpp:476-489 | the response buffer holds its old bytes followed by the new ones, terminated |
| Tcp.Connection.Dequeue | resources/drivers/network/functions/tcp.cpp:385-396 | the oldest bytes leave the ring in order and the rest stays |
| Tcp.Connection.HandleTcp | resources/drivers/network/functions/tcp.cpp:403-523 | the handler on fields and buffers computes the handling step of the model, its answers included |
| Tcp.Connection.Poll | resources/drivers/network/functions/tcp.cpp:214-218 | all arrivals of a poll are handled in order |
| Tcp.Connection.TlsRead | resources/drivers/network/functions/tcp.cpp:364-397 | hands out the next bytes of the peer's stream, as many as are there; fails only with an empty ring and a reset, overflow, close or deadline |
| Tcp.Connection.AwaitAck | resources/drivers/network/functions/tcp.cpp:333-358 | at most three more copies of the chunk, as many as the retransmission timer was due; success only when it is acknowledged; failure only on reset, deadline, a fourth transmission or a refused send |
| Tcp.Connection.TlsWrite | resources/drivers/network/functions/tcp.cpp:305-362 | success means the whole buffer was sent in consecutive chunks of at most the MSS, each at most four times, and acknowledged; the window holds throughout if the first chunk fits, also after a failed write |
| Tcp.Connection.Connect | resources/drivers/network/functions/tcp.cpp:788-821 | a SYN at the start and one each time the timer is due, at most four, and nothing else until the SYN-ACK; a connection is open with one number acknowledged or the attempt ended by deadline or by a reset whose cause is given: an RST, four SYNs or a refused send |
| Tcp.Connection.Session | resources/drivers/network/functions/tcp.cpp:305-397 | the operations are carried out in order up to the first that fails, whose cause is given; on a network that delivers only the peer's segments, lost, repeated or reordered, the bytes read plus the ring are a prefix of its stream until overflow; the bytes put are those of the writes done, and the data segments sent carry them in order, all acknowledged when the session succeeds; the window holds once connected, also after a failure; a reset has a cause |
| Tcp.Connection.Advance | resources/drivers/network/functions/tcp.cpp:620-704 | one turn of the request loop sends a SYN while the connection is not open and the request while it is not acknowledged, exactly when due, and nothing else |
| Tcp.Connection.HttpGet | resources/drivers/network/functions/tcp.cpp:620-704 | ends only on reset, deadline or the peer's close, and a reset only for an RST, four SYNs, a refused send or a request too large; on a network that delivers only the peer's segments, lost, repeated or reordered, a positive result means that the buffer holds the entire stream, terminated, and a non-empty stream gives one unless overflow, deadline or reset intervene; at most four SYNs and four identical requests |
| Checksum.MakeChecksum | resources/drivers/network/functions/ipv4.cpp:142-160 | the loops compute the complement of the folded sum, and the 32-bit accumulator does not overflow |
| Checksum.ZeroIff | resources/drivers/network/functions/ipv4.cpp:142-160 | the receiver's test passes exactly when the sum is a positive multiple of 65535 |
| Checksum.FilledPasses | resources/drivers/network/functions/ipv4.cpp:109-109 | filling the field with the checksum over a zero field makes the test pass, and so does 0xFFFF for 0 |
| Checksum.ByteChangeDetected | resources/drivers/network/functions/ipv4.cpp:142-160 | every change of one byte in a message that passes is detected |
| Packets.IpHeaderBytes | resources/drivers/network/functions/ipv4.cpp:97-109 | the header passes its own checksum test and carries its fields |
| Packets.Ipv4Delivers | resources/drivers/network/functions/ipv4.cpp:57-199 | every packet built is accepted by the host it is addressed to, padding of the frame included, with its payload |
| Packets.UdpDelivers | resources/drivers/network/functions/udp.cpp:62-134 | every datagram built is accepted with ports and payload unchanged, for all lengths and with the 0 to 0xFFFF substitution |
| Packets.UdpEndToEnd | resources/drivers/network/functions/udp.cpp:62-134 | the same through IPv4 for every host that takes the datagram: by its address, by broadcast, or while it has none and the port is the DHCP client's |
| Packets.TcpEndToEnd | resources/drivers/network/functions/tcp.cpp:93-114 | every segment built reaches the handler of the client it is addressed to through both headers, padding and all |
| Packets.TcpDelivers | resources/drivers/network/functions/tcp.cpp:93-114 | every segment built is accepted with its numbers, flags and payload |
| Packets.CorruptedSegmentDropped | resources/drivers/network/functions/tcp.cpp:403-414 | a segment with any one byte changed is dropped |
| WireLaws.NetworkOrder | resources/drivers/network/functions/ipv4.cpp:134-140 | byte k of a 32-bit field is digit 3 - k of the number in base 256 |
| WireLaws.NetworkValue | resources/drivers/network/functions/ipv4.cpp:129-132 | reading a field weighs its bytes the same way |
| WireLaws.PseudoHeader | resources/drivers/network/functions/tcp.cpp:76-91 | addresses, protocol and length stand at their places in the pseudo header |
| Packets.BuildUdp | resources/drivers/network/functions/udp.cpp:62-96 | filling the buffers yields the datagram |
| Packets.BuildSegment | resources/drivers/network/functions/tcp.cpp:76-114 | filling the buffers yields the segment |
| Packets.BuildIpv4 | resources/drivers/network/functions/ipv4.cpp:89-113 | filling the buffer yields the packet |
| Dhcp.ParseOptions | resources/drivers/network/functions/dhcp.cpp:179-250 | the cursor loop computes the last value of each option up to the end mark, or rejects |
| Dhcp.MessageOptions | resources/drivers/network/functions/dhcp.cpp:111-157 | the option reader recovers message type and server from every message the client builds |
| WireLaws.MessageHeader | resources/drivers/network/functions/dhcp.cpp:111-128 | the place of every header field of a client message, zero elsewhere |
| WireLaws.MessageItems | resources/drivers/network/functions/dhcp.cpp:130-147 | the option list of every client message: a REQUEST carries the offered address under 50 and the server under 54 |
| WireLaws.OptionsByNumber | resources/drivers/network/functions/dhcp.cpp:179-250 | of any option list the type is the last option 53, the server 54, the mask 1, router and name server the first address of 3 and 6; options of the wrong length do not count |
| WireLaws.ReplyUnderstood | resources/drivers/network/functions/dhcp.cpp:324-400 | the client reads every reply built by the layout of RFC 2131 as the server meant it: the address for the client, the type and every setting; an OFFER as the offer of that address by that server |
| WireLaws.EchoAddressed | resources/drivers/network/functions/dhcp.cpp:324-337 | a reply that copies transaction and hardware address out of the client's message reaches that client |
| WireLaws.UsableAddresses | resources/drivers/network/functions/dhcp.cpp:83-86 | usable are the addresses of classes A to C but for 0.0.0.0 and the loopback network |
| Dhcp.Client.BeginDiscovery | resources/drivers/network/functions/dhcp.cpp:159-177 | a new transaction with a non-zero number and one DISCOVER sent |
| Dhcp.Client.Poll | resources/drivers/network/functions/dhcp.cpp:299-322 | retransmits with delays 200, 400, 800, fails after the fourth transmission of a phase, and does nothing when bound or failed |
| Dhcp.Client.Receive | resources/drivers/network/functions/dhcp.cpp:324-400 | each phase moves on exactly the right replies of the current transaction; bound and failed ignore all; what is configured on binding |
| Dhcp.Client.Run | resources/drivers/network/functions/dhcp.cpp:289-400 | over every run a bound address is usable and was offered by the selected server in the current transaction, in a packet of the run or before it; the last message sent is the REQUEST for it, and a binding made in the run was acknowledged by one of its packets; every REQUEST names an offer; since the start no message is sent more than four times before one of the other kind; bound and failed are final |
| AccountFile.CheckName | kernel_64bit/src/system/authentication/authentication.cpp:92-110 | accepts exactly 1 to 15 letters, digits, underscores and hyphens |
| AccountFile.HexRoundTrip | kernel_64bit/src/system/authentication/authentication.cpp:228-283 | decoding the hexadecimal form gives the bytes back |
| Words.HexDigits | kernel_64bit/src/system/authentication/authentication.cpp:228-248 | the sixteen digits by position in both cases, and no other character |
| AccountFile.SerializedFits | kernel_64bit/src/system/authentication/authentication.cpp:285-303 | a valid database always fits in the 4096-byte buffer |
| AccountFile.AccountRoundTrip | kernel_64bit/src/system/authentication/authentication.cpp:391-458 | an account line parses to the account |
| AccountFile.SerializeRoundTrip | kernel_64bit/src/system/authentication/authentication.cpp:285-473 | a valid database parses back to itself with no migration requested |
| AccountFile.ParsedValid | kernel_64bit/src/system/authentication/authentication.cpp:391-473 | whatever text is accepted, the result is a valid database |
| AccountFile.OldFormat | kernel_64bit/src/system/authentication/authentication.cpp:391-473 | a file of the old format is read like one of the new but with the login screen off, and asks for migration |
| AccountSteps.RemovedValid | kernel_64bit/src/system/authentication/authentication.cpp:1217-1290 | deleting another account than root keeps the database valid |
| AccountSteps.RenamedValid | kernel_64bit/src/system/authentication/authentication.cpp:1326-1384 | a rename to an unused valid name keeps it valid |
| AccountSteps.AddedValid | kernel_64bit/src/system/authentication/authentication.cpp:603-637 | so does adding |
| AccountSteps.RekeyedValid | kernel_64bit/src/system/authentication/authentication.cpp:638-650 | so does a new password |
| AccountSteps.RenameKeepsRoot | kernel_64bit/src/system/authentication/authentication.cpp:157-160 | after a rename someone may administer if and only if root itself was not renamed or a flagged account became root |
| AccountSteps.RenameCanLoseRoot | kernel_64bit/src/system/authentication/authentication.cpp:1326-1384 | a concrete rename after which nobody may administer |
| AccountSteps.RemoveKeepsRoot | kernel_64bit/src/system/authentication/authentication.cpp:1217-1290 | a deletion never has that effect |
| AccountSteps.RemovedLookup | kernel_64bit/src/system/authentication/authentication.cpp:1217-1290 | by name, a deletion takes away that account alone, and automatic login goes to root only if it was in it |
| AccountSteps.AddedLookup | kernel_64bit/src/system/authentication/authentication.cpp:603-637 | by name, adding brings that account alone, not as an administrator |
| AccountSteps.RekeyedLookup | kernel_64bit/src/system/authentication/authentication.cpp:638-650 | by name, a new password changes salt and digest of that account alone |
| AccountSteps.RenamedLookup | kernel_64bit/src/system/authentication/authentication.cpp:1326-1384 | by name, a rename moves that account with its flag and password, and automatic login with it |
| AccountRuns.NextValid | kernel_64bit/src/system/authentication/authentication.cpp:493-1387 | every command and entry keeps a valid database and a session of one of its accounts |
| AccountRuns.SessionStep | kernel_64bit/src/system/authentication/authentication.cpp:713-722 | a session begins exactly with the password of the account asked for, ends for no event, and otherwise stays with its account under whatever name it gets |
| AccountRuns.SessionOrigin | kernel_64bit/src/system/authentication/authentication.cpp:493-1387 | after any run the session is the one from before it, or that of the account whose password was typed at some event and matched what was stored for it then |
| AccountRuns.PasswordStep | kernel_64bit/src/system/authentication/authentication.cpp:599-711 | a stored password changes only when a new one was typed twice for that account, to its hash with the new salt |
| AccountRuns.FlagStep | kernel_64bit/src/system/authentication/authentication.cpp:493-1387 | no event makes an account an administrator that was none, by this or an earlier name |
| AccountRuns.NameStep | kernel_64bit/src/system/authentication/authentication.cpp:493-1387 | accounts appear and go only by confirmed creation and deletion, both by an administrator, and by renames by an administrator or the account itself; root is never deleted |
| AccountRuns.DialogueStep | kernel_64bit/src/system/authentication/authentication.cpp:1190-1324 | a password dialogue is opened only by an administrator or for one's own account, and starts from nothing |
| AccountRuns.SettingsStep | kernel_64bit/src/system/authentication/authentication.cpp:1113-1150 | the login screen is switched by administrators alone; automatic login changes only with it or follows its account |
| AccountRuns.CommandsWork | kernel_64bit/src/system/authentication/authentication.cpp:1113-1384 | with the right to do it and a disk that saves, deleting, renaming and switching the login screen take effect |
| AccountRuns.DialogueOpens | kernel_64bit/src/system/authentication/authentication.cpp:1190-1324 | the commands open the password dialogue of the account they name |
| AccountRuns.DialogueWorks | kernel_64bit/src/system/authentication/authentication.cpp:599-722 | a password typed twice in an open dialogue is the account's: whoever is asked for it next gets in with it, and with nothing that hashes differently |
| AccountRuns.DefaultAccounts | kernel_64bit/src/system/authentication/authentication.cpp:484-490 | a machine without an account file has root with the password admin, the only administrator, and user with the password user |
| Accounts.Manager.FindAccount | kernel_64bit/src/system/authentication/authentication.cpp:135-145 | the index of an account of that name, or -1 exactly when there is none |
| Accounts.Manager.SerializeDatabase | kernel_64bit/src/system/authentication/authentication.cpp:250-303 | succeeds whenever the text fits, and then the buffer holds it |
| Accounts.Manager.PersistDatabase | kernel_64bit/src/system/authentication/authentication.cpp:305-348 | the stored file reads back as the table in memory, or is as before |
| Accounts.Manager.ParseDatabase | kernel_64bit/src/system/authentication/authentication.cpp:356-473 | the loops accept exactly the texts of the grammar and leave the parsed table in the slots; a refused text leaves the settings and accounts read before the refused line |
| Accounts.Manager.Boot | kernel_64bit/src/system/authentication/authentication.cpp:725-804 | success means a valid table that agrees with the file and a session for the automatic login unless the login screen is on; a valid version-2 file is taken as it is; without a file the table holds the default accounts |
| Accounts.Manager.LoginOn | kernel_64bit/src/system/authentication/authentication.cpp:1113-1129 | takes effect exactly for an administrator whose save succeeds, otherwise nothing changes |
| Accounts.Manager.LoginOff | kernel_64bit/src/system/authentication/authentication.cpp:1130-1150 | the same, and automatic login names the user of the session |
| Accounts.Manager.ShiftLeft | kernel_64bit/src/system/authentication/authentication.cpp:1259-1264 | the in-place shift removes one slot |
| Accounts.Manager.ShiftRight | kernel_64bit/src/system/authentication/authentication.cpp:1276-1281 | the in-place shift of the rollback puts a slot back |
| Accounts.Manager.UserDel | kernel_64bit/src/system/authentication/authentication.cpp:1217-1290 | takes effect exactly when permitted and saved; otherwise list, automatic login and active index are exactly as before |
| Accounts.Manager.UserMod | kernel_64bit/src/system/authentication/authentication.cpp:1326-1384 | the same for a rename, which carries automatic login and the session's user name along |
| Accounts.Manager.UserAdd | kernel_64bit/src/system/authentication/authentication.cpp:1190-1215 | asks for a password exactly when permitted, the name is new and a slot is free |
| Accounts.Manager.Passwd | kernel_64bit/src/system/authentication/authentication.cpp:1292-1324 | asks for a password exactly for the own account or for an administrator |
| Accounts.Manager.CommitPasswordChange | kernel_64bit/src/system/authentication/authentication.cpp:599-683 | adds the account or changes the password exactly when still permitted and saved; otherwise nothing changes |
| Accounts.Manager.FinishLogin | kernel_64bit/src/system/authentication/authentication.cpp:713-722 | a session for the account asked for begins exactly for a password whose hash is the stored one; otherwise nothing changes |
| Accounts.Manager.Enter | kernel_64bit/src/system/authentication/authentication.cpp:840-865 | the Enter key does on every screen what the state machine of AccountRuns does |
| Accounts.Manager.Run | kernel_64bit/src/system/authentication/authentication.cpp:493-1387 | every run of commands and entries, with any disk behaviour, computes the state machine of AccountRuns, so all its laws hold; the table is valid, the active index names the user, and a stored file stays stored and reads back as the table |
| Selector.MatchSound | utilities/applications/WebBrowser/src/WebBrowser.cpp:3124-3153 | a greedy match is a match: compounds on ascending ancestors, adjacent across child combinators |
| Selector.MatchComplete | utilities/applications/WebBrowser/src/WebBrowser.cpp:3124-3153 | with child combinators last every match is found |
| Selector.MatchMissed | utilities/applications/WebBrowser/src/WebBrowser.cpp:3124-3153 | for every other combinator sequence of at most eight compounds a selector text and a chain of elements exist that it means and the code misses |
| Selector.CompleteIff | utilities/applications/WebBrowser/src/WebBrowser.cpp:3124-3153 | the answer to every selector text with these combinators is right for all elements if and only if no child combinator stands left of a descendant combinator |
| Selector.MissedExample | utilities/applications/WebBrowser/src/WebBrowser.cpp:3124-3153 | the selector a>b c on the chain a, b, b, c |
| Selector.HasClass | utilities/applications/WebBrowser/src/WebBrowser.cpp:3015-3044 | true exactly when some word of the class attribute equals the token, ignoring case of the attribute |
| Selector.CompoundMatches | utilities/applications/WebBrowser/src/WebBrowser.cpp:2956-3058 | the loops decide tag, id and class tokens of a compound |
| Selector.CompoundExtend | utilities/applications/WebBrowser/src/WebBrowser.cpp:2985-3056 | "#t" behind a compound asks for that id as well, ".t" for that word of the class attribute, each in lower case |
| Selector.CompoundStart | utilities/applications/WebBrowser/src/WebBrowser.cpp:2963-2983 | a bare name asks for that tag in either case |
| Selector.StarOnlyAlone | utilities/applications/WebBrowser/src/WebBrowser.cpp:2956-2983 | "*" holds of everything on its own, but with an id or class behind it only of elements tagged "*" |
| Selector.ParseRender | utilities/applications/WebBrowser/src/WebBrowser.cpp:3068-3118 | every selector of at most eight compounds is parsed to its compounds and combinators |
| Selector.ParseSelector | utilities/applications/WebBrowser/src/WebBrowser.cpp:3060-3118 | the loops compute the parse |
| Selector.SelectorMatches | utilities/applications/WebBrowser/src/WebBrowser.cpp:3060-3154 | the loops compute the greedy answer; yes is always right, no is right whenever child combinators come last |
| Chunked.DecodeRecovers | utilities/applications/WebBrowser/src/WebBrowser.cpp:4674-4764 | for every chunking, digits in either case, extensions and both line ends, decoding gives the body if it is shorter than the capacity |
| Chunked.DecodeSound | utilities/applications/WebBrowser/src/WebBrowser.cpp:4674-4764 | only chunkings are accepted, and the result is their body |
| Chunked.DecodeChunked | utilities/applications/WebBrowser/src/WebBrowser.cpp:4674-4764 | the loops decode to the front of a buffer of any capacity, also of the input buffer itself, with the same result, terminated |
| Layout.LayoutDocument | utilities/applications/WebBrowser/src/WebBrowser.cpp:4460-4532 | in the layout of every document each visible character and preformatted space appears once and in order with strictly ascending offsets; ranges are contiguous; every character is inside the columns at its word, every preformatted space inside its own; two words on a line are apart by exactly one space, which stands between them for the blank before the second; every line but the last ends at a newline, inside a word that fills it, or before a word or space that does not fit; no newline stands inside a line; the first 768 lines are kept, and lines are dropped exactly when there are more |
| Paths.NormalIdempotent | utilities/system_functions/cd/cd.cpp:31-95 | normalising a normal path changes nothing |
| Paths.SlashesIgnored | utilities/system_functions/cd/cd.cpp:41-45 | a leading or trailing slash does not change the names |
| Paths.OneMore | utilities/system_functions/cd/cd.cpp:47-80 | one more component: a name goes below, "." stays, ".." goes to the parent, and the root is its own parent |
| Paths.NormalLength | utilities/system_functions/cd/cd.cpp:31-95 | a normal path is at most one character longer than its origin, and not longer than an absolute one |
| Paths.RelativeGrows | utilities/system_functions/cd/cd.cpp:31-95 | a relative path of names becomes longer by exactly one, so one of 255 characters fills the 256-byte buffer without its terminator |
| Paths.NormalizePath | utilities/system_functions/cd/cd.cpp:31-95 | the loop of cd, ls and tree computes the component stack: empty and "." dropped, ".." pops if possible; the result of an absolute path is no longer than the path |
| Paths.NormalizeLocalPath | utilities/applications/WebBrowser/src/WebBrowser.cpp:4823-4893 | the browser's in-place version computes the same names, terminated, and fails exactly when the 128 places or the buffer run out; every path shorter than the buffer with at most 128 names at once succeeds |

## Left out

- The kernel's root is always there: the checks for a missing PML4 before `init` are not modelled, nor are the TLB and the CR3 register beyond the number of the active root.
- Pmm.PageAllocator.FreePage: requires a page of the bitmap, because the source does not check the bound.
- KernelSpace.MapPageCorrect: requires a way without large pages; `LargePages.MapPageExact` treats the others, as long as what lies behind the large page is no table.
- KernelSpace.UnmapPageCorrect: the same; the others are in `LargePages.UnmapPageExact`.
- KernelSpace.MapOverLargePage: only 2 MiB pages; the general statement is `LargePages.MapPageExact`.
- LargePages.MapPageExact: a large page that covers a page table itself is not treated; the write would then change that table.
- Heap.KmallocCorrect: requires that the heap does not reach the end of the 64-bit address space.
- Pmm.PageAllocator.Init: requires regions that end below 2^64; the boot loader's missing memory map is not modelled.
- QrEncode.Encoder.EncodeQr: the penalty is any function below 2^31 - 1; its scoring rules, the quiet zone and pixel scaling are not modelled.
- QrEncode.Encoder.PlaceData: the matrices are two-dimensional arrays; the flat index y * size + x is not modelled.
- Tcp.Connection.HandleTcp: takes the segment after the header checks; those, with address and ports, are `Packets.ReceiveTcp`.
- Tcp.Connection.HttpGet: starts with the request text; name resolution and the building of that text are not modelled, and each send is atomic.
- Tcp.Connection.TlsWrite: requires fewer than 2^31 - 1460 unacknowledged bytes, the reach of the signed comparisons.
- Tcp.Connection.Session: reads and writes stop at the first failure, as the TLS engine does; BearSSL, certificates and random numbers are foreign code.
- Packets.Ipv4Delivers: routing, ARP, the Ethernet header and ICMP echo are not modelled.
- The table of UDP port bindings is not modelled.
- Dhcp.Client.TransmitMessage: records the message whether or not the packet could be queued, as the attempt counter does.
- Accounts.Manager.Enter: takes the text of a field at once; single keys, screens and the splitting of command arguments are not modelled.
- Accounts.Manager.ParseDatabase: of a refused text, the slot behind the last complete account is not described; the database is marked invalid and nobody can log in.
- Accounts.Manager.PersistDatabase: a failed write keeps the old file; ClawFS itself is not part of this model.
- Selector.ParseSelector: the combinators are a sequence, so the source's write behind its array is not represented.
- Selector.SelectorMatches: an element's attributes are strings without NUL characters.
- Layout.LayoutDocument: alignment, boxes and grid rows are not modelled; the truncation mark of the source document is separate from dropped lines.
- Paths.NormalizePath: requires the input to fit the 256-character buffer and the part table, which the source does not check; its callers pass absolute paths, whose results fit the output buffer.
- GPU, windows, fonts, drivers, interrupts, ACPI, DNS, the shell, the process table, and the rest of the browser: user interface, hardware, or easier claims.
