# OpenCorePkg verification models

Dafny models of the parts of OpenCorePkg in which a loop, a recursion or long-lived state has to agree
with a much simpler statement, and proofs that it does. `dafny verify dfyconfig.toml` checks the project.

| file | what it models |
|---|---|
| `Machine.dfy`, `Bytes.dfy`, `MemoryMap.dfy` | machine words, 64-bit arithmetic facts, little-endian numbers, UEFI memory descriptors |
| `CustomSlide.dfy` | KASLR slide analysis: adding up lengths against "every byte of the kernel range is free" |
| `RelocationBlock.dfy` | the relocation block: allocations translated into it and addresses translated back |
| `RtProtection.dfy` | runtime descriptors disguised before boot.efi runs, and their types restored |
| `DiskImage.dfy` | the Apple disk image reader and its metadata validator |
| `Fletcher.dfy`, `Fusion.dfy` | the APFS object checksum; pairing of Fusion drives and block translation |
| `KeyHandler.dfy` | the keystroke state machine over unbounded runs of polls |
| `IfrWalk.dfy` | the nested walk over IFR opcodes against a flat scan |
| `AcpiTimer.dfy` | delays on a wrapping 24- or 32-bit counter |
| `AcpiTables.dfy`, `AcpiRoot.dfy` | the ACPI table list, the root tables and the two RSDP checksums |
| `AmlNames.dfy`, `AmlEncoding.dfy` | lookup paths; AML package lengths and name strings (sections 20.2.4 and 20.2.2 of ACPI 6.2) |
| `AmlTerms.dfy`, `AmlParser.dfy` | the AML parser: stateless trace of a search, and the parser that follows it |
| `AmlTree.dfy`, `AmlNaming.dfy` | the search over whole encoded trees, and what its naming rules find and miss |

Code that works in place is modelled in place: classes with fields for the contexts and long-lived
states, arrays for buffers and maps, methods with loops where the source has loops. Firmware calls,
allocations, zlib, random numbers and clock readings are parameters.

How the main results hang together:

- **Slides.** `ScanRange` and `RecordSlides` are the source's loops with their 64-bit accumulators. For
  disjoint descriptors a sum of lengths is a count of free bytes (`SumCountsFreeBytes`), so a slide is
  accepted exactly when every byte of its range is free memory in the part of the map the loop can reach
  (`AcceptsExactlyCovered`).
- **Disk images.** The initialiser's and validator's checks imply that nothing in the reader overflows. On
  every accepted image the read delivers exactly what `Delivered` says, chunk by chunk; on images whose
  chunks are disjoint and stay inside their blocks that is the flat sector array.
- **AML.** A search is first described without state as a *trace*: all matches in table order, and how the
  walk ends. `Parser` keeps one cursor, a path cursor, a nesting level and a match counter, stops early and
  restores what it changed; every parser method is proved to follow the trace. Matches ascend. Each is a
  declaration that spells the path together with the scopes matched since the search last started over;
  enclosing scopes that did not match are not counted. `AmlTree` closes the circle: on the encoding of any
  tree, however deep, the trace is what the naming rules select in the tree, and it fails exactly at a bank
  or index field the parser does not get over, at a term too deep for the nesting limit or at a single byte
  at the very end of the table. `AmlNaming` gives every term its qualified name (from the root, or one
  enclosing name less for each caret) and shows that a search that gets through reports exactly the places
  whose qualified name is the path if and only if no term is misplaced, term by term; that it misses nothing
  declared under relative scopes; and it joins this with path strings.
- **Key strokes.** `Handler.Valid` is kept by every poll, whatever codes and modifiers are reported, and the
  events of a poll are exactly the releases, the key that is due and the modifier changes.

What the code does differently from what one might expect, with the lemmas that show it and say exactly when:

- A descriptor without pages stops the slide scan: the loop counts on but never steps past it
  (`EmptyDescriptorHidesFreeSlide`; exactly the reachable part of the map counts, `AcceptsExactlyCovered`).
- When no slide fits, the fallback may be one above ProvideMaxSlide, because its size is compared before the
  limit is tested (`FallbackBeyondLimit`; exactly when that slide measures more, `FallbackRespectsLimit`).
- Name lengths are cut to 8 bits: a 256-character component passes as an empty one
  (`LongComponentSlipsThrough`; which components differ, `TranslatableExactly`).
- The block validator compares a chunk's relative end with the block's absolute end, so a read can succeed
  past the end of the image (`ReadBeyondTheEnd`; exactly when some sector leads to a chunk with content behind
  the image, `ReadsPassTheEndExactly`; never when chunks stay inside their blocks, `ContainedReadsEndInside`,
  which the validator ensures exactly for blocks that start at sector 0, `ValidatorContainsChunks`).
- Wrapping LBAs can send two Fusion blocks to one place (`WrapMergesBlocks`; exactly when,
  `PlacesCollideExactly`).
- Each half of a Fusion pair multiplies by its own sectors per block, so halves on different sector sizes send
  a block to different LBAs (`SectorSizesDisagree`; exactly when, `HalvesAgree` and `PairIsOneVolume`).
- An RSDT entry of a table at or above 4 GB is cut to 32 bits (`HighTableTruncated`; XSDT and RSDT name the
  same table exactly below 4 GB, `RootsAgree`).
- Only the start of a request is compared with the relocation block, so a grant may reach behind it
  (`GrantBeyondBlock`; exactly when, `GrantInsideBlock`).
- A changed word escapes the checksum exactly when it is congruent to the old one modulo 2^32 - 1, so
  0x00000000 and 0xFFFFFFFF can be exchanged unnoticed (`ZeroAndAllOnesCollide`, `SingleWordDetected`).
- A search for a path also reports declarations with another qualified name: below a scope that does not
  match it starts over (`RestartReportsTooMuch`), parent and root prefixes of methods and fields are ignored
  (`ParentPrefixIgnored`, `RootPrefixIgnored`), and the full root path is missed below a scope
  (`RootPathMissed`). Which terms are misplaced: `LeafMisplaced`, `PairMisplaced`, `ScopeMisplaced`; reported
  and declared places are the same exactly when there is none: `FoundIsNamed`.
- A table whose last term is a single byte makes the search fail, because the parser insists on a byte
  behind every opcode (`TrailingByteFails`), and so does an index field whose first name completes the path
  (`IndexFieldStopsSearch`); `TableSearched` says exactly where a search ends.
- The nesting limit is never reported as such: where it is reached, the header of a scope fails first
  (`LimitNotReported`).
- A legacy request exactly at the start of the relocation block is moved (`LegacyRequestAtStartMoves`; it is
  granted unchanged exactly behind the start or when the block starts at the kernel base,
  `LegacyRequestUnchanged`).

## Model

| member | source | states |
|---|---|---|
| CustomSlide.AddShared | Library/OcAfterBootCompatLib/CustomSlide.c:334-350 | adding the descriptor's size and taking off what sticks out on either side, with wrap-around, adds exactly the number of shared bytes modulo 2^64 |
| CustomSlide.ScanRange | Library/OcAfterBootCompatLib/CustomSlide.c:311-355 | the scan over index and separate cursor gives the verdict and the wrapped length sum of the part of the map in front of the first empty descriptor |
| CustomSlide.SumCountsFreeBytes | Library/OcAfterBootCompatLib/CustomSlide.c:311-355 | for disjoint descriptors the sum of overlaps is the cardinality of the set of free bytes of the range |
| CustomSlide.CountDecidesCover | Library/OcAfterBootCompatLib/CustomSlide.c:370-375 | as many free bytes as the range is long means that every byte of it is free, and conversely |
| CustomSlide.AcceptsExactlyCovered | Library/OcAfterBootCompatLib/CustomSlide.c:311-375 | a range is accepted if and only if all of it is free memory of the reachable part of the map |
| CustomSlide.AcceptedRangesAreFree | Library/OcAfterBootCompatLib/CustomSlide.c:311-375 | acceptance is sound for every disjoint map, with or without empty descriptors |
| CustomSlide.AcceptsAllFreeRanges | Library/OcAfterBootCompatLib/CustomSlide.c:311-375 | without empty descriptors acceptance is the same as being free |
| CustomSlide.EmptyDescriptorHidesFreeSlide | Library/OcAfterBootCompatLib/CustomSlide.c:314-316 | with one empty descriptor in front, slide 0 and every other slide is rejected although the kernel range of slide 0 is free |
| CustomSlide.ScanSlide | Library/OcAfterBootCompatLib/CustomSlide.c:300-375 | verdict and measured size of one slide's kernel range (the range itself: 49-68, with the Sandy and Ivy Bridge errata) |
| CustomSlide.RecordedExactly | Library/OcAfterBootCompatLib/CustomSlide.c:299-380 | a slide is recorded if and only if its whole kernel range is reachable free memory |
| CustomSlide.RecordedSlidesAreFree | Library/OcAfterBootCompatLib/CustomSlide.c:299-380 | every recorded slide lies in free memory and below the limit |
| CustomSlide.FreeSlidesAreRecorded | Library/OcAfterBootCompatLib/CustomSlide.c:299-380 | without empty descriptors no free slide up to the limit is missed |
| CustomSlide.RecordedIncreasing | Library/OcAfterBootCompatLib/CustomSlide.c:366-379 | recorded slides increase strictly, and the first is 0 exactly when slide 0 was accepted |
| CustomSlide.LargestIsMaximum | Library/OcAfterBootCompatLib/CustomSlide.c:357-368 | the fallback is the first slide of the largest measured size |
| CustomSlide.FallbackRespectsLimit | Library/OcAfterBootCompatLib/CustomSlide.c:357-368 | when nothing was recorded, the fallback respects ProvideMaxSlide if and only if the slide beyond it measures no more than those up to it |
| CustomSlide.FallbackBeyondLimit | Library/OcAfterBootCompatLib/CustomSlide.c:357-368 | a memory map on which the fallback is ProvideMaxSlide + 1 |
| CustomSlide.SlideSupport.RecordSlides | Library/OcAfterBootCompatLib/CustomSlide.c:299-380 | the outer loop fills ValidSlides with exactly the accepted slides up to the limit and finds the fallback |
| CustomSlide.SlideSupport.Decide | Library/OcAfterBootCompatLib/CustomSlide.c:108-144 | an empty list becomes the fallback alone; a custom slide is used unless all 256 slides are valid |
| CustomSlide.SlideSupport.ShouldUseCustomSlideOffset | Library/OcAfterBootCompatLib/CustomSlide.c:225-398 | the analysis runs once; afterwards state and decision no longer change, and the cached decision equals the first one |
| CustomSlide.SlideSupport.GenerateSlideValue | Library/OcAfterBootCompatLib/CustomSlide.c:76-96 | the slide is a recorded one, chosen by the first draw that does not select slide 0, and non-zero when there is a choice |
| CustomSlide.SlideSupport.RelocationSize | Library/OcAfterBootCompatLib/CustomSlide.c:879-909 | the relocation size is non-zero exactly when an analysis exists and the first slide is not 0 |
| CustomSlide.FirstSlideTellsSlideZero | Library/OcAfterBootCompatLib/CustomSlide.c:366-397 | when a slide was recorded, the first one is non-zero exactly when the range of slide 0 is not free; otherwise exactly when the fallback is another slide |
| RelocationBlock.RelocationState.AllocatePages | Library/OcAfterBootCompatLib/RelocationBlock.c:38-122 | which requests are served, when each error is returned and what it leaves in the state; over every run, also after a failed block allocation, each grant is the translation of its request and lies below the high-water mark, which grows to the largest need; legacy requests inside the block come back unchanged |
| RelocationBlock.RelocationState.Grow | Library/OcAfterBootCompatLib/RelocationBlock.c:108-121 | the high-water mark becomes the larger of itself and the end of the allocation, and the address is moved into the block |
| RelocationBlock.RelocationState.Release | Library/OcAfterBootCompatLib/RelocationBlock.c:123-151 | releasing forgets block, mark and legacy flag whatever the status of freeing the pages, and does nothing without a block |
| RelocationBlock.LegacyRequestUnchanged | Library/OcAfterBootCompatLib/RelocationBlock.c:90-119 | a legacy request into the block is granted unchanged if and only if it lies behind its start or the block starts at the kernel base |
| RelocationBlock.LegacyRequestAtStartMoves | Library/OcAfterBootCompatLib/RelocationBlock.c:90-119 | a block for which a request at its start is moved |
| RelocationBlock.DiffUndoes | Library/OcAfterBootCompatLib/RelocationBlock.c:277 | subtracting the 32-bit difference undoes the translation for every address of the block, also when the block lies below the kernel base |
| RelocationBlock.DiffUndoesModulo | Library/OcAfterBootCompatLib/RelocationBlock.c:277 | behind the block the same holds modulo 2^32 |
| RelocationBlock.GrantInsideBlock | Library/OcAfterBootCompatLib/RelocationBlock.c:97-121 | in every run a grant whose need does not wrap lies inside the block if and only if the need is at most the block's size |
| RelocationBlock.GrantBeyondBlock | Library/OcAfterBootCompatLib/RelocationBlock.c:97-121 | a run in which a granted allocation and the high-water mark end one page behind the block |
| RelocationBlock.RelocationState.Rebase | Library/OcAfterBootCompatLib/RelocationBlock.c:298-330 | exactly the addresses below the mark are rewritten; every address inside a granted allocation becomes the one the kernel asked for, modulo 2^32 and exactly when it lies in the allocated block |
| RelocationBlock.AssignVirtualAddresses | Library/OcAfterBootCompatLib/RelocationBlock.c:171-195 | the loop gives each runtime descriptor the static address behind all earlier ones and takes the runtime attribute from reserved ones |
| RelocationBlock.VirtualBlocksAreSeparate | Library/OcAfterBootCompatLib/RelocationBlock.c:171-224 | runtime blocks get disjoint virtual ranges, and the defragmentation copies them to consecutive places of the kernel's runtime area, also for a block below the kernel base |
| RtProtection.ProtectRtMemory | Library/OcAfterBootCompatLib/KernelSupport.c:45-127 | the first 64 runtime descriptors outside the system table copy are retyped and remembered, nothing else changes |
| RtProtection.FindEntry | Library/OcAfterBootCompatLib/KernelSupport.c:294-308 | the inner loop finds the first entry with exactly the descriptor's range |
| RtProtection.RestoreProtectedRtMemoryTypes | Library/OcAfterBootCompatLib/KernelSupport.c:269-323 | every descriptor in front of the last outstanding entry gets the type saved for its range |
| RtProtection.RestoredInvertsProtected | Library/OcAfterBootCompatLib/KernelSupport.c:94-126 | restoring a protected descriptor gives back the original one |
| RtProtection.AllEntriesMatched | Library/OcAfterBootCompatLib/KernelSupport.c:286-311 | after any reordering every saved entry is found again, so none is left over |
| RtProtection.ProtectRestoreRoundTrip | Library/OcAfterBootCompatLib/KernelSupport.c:286-311 | for distinct ranges, any number of descriptors and any reordering in between, protecting and restoring gives back every original type |
| DiskImage.ExtentPlace | Library/OcAppleRamDiskLib/OcAppleRamDiskLib.c:380-390 | where each extent lies in the flat RAM disk |
| DiskImage.RamDiskRead | Library/OcAppleRamDiskLib/OcAppleRamDiskLib.c:352-410 | reading across extents yields exactly the slice of the flat disk, or fails when it is not there |
| DiskImage.ValidateBlock | Library/OcAppleDiskImageLib/OcAppleDiskImageLibInternal.c:66-162 | a block is accepted if and only if its chunks fit the data, its sectors the image and its chunks' data the data fork, with all overflow checks |
| DiskImage.ValidateBlocks | Library/OcAppleDiskImageLib/OcAppleDiskImageLibInternal.c:255-307 | the block list is accepted if and only if it is not empty and every block is large enough and passes the validator |
| DiskImage.Initialize | Library/OcAppleDiskImageLib/OcAppleDiskImageLib.c:60-190 | initialisation succeeds if and only if trailer and XML can be read from the file and the trailer and every block pass, and then everything the reader relies on holds |
| DiskImage.ArithmeticStaysInRange | Library/OcAppleDiskImageLib/OcAppleDiskImageLib.c:323-344 | on an accepted image no sector sum of the lookup and no multiplication of the reader overflows |
| DiskImage.GetBlockChunk | Library/OcAppleDiskImageLib/OcAppleDiskImageLibInternal.c:324-359 | the nested search finds the first chunk that holds the sector, and none only when no chunk does |
| DiskImage.Window | Library/OcAppleDiskImageLib/OcAppleDiskImageLib.c:318-344 | offset, size and remaining sectors of the chunk; the overflow guards never fire |
| DiskImage.FlatInsideChunk | Library/OcAppleDiskImageLib/OcAppleDiskImageLib.c:313-422 | inside one chunk the flat image is the chunk's content |
| DiskImage.DeliveredIsFlat | Library/OcAppleDiskImageLib/OcAppleDiskImageLib.c:313-422 | on images with disjoint chunks inside their blocks every byte a read delivers is the flat one, and where none is delivered the flat image has a gap |
| DiskImage.ReadChunk | Library/OcAppleDiskImageLib/OcAppleDiskImageLib.c:348-415 | each kind of chunk delivers its content bytes or fails when they cannot be had |
| DiskImage.ReadStep | Library/OcAppleDiskImageLib/OcAppleDiskImageLib.c:313-422 | one iteration delivers at least one byte of the read and leaves the rest of it to the sector behind the chunk |
| DiskImage.Read | Library/OcAppleDiskImageLib/OcAppleDiskImageLib.c:281-423 | on every accepted image, for every length and mix of chunks, the read succeeds if and only if every byte it delivers exists, and delivers exactly those; on regular images these are the bytes of the flat sector array |
| DiskImage.ValidatorContainsChunks | Library/OcAppleDiskImageLib/OcAppleDiskImageLibInternal.c:138-143 | the validator keeps every accepted chunk inside its block if and only if the block starts at sector 0 |
| DiskImage.ContainedReadsEndInside | Library/OcAppleDiskImageLib/OcAppleDiskImageLib.c:313-422 | on an accepted image whose chunks stay inside their blocks every byte any read delivers lies in front of the end of the image |
| DiskImage.ReadsPassTheEndExactly | Library/OcAppleDiskImageLib/OcAppleDiskImageLib.c:313-422 | on an accepted image some read that starts inside delivers bytes behind the end if and only if the lookup of some sector leads to a chunk that reaches behind the image and has content there |
| DiskImage.ReadBeyondTheEnd | Library/OcAppleDiskImageLib/OcAppleDiskImageLib.c:313-422 | every file whose trailer is accepted for eleven sectors and whose property list yields one block of the last sector with a chunk of eleven passes initialisation, and a read of its last sector succeeds with twice its size, although no chunk holds the second sector |
| Fletcher.SumsReduce | Library/OcApfsLib/OcApfsIo.c:42-83 | the deferred sums are congruent to sums reduced after every word |
| Fletcher.SumsBounded | Library/OcApfsLib/OcApfsIo.c:42-66 | bounds on both sums that keep them inside 64 bits |
| Fletcher.ApfsFletcher64 | Library/OcApfsLib/OcApfsIo.c:23-84 | for every admissible length the loop with one final modulo never overflows and computes the textbook checksum |
| Fletcher.DeferredHalves | Library/OcApfsLib/OcApfsIo.c:68-83 | both halves are the same from deferred and from reduced sums |
| Fletcher.BlockChecksumVerify | Library/OcApfsLib/OcApfsIo.c:86-108 | a block is accepted if and only if its stored checksum is the computed one |
| Fletcher.ChecksumCloses | Library/OcApfsLib/OcApfsIo.c:68-83 | appending both halves, low one first, drives both running sums to zero |
| Fletcher.ChecksumSeparates | Library/OcApfsLib/OcApfsIo.c:23-84 | two blocks have the same checksum if and only if both sums agree modulo 2^32 - 1 |
| Fletcher.SingleWordDetected | Library/OcApfsLib/OcApfsIo.c:86-108 | replacing one word goes unnoticed if and only if the new value is congruent to the old one |
| Fletcher.ZeroAndAllOnesCollide | Library/OcApfsLib/OcApfsIo.c:86-108 | a zero word and a word of all ones give the same checksum in any place of any block |
| Fletcher.ExchangeDetected | Library/OcApfsLib/OcApfsIo.c:86-108 | exchanging two words goes unnoticed if and only if distance times difference is a multiple of 2^32 - 1 |
| Fletcher.AcceptedSizeIsChecked | Library/OcApfsLib/OcApfsIo.c:354-361 | every accepted block size meets the conditions of the checksum loop |
| Fletcher.ReadSuperBlock | Library/OcApfsLib/OcApfsIo.c:281-407 | a super block is returned if and only if the first read, or a second one of the size the first announces, passes signature, size, checksum and object header tests, and it is that block |
| Fusion.ComputeMask | Library/OcApfsLib/OcApfsFusion.c:84-93 | the shifting loop divides the tier 2 address by the power of two in the block size |
| Fusion.HalvesAgree | Library/OcApfsLib/OcApfsFusion.c:104-148 | both halves of a pair always send a block to the same device, and to the same LBA if and only if the block number without mask times the difference of their multipliers is a multiple of 2^64 |
| Fusion.MultipliersDecide | Library/OcApfsLib/OcApfsFusion.c:124-147 | both halves agree on every block if and only if their multipliers are equal |
| Fusion.SectorSizesDisagree | Library/OcApfsLib/OcApfsFusion.c:124-147 | halves of 4096-byte blocks on 512- and 4096-byte sectors send block 1 to LBA 8 and LBA 1 of one device |
| Fusion.PlacesCollideExactly | Library/OcApfsLib/OcApfsFusion.c:124-147 | two blocks share a place if and only if they are on the same tier and their LBAs differ by a multiple of 2^64 |
| Fusion.BlocksStayApart | Library/OcApfsLib/OcApfsFusion.c:124-147 | so without LBA wrap distinct blocks get distinct places |
| Fusion.WrapMergesBlocks | Library/OcApfsLib/OcApfsFusion.c:116-141 | with 4096-byte blocks on 512-byte sectors blocks 0 and 2^61 share a place |
| Fusion.AndPower | Library/OcApfsLib/OcApfsFusion.c:134-139 | testing a power-of-two mask bit is looking at the parity of the quotient |
| Fusion.MaskIsPower | Library/OcApfsLib/OcApfsFusion.c:84-93 | every mask the loop computes is a power of two |
| Fusion.Drive.TranslateBlock | Library/OcApfsLib/OcApfsFusion.c:104-148 | on a paired drive the code's mask-and-clear is the translation that splits off the tier by division |
| Fusion.Registry.InitFusionData | Library/OcApfsLib/OcApfsFusion.c:22-103 | pairs with the first fitting drive that waits, keeps all other pairs, and leaves no two waiting drives that fit |
| Fusion.Registry.Register | Library/OcApfsLib/OcApfsConnect.c:182-232 | every run of registrations keeps siblings mutual, of opposite roles and equal UUID apart from the role bit; the multiplier is the quotient of the two block sizes; earlier pairs are final |
| Fusion.RegisteredPairsAgree | Library/OcApfsLib/OcApfsFusion.c:104-148 | for every registered pair both drives find a block on the same device, and at the same LBA if and only if the difference of their multipliers does not show |
| Fusion.PairIsOneVolume | Library/OcApfsLib/OcApfsFusion.c:104-148 | for every registered pair both drives translate all blocks alike if and only if they have as many sectors per block |
| Fusion.PartnersAreUnique | Library/OcApfsLib/OcApfsFusion.c:58-102 | no drive is the partner of two |
| KeyHandler.IsDownMeans | Library/OcAppleEventLib/KeyHandler.c:687-690 | a key is down exactly when some KEY_DOWN of it has no KEY_UP behind it |
| KeyHandler.UpsFollowDownsMeans | Library/OcAppleEventLib/KeyHandler.c:448-471 | each KEY_UP has a KEY_DOWN of its key since the previous KEY_UP |
| KeyHandler.KeptOrGone | Library/OcAppleEventLib/KeyHandler.c:264-301 | after a release each key that is down is still stored or released, never both |
| KeyHandler.Handler.RemoveReleasedKeys | Library/OcAppleEventLib/KeyHandler.c:248-323 | slots of keys no longer pressed are cleared and collected in order, with Caps Lock when its press ended; the buffer of twelve suffices |
| KeyHandler.Handler.IsCapsLockOn | Library/OcAppleEventLib/KeyHandler.c:326-374 | the state flips exactly on a press that is neither stored nor latched |
| KeyHandler.Handler.CountStrokes | Library/OcAppleEventLib/KeyHandler.c:482-523 | known keys in front of the first unknown one are counted; that one cancels the current stroke and takes a free slot; codes stay distinct and at most one stroke is current |
| KeyHandler.ReportTimes | Library/OcAppleEventLib/KeyHandler.c:536-541 | a held key reports at stroke 0 and at the initial delay plus multiples of the subsequent delay, and at no other |
| KeyHandler.Handler.Judge | Library/OcAppleEventLib/KeyHandler.c:525-567 | the current stroke reports at its times; without one a changed mask alone makes the poll succeed |
| KeyHandler.Handler.GetCurrentKeyStroke | Library/OcAppleEventLib/KeyHandler.c:401-570 | stored keys are exactly those down or about to be reported, a changed mask always makes the poll succeed, Caps Lock flips on fresh presses only |
| KeyHandler.Handler.EmitModifiers | Library/OcAppleEventLib/KeyHandler.c:692-718 | the MODIFIER_UP and MODIFIER_DOWN events bring a listener to the new mask |
| KeyHandler.Handler.PollKeys | Library/OcAppleEventLib/KeyHandler.c:666-720 | every poll keeps the invariant: stored codes distinct, pressed and exactly the keys that are down, at most one current stroke, events replay to the last mask, Caps Lock state is the parity of its presses; it appends exactly a KEY_UP for each released key in table order, then a KEY_DOWN of the current stroke when it is due, then the modifier changes; a pressed key stays unstored only when the table is full or a new key is reported |
| IfrWalk.CloseOuter | Application/ControlMsrE2/ControlMsrE2Hii.c:58-94 | closing an outer scope is going on behind the END of the inner ones |
| IfrWalk.ScanSplit | Application/ControlMsrE2/ControlMsrE2Hii.c:58-94 | the flat scan can be split at the END of an inner scope |
| IfrWalk.IterateOpCode | Application/ControlMsrE2/ControlMsrE2Hii.c:58-94 | on well-nested streams the recursive walk does exactly what a flat scan does, and returns the END of its scope unless it was stopped |
| IfrWalk.ScanFoldsMatches | Application/ControlMsrE2/ControlMsrE2Hii.c:68-94 | the handler is called once for each match in stream order and never after the flag is set |
| IfrWalk.FoldFindsFirst | Application/ControlMsrE2/ControlMsrE2Hii.c:95-115 | folding the store handler over the matches leaves the first store with the id |
| IfrWalk.GetVarStore | Application/ControlMsrE2/ControlMsrE2Hii.c:116-133 | the result is the first variable store of the scope with the id, or none |
| AcpiTimer.ExpiredExactly | Library/DuetTimerLib/X86TimerLib.c:98-106 | near the target the top-bit test is exact for every start, whatever wraps |
| AcpiTimer.Wait | Library/DuetTimerLib/X86TimerLib.c:94-108 | one round returns only after more than its ticks, and in time when read often enough |
| AcpiTimer.AcpiDelay | Library/DuetTimerLib/X86TimerLib.c:83-110 | more than the requested ticks have passed for every delay, every start and however rarely the counter is read; read every half period the lateness is bounded |
| AcpiTimer.OvershootFormula | Library/DuetTimerLib/X86TimerLib.c:83-110 | the bound on the lateness in closed form |
| AcpiTimer.NanoSeconds | Library/DuetTimerLib/X86TimerLib.c:257-280 | splitting ticks into seconds and rest gives the exact quotient modulo 2^64 |
| AcpiTables.FilterKeeps | Library/OcAcpiLib/OcAcpiLib.c:796-870 | filtering keeps the wanted tables with their multiplicity and nothing else |
| AcpiTables.FilterPlaces | Library/OcAcpiLib/OcAcpiLib.c:796-870 | kept tables stay in their order |
| AcpiTables.Context.constructor | Library/OcAcpiLib/OcAcpiLib.c:796-870 | the compacting loop leaves the order-preserving filter of the root entries |
| AcpiTables.SweepAll | Library/OcAcpiLib/OcAcpiLib.c:1031-1078 | deleting while walking, with re-examination of the same index, is filtering |
| AcpiTables.SweepFirst | Library/OcAcpiLib/OcAcpiLib.c:1031-1078 | without `All` it is the removal of the first match |
| AcpiTables.Context.Delete | Library/OcAcpiLib/OcAcpiLib.c:1013-1079 | the list becomes the filtered one or the one without its first match, and the status tells whether there was one |
| AcpiTables.Context.Insert | Library/OcAcpiLib/OcAcpiLib.c:1080-1161 | which tables are rejected; otherwise the copy is appended, the list grows when full and never exceeds its capacity |
| AcpiRoot.Seal | Library/OcAcpiLib/OcAcpiLib.c:951-955 | zeroing the checksum byte and storing the complement makes the bytes sum to zero and changes nothing else |
| AcpiRoot.WriteRoot | Library/OcAcpiLib/OcAcpiLib.c:929-987 | a root table is the old header with the new length, then the addresses, and sums to zero; the rest of the region is untouched |
| AcpiRoot.RootStatesLength | Library/OcAcpiLib/OcAcpiLib.c:929-987 | the table states its own length |
| AcpiRoot.RootEnumerates | Library/OcAcpiLib/OcAcpiLib.c:929-987 | reading the entries back gives the listed addresses in order, modulo the width of the entries |
| AcpiRoot.EntryIsAddress | Library/OcAcpiLib/OcAcpiLib.c:929-987 | an entry reads back as the address if and only if the address fits the width, which is 2^32 for the RSDT and 2^64 for the XSDT |
| AcpiRoot.RootsAgree | Library/OcAcpiLib/OcAcpiLib.c:929-987 | the XSDT lists every 64-bit address, and the RSDT lists the same one if and only if it lies below 4 GB |
| AcpiRoot.HighTableTruncated | Library/OcAcpiLib/OcAcpiLib.c:966-967 | the RSDT lists a table at 4 GB as one at address 0 |
| AcpiRoot.UpdateRsdp | Library/OcAcpiLib/OcAcpiLib.c:957-1009 | the RSDP holds the new pointers and both overlapping checksums sum to zero |
| AcpiRoot.ApplyContext | Library/OcAcpiLib/OcAcpiLib.c:898-1012 | XSDT and RSDT list the addresses of all tables as wide as their entries are (so tables at or above 4 GB are truncated in the RSDT), the RSDP points to them and keeps its length, and all four checksums sum to zero |
| AmlNames.TranslateNameToOpcodes | Library/OcAcpiLib/AcpiParser.c:1858-1905 | an identifier is packed if and only if what its 8-bit length leaves has at most four legal characters; the result is the upper-case, underscore-padded name |
| AmlNames.MatchIsEquality | Library/OcAcpiLib/AcpiParser.c:294-300 | the byte-reversed comparison accepts a segment if and only if it is the packed name |
| AmlNames.MatchIsPack | Library/OcAcpiLib/AcpiParser.c:294-300 | and for any 32-bit identifier if and only if packing the segment gives the identifier |
| AmlNames.JoinSplit | Library/OcAcpiLib/AcpiParser.c:1933-1984 | splitting a path at dots loses nothing |
| AmlNames.GetOpcodeArray | Library/OcAcpiLib/AcpiParser.c:1915-1985 | translation succeeds if and only if every component between dots is non-empty and translatable, and packs each of them |
| AmlNames.TranslatableMeans | Library/OcAcpiLib/AcpiParser.c:1871-1904 | for components below 256 characters acceptance is the obvious rule |
| AmlNames.TranslatableExactly | Library/OcAcpiLib/AcpiParser.c:1870-1904 | acceptance differs from the four-legal-characters rule if and only if the length is at least 256, at most 4 modulo 256, and that many leading characters are legal |
| AmlNames.LongComponentSlipsThrough | Library/OcAcpiLib/AcpiParser.c:1870-1876 | every component of 256 characters is accepted as an empty one |
| AmlEncoding.PackageRoundTrip | Library/OcAcpiLib/AcpiParser.c:121-159 | every package length in each of the four formats is read back |
| AmlEncoding.NameRoundTrip | Library/OcAcpiLib/AcpiParser.c:33-109 | every name string, with any prefixes and up to 255 segments, is read back with its end |
| AmlParser.Parser.ParseNameString | Library/OcAcpiLib/AcpiParser.c:33-109 | the cursor loop reads the name string at the cursor, fails exactly when it is cut off, and keeps the nesting level |
| AmlParser.Parser.ParsePkgLength | Library/OcAcpiLib/AcpiParser.c:121-159 | the byte loop reads the package length at the cursor |
| AmlParser.Parser.ParseAlias | Library/OcAcpiLib/AcpiParser.c:170-204 | two names are skipped exactly, or an error is reported |
| AmlParser.Parser.ParseName | Library/OcAcpiLib/AcpiParser.c:352-440 | a name and a data object are skipped exactly, or an error is reported |
| AmlParser.Parser.ParseOpRegion | Library/OcAcpiLib/AcpiParser.c:799-1059 | name, space and two operands, each of which may be a sum or difference, are skipped exactly |
| AmlParser.Parser.MatchName | Library/OcAcpiLib/AcpiParser.c:1243-1264 | the segments match if and only if they are the identifiers from the path cursor on |
| AmlParser.Parser.ParseMethodOrField | Library/OcAcpiLib/AcpiParser.c:1188-1285 | methods and fields: success at the required match, otherwise the cursor is behind the package and path cursor and nesting are restored |
| AmlParser.Parser.ParseIndexField | Library/OcAcpiLib/AcpiParser.c:1595-1725 | an index field is a match exactly when its two names are the last two identifiers; the error cases are exact |
| AmlParser.Parser.ParseBankField | Library/OcAcpiLib/AcpiParser.c:454-585 | the same for bank fields with their different error cases |
| AmlParser.Parser.ParseScopeOrDevice | Library/OcAcpiLib/AcpiParser.c:219-341 | scopes: absolute and relative names, restart after a mismatch or a counted match, and restoration behind the body |
| AmlParser.Parser.ParseTerm | Library/OcAcpiLib/AcpiParser.c:1726-1846 | every term follows its trace: bounds kept, strict progress, restored cursor and nesting on not found, termination |
| AmlParser.Search | Library/OcAcpiLib/AcpiParser.c:2067-2089 | the loop over top-level terms stops at the required match of the table's trace, or reports how the trace ends |
| AmlParser.LimitNotReported | Library/OcAcpiLib/AcpiParser.c:219-256 | no search of a table ends by reporting the nesting limit |
| AmlParser.FindEntryInMemory | Library/OcAcpiLib/AcpiParser.c:2019-2090 | every outcome is determined: bad lengths, failed allocation, bad paths, and otherwise success at the wanted match if and only if the trace has it, not found, or device error |
| AmlParser.MatchesAreDeclarations | Library/OcAcpiLib/AcpiParser.c:2073-2089 | reported offsets lie behind the table header, ascend, and are declarations that spell the path with the scopes matched since the search last started over |
| AmlTerms.PairDeclares | Library/OcAcpiLib/AcpiParser.c:1666-1725 | bank and index fields declare the rest of a path exactly when both single names match its last two identifiers |
| AmlTerms.BodyAdvances | Library/OcAcpiLib/AcpiParser.c:325-341 | one term splits off the front of what remains of a body |
| AmlTerms.TermHitLocated | Library/OcAcpiLib/AcpiParser.c:219-341 | a match spells the path together with the chain of scopes matched since the search last started over |
| AmlTerms.BodyAscends | Library/OcAcpiLib/AcpiParser.c:325-341 | no place is counted twice |
| AmlTerms.BodyNotExhausted | Library/OcAcpiLib/AcpiParser.h:101-106 | a walk that starts on an even nesting level never finds the levels used up at the start of a term |
| AmlTree.SkipLocal | Library/OcAcpiLib/AcpiParser.c:1726-1846 | a term that is skipped on its own is skipped alike wherever it stands in a table |
| AmlTree.HeaderDecodes | Library/OcAcpiLib/AcpiParser.c:219-276 | package and name of every encoded term are read back |
| AmlTree.PairTermSearched | Library/OcAcpiLib/AcpiParser.c:454-585 | an encoded bank or index field is a match exactly when its two single names are the rest of the path, and the parser gets over it exactly under the tree form of its tests |
| AmlTree.Searched | Library/OcAcpiLib/AcpiParser.c:219-341 | the trace of an encoded forest of any depth is what the naming rules select in it, and ends where they say |
| AmlTree.TableSearched | Library/OcAcpiLib/AcpiParser.c:2019-2090 | on the encoding of every tree the search finds exactly what the naming rules select, in table order, and fails exactly at a field it does not get over, a term too deep for the nesting limit or a single byte at the end |
| AmlNaming.FoundIsNamed | Library/OcAcpiLib/AcpiParser.c:219-341 | a search that gets over all terms reports exactly the places whose qualified name is the path if and only if no term is misplaced |
| AmlNaming.PlacedExactly | Library/OcAcpiLib/AcpiParser.c:219-341 | and for any search, up to where it ends, from any scope and path position: reported and declared places among the terms it comes to are the same if and only if none is misplaced |
| AmlNaming.VisitedAll | Library/OcAcpiLib/AcpiParser.c:325-341 | a search that gets over all terms comes to every place with the qualified name |
| AmlNaming.LeafMisplaced | Library/OcAcpiLib/AcpiParser.c:1188-1285 | a method or field is misplaced if and only if its prefixes lead elsewhere than to the part of the path spelled so far and its name completes one of the two |
| AmlNaming.PairMisplaced | Library/OcAcpiLib/AcpiParser.c:1595-1725 | the same for a bank or index field with two single names, the second without prefixes |
| AmlNaming.ScopeMisplaced | Library/OcAcpiLib/AcpiParser.c:219-341 | the same for relative scopes and devices; absolute ones never are misplaced |
| AmlNaming.RestartReportsTooMuch | Library/OcAcpiLib/AcpiParser.c:276-323 | Scope (A) with Method (B) in it declares A.B and is reported for B |
| AmlNaming.ParentPrefixIgnored | Library/OcAcpiLib/AcpiParser.c:1220-1264 | Scope (A) with Method (^B) in it declares B at the root and is reported for A.B |
| AmlNaming.RootPrefixIgnored | Library/OcAcpiLib/AcpiParser.c:1220-1264 | Scope (A) with Method (\B) in it declares B at the root and is reported for A.B |
| AmlNaming.RootPathMissed | Library/OcAcpiLib/AcpiParser.c:1220-1264 | Scope (A) with Method (\A.B) in it declares A.B and is not reported for it |
| AmlNaming.TrailingByteFails | Library/OcAcpiLib/AcpiParser.c:1758-1762 | a table that consists of its header and a zero byte makes every search fail |
| AmlNaming.IndexFieldStopsSearch | Library/OcAcpiLib/AcpiParser.c:1669-1676 | an index field whose first name is the whole path ends the search in front of whatever follows |
| AmlNaming.DeclaredIsFound | Library/OcAcpiLib/AcpiParser.c:219-341 | a search that gets over all terms finds every declaration whose nested relative scopes and own name are the path |
| AmlNaming.ComponentBytes | Library/OcAcpiLib/AcpiParser.c:1858-1905 | the identifiers looked for stand in a table as exactly the upper-case, padded components of the path string |
| AmlNaming.FindEntryInTree | Library/OcAcpiLib/AcpiParser.c:2019-2090 | on the encoding of a tree the result is the wanted one of the places the naming rules select for the components of the path string, not found, or an error exactly where the search does not get through; the places are those with that qualified name if and only if no term is misplaced |

## Left out

- AML: If/Else and CreateField terms. The model stops in front of them with a status of its own (`Unmodelled`); both parsers of the source can leave the context unrestored.
- AmlParser.Parser.ParseMethodOrField: stands for ParseMethod and ParseField, which share every step; power resources, processors and thermal zones likewise share one method, and externals, events and mutexes another.
- CustomSlide.ScanSlide: needs maps whose descriptor ends and kernel ranges stay in 64 bits (`Fits`).
- CustomSlide.SlideSupport.RecordSlides: the same.
- CustomSlide.SlideSupport.ShouldUseCustomSlideOffset: the same.
- CustomSlide.SlideSupport.GenerateSlideValue: random numbers are a given sequence; the endless loop over rejected draws is a result of its own.
- RelocationBlock.RelocationState.Rebase: the device tree walk is reduced to its list of addresses; driver entries, system table and boot arguments are corrected with the same difference and are not modelled.
- RelocationBlock.AssignVirtualAddresses: the switch to virtual addresses, the copying of runtime blocks and their merging in the map are not modelled.
- DiskImage.Initialize: XML and byte swapping are functions from the bytes read to trailer fields and blocks; allocation failures there are left out.
- DiskImage.Read: zlib is an arbitrary function of the packed bytes and the size; nothing is promised for raw chunks whose file offset wraps 64 bits.
- Fusion.Registry.Register: a failed protocol installation is left out; GUIDs are a head and the last byte.
- KeyHandler.Handler.PollKeys: modifier maps are sets of bits; allocation failures and the translation to UEFI input keys are left out, and KEY_UP events of Caps Lock itself are not counted, because table and latch both report it.
- IfrWalk.GetVarStore: identifiers of stores cut off by the end of the buffer read as 0; HandleIfrOption and HandleIfrVariable are not modelled.
- AcpiTimer.AcpiDelay: a stall that never ends is a finite list of readings that does not end it.
- AcpiTables.Context.Insert: replacing the DSDT touches FADT pointers only and is a status of its own.
- AcpiRoot.ApplyContext: memory allocation below 4 GB, table regions and header normalisation are not modelled.
- ApfsReadDriver, driver verification and everything that connects protocols.
- boot.efi patching, boot-args text, call gates, firmware service overrides, boot policy and device paths.
- SHA-256, RSA, plist and PNG libraries, debugger scripts and command-line applications.
