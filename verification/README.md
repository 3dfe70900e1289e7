# Feral kernel: verified model of memory management and console

This project models the memory-management and console core of the Feral kernel in Dafny and
proves what it does on every input and every run: the x86-64 page tables, the physical frame
bitmap, the start of memory management, the text console, and the number and format printing
above it. The code is modelled as written. Where it departs from what its own documentation says,
the departure is stated, shown on a concrete input, and delimited by an exact condition.

How the parts fit together:

- `Words`, `Quotients`: machine words with explicit wrap-around, status codes, division facts.
- `PageTables`, `PageTableProofs`, `TableUse`, `Addresses`, `Validation`, `AddressSpace`: tables in physical
  memory, the processor's walk, the tree invariant, and map, unmap and validate as updates and
  reads of a partial map from virtual page to entry. `AddressSpace` is the imperative code.
- `BootTables`: the tables the boot code builds and the startup unmap of address 0.
- `FrameBitmap`, `FrameManager`, `FrameStart`: the bitmap as a set of frames, its routines in
  place, and the marking at start-up. `MemoryStart`: the memory map from Multiboot2 to the manager.
- `AllocPages`: MmKernelAllocPages over both.
- `MemFuncs`: copy, compare and fill. `Tapes`, `VgaDriver`: the console as a window on a tape.
- `Numerals`, `Itoa`: number texts and their in-place conversion. `Formats`, `Tokens`, `PrintFmt`: the
  format scanner, what a format means without it, and the loops.

Findings, each with its lemmas:

- Validate reads its last table from the PDP. A mapped page can be reported as free
  (`ValidateMissesMappedPage`) and a free one as in use (`ValidateReportsFreePage`);
  `ValidateDocumented` says exactly when, in terms of the mapped pages.
- Unmap clears the whole 512 GiB slot (`UnmapRemovesNeighbour`, `UnmapDocumented`); the startup
  code relies on it (`UnmapLowMemory`).
- The commit loop of MmKernelAllocPages maps one page again and again, so a request for two or
  more pages fails and leaves one page mapped (`TwoPagesLeaveOne`, `TransactionExact`). With both
  checks and the loop as meant it is a transaction (`MeantTransaction`).
- The first-free scan runs to the largest address, not to the end of the bitmap
  (`FullBitmapReported`, `ScanPastBitmap`, at an input `FullBitmapMissed`), and a location can touch
  the byte behind the bitmap (`TouchesPastBitmap`).
- At start-up a kernel whose frame has its bit in that byte can be stopped by a stale bit, or lose
  its mark when the heap is zeroed (`StartExact`, `StartMarks`, at an input `KernelBehindBitmap`).
- The frame that holds the last byte of the bitmap can stay free (`LastBitmapFrame`, at an input
  `BitmapFrameFree`), and the end of the heap always does (`HeapTailFree`).
- Digit 35 prints as '@', and the texts of different numbers differ exactly up to radix 68, not
  62 (`InjectiveExactly`).
- A format that ends in a percent sign and a digit is read past its NUL (`PrintedInOrder`, at an
  input `PercentFive`).
- The copy loop does not end for amounts above 2^32 - 4 (`CopyLoopEnds`); an odd screen width makes
  scrolling touch one cell behind the screen (`RoundedRows`).
- %lu, as the boot messages write it, prints the number and a letter u (`LuPrintsU`).
- A newline inside VgaStringEntry moves the cursor but not the text (`StringEntry`).

Modelling choices. A page table is named by its frame number, so the raw physical pointer of
paging.c:189 and KERN_PHYS_TO_VIRT of paging.c:300 are the same table. Entries are seen through
their bit fields; `DecodeFaithful` shows that nothing of the raw word is lost. MmKernelMalloc is a
supply of unused frames (heap.c is not part of this model); it is assumed not to run out, as the
code never checks it. Memory that holds no known word reads as zero entries. Colors are the
sixteen VGA values. The window of the frame manager is memory from the start of the bitmap on, so
that reads behind the bitmap can be described.

## Model

| member | source | states |
|---|---|---|
| PageTableProofs.LinkZero | kern/arch/x86_64/mm/paging.c:199-202 | on a zero entry the or-assignment writes exactly the address, present and writable |
| Words.BitOrBits | kern/arch/x86_64/mm/paging.c:220 | the or of two words has a bit exactly when one of them has it |
| PageTableProofs.OwnedIsTree | kern/arch/x86_64/mm/paging.c:185-241 | tables owned by one path each form a tree, and their non-present entries are zero |
| PageTableProofs.DescendKeeps | kern/arch/x86_64/mm/paging.c:205-222 | each descent keeps the tree and changes no translation, whether the table is found or created |
| PageTableProofs.MapRefines | kern/arch/x86_64/mm/paging.c:172-256 | map succeeds exactly on an unmapped page and adds that page alone; a failure changes no memory and leaves no new table |
| PageTableProofs.UnmapRefines | kern/arch/x86_64/mm/paging.c:275-306 | unmap removes every page of the top-level slot and nothing else; it fails exactly on an absent slot, changing nothing |
| PageTableProofs.UnmapDocumented | kern/arch/x86_64/mm/paging.c:258-297 | the documented removal of one page, and the documented status, hold exactly under conditions on the slot's other pages |
| PageTableProofs.UnmapRemovesNeighbour | kern/arch/x86_64/mm/paging.c:293-297 | mapping 0x1000 and 0x2000 and unmapping 0x1000 leaves neither mapped |
| PageTableProofs.RunRefines | kern/arch/x86_64/mm/paging.c:172-359 | any sequence of maps and unmaps is the same sequence of updates of a partial map, and keeps the tree |
| PageTableProofs.ReachableIsTree | kern/arch/x86_64/mm/paging.c:172-359 | every state reached from an empty PML4 is a tree with zero free entries and holds exactly the mappings asked for |
| TableUse.RunKeepsUse | kern/arch/x86_64/mm/paging.c:172-359 | after any sequence of maps and unmaps every table below the root leads to a mapped page |
| TableUse.RegionHasTable | kern/arch/x86_64/mm/paging.c:185-241 | then a 2 MiB region has its table exactly when one of its pages is mapped |
| Addresses.LevelsRebuild | kern/arch/x86_64/mm/paging.c:51-59 | the four indexes and the page offset rebuild the 48 translated bits of any address |
| Addresses.PageOfInjective | kern/arch/x86_64/mm/paging.c:51-59 | two addresses share all four indexes exactly when they lie in the same page |
| Addresses.DecodeFaithful | kern/inc/arch/x86_64/mm/pageflags.h:73-93 | the bit fields of an entry determine its raw word, and its frame and high bits are those PAGE_ALIGN keeps |
| Addresses.FrameIsAligned | kern/inc/arch/x86_64/mm/pageflags.h:61 | the frame of an address is PAGE_ALIGN of it, within 52 bits |
| Addresses.LeafIsView | kern/arch/x86_64/mm/paging.c:185-256 | on well-formed tables the processor's walk finds exactly the mapped pages |
| Addresses.MapTranslates | kern/arch/x86_64/mm/paging.c:156-256 | map succeeds exactly when the address faults; then its page translates to the frame given, writable, and every other page as before |
| Addresses.RangeCommits | kern/arch/x86_64/mm/paging.c:418-424 | mapping the pages of an unmapped range one by one cannot fail and adds exactly those pages |
| Validation.ValidateReports | kern/arch/x86_64/mm/paging.c:94-154 | what validate reports: the region's table exists and the misread PDP entry leads to a present one |
| Validation.ReportsForView | kern/arch/x86_64/mm/paging.c:94-154 | what validate reports in terms of the mapped pages alone, frame 0 apart |
| Validation.ValidateDocumented | kern/arch/x86_64/mm/paging.c:80-154 | mapped pages are those map refuses; a mapped page is missed exactly when the region its lower indexes name holds no mapped page, a free page is reported exactly when that region and its own hold one |
| Validation.ReachableReports | kern/arch/x86_64/mm/paging.c:94-154 | in every state reached from an empty PML4 the operations, and frame 0, decide the report |
| Validation.MeantIsView | kern/arch/x86_64/mm/paging.c:80-141 | with the last table taken from the PD the check reports exactly the mapped pages, on any memory |
| Validation.ValidateReportsFreePage | kern/arch/x86_64/mm/paging.c:136-153 | with 0x202000 and 0x40200000 mapped the free page 0x201000 is reported as in use |
| Validation.ValidateMissesMappedPage | kern/arch/x86_64/mm/paging.c:136-153 | a page mapped at 0x1000 into an empty PML4 is reported as free |
| AddressSpaces.AddressSpace.FindPageLevels | kern/arch/x86_64/mm/paging.c:51-59 | fills the array with the four indexes, which rebuild the address |
| AddressSpaces.AddressSpace.ValidateVirtualAddress | kern/arch/x86_64/mm/paging.c:94-154 | the value stored through Result, and the failure for a null PML4 |
| AddressSpaces.AddressSpace.NextTable | kern/arch/x86_64/mm/paging.c:205-222 | one descent in place |
| AddressSpaces.AddressSpace.MapAddress | kern/arch/x86_64/mm/paging.c:172-256 | the whole new memory, and its view as an insertion into the partial map |
| AddressSpaces.AddressSpace.UnmapAddress | kern/arch/x86_64/mm/paging.c:275-306 | the whole new memory, and its view without the slot |
| BootTables.FillP2 | kern/arch/x86_64/boot/init.asm:160-173 | the loop over ecx stores the low half of each word and keeps the upper one, and words with a zero upper half become the 512 huge entries |
| BootTables.LinkWordDecodes | kern/arch/x86_64/boot/init64.asm:155-163 | the words of p4_table and p3_table are a present, writable link to the next table |
| BootTables.BootTranslates | kern/arch/x86_64/boot/init64.asm:155-166 | the boot tables translate an address exactly when both upper indexes are 0 or 511, to its low 30 bits |
| BootTables.BootMapsFirstGigabyte | kern/arch/x86_64/boot/init64.asm:155-166 | each physical address below 1 GiB is mapped at itself and above KERN_VIRT_OFFSET |
| BootTables.UnmapZeroWalk | kern/arch/x86_64/mm/paging.c:293-297 | clearing slot 0 of the boot tables faults that slot and keeps every other translation |
| BootTables.HighHalfStays | kern/arch/x86_64/archstart.c:213 | after the startup unmap the high half still maps the first gigabyte |
| BootTables.UnmapLowMemory | kern/arch/x86_64/archstart.c:212-213 | after the unmap of address 0 nothing in slot 0 translates and all else is unchanged, though both slots share a table |
| FrameBitmap.BitsAfter | kern/mm/mmsetup.c:187-195 | setting or clearing a bit changes that bit and no neighbour |
| FrameBitmap.ShiftsAreMasks | kern/mm/mmsetup.c:49-52 | the masks of the model are the shifts of the code |
| FrameBitmap.AllocateRefines | kern/mm/mmsetup.c:161-202 | a call on the bytes is a call on the set of used frames with the same status; a refused call changes nothing |
| FrameBitmap.RunRefines | kern/mm/mmsetup.c:161-202 | every run on the bytes is a run on the set, call by call |
| FrameBitmap.FramesConserved | kern/mm/mmsetup.c:161-202 | used frames = initially used + successful allocates - successful frees |
| FrameBitmap.HistoryAlternates | kern/mm/mmsetup.c:184-201 | successful allocates and frees of a frame strictly alternate, and their number decides its final state |
| FrameManagers.Take | kern/mm/mmsetup.c:161-237 | looking up and allocating again and again hands out the locations of Drain in order and uses exactly their frames |
| FrameBitmap.DrainIncreases | kern/mm/mmsetup.c:204-237 | those frames are strictly increasing, and every free frame of the bitmap is among them once |
| FrameManagers.FrameManager.LookupPhysFrame | kern/mm/mmsetup.c:135-159 | whether the frame of a location is used, and the refusal beyond memory |
| FrameManagers.FrameManager.AllocatePhysFrame | kern/mm/mmsetup.c:161-202 | the new bytes and the new set of used frames with the status |
| FrameManagers.FrameManager.LookupFreePhysFrame | kern/mm/mmsetup.c:215-237 | the location of the lowest clear bit in the bytes scanned, or a failure |
| FrameManagers.FrameManager.FreeFrameUsable | kern/mm/mmsetup.c:204-237 | when the bitmap has a free frame the scan finds the lowest one, inside memory, and allocating it succeeds |
| FrameManagers.FrameManager.FullBitmapReported | kern/mm/mmsetup.c:209-236 | a full bitmap is reported as documented exactly when the bytes behind it up to the scan's bound are full too |
| FrameManagers.FrameManager.ScanPastBitmap | kern/mm/mmsetup.c:209-236 | behind a full bitmap the scan reports a frame that can be allocated exactly when it is within memory |
| FrameManagers.FrameManager.FullBitmapMissed | kern/mm/mmsetup.c:209-236 | with memory up to 0x800000 and a full bitmap the scan reports 0x800000 or 0x801000, depending on the byte behind; the first can be allocated, the second not |
| FrameManagers.FrameManager.TouchesPastBitmap | kern/mm/mmsetup.c:107-112 | which locations use the byte behind the bitmap, and that no location goes farther |
| FrameStart.MarkFrames | kern/mm/mmsetup.c:114-119 | a marking loop marks one frame per pass, each once, stops the kernel exactly when an address is beyond memory or a frame is in use, and keeps the marks made before |
| FrameStart.RunsDisjoint | kern/mm/mmsetup.c:115-130 | the first loop ends before the frame in which the heap starts |
| FrameStart.InitializeFrames | kern/mm/mmsetup.c:105-132 | whether the kernel is stopped, and the used frames in every case; in numbers, the frames of both loops up to the address 8 MiB, and that the 0x800000 bytes behind the bitmap were zeroed between them |
| FrameStart.RunMembers | kern/mm/mmsetup.c:114-131 | the frames a marking loop passes, in closed form |
| FrameStart.StartExact | kern/mm/mmsetup.c:105-132 | the kernel is not stopped exactly when both loops stay within memory and no frame of the first has a stale bit behind the zeroed bytes |
| FrameStart.StartMarks | kern/mm/mmsetup.c:105-132 | then the two runs are disjoint and exactly they are used, except that zeroing the heap loses the kernel marks from the end of the bitmap on |
| FrameStart.StartFits | kern/mm/mmsetup.c:105-132 | runs that lie in the bitmap never stop the kernel and all stay marked |
| FrameStart.KernelBehindBitmap | kern/mm/mmsetup.c:110-130 | at a concrete input a stale bit stops the kernel though all is within memory, and without it the mark is lost |
| FrameStart.LastBitmapFrame | kern/mm/mmsetup.c:110-130 | the frame of the bitmap's last byte is marked exactly when the loop's end is no frame boundary and the heap starts below 8 MiB |
| FrameStart.BitmapFrameFree | kern/mm/mmsetup.c:110-130 | with 8 MiB of memory and the safe area at 0x100F00 that frame stays free |
| FrameStart.HeapMarkedUpTo | kern/mm/mmsetup.c:123-130 | a heap address is in a marked frame exactly up to the frame of the second loop's last pass |
| FrameStart.HeapTailFree | kern/mm/mmsetup.c:123-130 | no frame behind the address 8 MiB is marked for the heap, so its last frame never is |
| MemoryStart.HandleMemory | kern/entry/mb2entry.c:167-222 | one range per entry with its start and end, free exactly for type 1 and reserved exactly for types 2 to 4, and the largest end |
| MemoryStart.ConvertRanges | kern/kernel_main.c:177-193 | each range converted, low memory reserved |
| MemoryStart.FindMaxPAddr | kern/mm/mmsetup.c:86-98 | the largest end of all ranges |
| MemoryStart.LargestIsMaximum | kern/mm/mmsetup.c:92-96 | the running maximum is an upper bound and is attained |
| MemoryStart.ConversionsKeep | kern/kernel_main.c:179-192 | start and length survive all conversions, wrap-around included, and ranges below 1 MiB are reserved |
| MemoryStart.ConvertMap | kern/entry/mb2entry.c:174-222 | a tag of 24-byte entries gives one range per entry in order, free exactly for type 1 from 1 MiB on, and the manager's maximum is the one reported |
| AllocPages.CommitRepeats | kern/arch/x86_64/mm/paging.c:452-463 | the commit loop maps one page; its second pass always fails |
| AllocPages.TransactionExact | kern/arch/x86_64/mm/paging.c:418-463 | exactly when it succeeds, and exactly when it is all-or-nothing: at most one page, a refused request, or a first page that is mapped after all; a conflict changes nothing |
| AllocPages.MeantTransaction | kern/arch/x86_64/mm/paging.c:418-463 | with the checks and the loop as meant: success exactly for free frames and an unmapped range, adding exactly it, and all-or-nothing up to the size of an address space |
| AllocPages.TwoPagesLeaveOne | kern/arch/x86_64/mm/paging.c:452-461 | two pages asked of an empty PML4 fail and leave one page mapped |
| AllocPages.KernelAllocPages | kern/arch/x86_64/mm/paging.c:392-464 | the two checks and the commit, with no frame marked used; a success adds one page, seen through the walk, at the address asked for or at 0xFFFFFF8000000000 above the physical one, and reports that address |
| MemFuncs.CopyMemory | kern/lib/kernel_memfuncs.c:32-57 | copies the rounded amount byte by byte upwards; null pointers are refused |
| MemFuncs.CopyLoopEnds | kern/lib/kernel_memfuncs.c:42-49 | the copy loop ends exactly for amounts of at most 2^32 - 4 |
| MemFuncs.CopyIsMove | kern/lib/kernel_memfuncs.c:41-54 | for separate regions and a destination below its source the copy is the block move |
| MemFuncs.CopyRepeats | kern/lib/kernel_memfuncs.c:41-54 | for a destination above its source the first bytes repeat with the distance as period |
| MemFuncs.SetMemoryBytes | kern/lib/kernel_memfuncs.c:106-127 | fills the rounded amount and nothing else |
| MemFuncs.CompareMemory | kern/lib/kernel_memfuncs.c:59-103 | the verdict is equality of the rounded windows |
| MemFuncs.CopyThenCompare | tests/test_main.c:113-122 | a region copied to a separate place compares equal to its copy |
| Tapes.TapeContents | kern/arch/x86_64/vga/vga_driver.c:244-297 | everything on the tape after any number of characters: the characters in order, the cursor, old cells and blanks |
| Tapes.RowsFollowing | kern/arch/x86_64/vga/vga_driver.c:276-297 | how many rows the tape has when the cursor follows the input |
| Tapes.ScrolledCells | kern/arch/x86_64/vga/vga_driver.c:276-297 | from the top left the screen has scrolled by max(0, n/width - (height-1)) rows |
| Tapes.ColumnIs | kern/arch/x86_64/vga/vga_driver.c:306-311 | the column behind n characters of a line, in closed form |
| Tapes.FreshRows | kern/arch/x86_64/vga/vga_driver.c:276-297 | from the top left: how far the screen has scrolled, and the row and column of the next cell |
| VgaDriver.RoundedRows | kern/arch/x86_64/vga/vga_driver.c:66-76 | the rounding of the memory routines reaches one cell behind the screen when the width is odd, and never farther |
| VgaDriver.PushScreen | kern/arch/x86_64/vga/vga_driver.c:66-76 | the overlapping copy and the fill move the screen up one row and blank the last |
| VgaDriver.VgaConsole.constructor | kern/arch/x86_64/vga/vga_driver.c:85-115 | the screen shows the framebuffer, with the position at the top left, white 15 on black 0 and the highlight 14 |
| VgaDriver.VgaConsole.PushUp | kern/arch/x86_64/vga/vga_driver.c:66-78 | one blank row is added, the cursor drawn at its start if enabled; the recursion ends |
| VgaDriver.VgaConsole.MoveCursor | kern/arch/x86_64/vga/vga_driver.c:120-135 | the cursor cell is written if the cursor is enabled, else nothing changes |
| VgaDriver.VgaConsole.Entry | kern/arch/x86_64/vga/vga_driver.c:194-206 | exactly the cell of the 16-bit offset is written, after scrolling for a position below the screen: the letter, then a byte with the foreground in its low four bits and the background above |
| VgaDriver.VgaConsole.AutoEntry | kern/arch/x86_64/vga/vga_driver.c:248-270 | the next cell of the tape is written, with wrapping and scrolling |
| VgaDriver.VgaConsole.PutChar | kern/arch/x86_64/vga/vga_driver.c:276-297 | one character on the tape in both current colors, and the followed cursor in the highlight color |
| VgaDriver.VgaConsole.PutString | kern/lib/kernel_printfuncs.c:86-95 | any number of characters are put in order; no byte outside the screen changes |
| VgaDriver.VgaConsole.PutFresh | kern/arch/x86_64/vga/vga_driver.c:248-297 | the sliding window of a new console: each cell of the screen, the rows scrolled away, and the row and column, after any number of followed characters |
| VgaDriver.VgaConsole.ScreenShows | kern/arch/x86_64/vga/vga_driver.c:248-297 | each cell of the screen shows what belongs there after any number of characters, from any console |
| VgaDriver.VgaConsole.StringEntry | kern/arch/x86_64/vga/vga_driver.c:299-341 | every write stays on the screen; a text without tabs is one line of cells up to its first NUL, whatever newlines it holds |
| VgaDriver.VgaConsole.Control | kern/arch/x86_64/vga/vga_driver.c:318-331 | a tab puts eight spaces at the cursor, a newline moves the cursor only |
| VgaDriver.VgaConsole.Println | kern/arch/x86_64/vga/vga_driver.c:343-357 | ends in column 0 of a row on the screen: the row below the line's last character, with the line written and the cursor drawn |
| Numerals.DigitCharReads | kern/lib/kernel_binfuncs.c:105-121 | the characters of the digits below 68 are read back |
| Numerals.TextReads | kern/lib/kernel_binfuncs.c:92-134 | round trip of every number in every radix from 2 to 68 |
| Numerals.TextMinimal | kern/lib/kernel_binfuncs.c:92-134 | no leading zero and the minimal number of digits |
| Numerals.InjectiveExactly | kern/lib/kernel_binfuncs.c:102-121 | different numbers print differently exactly up to radix 68 |
| Numerals.SignedTextReads | kern/lib/kernel_binfuncs.c:155-187 | round trip of every signed number, the minimum included; a text begins with character 45 exactly for a negative one |
| Numerals.TextsFit | kern/lib/kernel_printfuncs.c:172-211 | every conversion fits its buffer with its NUL: 21, 21, 22 and 17 characters |
| Itoa.ReverseBuffer | kern/lib/kernel_binfuncs.c:124-130 | the loop reverses the text and touches nothing else |
| Itoa.ItoaBaseChange | kern/lib/kernel_binfuncs.c:92-134 | the buffer holds the text, a NUL, and its old contents behind it |
| Itoa.SignedItoa | kern/lib/kernel_binfuncs.c:155-187 | the same for signed numbers, by unsigned division |
| Itoa.KiItoa | kern/lib/kernel_binfuncs.c:189-193 | the unsigned value is printed although the parameter is signed |
| PrintFmt.KiPrint | kern/lib/kernel_printfuncs.c:86-95 | prints the characters before the first NUL |
| PrintFmt.PrintNumber | kern/lib/kernel_printfuncs.c:172-211 | converts in a buffer of the original's size and prints the text |
| PrintFmt.KiPrintFmt | kern/lib/kernel_printfuncs.c:132-256 | the loop prints the tokens of the format one after the other, each with the argument it fetches |
| Tokens.ParseUnparse | kern/lib/kernel_printfuncs.c:151-246 | every format without a NUL is the text of the tokens it is parsed into |
| Tokens.UnparseParse | kern/lib/kernel_printfuncs.c:151-246 | and of no others: parsing the text of tokens gives them back |
| Tokens.RenderToken | kern/lib/kernel_printfuncs.c:151-246 | what the scanner does with each kind of token and any text behind it |
| Tokens.RenderPrints | kern/lib/kernel_printfuncs.c:151-246 | the scanner prints the tokens of any format, in order |
| Tokens.PrintedInOrder | kern/lib/kernel_printfuncs.c:151-246 | with fitting arguments the output is the concatenation of what the tokens print; the NUL is passed exactly by a format that ends in percent and digit |
| Tokens.WrongExactly | kern/lib/kernel_printfuncs.c:163-236 | a wrong argument is fetched exactly when some token finds none of its kind behind those fetched before it |
| Tokens.PercentFive | kern/lib/kernel_printfuncs.c:216-233 | the format %5 is read past its NUL |
| Tokens.LetterS | kern/lib/kernel_printfuncs.c:165-171 | %s prints the characters before the NUL, with any text behind it |
| Tokens.LetterI | kern/lib/kernel_printfuncs.c:172-181 | %i prints the signed number with the argument's low 32 bits |
| Tokens.LetterL | kern/lib/kernel_printfuncs.c:182-191 | %l prints the signed number with the argument's 64 bits |
| Tokens.LettersUX | kern/lib/kernel_printfuncs.c:192-211 | %u prints the argument in decimal and %x in hexadecimal |
| Tokens.OtherLetters | kern/lib/kernel_printfuncs.c:212-236 | no other letter fetches an argument or prints, and %% prints a percent sign |
| Tokens.RepeatedDigit | kern/lib/kernel_printfuncs.c:216-233 | a digit is repeated as often as the next character is away from '0', modulo 256 |
| Tokens.PlainCharacter | kern/lib/kernel_printfuncs.c:237-251 | outside a directive: printing characters, 10 as a new line, 9 as eight spaces, nothing for the rest |
| Tokens.LuPrintsU | kern/lib/kernel_printfuncs.c:181-236 | %lu prints the number and a letter u |
| Tokens.MinusOne | kern/lib/kernel_printfuncs.c:172-181 | %i of 0xFFFFFFFF prints -1 |
| Formats.ArgumentsConsumed | kern/lib/kernel_printfuncs.c:158-236 | one argument per %s %i %l %u %x, in order, none otherwise; the NUL is passed exactly by a dangling format |
| Formats.DanglingEnds | kern/lib/kernel_printfuncs.c:216-233 | only a format ending in percent and digit can be read past its NUL |
| Formats.PlainText | kern/lib/kernel_printfuncs.c:237-240 | text without percent signs and control characters is printed as it stands |
| Formats.NumbersReadBack | kern/lib/kernel_printfuncs.c:172-211 | what a number directive prints is read back as its argument |

## Left out

- kern/mm/heap.c: the allocator; page tables come from a supply of unused frames instead, and start-up models only the zeroing of the heap.
- Huge pages inside x86MapAddress and x86UnmapAddress: the maps are proved on tables without them; the walk knows them for the boot tables.
- The branches of x86UnmapAddress below the top level (paging.c:298-358): never reached, since the first test accepts every present entry.
- The null checks of x86MapAddress's callers and the wrap-around of 8 * FrameSize for frame sizes from 2^61 on.
- TLB flushing, cr3, port I/O of the cursor, GDT, IDT, PIC and PIT: hardware effects.
- The tag walk of kern_init other than the memory-map tag, and entry sizes other than 24 in ConvertMap.
- KiLog2Int, KiLog2UInt, KiBlankVgaScreen, VgaAutoPrint, VgaSwapBuffers: would only add easy members, or do not do what they say.
- The keyboard handler, serial driver, shell, driver tree, ports, security and object code.
- VgaDriver.VgaConsole.StringEntry: for a text with tabs, that every write stays on the screen and what each tab puts at the cursor (Control), but not the screen after the whole text.
- VgaDriver.VgaConsole.Println: the position and the screen for texts without control characters only.
- FrameStart.InitializeFrames: does not model the fields the allocator writes into the zeroed heap; the first of them leaves the byte behind the bitmap zero, and no location reaches the others (TouchesPastBitmap).
- MemFuncs.CopyMemory: requires, for pointers that are not null, an amount for which the loop ends (CopyLoopEnds), and MemFuncs.CompareMemory the same.
- VgaDriver.VgaConsole.Entry: requires the 16-bit offset to lie in memory, and a console whose cells such an offset can reach.
- PrintFmt.KiPrintFmt: stops with a marked end where the original would read past its NUL or fetch a missing argument.
