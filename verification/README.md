# AmethystOS runtime: a verified model

A Dafny model of the freestanding runtime of AmethystOS, with proofs of what it promises its
callers. `dafny verify dfyconfig.toml` checks all of it. Pointers and `size_t` are 32 bits wide
and plain `char` is signed, as in the i386 build.

Each C routine that works by changing things is a method on the same data (chunk tables, buffers
and the framebuffer are arrays; the allocator and the screen are classes). A method is proved
equal to a function of the old state, and the theorems are lemmas about those functions, so they
hold of every input and of every sequence of calls.

**Heap.** `Chunks`, `Coalescing`, `ChunkRoutines`, `Allocator` (installer), `KernelAllocator`;
`HeapModel` is the heap as a state machine, `HeapTheorems` and `HeapRuns` hold its theorems and
`HeapLimits` the runs on which a stronger claim fails. `CHUNK_QTY` is any number of slots N >= 1.
The heap starts above address 0 and ends below 2^32, because address 0 marks an empty slot. Bytes
that a failed table insertion drops are tracked in a ghost list `leaked`. The installer's
allocator merges on both sides; the kernel's on one side only.

**Formatting.** `Text`, `NumberFormat` (`number`), `NumberReading` (reading its text back),
`IsoNumbers` (where it meets ISO C99), `Printf` (`vsprintf` against a denotation of format
strings), `PrintfLaws`, `Directives` (reading a directive inverts writing it) and `Conversions`
(what each conversion prints); `Stdlib` and `Atoi` (`reverse`, `itoa`, `atoi`) and `Printers`,
where the two printers meet. Arguments are words of the caller's stack, one for each `va_arg`, and
a string argument is the address of a C string in an arbitrary memory. The kernel's `printf.c` and
`stdlib.c` are copies of the installer's.

**Screen.** `Bitmaps` (pictures and their bytes), `Vga` (drawing primitives), `Console` (`putchar`,
`puts`), `ConsoleTheorems` (the ring of cells) and `ConsoleLines` (line breaks, and glyphs as
pictures). Statements are per pixel.

**Disk.** `Strings` (`strcmp`, `strnlen`), `Fat12Names` (8.3 names), `Fat12Dir` (search and listing),
`Fat12Path` (path walk), `Fat12Open`, `PathLaws` (what a path resolves to), and `Lba` (the boot sector's LBA to CHS conversion).
Reading a directory is an arbitrary function from cluster numbers to entries or an error; every
directory that is read holds a terminating entry.

Where code and comments disagree the model follows the code:

- `itoa`'s comment promises unsigned output for negative numbers outside base 10; `ItoaIsNumeral`
  says for which numbers it prints the promised numeral.
- Both tests for a deleted directory entry compare a signed byte with 0xE5 and never fire. The
  search skips deleted entries exactly for the names that do not begin with that byte
  (`FindSkipsDeleted`), the listing exactly when no deleted file is there (`ListingShowsDeleted`).
- Opening a directory that lists nothing fails, since `malloc(0)` is an error.
- An empty path component is an invalid argument only at the end of a path; before that it is
  looked up as a name.
- `number` departs from section 7.19.6.1 of ISO C99 in four ways: zero with precision 0 prints
  `0`; `#` also prefixes zero; `#` prefixes an octal number whose precision puts a zero first; and
  zeros fill the field although a precision is given. `ConformsUnlessDeparts` says for which
  arguments its text is that of the standard.

## Model

| member | source | states |
|---|---|---|
| HeapTheorems.FreeNeverFails | src/installer/src/std/allocator.c:177-199 | with nothing leaked and a coalesced free table, `free`, with either merge, never reaches its failure branch: a full free table and the freed block would be N+1 separated chunks among at most N-1 live blocks |
| HeapTheorems.FreeFails | src/installer/src/std/allocator.c:192-196 | `free` of a live block fails exactly when every free slot is in use and no free chunk touches the block |
| HeapTheorems.FreeChunksBound | src/installer/src/std/allocator.c:64-113 | coalesced free chunks number at most one more than the live blocks that separate them |
| HeapTheorems.MallocComplete | src/installer/src/std/allocator.c:201-224 | `malloc(n)` succeeds exactly when n > 0, n contiguous unused bytes exist and a slot is empty; each error code, that of n = 0 too, exactly when its reason holds |
| HeapTheorems.MallocDelivers | src/installer/src/std/allocator.c:201-224 | the block returned was unused heap, is new, and is the only change to the live blocks; a failure leaves them alone |
| HeapTheorems.FreeReleases | src/installer/src/std/allocator.c:177-199 | `free(p)` removes exactly the block at p and returns its bytes; any other pointer changes nothing and is an invalid argument |
| HeapTheorems.MallocThenFree | src/installer/src/std/allocator.c:177-224 | freeing what `malloc` just returned never fails and restores the live blocks and the free chunks |
| HeapTheorems.FreesCommute | src/installer/src/std/allocator.c:177-199 | two blocks may be freed in either order with the same live and free blocks in the end |
| HeapTheorems.AllFreed | src/installer/src/start.c:47-50 | with no live block the free table is the whole heap in one chunk and every request that fits is served from the base |
| HeapTheorems.WholeHeapServed | src/kernel/src/libc/allocator.c:129-150 | with no live block a request for the whole heap is served, by either allocator, exactly when the free table is coalesced |
| HeapTheorems.FreeAgrees | src/kernel/src/libc/allocator.c:108-127 | on a coalesced heap the kernel's `free` does what the installer's does, and leaves the heap coalesced, exactly when the block does not lie between two free chunks |
| HeapRuns.EverythingFreed | src/installer/src/start.c:47-50 | after any run of calls from initialisation in which the slots sufficed and every block was freed, the free table is the whole heap in one chunk and a request that fits is served from the base |
| HeapRuns.KernelInStep | src/kernel/src/libc/allocator.c:108-150 | over any run the kernel's tables stay those of the installer exactly as long as no freed block lies between two free chunks; then they are coalesced as well |
| HeapRuns.RunValid | src/installer/src/std/allocator.c:151-224 | after any run, of either allocator, live, free and leaked chunks partition the heap; the installer's free table is fully coalesced |
| HeapRuns.RunLeaks | src/installer/src/std/allocator.c:215-219 | a run of the installer's calls loses memory if and only if some `malloc` in it had the room but found every slot taken |
| HeapRuns.LeakGrowth | src/kernel/src/libc/allocator.c:108-150 | one call leaks exactly when an insertion fails, and then exactly the chunk it could not record |
| HeapRuns.BlockSurvives | src/installer/src/std/allocator.c:151-224 | a live block keeps its address and size through any calls that do not free it |
| HeapRuns.LiveBlocksApart | src/installer/src/std/allocator.c:151-224 | after any run live blocks are disjoint and inside the heap |
| HeapLimits.LeakStrandsBlock | src/installer/src/std/allocator.c:192-196 | a run with a leak after which `free` of a live block does fail |
| HeapLimits.KernelStaysSplit | src/kernel/src/libc/allocator.c:32-53 | a leak-free run of the kernel's calls that frees everything and still cannot allocate the whole heap |
| HeapLimits.KernelFreeFails | src/kernel/src/libc/allocator.c:108-127 | a run of the kernel's calls, each `malloc` finding a slot, after which `free` of a live block fails and loses it |
| Coalescing.CoalescedCanonical | src/installer/src/std/allocator.c:64-113 | fully coalesced tables that cover the same addresses hold the same chunks |
| Coalescing.AbsorbKeeps | src/installer/src/std/allocator.c:64-89 | the recursive merge keeps the covered addresses and leaves no adjacent pair |
| Coalescing.PutBackKeeps | src/kernel/src/libc/allocator.c:32-53 | giving a chunk back adds exactly its bytes, in both allocators, and keeps the installer's table coalesced |
| Coalescing.OneSidedCoalesced | src/kernel/src/libc/allocator.c:32-53 | the one-sided merge leaves a coalesced table coalesced, and does what the two-sided one does, exactly when the chunk does not fill the gap between two chunks |
| Coalescing.PutBackFails | src/installer/src/std/allocator.c:192-196 | a chunk cannot go back exactly when it touches no chunk and no slot is empty |
| Chunks.FuseShrinks | src/installer/src/std/allocator.c:64-89 | from any well-formed table a round of the merge leaves fewer slots in use, so the recursion on the edited table ends |
| HeapModel.MallocValid | src/installer/src/std/allocator.c:201-224 | `malloc` keeps the partition and full coalescing |
| HeapModel.FreeValid | src/installer/src/std/allocator.c:177-199 | `free` keeps the partition, and the installer's full coalescing |
| HeapModel.InitValid | src/installer/src/std/allocator.c:151-175 | initialisation establishes both |
| ChunkRoutines.InsertChunk | src/installer/src/std/allocator.c:49-62 | fills the first empty slot, or reports failure and changes nothing |
| ChunkRoutines.MergeRemoveChunk | src/installer/src/std/allocator.c:64-89 | the in-place recursion on a slot of its own table computes the repeated merge |
| ChunkRoutines.MergeChunk | src/installer/src/std/allocator.c:91-113 | joins a chunk to its first neighbour and merges on from there |
| ChunkRoutines.KernelMergeChunk | src/kernel/src/libc/allocator.c:32-53 | joins a chunk to its first neighbour, or inserts it |
| ChunkRoutines.RemoveChunkBySize | src/installer/src/std/allocator.c:115-132 | cuts the front off the first chunk that is large enough |
| ChunkRoutines.RemoveChunkByAddress | src/installer/src/std/allocator.c:134-149 | takes out the first chunk at an address |
| Allocator.Heap.AllocInit | src/installer/src/std/allocator.c:151-175 | resets both tables to the initial state, whatever they held |
| Allocator.Heap.Free | src/installer/src/std/allocator.c:177-199 | the new tables and error code are those of the state machine |
| Allocator.Heap.Malloc | src/installer/src/std/allocator.c:201-224 | the new tables, result and error code are those of the state machine |
| KernelAllocator.Heap.AllocInit | src/kernel/src/libc/allocator.c:91-106 | as above |
| KernelAllocator.Heap.Free | src/kernel/src/libc/allocator.c:108-127 | as above, with the one-sided merge |
| KernelAllocator.Heap.Malloc | src/kernel/src/libc/allocator.c:129-150 | as above |
| NumberFormat.Number | src/installer/src/std/printf.c:45-115 | the decremented-counter loops write exactly the closed layout spaces, sign, prefix, zeros, digits, spaces; a base outside 2 to 16 writes nothing |
| NumberFormat.LayoutLength | src/installer/src/std/printf.c:89-113 | length max(width, sign + prefix + max(precision, digits)); only one kind of padding fills the field, and which one |
| NumberFormat.LayoutValue | src/installer/src/std/printf.c:64-88 | sign and digits denote the number, signed or unsigned, for every flag combination; at most 32 digits, so `tmp` is never overrun |
| NumberReading.LayoutReadsBack | src/installer/src/std/printf.c:45-115 | the text alone, read back as blanks, sign, prefix, digits and blanks, gives the number, for every flag combination, width and precision |
| IsoNumbers.ConformsUnlessDeparts | src/installer/src/std/printf.c:45-115 | in bases 8, 10 and 16 the text is the one ISO C99 lays out if and only if none of the four departures arises, each a test on the arguments and the digit count |
| IsoNumbers.DepartsInEachWay | src/installer/src/std/printf.c:73-111 | an input and both texts for each departure |
| NumberFormat.PutDigits | src/installer/src/std/printf.c:83-88 | the division loop stores the reversed numeral in `tmp` |
| NumberFormat.Pad | src/installer/src/std/printf.c:92-94 | writes `size` characters, or none, and leaves the counter negative |
| Text.DigitsRoundTrip | src/installer/src/std/printf.c:83-88 | a numeral in either case reads back as its number in bases 2 to 36 |
| Text.DigitCharValue | src/installer/src/std/printf.c:55-57 | ORing with 0x20 keeps the value of every digit |
| Printf.VSPrintf | src/installer/src/std/printf.c:117-285 | terminates, writes what the format denotes and a NUL, and returns the length, for every format including a truncated directive |
| Printf.ReadDirective | src/installer/src/std/printf.c:138-194 | the flag, width, precision and qualifier scan reads the directive and never passes the terminator |
| Directives.ParseWritten | src/installer/src/std/printf.c:138-194 | reading a directive gives what is written in it: each flag in any order and number, width and precision as numbers, `*` or nothing, a negative width argument meaning the left side, qualifier and conversion; it stops at the last character |
| Printf.Convert | src/installer/src/std/printf.c:196-281 | each conversion writes the directive's meaning |
| Conversions.DirectiveThen | src/installer/src/std/printf.c:132-282 | the first directive prints what it prints alone, and the rest of the format goes on with the next argument: each conversion that formats an argument takes one, each `*` another |
| Conversions.StringPrints | src/installer/src/std/printf.c:209-220 | `%s` prints its argument's characters, up to the precision if there is one, with blanks up to the width before them, or after them on the left side |
| Conversions.CharPrints | src/installer/src/std/printf.c:200-207 | `%c` prints the low byte of its argument, in its field |
| Conversions.OtherPrints | src/installer/src/std/printf.c:232-281 | `%%` prints a percent sign, `%n` nothing, an unknown conversion a percent sign and itself |
| Conversions.TruncatedPrints | src/installer/src/std/printf.c:263-269 | a directive cut off by the end of the format prints a percent sign |
| Conversions.IntegerPrints | src/installer/src/std/printf.c:242-281 | an integer conversion is the layout of its argument, in the type that conversion and qualifier name, under exactly the flags, width and precision that are written |
| Conversions.PointerPrints | src/installer/src/std/printf.c:222-230 | `%p` reads back in base 16 as its argument, with eight digits at least if no width is given |
| Conversions.HexCase | src/installer/src/std/printf.c:251-255 | `%x` prints no upper-case letter, `%X` no lower-case one |
| Conversions.SignPrints | src/installer/src/std/printf.c:64-76 | without a width a signed conversion starts with a minus sign, or with the plus sign or blank its flags ask for, the plus sign first; an unsigned one with none of them |
| Printf.SkipAtoi | src/installer/src/std/printf.c:22-29 | reads the maximal run of digits as its decimal value |
| PrintfLaws.FormatCompose | src/installer/src/std/printf.c:132-282 | formatting f then g is formatting f, then g with the arguments f left over, when no directive of f runs into its end |
| PrintfLaws.ParseLocal | src/installer/src/std/printf.c:138-194 | a directive is read from its own characters only |
| PrintfLaws.RenderedValue | src/installer/src/std/printf.c:242-281 | for all flags, widths, precisions and qualifiers the text an integer conversion prints, read back as a number, is its argument in the type and base asked for |
| PrintfLaws.WidthIsMinimum | src/installer/src/std/printf.c:196-281 | no conversion that prints its argument prints less than its width |
| PrintfLaws.LiteralPrintsItself | src/installer/src/std/printf.c:132-136 | text without a percent sign comes out unchanged |
| PrintfLaws.PlainDecimal | src/installer/src/std/printf.c:257-281 | `%d` prints the signed value in decimal |
| PrintfLaws.SkipAtoiReadsBack | src/installer/src/std/printf.c:22-29 | `skip_atoi` inverts unpadded decimal output and never holds more than the number on the way |
| Stdlib.ReverseText | src/installer/src/std/stdlib.c:7-16 | the first `len` characters are reversed and nothing else changes |
| Stdlib.PrintInt | src/installer/src/std/stdlib.c:18-53 | writes the text of `itoa` and its terminator, for every int and base 2 to 36 |
| Stdlib.ItoaIsNumeral | src/installer/src/std/stdlib.c:30-41 | in bases 2 to 36 the text is the promised numeral if and only if the number is non-negative or, in base 10, greater than -2^31 |
| Atoi.ParseInt | src/installer/src/std/stdlib.c:55-68 | skips blanks and sums up all characters as digits modulo 2^32 |
| Atoi.BlanksDoNotCount | src/installer/src/std/stdlib.c:55-68 | a numeral below 2^31 behind any blanks, tabs and line breaks reads as its number |
| Atoi.StoredAddsUp | src/installer/src/std/stdlib.c:37-41 | what the base-10 loop stores, digit or not, sums up to the number again |
| Atoi.AtoiAfterItoa | src/installer/src/std/stdlib.c:18-68 | `atoi(itoa(n, 10)) = n` if and only if n is non-negative or n = -2115098112, where the error is a multiple of 2^32 |
| Printers.ItoaIsPlainNumber | src/installer/src/std/stdlib.c:18-53 | for non-negative numbers `itoa` and `number` without flags print the same text in bases 2 to 16 |
| Printers.PercentDIsItoa | src/installer/src/std/printf.c:257-281 | `%d` and `itoa` in base 10 agree on every int but -2^31 |
| Vga.DrawPixel | src/installer/src/driver/vga.c:5-14 | changes one pixel, or none off the screen |
| Vga.PixelAddress | src/installer/src/driver/vga.c:5-14 | the frame holds its pixels row by row |
| Vga.OffsetLeads | src/installer/src/driver/vga.c:17-61 | the distance from an origin to a pixel, round the 16-bit edge, is the one that leads from one to the other |
| Vga.DrawRect | src/installer/src/driver/vga.c:63-76 | fills exactly the rectangle, after 16-bit wrap and clipping |
| Vga.DrawBitmap | src/installer/src/driver/vga.c:17-61 | shows every bit of the bitmap at its place, after 16-bit wrap and clipping, and changes no other pixel; the bitmap of a picture shows exactly that picture in the two colours |
| Bitmaps.InkOfPicture | src/installer/src/driver/vga.c:31-60 | reading a picture packed eight points to a byte, the leftmost highest, and row by row, gives the picture back |
| ConsoleTheorems.RunStaysOnScreen | src/installer/src/std/stdio.c:28-70 | over any interleaving of characters, newlines, returns, colour and font changes every glyph lies wholly on the screen |
| Console.GlyphOnScreen | src/installer/src/std/stdio.c:37-46 | from any cursor position and under any font the next glyph lies wholly on the screen |
| Console.GlyphExists | src/installer/src/sys/font.c:5-15 | the bytes addressed as the glyph of a character lie in the font's data exactly for the non-negative characters other than the one just past the table |
| Console.Screen.PutChar | src/installer/src/std/stdio.c:28-70 | cursor, error code and every pixel after one character |
| Console.Screen.Puts | src/installer/src/std/stdio.c:77-83 | cursor and every pixel after a text |
| Console.Screen.Clear | src/installer/src/std/stdio.c:72-75 | every pixel has the background colour |
| ConsoleTheorems.CursorInRing | src/installer/src/std/stdio.c:37-68 | character k of a text from (0,0) goes to cell (k mod cols, (k / cols) mod rows) |
| ConsoleTheorems.TextFillsRing | src/installer/src/std/stdio.c:28-83 | closed form of the screen after a text of any length: each cell shows the last character sent to it, all other pixels are unchanged |
| ConsoleTheorems.LastCharacterShows | src/installer/src/std/stdio.c:58-68 | a pixel shows the glyph of the last character that goes to its cell |
| ConsoleTheorems.UntouchedPixel | src/installer/src/std/stdio.c:58-68 | a pixel whose cell no character goes to is unchanged |
| ConsoleLines.LineBreaks | src/installer/src/std/stdio.c:49-56 | a newline leads to column 0, one below the line the next character would go to, a return to column 0 of that line |
| ConsoleLines.DrawingAdvances | src/installer/src/std/stdio.c:58-68 | a drawn character advances the cursor by one column from its own cell |
| ConsoleLines.LinesInRing | src/installer/src/std/stdio.c:37-68 | character k of line j lands in cell (k, j mod rows) of a text whose lines are shorter than the screen is wide |
| ConsoleLines.GlyphIsPicture | src/installer/src/sys/font.c:5-15 | in a font packed from pictures the glyph of a character is its picture, or the first one for a character past the table |
| ConsoleLines.LastDrawnShows | src/installer/src/std/stdio.c:28-83 | after any text, from any cursor, a pixel shows the picture of the last character drawn over it, in the text's colours |
| ConsoleLines.UndrawnStays | src/installer/src/std/stdio.c:28-83 | a pixel no character of the text is drawn over is unchanged |
| Strings.StrCmp | src/installer/src/std/string.c:22-36 | 0 exactly for equal strings, else decided by the first difference |
| Strings.OrderDecided | src/installer/src/std/string.c:22-36 | at the first difference the string that ends, or has the smaller character, is the smaller one |
| Strings.StrNLen | src/installer/src/std/string.c:11-20 | the length of the string, or the limit if that is smaller |
| Strings.OrderAntisymmetric | src/installer/src/std/string.c:22-36 | antisymmetric except when one string ends where the other has a character above 127 |
| Fat12Names.ClusterFilenameToFilename | src/installer/src/sys/disk/fs/fat12.c:13-49 | writes the rendered name and its terminator within 13 bytes, and nothing else |
| Fat12Names.EightDotThree | src/installer/src/sys/disk/fs/fat12.c:13-49 | eight bytes of name and three of extension, filled up with blanks, render as the name, a dot if there is an extension, and the extension |
| Fat12Names.PackRender | src/installer/src/sys/disk/fs/fat12.c:13-49 | the 11 bytes of a well-formed entry are recovered from its rendering, which is therefore injective |
| Fat12Names.RenderPack | src/installer/src/sys/disk/fs/fat12.c:13-49 | the padded form of a name renders as that name |
| Fat12Names.NameMatches | src/installer/src/sys/disk/fs/fat12.c:395-400 | a well-formed entry has the requested name exactly when its bytes are the padded form of the request |
| Fat12Dir.FindEntry | src/installer/src/sys/disk/fs/fat12.c:369-404 | the first entry of that name before the terminator, or not found |
| Fat12Dir.FindByBytes | src/installer/src/sys/disk/fs/fat12.c:387-403 | among well-formed entries the one found is the first whose 11 bytes are the padded form of the name; not found exactly when there is none |
| Fat12Dir.FindSkipsDeleted | src/installer/src/sys/disk/fs/fat12.c:393-393 | for a name that some entry has, deleted entries never change the result of a search if and only if the name does not begin with byte 0xE5 |
| Fat12Dir.CountEntries | src/installer/src/sys/disk/fs/fat12.c:615-629 | counts the entries the listing has |
| Fat12Dir.FillEntries | src/installer/src/sys/disk/fs/fat12.c:636-651 | writes exactly the counted slots; slot k describes the k-th entry that is no volume label |
| Fat12Dir.ListedAt | src/installer/src/sys/disk/fs/fat12.c:636-651 | the listing has a slot for each entry that is no volume label, in order, with its kind and name |
| Fat12Dir.CreateDirEntry | src/installer/src/sys/disk/fs/fat12.c:105-121 | the name and kind of an entry |
| Fat12Dir.ListDirectory | src/installer/src/sys/disk/fs/fat12.c:611-656 | the listing, or the error of reading, of an empty listing, or of the heap |
| Fat12Dir.ListingShowsDeleted | src/installer/src/sys/disk/fs/fat12.c:622-624 | the listing is that of the undeleted entries if no deleted file is among them, and longer otherwise |
| Fat12Path.Tokenize | src/installer/src/sys/disk/fs/fat12.c:339-359 | cuts off the first component in place; an empty rest is an error |
| Fat12Path.RegularFilenameToFilename | src/installer/src/sys/disk/fs/fat12.c:51-68 | writes the string in upper case and its terminator, and nothing else |
| Fat12Path.GetEntryOfFilename | src/installer/src/sys/disk/fs/fat12.c:415-481 | the walk over the edited buffer returns the entry or error of the recursive lookup of the split path |
| PathLaws.LookupEnters | src/installer/src/sys/disk/fs/fat12.c:439-471 | before the last component the first entry of the name must be a subdirectory, and the rest is looked up in what reading its cluster gives; each failure has its error |
| PathLaws.LookupFindsWay | src/installer/src/sys/disk/fs/fat12.c:439-475 | a path resolves to an entry if and only if a chain of first matches, each read from the cluster of the subdirectory before it, leads there |
| PathLaws.LookupFails | src/installer/src/sys/disk/fs/fat12.c:439-481 | a path fails with an error if and only if its first failing component fails with it |
| PathLaws.DirectoryOfPath | src/installer/src/sys/disk/fs/fat12.c:490-526 | a path in either letter case, with or without its first slash, reads as the directory its upper-case components lead to, or fails as they do |
| PathLaws.LookupAppend | src/installer/src/sys/disk/fs/fat12.c:439-471 | resolving p/q is resolving q in the directory of p; the first component that fails decides the error |
| PathLaws.JoinSplit | src/installer/src/sys/disk/fs/fat12.c:349-358 | splitting a path loses nothing |
| PathLaws.SplitJoin | src/installer/src/sys/disk/fs/fat12.c:349-358 | splitting finds exactly the components a path was joined from |
| Fat12Open.ReadDirectory | src/installer/src/sys/disk/fs/fat12.c:490-526 | the entries of the directory the upper-cased path resolves to, or the first error |
| Fat12Open.Open | src/installer/src/sys/disk/fs/fat12.c:588-657 | root or path, the listing of the directory, and every error |
| Lba.LbaChs | src/bootloader/stage1/boot.asm:185-207 | CX and DH hold the packed cylinder, head and sector; AX and DL are restored |
| Lba.SectorAndCylinderBits | src/bootloader/stage1/boot.asm:201-202 | the upper cylinder bits never collide with the sector bits |
| Lba.LbaRoundTrip | src/bootloader/stage1/boot.asm:185-207 | for 1 to 63 sectors per track and 1 to 256 heads, decoding the registers gives the block back if and only if its cylinder is below 1024; sector and head stay in range |

## Left out

- Printf.SkipAtoi: does not model 32-bit wrap-around, which takes a width or precision of 2^31 or more; signed overflow is undefined in C.
- NumberFormat.Number: computes the field size on unbounded integers, for the same reason.
- Printf.VSPrintf: `%n` takes its argument and prints nothing, but its store to memory is not modelled.
- Console.Screen.PutChar: requires that the bytes addressed as the glyph lie in the font's data (`GlyphExists` says for which characters they do); reading outside it is undefined in C.
- Console.Screen.Puts: requires the same of each character.
- Fat12Path.GetEntryOfFilename: returns the entry as a value; in C the pointer outlives the freed directory buffer.
- Null-pointer argument checks, except the bitmap's and the screen's missing font.
- Following a FAT chain and computing block numbers of clusters: reading an entry is an arbitrary function of its first cluster.
- Releasing the directory and table buffers, and the heap they come from; what `malloc` reports there is a parameter.
- `fat12_file_read`, `disk_read`, INT 13h, paging, interrupts, PCI and port access: hardware effects with little logic of their own.
- `strlen`, `strcpy`, `strchr` and `memcpy`: short or unfinished, and nothing here depends on them.
- `sprintf` and `printf`: wrappers that hand their arguments on to `vsprintf` and `puts`.
- The kernel's `vga.c` and `stdio.c`: near copies of the installer's.
