# Verified model of the kernel study modules

This project models the parts of the repository that hold state, loops and arithmetic, and proves what
they promise. `dafny verify dfyconfig.toml` checks all of it.

- **Viewer on physical memory** (`Dram`, `RowPrinter`, `LineEditor`, `Fileview`, `FileviewTheorems`): the
  `dram` device reads at most to the end of a page and bounds its seeks; `fileview` reassembles the short
  reads into a 256-byte window, prints it in five formats, and is driven by keys. The program is imperative
  Dafny (buffers are arrays, the open file is an object); it is proved against a key automaton `Fileview.Run`
  and its drawing states `Fileview.Draws`. The end-to-end results are about every key sequence and any user
  copies: reading any row of any frame back gives the address it is labelled with and the flat memory there, as
  far as bytes arrived for that frame.
- **List module** (`MyListOpt`): real nodes with `next` and `prev`, poisoned links, the safe traversal, and
  the life of the module from init to exit, with every allocation accounted for.
- **PCI dumper** (`Pcimem`): the listing with runs collapsed to `...` as text, a reader that undoes it, the
  maximal runs it shows, and the arithmetic of the mapping.
- **Demand-paged buffer** (`Memmap`): mappings, faults and private copies over physical frames, refined to
  one flat array.
- **Page-table walk** (`V2pAddr`): four-level paging of section 4.5 of the Intel SDM, volume 3A, against the
  flat map that the tables stand for.
- **Load monitor** (`Monitor`) and **container launcher** (`NsUtsnts`): whole runs of the rate limiter, and
  all interleavings of the pipe handshake.
- `Words` and `Hex` hold machine words, byte order, C strings and hexadecimal numerals.

Memory size, page size, file size and list length are parameters. Machine words are integers with the cut
written out where the source has one (`AsInt32`, `AsInt64`). A key press is one integer, as it is after the
program keeps its low three bytes.

What the proofs found, each stated exactly:

- `dram` keeps the page number in an `int`. Position `p` shows byte `p` of memory exactly when
  `p < 2^31 * page` (`Dram.FlatIff`); the device's constant size is far below that.
- A user copy that falls short leaves its bytes in the buffer although the read reports an error, so the
  window may hold more file bytes than `datalen` counts (`Fileview.ShortCopyIsNotCounted`). `Fileview.Fill`
  gives both numbers as functions of the user copies that this fill makes. They agree exactly when the read
  that ended the fill copied nothing (`Fileview.DatalenExact`), and the window is full exactly when each read
  of this fill copied all it asked for (`Fileview.FullIffWhole`). Nothing in the source uses `datalen` later.
- Escape in the seek line does not cancel: the line becomes empty, which means address 0
  (`FileviewTheorems.EscapeGoesToStart`).
- A row fits its 80-character array exactly below location 2^56 (`RowPrinter.RowWidth`).
- When the kernel thread cannot be created, the nodes with even ids are never freed
  (`MyListOpt.Lifecycle`): the module leaks exactly when that call fails and any node was allocated.
- `pcimem` keeps the mapping size in an `int`. All items lie in the mapping exactly when the span from the
  page base fits (`Pcimem.MappingCovers`), which the item count alone does not ensure.
- The walk of `v2p_addr` returns -1 for an unmapped address, and also for one mapped address
  (`V2pAddr.MinusOneIff`). Its other answers are physical addresses exactly when the entry's attribute bits
  52 to 63 are clear (`V2pAddr.PhysicalIff`); `code/v2p_addr/readme.txt` calls the top bit a mark of physical
  addresses, the code just copies it.
- The launcher starts the container whether or not the ID maps could be written (`NsUtsnts.ContainerStarts`).
  In every run each ID is mapped, from the parent's one attempt on, exactly when that attempt opened its file
  (`NsUtsnts.ContainerMapped`).
- Without the child's own close of the write end the handshake always ends in a deadlock
  (`NsUtsnts.NoCloseDeadlocks`).
- The repository's README speaks of a load above 3; the code dumps from 1, and the model follows the code.

## Model

| member | source | states |
|---|---|---|
| Dram.DramFile.Transfer | code/dram/dram.c:66-90 | as many bytes as are asked for, lie in the page and are copied come to the buffer, each the device's byte at its distance from the position, and nothing else changes |
| Dram.DramFile.Read | code/dram/dram.c:58-95 | 0 from the end on; otherwise min(count, rest of the page) with the position moved, or -14 with the position kept when the copy falls short; every byte of the buffer is fixed in all three cases, and one user copy is made, or none from the end on |
| Dram.DramFile.Llseek | code/dram/dram.c:97-111 | in wrapping 64-bit arithmetic: the offset for SEEK_SET, position plus offset for SEEK_CUR, size plus offset for SEEK_END, each when it lies in 0..dram_size; otherwise, and for any other whence, -22 and nothing changes |
| Dram.FlatIff | code/dram/dram.c:62-78 | with the page number kept in an `int`, position p addresses byte p exactly below 2^31 pages |
| Dram.ReadStaysBelowTop | code/dram/dram.c:64-94 | a read never passes dram_size rounded up to a page, and a short one ends at a page end |
| Dram.PositionBound | code/dram/dram.c:58-111 | over any seeks and reads of any counts the position stays between 0 and dram_size rounded up to a page |
| Dram.ReadsConcatenate | code/dram/dram.c:58-95 | consecutive reads, faulting or not, deliver exactly the slice the position moved over |
| Fileview.ReadMore | tools/fileview/fileview.cpp:124-130 | one read extends the window by as many bytes of the file as were both asked for and copied, and reports success exactly when it asked for some and copied all of them |
| Fileview.Fill | tools/fileview/fileview.cpp:122-131 | the reassembly loop leaves the file bytes of all whole reads and of the one that ended it, with 0xFF behind, and a length that counts the whole reads; both are fixed by the user copies of this fill |
| Fileview.LastReadStops | tools/fileview/fileview.cpp:124-128 | the read that ends a fill asks for nothing or falls short, and every read before it copied all it asked for |
| Fileview.DatalenExact | tools/fileview/fileview.cpp:122-131 | the length never exceeds the bytes that arrived, nor these the window; it counts them all exactly when the window is full or the read that ended the fill copied nothing |
| Fileview.FullIffWhole | tools/fileview/fileview.cpp:122-131 | the window holds min(256, size rounded up to a page minus position) bytes, and the length says so, exactly when every read of this fill copies all it asks for |
| Fileview.DatalenDescribes | tools/fileview/fileview.cpp:110-131 | the first `datalen` bytes being the file and the rest 0xFF is true of a window exactly when what arrived behind them is 0xFF itself |
| Fileview.ShortCopyIsNotCounted | tools/fileview/fileview.cpp:127-131 | after a first copy of 10 bytes the length is 0 and the window is not what that length describes |
| Fileview.Refill | tools/fileview/fileview.cpp:110-131 | after erasing and seeking, the location is the position asked for, and the window and its length are those of a fill from there |
| RowPrinter.DrawRow | tools/fileview/fileview.cpp:142-194 | in each format the line left in the 80-character array is the row text for the location and the sixteen bytes |
| RowPrinter.DrawElements | tools/fileview/fileview.cpp:148-174 | the byte, word, doubleword and quadword loops print the little-endian cells of the row in 48 columns |
| RowPrinter.DrawOctaword | tools/fileview/fileview.cpp:176-182 | two quadwords, high one first, print the 128-bit little-endian value |
| RowPrinter.RowRoundTrip | tools/fileview/fileview.cpp:142-191 | reading a row back gives its address and its sixteen bytes, in all five formats and for every address |
| RowPrinter.RowCharacters | tools/fileview/fileview.cpp:185-191 | the last sixteen columns are the bytes themselves from 0x20 to 0x7E and dots for all others, in every format |
| RowPrinter.RowElement | tools/fileview/fileview.cpp:146-183 | the element at byte offset `at` has its 2k digits in the middle of the 3k columns that begin 3 at behind the label |
| RowPrinter.RowInjective | tools/fileview/fileview.cpp:142-191 | two rows are equal only for the same address and bytes |
| RowPrinter.FormatsAgree | tools/fileview/fileview.cpp:146-183 | rows of the same bytes in different formats read back alike |
| RowPrinter.CellsRoundTrip | tools/fileview/fileview.cpp:146-183 | every format spends three columns a byte and loses no byte |
| RowPrinter.RowWidth | tools/fileview/fileview.cpp:53 | a row is 78 characters exactly below 2^52 and fits its array with the NUL exactly below 2^56 |
| Hex.PrintRoundTrip | tools/fileview/fileview.cpp:143 | a zero-padded upper-case hexadecimal numeral reads back as its number |
| Hex.PrintLength | tools/fileview/fileview.cpp:143 | the numeral takes its width exactly when the number is below 16^width |
| Hex.PrintDigit | tools/fileview/fileview.cpp:143-181 | digit j from the right is the j-th hexadecimal digit of the number, from the table 0123456789ABCDEF |
| Words.LittleEndianByte | tools/fileview/fileview.cpp:133-173 | byte i of an element has weight 256^i |
| LineEditor.EditLine | tools/fileview/fileview.cpp:241-263 | the loop over `inbuf` leaves, NUL-terminated, the line that the fold of the keys yields, and takes exactly the keys up to its end |
| LineEditor.EditBounds | tools/fileview/fileview.cpp:244-262 | the line holds at most 15 printable characters, fewer while it is open |
| LineEditor.EraseUndoes | tools/fileview/fileview.cpp:251-260 | an erasing key takes back the character before it, unless that one was the 15th and closed the line |
| LineEditor.OpenLineKeeps | tools/fileview/fileview.cpp:244-262 | an open line is what is left of its keys when each erasing key takes back the nearest character before it not yet taken; erasing an empty line and all other keys do nothing |
| LineEditor.LineEnds | tools/fileview/fileview.cpp:242-262 | a line is entered exactly by newline, as it is, by escape, as the empty line, and by its fifteenth character |
| LineEditor.SeekPositionBounds | tools/fileview/fileview.cpp:266-267 | the position is the signed value of the digits aligned down to 16, and 15 characters keep it below 2^60 and not below -2^56 |
| LineEditor.SpellingMeansDigits | tools/fileview/fileview.cpp:266 | blanks, a sign and a `0x` prefix do not disturb the numeral read, and text behind it only if it goes on with a digit or turns a lone 0 into a prefix; only a minus negates it |
| LineEditor.DigitsMeanValue | tools/fileview/fileview.cpp:266-267 | a line of hexadecimal digits means their value, aligned down to 16 |
| Fileview.LineIsOneStep | tools/fileview/fileview.cpp:237-268 | a seek line typed key by key is one step of the viewer, and draws nothing until it is entered |
| Fileview.Obey | tools/fileview/fileview.cpp:202-281 | a key, or a whole seek line, takes the program to the automaton's next drawing state, or to waiting for keys |
| Fileview.Prepare | tools/fileview/fileview.cpp:66-77 | the size that a seek to the end answers gives the last position |
| Fileview.Session | tools/fileview/fileview.cpp:101-282 | for every key sequence and any user copies the main loop draws exactly one frame for every drawing state, each the screen of what arrived in its window, each fill going on with the copies where the one before stopped |
| Fileview.RunStateOk | tools/fileview/fileview.cpp:108-282 | after any keys the position is a multiple of 16 in 0..posmax, the increment is one of the eight, and the format is one of five |
| FileviewTheorems.IncrementShape | tools/fileview/fileview.cpp:113-116 | every increment in use is 2^(8+4k) with 0 <= k <= 7 |
| FileviewTheorems.NoOverflow | tools/fileview/fileview.cpp:209-234 | before its bounds are restored no position or increment leaves 64 bits, and no increment becomes 0 |
| FileviewTheorems.PosMaxLeast | tools/fileview/fileview.cpp:75-77 | posmax is the least multiple of 16 whose window reaches the end of the file |
| FileviewTheorems.SeekAccepted | tools/fileview/fileview.cpp:119 | every seek issued, after any keys, is accepted by the device and answers the position itself |
| FileviewTheorems.AddressVisible | tools/fileview/fileview.cpp:267-281 | with the position at the address's paragraph, pulled back to posmax if need be, the address is in the window |
| FileviewTheorems.SeekShowsAddress | tools/fileview/fileview.cpp:237-281 | whatever keys, erasing ones included, leave a line that names an address inside the file without a minus, that address is in the window afterwards |
| FileviewTheorems.DigitsShowAddress | tools/fileview/fileview.cpp:237-281 | in particular after typing its digits and, unless they fill the line, the newline |
| FileviewTheorems.EscapeGoesToStart | tools/fileview/fileview.cpp:250-267 | escape in the seek line moves the window to address 0 |
| FileviewTheorems.PagesAdvance | tools/fileview/fileview.cpp:222 | n page-downs at the smallest increment advance by 256n, up to posmax |
| FileviewTheorems.PageDownsCover | tools/fileview/fileview.cpp:222-281 | paging down from the start brings every byte of the file into view, with no gap |
| FileviewTheorems.PageUpUndoesPageDown | tools/fileview/fileview.cpp:222-281 | a page up after a page down comes back exactly when the page fits below posmax or the start was 0 |
| FileviewTheorems.LineUpUndoesLineDown | tools/fileview/fileview.cpp:218-281 | the same for the line keys |
| FileviewTheorems.IncrementKeysUndo | tools/fileview/fileview.cpp:113-227 | the increment keys undo each other exactly away from the bound the first one meets |
| FileviewTheorems.KeyCodes | tools/fileview/fileview.cpp:36-47 | the codes are escape, newline, and for the other keys the three bytes escape, bracket and one character |
| FileviewTheorems.FirstFrame | tools/fileview/fileview.cpp:103-116 | after any keys the first frame is that of position 0, bytes, and increment 256 |
| FileviewTheorems.HomeKey | tools/fileview/fileview.cpp:212-213 | after any keys, H, h or Home in the viewer moves to position 0 and changes nothing else |
| FileviewTheorems.EndKey | tools/fileview/fileview.cpp:214-215 | E, e or End moves to the least multiple of 16 whose window reaches the end of the file, so that the last byte is in view |
| FileviewTheorems.MoveKey | tools/fileview/fileview.cpp:113-227 | the line and page keys move by 16 and by the increment, stopping at 0 and posmax; the increment keys multiply and divide it by 16, stopping at 2^36 and 2^8 |
| FileviewTheorems.FormatKey | tools/fileview/fileview.cpp:229-234 | B, W, D, Q and O in either case choose elements of 1, 2, 4, 8 and 16 bytes and change nothing else |
| FileviewTheorems.QuitKey | tools/fileview/fileview.cpp:271-272 | escape in the viewer ends it, and no later key draws |
| FileviewTheorems.OtherKey | tools/fileview/fileview.cpp:273-281 | a key that is no command changes nothing and draws the same state again |
| FileviewTheorems.FormatKeyKeepsWindow | tools/fileview/fileview.cpp:229-234 | a format letter changes nothing but the format |
| FileviewTheorems.ScreenNeverLies | tools/fileview/fileview.cpp:110-198 | also with faulting copies, every row of every frame reads back as its address and flat memory exactly as far as bytes arrived for that frame, and 0xFF from there on; its character column shows the same bytes |
| FileviewTheorems.ScreenIsMemory | tools/fileview/fileview.cpp:101-282 | end to end over all keys: every row of a frame whose own copies were whole reads back as the labelled address and the flat memory there, up to the page of the last byte |
| FileviewTheorems.ViewMemory | tools/fileview/fileview.cpp:101-282 | the running program: the frames it draws on any keys and any user copies are one for each drawing state, and all their rows read back in this way |
| MyListOpt.MyList.AddTail | code/mylistopt/mylistopt.c:51 | the node is appended and the ring stays doubly linked around the head |
| MyListOpt.MyList.AddAll | code/mylistopt/mylistopt.c:39-54 | with allocation failing after k nodes the list gains ids 0..k-1 in order, and the result says whether all were made |
| MyListOpt.MyList.ListDel | code/mylistopt/mylistopt.c:74 | the neighbours close the gap and the node keeps poisoned links |
| MyListOpt.MyList.Visit | code/mylistopt/mylistopt.c:70-77 | a turn of the safe traversal unlinks and frees at most its own node, and goes on from a saved position that is still live |
| MyListOpt.MyList.Del | code/mylistopt/mylistopt.c:67-81 | the ring becomes the survivors in order, and the victims are freed in order, each once |
| MyListOpt.MyList.Print | code/mylistopt/mylistopt.c:56-65 | the walk prints the ids in list order |
| MyListOpt.AccountMove | code/mylistopt/mylistopt.c:74-76 | moving a node from the list to the freed ones keeps every allocation accounted for, with no double free |
| MyListOpt.IdsOfSurvivors | code/mylistopt/mylistopt.c:70-78 | on ids, a deletion drops exactly the one asked for |
| MyListOpt.DropOdd | code/mylistopt/mylistopt.c:92-96 | deleting the next odd id keeps the others in order |
| MyListOpt.OnlyEvensLeft | code/mylistopt/mylistopt.c:92-96 | after the loop exactly the even ids are left, in order |
| MyListOpt.Module.Init | code/mylistopt/mylistopt.c:83-111 | the first listing is 0..k-1, the second the even ids below k, and the result is that of the thread creation |
| MyListOpt.Module.Exit | code/mylistopt/mylistopt.c:113-127 | the list is empty, and what was on it has been freed in order |
| MyListOpt.Lifecycle | code/mylistopt/mylistopt.c:83-127 | from load to unload all nodes are freed once each, unless the thread creation failed with nodes on the list |
| Pcimem.Dump | code/pcimap/pcimem.c:115-148 | the loop with its previous value and mark flag prints the listing of the values it read, also when the mapped bytes change between reads; value i of the decoded listing is the little-endian number in the w bytes at distance i w that read i found |
| Pcimem.WidthOfLetter | code/pcimap/pcimem.c:75-95 | b, h, w and d in either case mean 1, 2, 4 and 8 bytes, and no other letter means anything |
| Pcimem.ValueLineWidth | code/pcimap/pcimem.c:137 | a value line has two digits a byte, and is at its shortest exactly for offsets below 2^16 |
| Pcimem.ChangeIsListed | code/pcimap/pcimem.c:136-138 | an item that does not repeat the one before it has a line with its offset, cut to 32 bits, and its value |
| Pcimem.ListingIsLossless | code/pcimap/pcimem.c:136-146 | from the listing, the target, the width and the count, all items can be read back, whatever was read |
| Pcimem.RunsAreMaximal | code/pcimap/pcimem.c:136-146 | the runs decompose the items, none is empty, and neighbours differ |
| Pcimem.LinesRenderRuns | code/pcimap/pcimem.c:136-146 | the listing has one value line for each maximal run and one mark for each run of two or more |
| Pcimem.NoAdjacentMarks | code/pcimap/pcimem.c:136-142 | no two marks follow each other, none comes first, and the last line is a mark exactly when the last item repeats |
| Pcimem.MappingCovers | code/pcimap/pcimem.c:103-117 | the mapping base is a page boundary not above the target, and all items lie in the mapping exactly when the span fits an `int` |
| Pcimem.WriteBack | code/pcimap/pcimem.c:152-171 | a write changes the bytes of its item only and reads back modulo 256^width |
| Pcimem.Access | code/pcimap/pcimem.c:98-175 | a whole run: value i of the decoded listing is that of the memory's w bytes at distance i w from the target, and the write changes the last item only |
| Pcimem.Command | code/pcimap/pcimem.c:80-175 | an unknown access letter ends the program with status 2 and touches nothing; otherwise the listing and the write are as in a run with the letter's width |
| Memmap.Buffer.Map | code/memmap/memmap.c:43-66 | the checks, in their order, accept or refuse as the machine step says: -6 for more than the area, then -22 for writing without sharing, then -6 for a page offset |
| Memmap.Buffer.HandleFault | code/memmap/memmap.c:85-110 | a fault hands out the area's page at the offset from the start of the mapping exactly within the area's length, looks one page behind the area for the next page, and is a bus error beyond |
| Memmap.FaultFindsPageIff | code/memmap/memmap.c:92-104 | the same of the step of the machine, for any mapping and any address not below its start |
| Memmap.ResolvesToArea | code/memmap/memmap.c:43-110 | in an accepted mapping every access finds the frame of byte a - vm_start |
| Memmap.StepRefines | code/memmap/memmap.c:43-110 | each mmap, load and store has the outcome and effect it has on one flat array |
| Memmap.RunRefines | code/memmap/memmap.c:43-110 | any interleaving over any number of mappings has the outcomes of the flat array |
| Memmap.LoadSees | code/memmap/memmap.c:85-110 | a load answers the byte at its place in the frame of the area's page |
| Memmap.StoreChanges | code/memmap/memmap.c:52-110 | a store changes the byte at its place in that frame and no other frame |
| Memmap.PagesUnseen | code/memmap/memmap.c:43-110 | from an initialised module no sequence of operations tells the pages from the array |
| Memmap.StoreIsShared | code/memmap/memmap.c:52-55 | a store through one mapping is what a load at that offset of any mapping sees |
| Memmap.PrivateStoreIsLost | code/memmap/memmap.c:52-55 | without the write-needs-shared check a private store would never reach the area |
| Memmap.Buffer.InitPages | code/memmap/memmap.c:125-132 | exactly the area's pages become reserved, each starts with its own number as text, and all else is as it was |
| Memmap.StampReads | code/memmap/memmap.c:130 | a stamped page reads `test: `, its number in decimal, and a NUL, and is as it was behind that |
| Memmap.StampedByte | code/memmap/memmap.c:125-132 | byte j of page i of the area is byte j of page i's stamped frame |
| Memmap.Buffer.ReleasePages | code/memmap/memmap.c:145-147 | exactly the area's pages lose their mark |
| V2pAddr.WalkIsLookup | code/v2p_addr/v2p_addr.c:43-76 | walking a radix tree of any height is lookup in the flat map of its entries |
| V2pAddr.MappingByIndices | code/v2p_addr/v2p_addr.c:43-76 | the flat map's entry for an address is found by its four indices in turn, empty at the first empty level |
| V2pAddr.TableIsPage | code/v2p_addr/v2p_addr.c:43-71 | the 512 entries of a table are the bytes of its page, eight by eight, in order |
| V2pAddr.Vaddr2Paddr | code/v2p_addr/v2p_addr.c:32-83 | for any tables and address the answer is the flat map's, and it is the one found at the four addresses of 8-byte entries, written out, with -1 at the first empty one |
| V2pAddr.PartsCompose | code/v2p_addr/v2p_addr.c:43-79 | the indices and the offset of an address compose its low 48 bits, and the indices its page number |
| V2pAddr.ComposeParts | code/v2p_addr/v2p_addr.c:43-79 | every choice of indices and offset is the decomposition of exactly the address it composes |
| V2pAddr.PaddrParts | code/v2p_addr/v2p_addr.c:78-80 | the low 12 bits are the address's, all others the entry's, attribute bits included |
| V2pAddr.MinusOneIff | code/v2p_addr/v2p_addr.c:45-48 | -1 means unmapped, except for the last byte of a page whose entry has all high bits set |
| V2pAddr.PhysicalIff | code/v2p_addr/v2p_addr.c:78-83 | the answer is the physical address exactly when bits 52 to 63 of the entry are clear |
| Monitor.LoadAtLeastOne | code/monitor/monitor.c:16-18 | the load is at least one exactly when its number with 11 bits behind the point is, up to 2^42, where the `int` goes wrong |
| Monitor.LoadMonitor.CheckLoad | code/monitor/monitor.c:93-111 | a check dumps, and records the time, exactly under load and three seconds after the last dump, or when the clock went back a millisecond |
| Monitor.LoadMonitor.Watch | code/monitor/monitor.c:113-122 | a run of the timer leaves the dumps of the run, spaced |
| Monitor.DumpsSpaced | code/monitor/monitor.c:95-110 | over every run with a monotonic clock, dumps are at least 3000 ms apart |
| Monitor.WindowBound | code/monitor/monitor.c:95-110 | a window of T holds at most floor(T / 3 s) + 1 dumps |
| Monitor.WaitBound | code/monitor/monitor.c:95-110 | a check that follows one under load finds the last dump less than 3 s and the gap between the two ago |
| Monitor.NextFires | code/monitor/monitor.c:95-110 | after a dump and until the next, a check dumps exactly under load and 3 s after the recorded time |
| Monitor.DumpsInTime | code/monitor/monitor.c:95-110 | if the load holds between two neighbouring dumps, the second comes at 3 s or later and within 3 s and one check gap |
| Monitor.NextDump | code/monitor/monitor.c:95-122 | if the load lasts to a check 3 s after a dump, a next dump comes by then, and in time |
| NsUtsnts.RunKeepsInv | code/namespace/test/ns_utsnts.c:45-104 | what the two processes hold and have done agrees with where they stand, after every interleaving |
| NsUtsnts.MapsBeforeContainer | code/namespace/test/ns_utsnts.c:53-65 | the child names the host, mounts and executes only after both map attempts and the parent's close |
| NsUtsnts.PreparedBeforeProgram | code/namespace/test/ns_utsnts.c:56-65 | in every interleaving the container's program runs only with the host named, `/proc` mounted, both maps tried and the parent's end closed |
| NsUtsnts.DoneInOrder | code/namespace/test/ns_utsnts.c:58-65 | naming, mounting and executing happen in this order, each in a step of its own |
| NsUtsnts.MapsStay | code/namespace/test/ns_utsnts.c:23-31 | once a map has been tried, whether it is written never changes again |
| NsUtsnts.MappedIff | code/namespace/test/ns_utsnts.c:23-43 | at any time after the attempt at a map, the ID is mapped exactly when the attempt opened the file |
| NsUtsnts.ContainerMapped | code/namespace/test/ns_utsnts.c:23-65 | in every interleaving, past the child's read each map has had its attempt, and the ID is mapped exactly when that could open the file |
| NsUtsnts.ContainerStarts | code/namespace/test/ns_utsnts.c:23-65 | whichever of the two files open, some run takes the child into the container |
| NsUtsnts.NoDeadlock | code/namespace/test/ns_utsnts.c:53-102 | until the parent has finished, one of the processes can go on |
| NsUtsnts.RunBound | code/namespace/test/ns_utsnts.c:45-104 | every run has at most 13 steps, with the child's close or without it |
| NsUtsnts.StuckMeansDone | code/namespace/test/ns_utsnts.c:45-104 | a run that cannot go on has ended both processes |
| NsUtsnts.NoCloseDeadlocks | code/namespace/test/ns_utsnts.c:55-56 | in a launcher whose child keeps its write end no run gets past the read, and a run can go no further exactly when the child reads and the parent waits |

## Left out

- Terminal modes, escape sequences, the legend and the hint lines of `fileview`: a screen is sixteen texts.
- Reading the terminal: keys come as a finite sequence, and the program waits when they run out; the endless
  loop of the source at the end of standard input is not modelled.
- Fileview.Session: asks that the file is at most 2^56 bytes, because beyond that a row overruns its array.
- Dram.DramFile.Read: counts that would wrap when the page offset is added are not modelled; the kernel's
  read path cuts counts far below that.
- `kmap`, `copy_to_user`, `vmalloc` and the list macros' type casts: memory is a function, a faulting copy is
  an oracle for each call, and the list head is a node of the same kind as the elements.
- MyListOpt.MyList.Print: prints ids only; names and process ids of the nodes are not modelled.
- Pcimem.Access: asks for a positive count, since the source writes through an unset pointer otherwise, and for
  a span that fits, since the mapping call fails otherwise. The `verbose` branch is never taken. Its memory holds still during the run; bytes
  that change between reads are in `Pcimem.Dump`.
- Pcimem.WriteBack: the message that prints the written value and the readback is not modelled.
- Memmap.Buffer.Map: the flag that is added to `vm_flags` is not modelled; it does not reach the fault path.
  A page offset whose shift would wrap is not modelled; the system call passes on smaller ones only.
- `memmap`: mappings are kept whole as accepted; splitting, moving, unmapping and re-protecting are not
  modelled, nor are page locks and reference counts.
- `v2p_addr`: large pages are not modelled, an entry is empty when it is 0 (the processor-erratum mask of the
  kernel is not), and tables are taken as given.
- `monitor`: the dump is one event; what the timer code of the kernel does between expiries is the gap in
  `Monitor.WaitBound`.
- `ns_utsnts`: failures of `pipe` and `clone`, signals, and what runs inside the container.
- The other modules of the repository (character and block devices, timers, interrupts, timing, module
  removal, task listing) hold only fixed-size copies, callback wiring or hardware timing.
