# A model of the flash translation layer

`src/flash/ftl_app_cb.c` keeps a word-addressed key/value store on N NOR-flash pages of 1024 cells.
Every page holds a header and up to 511 (data, key) pairs; a key is `CRC16 << 16 | address`. Writes
collect in a 14-cell RAM buffer that is flushed to the current page. A full page is closed and the
next page of the ring is formatted with the next 8-bit sequence number; when no page is left free,
the live pairs of the oldest page are copied to the current page and the oldest page is erased. A
lookup goes through a mapping table, or, in a second mode, through a backward scan of the log. Mount
rebuilds everything from flash, and finishes a collection that a power loss interrupted.

## How the model is built

* `Words.dfy`, `Crc.dfy`: words, addresses, keys, the CRC.
* `Log.dfy`: the log as a value (one sequence of entries per valid page, oldest page first), what a
  reader finds in it (`MapOfLogs`), and what a collector copies (`Copies`).
* `Flash.dfy`: the device (programming a cell clears bits, so a cell is programmed correctly only
  while it is erased) and `Encodes`, which says that an image holds a given log.
* `Invariant.dfy`: the layer's invariant over values, and what each event does to it.
* `Collect.dfy`, `Capacity.dfy`: collection and mounting as transformations of the log, what they
  preserve, and when there is room for them.
* `Layer.dfy`: the layer itself, a class whose fields are the globals of the C file and whose
  methods are its functions, with the same branches, constants and loops.
* `Wear.dfy`: the order of formats, over every run in either mode. `Runs.dfy`: whole runs with power
  cuts, with the mapping table. `FullPage.dfy`: what a write does when the current page is full.
  `Retry.dfy`: a whole collection with the mapping table, whether or not there is room for it.
* `Linear.dfy`: collection without the mapping table. `LinearRuns.dfy`: runs without it.

The fields `images` and `notes` of the class record every state the flash goes through. The flash of
a layer at work is changed by one method, `Operate`, which performs one operation - a pair programmed
into erased cells, an erase, a header, an end position, an invalidation - and records the state it leads
to; only the clear-all is outside. The invariant says that any two neighbours of the trace differ by
exactly one such operation and that the last one is the flash as it is (`Recorded`, `Traced`); a mount
starts the trace with the image it found. These are the states a power cut can leave behind. Each note
says which log its image holds, how many of the user writes, and which page formats had been completed.
A recovery that ends in clear-all starts a new record; what it went through before, the invalidation
included, is kept in `abandoned` and `abandonedNotes`. With the mapping table every image provably holds
a prefix of the user writes, with one exception: the last image of an abandoned recovery, between the
invalidation and the clear-all. Without the table the notes say only which log an image holds, since the
log itself may then read older values.

`Runs.Run` returns the stages it went through beside the layer: the trace before and after every
command, and, for every power cut, the entry of the trace that was mounted. A cut that interrupts a
command takes the state after the operation the command names, a cut between two commands the last one
(`History`, `Done`). From that follows exactly which writes survive (`CutInWrite`, `CutAfter`,
`CutInMount`).

What the ROM routines do is not in the repository. They are modelled as follows: valid mark, sequence
number and end position are fields of a page; formatting is an erase followed by a header write and
does not fail; erasing may fail in a collection unless `reliable` is set, and then leaves the page as
it was; the previous page is the ring predecessor if it is valid and its sequence number is one less
modulo 256; the oldest page is the last one reached that way; `ftl_page_garbage_collect` collects when
no page is free; an address is valid when it is 4-aligned and below `MAX_logical_address_size`;
`write_mapping_table` keeps 12 bits of the physical index, which is why the mapping-table mode has
at most four pages; clear-all erases every page and starts again on page 0. A flush that is cut
leaves whole (data, key) pairs. An end position is stored as it is given. A word flushed one cell
beyond a full page goes to the first header cell of the physically next page, or, from the last page
of the ring, behind the layer's area; a read one cell beyond a page finds that cell. The model has it
that such a word does not make a free page valid.

## What turned out false, and exactly when it holds

* With more than 128 pages nothing is ever collected. `ftl_gc_imp_app_cb` stores the number of
  further passes it may make, N - 1 when no page is free, in an 8-bit signed variable and asserts
  that it is not negative: that holds if and only if N <= 128 (`RetriesOkIff`). For 129 to 255 pages
  the first write that needs a collection stops the program (`ReachAssertion`). Everything that may
  collect therefore asks for at most 128 pages; mounting, reading and the scans do not.
* Writing is not always possible. The address space leaves one pair to spare on N - 1 full pages
  (`CapacityToSpare`), but that pair need not be on the oldest page. With the table and three pages,
  1022 writes lead to a collection that copies all 511 pairs and fills the new page while no page is
  free (`NoRoomForThreePages`, reached in `ReachNoRoom`). With the table a collection has room if and
  only if some pair of the oldest page is superseded (`RoomIffSuperseded`); at most 510 addresses in
  use are enough (`FewAddressesHaveRoom`), and with two pages there are no more than 510.
* Without room a collection does not preserve readings. The pass has filled the new page and recycled
  nothing, so once the page is erased a further pass begins on a full current page, and its first
  copy makes an address unreadable. With the table and working erases that happens if and only if
  there was no room and some address has its only pairs on the next oldest page; it is the first such
  address from the end of that page (`CollectAny`). Three pages, 1022 writes: the address that
  was written last cannot be read, though every write returned success (`ReachUnreadable`).
* A recovery is not all or nothing. If the live pairs of the oldest page do not fit it invalidates
  the page and clears everything in a second step. A power cut between the two leaves a log without
  exactly the live pairs that did not fit, at least one (`CutShortLoses`), and no later mount notices,
  because a page is free again (`CutShortStays`). Neither that nor the clear-all happens to a layer
  with the table that starts on a blank flash, as long as every write finds a free pair on the current
  page and room: every state it goes through leaves recovery enough room, for any number of addresses
  and whatever erases fail (`WakeUp`, kept by `RunPut` and `RunCut`).
* Without the table that is not enough: of an address written twice within one load of the buffer
  both pairs are copied. With two pages, 510 addresses in use and 511 writes the collection copies
  all 511 pairs (`NoRoomWithoutTable`, reached in `ReachNoRoomLinear`). It has room if and only if
  some pair of the oldest page has its address on a newer page, or again higher up on the page in
  another load of seven, counted from the top (`LinearRoomIff`). At most 72 addresses in use are
  enough (`FewerAddressesHaveRoom`), 73 are not (`SeventyThreeHaveNone`).
* A mount does not always give a layer that can be written to. The current page is full after it in
  exactly two cases (`MountWritable`): after a power cut between the flush that fills a page and the
  header of the next page (reached in `ReachStuck`), and when recovery has just filled the newest
  page. Everything still reads correctly, but the next write flushes its data word by itself beyond
  the page and puts its key into an even cell: it reports success, and with the table the address then
  cannot be read at all (`WriteOnClosed`, `WriteOnOpen`). If the page had no end position yet, it is
  given 1024, one cell too far; with two pages that page is the one collected next, its data words
  pass for keys, and one write can erase everything (`WriteLosesAll`, reached in `ReachLoss`).
* Without the table a collection may bring an older value back, because the drop test does not see
  the buffer (`OlderValueReturns`, read in `OlderValueRead`). It keeps the readings for all data
  words if and only if it copies no address twice (`LinearExact`), which the addresses on the page
  decide: every earlier pair of an address must lie in a later load of seven new addresses than the
  last one (`SpreadExact`). Over runs whose collections all find such pages every address reads what
  was written to it last (`LinearRun`).

## Model

| member | source | states |
|---|---|---|
| Crc.Btxfcs | inc/platform/crc16btx.h:6-8 | the bit-serial register, in loop form, computes the CRC function, stays below 2^16, and its parity is the parity of the bits fed in; what the function is, `FcsRemainder` says |
| Crc.ShiftParity | inc/platform/crc16btx.h:6-8 | one shift of the register adds the parity of the incoming bit, because the polynomial has an even number of terms |
| Crc.FcsDivides | inc/platform/crc16btx.h:6-8 | payload times X^16, with the initial register added at the top, is a multiple of X^16 + X^15 + X^2 + 1 plus the final register, as polynomials modulo 2 |
| Crc.RemainderUnique | inc/platform/crc16btx.h:6-8 | quotient and remainder of such a division are unique |
| Crc.FcsRemainder | inc/platform/crc16btx.h:6-8 | from initial value 0 the register ends up with the remainder of the payload, and no other number is one |
| Words.KeyOf | src/flash/ftl_app_cb.c:171-190 | a key made by `ftl_crc_key_init` carries its address and passes `ftl_crc_key_check` with its data word |
| Words.PayloadBits | src/flash/ftl_app_cb.c:174-182 | the checksum runs over six bytes, the four of the data word and then the two of the address, low byte first, low bit first |
| Words.KeyIsRemainder | src/flash/ftl_app_cb.c:138-190 | a key is the address and the remainder of those six bytes, and a key passes the check with a data word if and only if its high half is their remainder |
| Words.KeyNotErased | src/flash/ftl_app_cb.c:893-900 | the key of a valid address is never the erased pattern, so the search for the first free cell finds the end of the log even when data words are all ones |
| Words.ValidPairHasEvenWeight | src/flash/ftl_app_cb.c:138-169 | key and data word of a pair that passes the check have the same parity |
| Words.OddErrorRejected | src/flash/ftl_app_cb.c:138-169 | any bit error of odd weight over data, address and stored CRC is rejected |
| Log.LiveIsExact | src/flash/ftl_app_cb.c:276-307 | what is copied off a page is exactly the part of its readings not found elsewhere, each address with its newest value |
| Log.LiveCount | src/flash/ftl_app_cb.c:276-307 | and each address once |
| Log.CopiesAreLive | src/flash/ftl_app_cb.c:196-205 | with the mapping table the place where the buffer is flushed has no influence on what is copied |
| Log.CopiesOfDistinct | src/flash/ftl_app_cb.c:207-249 | on a page without repeated addresses the scanning drop test copies the same pairs as the table |
| Flash.ProgramAppends | src/flash/ftl_app_cb.c:640-642 | programming the two cells after the last pair of the current page, by clearing bits, appends exactly one pair to the log held by the flash |
| Flash.AndErased | src/flash/ftl_app_cb.c:35-35 | clearing bits of an erased cell stores the word |
| Flash.AndBits | src/flash/ftl_app_cb.c:35-35 | programming a cell leaves exactly the one bits that both the cell and the word have |
| Flash.TracedMore | src/flash/ftl_app_cb.c:640-673 | one more operation keeps the trace without gaps |
| Flash.HeaderAddsPage | src/flash/ftl_app_cb.c:664-673 | a header with the next sequence number on the erased next page adds an empty page to the log |
| Flash.RotatedNext | src/flash/ftl_app_cb.c:664-673 | formats that went round the ring so far still do after the next page has been formatted with the next sequence number |
| Flash.OldestGone | src/flash/ftl_app_cb.c:310-310 | erasing or invalidating the oldest page removes exactly its entries from the log, whatever the sequence number wraps to |
| Flash.PrevPageExists | src/flash/ftl_app_cb.c:225-231 | the predecessor test succeeds down to the oldest page and fails there, for up to 255 pages, all of them in use included |
| Flash.NewestStep | src/flash/ftl_app_cb.c:839-881 | one step of the mount scan: the page found so far is the last one of the first stretch of the run, with wrap of the sequence number and of the ring |
| Flash.NewestEnd | src/flash/ftl_app_cb.c:839-881 | after all pages the scan has found the newest page, or none if none is valid |
| Flash.LastKey | src/flash/ftl_app_cb.c:891-900 | the cells of the current page are erased from the end of the log on, and the cell before is not |
| Invariant.WhereDecodes | src/flash/ftl_app_cb.c:570-587 | the index 0 means absent; every other index decodes to the data cell of the newest pair of its address |
| Invariant.WhereOutsideOldest | src/flash/ftl_app_cb.c:196-205 | the drop test of the table mode is true exactly when the address occurs on a newer page or in the buffer |
| Invariant.TableIndex | src/flash/ftl_app_cb.c:715-715 | the index stored by `ftl_buffer_push_key` is the cell the data word will be flushed to |
| Invariant.TwelveBits | src/flash/ftl_app_cb.c:42-46 | an index of 12 bits gives back page and cell if and only if the page is one of the first four |
| Invariant.TableAppend | src/flash/ftl_app_cb.c:708-719 | storing that index keeps the table pointing at the newest pair of every address |
| Invariant.TableDrop | src/flash/ftl_app_cb.c:310-310 | after the oldest page has gone no entry refers to it, and all entries still point at the newest pairs |
| Invariant.TablePair | src/flash/ftl_app_cb.c:570-587 | when the newest pair is on flash the table leads to its data word and its key, and 0 is read only for addresses not on flash |
| Invariant.ScannedStep | src/flash/ftl_app_cb.c:784-792 | filling in only what is still 0, from the newest pair down, stores the newest pair of every address |
| Invariant.UserPushed | src/flash/ftl_app_cb.c:752-756 | a user write keeps flash, buffer, table and the list of writes in agreement |
| Invariant.CopyPushed | src/flash/ftl_app_cb.c:294-298 | copying a live pair keeps them in agreement without a new user write, and uses no more room than was reserved |
| Invariant.FlushedAll | src/flash/ftl_app_cb.c:640-642 | so does a flush, after which no user write is missing on flash |
| Invariant.PageAdded | src/flash/ftl_app_cb.c:655-675 | so does opening a page |
| Invariant.PageDropped | src/flash/ftl_app_cb.c:310-310 | so does dropping a page whose addresses all occur on newer pages |
| Invariant.PrefixImage | src/flash/ftl_app_cb.c:640-641 | a power cut after any pair of a flush leaves a prefix of the user writes, and room to recover |
| Invariant.FitsCopy | src/flash/ftl_app_cb.c:294-298 | each copied pair frees the room it takes |
| Invariant.FitsTruncate | src/flash/ftl_app_cb.c:336-399 | a collection cut at any point leaves room for the recovery that completes it |
| Collect.MappedCopies | src/flash/ftl_app_cb.c:276-307 | with the table, what is copied is exactly the live part of the oldest page, one pair per live address |
| Collect.KnownWaiting | src/flash/ftl_app_cb.c:207-249 | a scan of the flash and the buffer together know every address outside the oldest page |
| Collect.CopyStep | src/flash/ftl_app_cb.c:294-298 | copying one pair, with the flush it may cause, leaves exactly the rest to copy |
| Collect.CopyingLive | src/flash/ftl_app_cb.c:285-298 | a pair that is not dropped is the newest of its address and found nowhere else, although the page may hold several versions |
| Collect.CopyingEnd | src/flash/ftl_app_cb.c:277-308 | after the loop every address of the oldest page occurs on a newer page |
| Collect.RoomFits | src/flash/ftl_app_cb.c:677-688 | a collection that has room starts within the bound recovery needs |
| Collect.RetriesOkIff | src/flash/ftl_app_cb.c:257-258 | the assertion on the 8-bit number of further passes holds at the start of a collection if and only if there are at most 128 pages |
| Collect.RecoveringEnd | src/flash/ftl_app_cb.c:349-398 | a recovery that found no room for some pair has copied exactly the first pairs of the plan, up to a full page; one that found room for all has copied all |
| Capacity.CopiedMap | src/flash/ftl_app_cb.c:277-308 | with the table, copying changes no reading, also when the erase that follows fails |
| Capacity.CollectPreserves | src/flash/ftl_app_cb.c:252-333 | a collection preserves every reading whether or not the erase succeeds: with the table always, without it if the buffer is empty and the page repeats no address |
| Capacity.SettlePreserves | src/flash/ftl_app_cb.c:630-694 | with the table, a flush, with the page it opens and the collection it starts, preserves every reading |
| Capacity.WriteUpdates | src/flash/ftl_app_cb.c:723-768 | with the table, a write changes the reading of its own address and of no other |
| Capacity.SettledNoneLive | src/flash/ftl_app_cb.c:645-692 | with the table, after every flush nothing is live on the oldest page if no page is free, that is, if an erase has failed |
| Capacity.MountAllOrNothing | src/flash/ftl_app_cb.c:336-416 | with the table, a mount keeps every reading, or none, the latter exactly when no page was free and the live pairs of the oldest page did not fit |
| Capacity.CutShortLoses | src/flash/ftl_app_cb.c:407-414 | with the table, a recovery without room that is cut after the invalidation has lost exactly the live pairs that did not fit, at least one, and no other reading |
| Capacity.CutShortStays | src/flash/ftl_app_cb.c:338-341 | the next mount finds a free page and leaves that log as it is, with a full current page |
| Capacity.LiveAllOrFewer | src/flash/ftl_app_cb.c:319-328 | with the table, nothing is recycled exactly when no pair of the page is superseded |
| Capacity.RoomIffSuperseded | src/flash/ftl_app_cb.c:319-328 | with the table, a collection onto an empty page leaves a free pair if and only if some pair of the oldest page is superseded |
| Capacity.KeyCount | src/flash/ftl_app_cb.c:43-44 | a log of valid addresses uses at most 511(N-1)-1 of them |
| Capacity.AddressesExact | src/flash/ftl_app_cb.c:43-44 | the accepted addresses are 0, 4, 8 and so on, exactly 511(N-1)-1 of them as far as they fit in 16 bits |
| Capacity.FewAddressesHaveRoom | src/flash/ftl_app_cb.c:645-692 | with the table, at most 510 addresses in use and at most 128 pages every flush has room for the collection it starts |
| Capacity.TwoPagesHaveRoom | src/flash/ftl_app_cb.c:43-44 | with the table and two pages that is always so |
| Capacity.CapacityToSpare | src/flash/ftl_app_cb.c:43-44 | on N-1 full pages some pair is superseded |
| Capacity.NoRoomForThreePages | src/flash/ftl_app_cb.c:319-328 | with the table, a log of three-page addresses for which the collection fills the new page and leaves the buffer no room |
| Capacity.NothingToDrop | src/flash/ftl_app_cb.c:319-328 | with the table, this happens whenever no pair of the oldest page is superseded |
| Layer.Codes | inc/platform/ftl.h:34-47 | the values of the return codes; no error is success |
| Layer.Ftl.BufferInit | src/flash/ftl_app_cb.c:618-626 | sets the buffer up for the current page, with room for an even number of cells that never crosses the page |
| Layer.Ftl.Operate | src/flash/ftl_app_cb.c:640-673 | one operation changes the flash as it says, and the state it leads to is the next entry of the trace |
| Layer.Ftl.FlashWrite | src/flash/ftl_app_cb.c:639-641 | puts all buffered pairs on flash; exactly the cells from the next free one of the current page on are programmed, all of them erased before, and nothing else changes; with the table every intermediate image holds a prefix of the user writes |
| Layer.Ftl.WriteBack | src/flash/ftl_app_cb.c:630-694 | an empty buffer changes nothing; otherwise the buffer is emptied, one entry of the trace for each of its pairs, and exactly the next erased cells are programmed; the log is then unchanged, or has a new page, or has in addition been collected, exactly by fill level and free pages; a page that is full gets its end position first of all |
| Layer.Ftl.OpenNext | src/flash/ftl_app_cb.c:645-691 | on a full page the end position is recorded first of all; if no page is free nothing else changes on flash, if one is to spare exactly the next page is formatted, and if it is the last one a collection follows |
| Layer.Ftl.RecordEnd | src/flash/ftl_app_cb.c:647-653 | the full page has its end position recorded and nothing else of the flash changes |
| Layer.Ftl.FormatNext | src/flash/ftl_app_cb.c:655-675 | the next page is erased and given the next sequence number, nothing else of the flash changes, the page becomes current, the log gains an empty page and the list of formats that page |
| Layer.Ftl.FormatPage | src/flash/ftl_app_cb.c:666-666 | formatting passes through the two images after the erase and after the header, and only the second counts as a completed format |
| Layer.Ftl.GarbageCollect | src/flash/ftl_app_cb.c:677-688 | collects exactly when no page is free |
| Layer.Ftl.Push | src/flash/ftl_app_cb.c:696-706 | one word enters the buffer, which is flushed when it is full |
| Layer.Ftl.PushData | src/flash/ftl_app_cb.c:752-752 | a data word never causes a flush while the current page has a free pair |
| Layer.Ftl.PushKey | src/flash/ftl_app_cb.c:708-719 | the key completes the pair in table and log, with the flush it may cause |
| Layer.Ftl.WriteTable | src/flash/ftl_app_cb.c:710-717 | the table entry of the address points at the pair being completed, all others are as before |
| Layer.Ftl.Write | src/flash/ftl_app_cb.c:723-768 | an invalid address is rejected and changes nothing; otherwise one entry is appended to the log, and to the user writes unless it is a copy; nothing reaches the flash unless the pair fills the buffer, and then one entry of the trace shows each pair with the user writes that have got as far |
| Layer.Ftl.CanDrop | src/flash/ftl_app_cb.c:192-250 | true exactly when the table, or the scan of the newer pages, knows the address |
| Layer.Ftl.ScanNewer | src/flash/ftl_app_cb.c:207-249 | the scan finds an address exactly when it is on flash outside the oldest page |
| Layer.Ftl.PrevPage | src/flash/ftl_app_cb.c:225-245 | steps to the next older page, or reports that there is none |
| Layer.Ftl.OldestPage | src/flash/ftl_app_cb.c:266-266 | finds the start of the run of valid pages |
| Layer.Ftl.EndIndex | src/flash/ftl_app_cb.c:268-274 | a closed page is scanned from its last key, whether or not its end position was recorded |
| Layer.Ftl.WriteCopy | src/flash/ftl_app_cb.c:294-298 | copying goes exactly one pair further through the plan of copies |
| Layer.Ftl.CopyLive | src/flash/ftl_app_cb.c:276-307 | if the copies fit on the page, the loop appends exactly the pairs `Copies` names and counts the others; if they fill it, the page has its end position afterwards |
| Layer.Ftl.EraseOldest | src/flash/ftl_app_cb.c:310-314 | erases exactly the oldest page, when the flash holds the whole log, or, if the erase fails, changes nothing |
| Layer.Ftl.Prepare | src/flash/ftl_app_cb.c:257-274 | at the start of a collection the number of further passes is N - 1, the assertion on it holds, and the scan starts at the end of the oldest page |
| Layer.Ftl.Collect | src/flash/ftl_app_cb.c:252-333 | with room, and at most 128 pages, the log becomes the copied log without its oldest page, or with it if the erase fails; the erase is the last operation, and before it all copies are on flash; the recycled pairs are those not copied, at least one, so no pass is repeated |
| Layer.Ftl.BufferScan | src/flash/ftl_app_cb.c:429-465 | whatever the buffer holds: the last pair of words, counted from its end, that is a pair of the address and passes the check; pairs that fail it are skipped |
| Layer.Ftl.BufferRead | src/flash/ftl_app_cb.c:429-465 | finds the newest buffered value of an address, or not found, when the buffer holds pairs |
| Layer.Ftl.TableRead | src/flash/ftl_app_cb.c:568-608 | for an address not in the buffer: its newest value on flash, or not found |
| Layer.Ftl.ScanKeys | src/flash/ftl_app_cb.c:511-534 | whatever a page holds: the first key of the address that passes the check gives the value; if there are only keys that fail it, an error and the value of the lowest |
| Layer.Ftl.LinearRead | src/flash/ftl_app_cb.c:501-567 | the same result by a backward scan |
| Layer.Ftl.Read | src/flash/ftl_app_cb.c:468-613 | in both modes the newest value of the address in the log, not found for addresses not in it, invalid for invalid addresses; with the table that is the last value written |
| Layer.Ftl.InitTable | src/flash/ftl_app_cb.c:770-818 | from an empty table, the table that points at the newest pair of every address |
| Layer.Ftl.RecoverCopies | src/flash/ftl_app_cb.c:349-398 | all copies are made exactly when used and copied pairs together are at most 511; otherwise exactly as many as fit, in the order of the plan; no copy runs past the page |
| Layer.Ftl.Recover | src/flash/ftl_app_cb.c:336-416 | does nothing if a page is free; otherwise, exactly by whether the copies fit, recycles the oldest page or clears everything; the invalidation comes last, after all copies; with the table every state up to the invalidation holds all user writes, and if the copies did not fit the state after it holds the log without the pairs left over |
| Layer.Ftl.RecoverFinish | src/flash/ftl_app_cb.c:399-414 | the end of a recovery: with all copies made the invalidation drops the oldest page; otherwise the record of the abandoned recovery ends with the log without that page, every state before it holds all user writes with the table, and everything is cleared |
| Layer.Ftl.Abandon | src/flash/ftl_app_cb.c:407-408 | the state between the invalidation and the clear-all of such a recovery is recorded with the log it holds |
| Layer.Ftl.InvalidateOldest | src/flash/ftl_app_cb.c:407-408 | clears the valid mark of exactly the oldest page, when the flash holds the whole log |
| Layer.Ftl.ClearAll | src/flash/ftl_app_cb.c:410-414 | leaves an empty log on page 0 |
| Layer.Ftl.FindNewest | src/flash/ftl_app_cb.c:831-881 | finds the current page for any run of valid pages in a ring of up to 255 |
| Layer.Ftl.FindFree | src/flash/ftl_app_cb.c:891-900 | finds the first free cell of the current page |
| Layer.Ftl.FormatFirst | src/flash/ftl_app_cb.c:883-889 | the first mount formats page 0 with sequence number 0 and changes nothing else |
| Layer.Ftl.Attach | src/flash/ftl_app_cb.c:831-912 | mount before recovery restores current page, free cell, table and user writes of the flushed log |
| Layer.Ftl.Init | src/flash/ftl_app_cb.c:821-919 | the whole mount: the log on flash, unchanged if a page is free, with its oldest page recycled if not, or cleared if its copies do not fit; the record covers every state of all three |
| Layer.Ftl.Mount | src/flash/ftl_app_cb.c:821-919 | power-up on any image that holds a log gives a layer for that log as a mount leaves it; with the table it holds the same user writes unless its copies do not fit, and then every state but the one after the invalidation still does |
| Runs.StaysReady | src/flash/ftl_app_cb.c:645-692 | with the table, room and working erases every write leaves a free next page and a free pair on the current page |
| Runs.FitsMeansRoom | src/flash/ftl_app_cb.c:349-398 | an image whose used and live pairs together are at most 511 is one that recovery has room for |
| Runs.UserWrite | src/flash/ftl_app_cb.c:723-768 | a user write with the table and with room, whether or not erases work: the address reads the new value, all others as before, and if no page is free afterwards nothing is live on the oldest one; the buffer is flushed exactly when it has seven pairs or the page is full, one operation a pair; if erases work the layer stays ready |
| Runs.WriteThenRead | src/flash/ftl_app_cb.c:43-44 | with the table and with room, every one of the 511(N-1)-1 addresses can be written and reads what was written |
| Runs.MountWritable | src/flash/ftl_app_cb.c:618-622 | after a mount, in either mode, the current page is full if and only if a page was free and the newest page was full, or no page was free and used and copied pairs together are exactly 511 |
| Runs.WakeUp | src/flash/ftl_app_cb.c:336-416 | every image of a run can be mounted without loss: whatever addresses are in use and whatever erases have failed, recovery finds room and nothing is cleared |
| Runs.RunPut | src/flash/ftl_app_cb.c:723-768 | one write with room, for any number of addresses and whether or not erases work, keeps what holds throughout a run; every image since holds all but the acknowledged writes that were in the buffer and the write itself |
| Runs.RunCut | src/flash/ftl_app_cb.c:821-919 | one power cut keeps it: the layer is mounted on the entry of the trace that was asked for, with the writes that entry holds, also when an erase has failed before |
| Runs.Run | src/flash/ftl_app_cb.c:252-919 | with the table, for every sequence of writes and power cuts with at most 510 addresses and whatever erases fail, every command leads from one stage to the next as `Done` says, each cut mounts the state after the operation it names, and the readings are those of the writes that survive; at most the last six acknowledged writes are lost, a cut in a write may lose that write too, a cut in a mount nothing; and the pages have been worn evenly. The run ends early only when the current page is full, with working erases only after a cut |
| Runs.RunAndRead | src/flash/ftl_app_cb.c:468-613 | what a user reads at the end of such a run, with its stages |
| Runs.CutInWrite | src/flash/ftl_app_cb.c:636-643 | a write cut after k operations keeps exactly the first k of the pairs that were due for flash, if it filled the buffer, and otherwise none of the buffered ones |
| Runs.CutAfter | src/flash/ftl_app_cb.c:636-643 | a cut between two commands loses exactly what is in the buffer |
| Runs.CutInMount | src/flash/ftl_app_cb.c:336-416 | a cut in a mount loses nothing |
| Runs.SevenWritesCut | src/flash/ftl_app_cb.c:636-643 | after seven writes from the first mount and a cut of the last one after operation i the first i can be read, and no other |
| Runs.FillPage | src/flash/ftl_app_cb.c:636-655 | 511 writes pass through an image whose page is full and has no end position yet |
| Runs.ReachStuck | src/flash/ftl_app_cb.c:645-655 | a power cut there leaves a layer with a full current page, a free next page and every reading intact |
| Runs.UpToCollection | src/flash/ftl_app_cb.c:630-677 | the write that fills the last page but one, up to the collection it starts: the pair is in the log, the page closed, and the last page opened |
| Runs.ReachNoRoom | src/flash/ftl_app_cb.c:645-692 | 1021 writes lead to the state in which the next write has no room |
| Wear.RoundRobin | src/flash/ftl_app_cb.c:655-673 | after a history of formats in turn that starts with page 0 and number 0 the current page is the number of formats less one modulo N, its sequence number the same modulo 256, and no page was formatted twice more than another |
| Wear.WearStart | src/flash/ftl_app_cb.c:883-889 | the first mount starts such a history |
| Wear.WearPut | src/flash/ftl_app_cb.c:645-692 | every write with room, in either mode and whether or not erases work, continues it |
| Wear.WearCut | src/flash/ftl_app_cb.c:821-919 | so does a mount of any state the flash has been in, unless it clears everything |
| Wear.EvenWear | src/flash/ftl_app_cb.c:655-673 | so throughout every run the current page and its sequence number on flash count the formats, and format counts of any two pages differ by at most one |
| Linear.CopiesCover | src/flash/ftl_app_cb.c:207-249 | without the table too, every address of the oldest page is afterwards on a newer page |
| Linear.DistinctSurvives | src/flash/ftl_app_cb.c:207-249 | if no address is copied twice, every reading survives |
| Linear.RepeatedIsLost | src/flash/ftl_app_cb.c:207-249 | if one is, and the data words tell the pairs apart, a reading changes |
| Linear.LinearExact | src/flash/ftl_app_cb.c:207-249 | so the readings survive for all data words if and only if no address is copied twice |
| Linear.ApartCopies | src/flash/ftl_app_cb.c:276-307 | below any pair, as long as every address was copied once, the rest is copied once each if and only if every earlier pair of an address lies in a later load of seven new addresses than the last one |
| Linear.SpreadExact | src/flash/ftl_app_cb.c:207-249 | for a collection onto an empty page that condition on the addresses of the oldest page decides both |
| Linear.AllOrDropped | src/flash/ftl_app_cb.c:276-307 | as long as every pair was copied, one of the rest is dropped if and only if its address is on a newer page or higher up in another load of seven |
| Linear.LinearRoomIff | src/flash/ftl_app_cb.c:319-328 | without the table a collection onto an empty page has room if and only if there is such a pair |
| Linear.FewerAddressesHaveRoom | src/flash/ftl_app_cb.c:645-692 | without the table at most 72 addresses in use are enough for room, with at most 128 pages |
| Linear.SeventyThreeHaveNone | src/flash/ftl_app_cb.c:645-692 | and 73 are not |
| Linear.NoRoomWithoutTable | src/flash/ftl_app_cb.c:319-328 | a two-page log of 510 addresses for which there is room with the table and none without: the collection fills the new page and leaves the buffer no room |
| Linear.SurvivesKeepsMap | src/flash/ftl_app_cb.c:252-333 | then the whole collection preserves every reading |
| Linear.OlderValueReturns | src/flash/ftl_app_cb.c:207-249 | a two-page log in which collection brings an overwritten value back |
| LinearRuns.SpreadKeeps | src/flash/ftl_app_cb.c:252-333 | a collection onto an empty page keeps every reading if the addresses on the oldest page lie apart |
| LinearRuns.SpreadWrite | src/flash/ftl_app_cb.c:723-768 | a write that collects such a page, with room, changes the reading of its own address and of no other and leaves a free page and a free pair |
| LinearRuns.LinearRun | src/flash/ftl_app_cb.c:723-768 | without the table, for every sequence of writes whose collections all find such pages, room and at most 128 pages, the log is the one computed from the writes and reads what was written last |
| LinearRuns.LinearRunAndRead | src/flash/ftl_app_cb.c:468-567 | what a user reads at the end of such a run |
| LinearRuns.FillingUp | src/flash/ftl_app_cb.c:645-692 | nothing is collected until all pages but one are full: after k writes the log has k / 511 + 1 pages and k mod 511 pairs on the current one |
| LinearRuns.UpToAssertion | src/flash/ftl_app_cb.c:252-258 | the write that fills the last page but one, up to the assertion: the number of further passes is N - 1 as a signed 8-bit number |
| LinearRuns.ReachAssertion | src/flash/ftl_app_cb.c:257-258 | for every N from 129 to 255 there are writes from the first mount whose last one finds the assertion false |
| LinearRuns.ReachNoRoomLinear | src/flash/ftl_app_cb.c:645-692 | 510 writes lead to a state in which the next write has no room without the table |
| LinearRuns.OlderValueRead | src/flash/ftl_app_cb.c:468-567 | 511 writes to one address after which it reads the value written before the last |
| FullPage.PushPastClosed | src/flash/ftl_app_cb.c:696-706 | a data word pushed on a full page with an end position is in no data cell, and the flush rules apply to the full page; while a collection is running only the next page is opened |
| FullPage.PushPastOpen | src/flash/ftl_app_cb.c:630-674 | the same on a page without one: it is given end position 1024, and the next page is opened |
| FullPage.PushKeyAlone | src/flash/ftl_app_cb.c:708-719 | the key becomes the first word of the buffer, and the table entry points one cell before it |
| FullPage.WriteOnClosed | src/flash/ftl_app_cb.c:723-768 | a whole write on such a page, by a user or by a further pass of a collection: with the table a read of the address fails and the log reads as before, without it the address reads what the log held before |
| FullPage.WriteOnOpen | src/flash/ftl_app_cb.c:723-768 | with the table and another page free, a write on a full page without an end position makes the read of its address fail too |
| FullPage.CollectMisread | src/flash/ftl_app_cb.c:252-333 | a collection that starts one cell too far recycles every pair if none passes the check in this alignment |
| FullPage.AlternatingMisread | src/flash/ftl_app_cb.c:138-169 | by parity no pair does when the data words alternate between 0 and 1 |
| FullPage.WriteLosesAll | src/flash/ftl_app_cb.c:645-692 | with two pages one write on a full page without an end position then erases the whole log, and the read of any address fails |
| FullPage.ReachLoss | src/flash/ftl_app_cb.c:252-768 | for any header of the second page there are 511 writes, a power cut and one more write that lead there |
| Retry.FirstLiveIff | src/flash/ftl_app_cb.c:196-205 | some pair of the oldest page will be copied if and only if an address has its only pairs there, and the first one copied is of such an address |
| Retry.FirstPass | src/flash/ftl_app_cb.c:276-328 | with the table, a first pass onto an empty page always fits and keeps every reading; it fills the page exactly when there is no room |
| Retry.AllLiveNeedsThree | src/flash/ftl_app_cb.c:43-44 | with two pages there is always room |
| Retry.ScanOldest | src/flash/ftl_app_cb.c:276-298 | a further pass copies first the first live address from the end of the page |
| Retry.FurtherPass | src/flash/ftl_app_cb.c:258-298 | a further pass on a full page: if anything is live on the next oldest page the read of its first live address fails, otherwise every reading is kept |
| Retry.CollectAny | src/flash/ftl_app_cb.c:252-333 | the whole collection with the table, with or without room: it ends with every reading kept, or it makes an address unreadable, and with working erases the latter if and only if there was no room and an address has its only pairs on the next oldest page |
| Retry.NoRoomLoses | src/flash/ftl_app_cb.c:319-328 | for the log of three-page addresses without room that address is the one written last |
| Retry.ReachUnreadable | src/flash/ftl_app_cb.c:252-768 | 1022 writes from the first mount after which the read of the address written last fails |

## Left out

- Layer.Ftl.Write: asks for room for the collection it may start, which includes that there are at most 128 pages, and for a current page that is not full, and without the table says nothing about readings after a collection; the second state is what `FullPage.dfy` treats, the third what `SpreadExact` decides.
- Layer.Ftl.PushData: asks for a current page that is not full; `PushPastClosed` and `PushPastOpen` treat the other case.
- Layer.Ftl.PushKey: asks for the same, and for room for the collection it may start; `PushKeyAlone` treats the other page.
- Layer.Ftl.Push: asks for room for the collection it may start.
- Layer.Ftl.WriteBack: asks for room for the collection it may start; a failing format is not modelled, the C code then leaves the buffer full and uninitialised.
- Layer.Ftl.OpenNext: asks for room for the collection it may start.
- Layer.Ftl.CopyLive: asks for room for all copies; with the table an empty page always has it (`FirstPass`).
- Layer.Ftl.Collect: asks for room; `Retry.CollectAny` is the collection without that condition, with the table.
- Retry.CollectAny: stops at the first copy of a further pass; the rest of that pass, whose pairs are one cell off, is not modelled, and neither is a collection without room and without the table, whose further pass starts as in `WriteOnClosed` too.
- Layer.Ftl.GarbageCollect: the thresholds of the ROM routine and the option to collect in the idle task are not modelled.
- Layer.Ftl.ClearAll: taken as one step after the invalidation, because the routine belongs to the ROM; power cuts during it are not considered.
- Layer.Ftl.Recover: the counter of recycled pairs is not modelled, nothing reads it.
- Layer.Ftl.Read: `PLATFORM_ASSERT` is always active, as the file itself defines `DEBUG_FTL`, so an invalid address stops the program before the error is returned; the same holds for Layer.Ftl.Write.
- FullPage.WriteOnOpen: with the last free page, and more than two pages, the collection that follows is not modelled; nor is a page closed with end position 1024 without the table.
- Layer.Ftl.Operate: a body that put the flash into another state and back without recording it would not be noticed by the contracts; the text of the class shows that none does, the flash being assigned only here, in the invalidation of an abandoned recovery and in the clear-all.
- LinearRuns.LinearRun: speaks of runs without power cuts; what a single mount keeps without the table is `Layer.Ftl.Mount`.
- Runs.Run: stops when the current page is full, after a mount or after a failed erase; what a write does there if the next page is free is in `FullPage.dfy`. If the next page is not free the stray data word goes into its header, which is not modelled.
- FullPage.WriteOnClosed: the pairs that follow such a write are one cell off, the key of each before the data word of the next; that a later mount or collection then takes data words for keys is shown only where a whole page is read so (`CollectMisread`).
- Words.Checksum: the header of `btxfcs` does not give the bit order; least significant bit first is assumed.
- Pairs damaged on flash: the invariant has all pairs pass the CRC check. What the reads do with others is in `BufferScan`, `ReadAt` and `ScanKeys`, what a collection does only in `CollectMisread`.
- The bit packing inside the mapping table, interrupt and scheduler checks, the mutex, and trace output.
- The disabled second version of the read functions (src/flash/ftl_app_cb.c:921-1100).
- src/flash/flash_hs_read.c and all other files of the repository.
