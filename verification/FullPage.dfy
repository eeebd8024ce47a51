/** What ftl_write_app_cb does when the current page is full although the next page is free, the state a
    power cut can leave behind.  The buffer then has no room, so the data word is flushed by itself, to
    the cell after the page; the page is closed, the next one opened, and the key becomes the first word
    of a new buffer. */
module FullPage {
  import opened Words
  import opened Log
  import opened Flash
  import opened Invariant
  import opened Collect
  import opened Capacity
  import opened Layer
  import opened Runs
  import Crc

  // ----- the flash

  lemma EndIsFree(n: nat, f: Image, v: View, p: nat, end: nat)
    requires Held(n, f, v) && p < n
    ensures Held(n, SetEnd(f, p, end), v)
  {
    forall q | 0 <= q < n ensures PageHolds(n, SetEnd(f, p, end), v, q) { assert PageHolds(n, f, v, q); }
  }

  /** Opening the next page keeps the log, whatever end position the full page was given. */
  lemma OpenedAnyEnd(n: nat, f: Image, v: View, end: nat)
    requires n >= 2 && Encodes(n, f, v) && 0 < |v.logs| < n && |Newest(v)| == PAGE_PAIRS
    ensures var cur, next := Current(n, v), Next(n, Current(n, v));
      && cur < n == |f| && next < n && !f[next].valid
      && var f' := WriteHeader(Erase(SetEnd(f, cur, end), next), next, (f[cur].sequence + 1) % 0x100);
      && Held(n, f', AddPage(v)) && f'[next].end == None && f'[cur] == f[cur].(end := Some(end)) && cur != next
      && next == Current(n, AddPage(v))
  {
    var cur, next := Current(n, v), Next(n, Current(n, v));
    NextPage(n, f, v);
    NextPageEncodes(n, f, v);
    PlaceAt(n, v.first, |v.logs|);
    PlaceAt(n, v.first, |v.logs| - 1);
    assert cur != next;
    hide Held, Encodes, Next, Current, PageFits;
    var g := WriteHeader(Erase(f, next), next, (f[cur].sequence + 1) % 0x100);
    EncodesHeld(n, g, AddPage(v));
    EndIsFree(n, g, AddPage(v), cur, end);
    assert SetEnd(g, cur, end) == WriteHeader(Erase(SetEnd(f, cur, end), next), next, (f[cur].sequence + 1) % 0x100);
  }

  /** The first cell of an empty current page. */
  lemma EmptyPageErased(n: nat, f: Image, v: View)
    requires Held(n, f, v) && v.logs != [] && Newest(v) == []
    ensures Current(n, v) < n == |f| && |f[Current(n, v)].cells| == PAGE_CELLS && f[Current(n, v)].cells[INFO_SIZE] == ERASED
  {
    PlaceAt(n, v.first, |v.logs| - 1);
    assert PageHolds(n, f, v, Current(n, v));
  }

  /** No valid address has the erased word for its key. */
  lemma ErasedKey(n: nat, a: Addr)
    requires ValidAddr(n, a)
    ensures KeyAddr(ERASED) != a
  {
  }

  /** The table index that the key is given, one cell before the key. */
  lemma IndexBeforeKey(page: nat, free: nat)
    requires page < 4 && 0 < free < PAGE_CELLS
    ensures PageOf(PhysOf(page, free - 1)) == page && CellOf(PhysOf(page, free - 1)) == free - 1
    ensures free > 1 ==> PhysOf(page, free - 1) != 0
  {
  }

  // ----- the data word

  /** ftl_buffer_push of the data word when the page has its end position already.  No collection starts
      while one is running. */
  method PushPastClosed(ftl: Ftl, d: Word)
    requires ftl.Settled() && ftl.free == PAGE_CELLS && |ftl.view.logs| < ftl.n
    requires ftl.collecting || SettleRoom(ftl.n, ftl.mapped, ftl.view)
    requires ftl.cur < |ftl.flash| && ftl.flash[ftl.cur].end != None
    modifies ftl, ftl.buffer
    ensures ftl.Settled() && ftl.writeIndex == 0 && ftl.collecting == old(ftl.collecting) && ftl.hist == old(ftl.hist)
    ensures old(ftl.view).logs != [] && if ftl.collecting then ftl.view == AddPage(old(ftl.view))
            else SettledTo(ftl.n, ftl.mapped, ftl.reliable, old(ftl.view), ftl.view)
  {
    hide *;
    Sizes();
    FullByFree(ftl);
    ftl.Facts();
    FullDrained(ftl);
    ftl.DrainedParts();
    FullPage(ftl.conf, ftl.flash, ftl.view, ftl.table, ftl.hist);
    NewPageFits(ftl.n, ftl.view, ftl.conf.cap);
    AddPageFacts(ftl.view);
    AddPageCollects(ftl.n, ftl.mapped, ftl.reliable, ftl.view);
    ftl.state := Filling;
    ftl.buffer[0] := d;
    ftl.writeIndex := 1;
    if ftl.writeIndex >= ftl.validLen {
      // flash_write puts the word into the cell after the page, which is no data cell
      var next := Next(ftl.n, ftl.cur);
      if !ftl.flash[next].valid {
        ftl.DrainedMade();
        ftl.FormatNext(next);
        if !ftl.collecting {
          ftl.GarbageCollect();
        }
      }
    }
  }

  lemma FullDrained(ftl: Ftl)
    requires ftl.Settled() && ftl.free == PAGE_CELLS
    ensures ftl.Drained() && ftl.pend == 0 && |ftl.view.logs[0]| <= PAGE_PAIRS
  {
    hide *;
    FullByFree(ftl);
    ftl.Facts();
    ftl.Parts();
    assert ftl.buffer[..0] == [];
    ftl.DrainedMade();
    OldestLength(ftl);
  }

  /** What opening a page leads to when no collection is running. */
  lemma AddPageCollects(n: nat, mapped: bool, reliable: bool, v: View)
    requires v.logs != [] && |Newest(v)| == PAGE_PAIRS && |v.logs| < n
    ensures SettleRoom(n, mapped, v) && |v.logs| + 1 == n ==> RetriesOk(n, 0) && CollectRoom(mapped, AddPage(v), INFO_SIZE)
    ensures forall v' | if |v.logs| + 1 == n then CollectedTo(n, mapped, reliable, AddPage(v), INFO_SIZE, v') else v' == AddPage(v) ::
      SettledTo(n, mapped, reliable, v, v')
  {
    hide CollectRoom, CollectedTo, RetriesOk;
  }

  /** ftl_buffer_push of the data word when it has none: it is given 1024, one cell too far. */
  method PushPastOpen(ftl: Ftl, d: Word)
    requires ftl.Settled() && ftl.free == PAGE_CELLS && |ftl.view.logs| < ftl.n
    requires ftl.cur < |ftl.flash| && ftl.flash[ftl.cur].end == None
    modifies ftl, ftl.buffer
    ensures ftl.view == AddPage(old(ftl.view)) && ftl.cur == Next(ftl.n, old(ftl.cur)) && ftl.free == INFO_SIZE
    ensures ftl.cur != old(ftl.cur) && ftl.cur == Current(ftl.n, ftl.view)
    ensures Held(ftl.n, ftl.flash, ftl.view)
    ensures old(ftl.cur) < |ftl.flash| == |old(ftl.flash)| && ftl.cur < |ftl.flash| && ftl.flash[ftl.cur].end == None
    ensures ftl.flash[old(ftl.cur)] == old(ftl.flash)[old(ftl.cur)].(end := Some(PAGE_CELLS))
    ensures ftl.writeIndex == 0 && ftl.validLen == BUFFER_CELLS && ftl.table == old(ftl.table)
    ensures ftl.collecting == old(ftl.collecting)
  {
    hide *;
    Sizes();
    FullByFree(ftl);
    ftl.Facts();
    ftl.AllStored();
    OpenedAnyEnd(ftl.n, ftl.flash, ftl.view, PAGE_CELLS);
    ftl.state := Filling;
    ftl.buffer[0] := d;
    ftl.writeIndex := 1;
    if ftl.writeIndex >= ftl.validLen {
      // flash_write puts the word into the cell after the page, which is no data cell
      var freeIndex := ftl.free + ftl.writeIndex;
      var sequence := (ftl.flash[ftl.cur].sequence + 1) % 0x100;
      var closed := SetEnd(ftl.flash, ftl.cur, freeIndex - 1);
      var next := Next(ftl.n, ftl.cur);
      var formatted := WriteHeader(Erase(closed, next), next, sequence);
      OnPage(ftl, formatted, next);
    }
  }

  /** The next page becomes the current page, with an empty buffer. */
  method OnPage(ftl: Ftl, formatted: Image, next: nat)
    modifies ftl`flash, ftl`view, ftl`cur, ftl`free, ftl`flashPage, ftl`flashCell, ftl`validLen, ftl`writeIndex, ftl`state
    ensures ftl.flash == formatted && ftl.view == AddPage(old(ftl.view)) && ftl.cur == next && ftl.free == INFO_SIZE
    ensures ftl.validLen == BUFFER_CELLS && ftl.writeIndex == 0
  {
    ftl.flash, ftl.view := formatted, AddPage(ftl.view);
    ftl.cur, ftl.free := next, INFO_SIZE;
    ftl.flashPage, ftl.flashCell, ftl.validLen, ftl.writeIndex, ftl.state := next, INFO_SIZE, BUFFER_CELLS, 0, Idle;
  }

  lemma FullByFree(ftl: Ftl)
    requires ftl.Settled() && ftl.free == PAGE_CELLS
    ensures ftl.Valid() && ftl.view.logs != [] && |Newest(ftl.view)| == PAGE_PAIRS && ftl.validLen == ftl.writeIndex == 0
  {
    hide Ftl.Inv;
    ftl.Facts();
  }

  // ----- the key

  /** ftl_buffer_push_key with an empty buffer: the table is pointed at the cell before the next free
      one, where no data word will ever be, and the key itself is due for an even cell. */
  method PushKeyAlone(ftl: Ftl, a: Addr, d: Word)
    requires ftl.buffer.Length == BUFFER_CELLS && ftl.writeIndex == 0 && ftl.validLen >= 2 && ftl.free >= INFO_SIZE
    modifies ftl`table, ftl`writeIndex, ftl`state, ftl.buffer
    ensures ftl.writeIndex == 1 && ftl.buffer[0] == KeyOf(a, d)
    ensures ftl.table == if ftl.mapped then old(ftl.table)[a := PhysOf(ftl.cur, ftl.free - 1)] else old(ftl.table)
  {
    hide KeyOf;
    var key := KeyOf(a, d);
    if ftl.mapped {
      ftl.table := ftl.table[a := PhysOf(ftl.cur, ftl.free + ftl.writeIndex - 1)];
    }
    ftl.state := Filling;
    ftl.buffer[ftl.writeIndex] := key;
    ftl.writeIndex := ftl.writeIndex + 1;
  }

  lemma NoPair(words: seq<Word>, a: Addr, value: Word)
    requires |words| <= 1
    ensures !LastPairIs(words, a, value)
  {
  }

  /** ftl_read_app_cb with the table, while the buffer holds no pair. */
  method ReadPast(ftl: Ftl, a: Addr) returns (ret: nat, value: Word)
    requires ftl.buffer.Length == BUFFER_CELLS && ftl.writeIndex <= 1
    requires var phys := ReadTable(ftl.table, a);
      phys != 0 ==> PageOf(phys) < |ftl.flash| && CellOf(phys) + 1 < |ftl.flash[PageOf(phys)].cells|
    ensures ReadTable(ftl.table, a) == 0 ==> ret == READ_NOT_FOUND
    ensures var phys := ReadTable(ftl.table, a);
      phys != 0 ==>
        var key, data := ftl.flash[PageOf(phys)].cells[CellOf(phys) + 1], ftl.flash[PageOf(phys)].cells[CellOf(phys)];
        if KeyAddr(key) != a then ret == READ_PARSE_ERROR
        else value == data && ret == if CrcOk(key, data) then READ_SUCCESS else READ_CRC_FAIL
  {
    hide KeyAddr, CrcOk, PageOf, CellOf, ReadTable;
    ret, value := ftl.BufferScan(a);
    NoPair(ftl.buffer[..ftl.writeIndex], a, value);
    if ret != READ_SUCCESS {
      ret, value := ftl.ReadAt(a, ReadTable(ftl.table, a));
    }
  }

  // ----- a write, and a read of the same address

  /** The end position is recorded: the write succeeds, but with the table the address cannot be read
      any more, and without it the address reads what it read before. */
  method WriteOnClosed(ftl: Ftl, a: Addr, d: Word) returns (ret: nat, value: Word)
    requires ftl.Settled() && ftl.free == PAGE_CELLS && |ftl.view.logs| < ftl.n
    requires ftl.collecting || SettleRoom(ftl.n, ftl.mapped, ftl.view)
    requires ftl.cur < |ftl.flash| && ftl.flash[ftl.cur].end != None && ValidAddr(ftl.n, a)
    modifies ftl, ftl.buffer
    ensures old(ftl.view).logs != [] && ftl.view.logs != [] && ftl.buffer.Length == BUFFER_CELLS
    ensures if old(ftl.collecting) then ftl.view == AddPage(old(ftl.view))
            else SettledTo(ftl.n, ftl.mapped, ftl.reliable, old(ftl.view), ftl.view)
    ensures Encodes(ftl.n, ftl.flash, ftl.view) && ftl.hist == old(ftl.hist)
    ensures ftl.writeIndex == 1 && ftl.buffer[0] == KeyOf(a, d) && ftl.free == INFO_SIZE + 2 * |Newest(ftl.view)|
    ensures if ftl.mapped then ret == READ_PARSE_ERROR && ret != READ_SUCCESS else Looked(MapOfLogs(ftl.view.logs), a, ret, value)
    ensures ftl.mapped ==> MapOfLogs(ftl.view.logs) == MapOfLogs(old(ftl.view).logs)
  {
    hide *;
    Codes();
    Sizes();
    FullByFree(ftl);
    ftl.Facts();
    StillOpen(ftl.n, ftl.mapped, ftl.reliable, ftl.view);
    PushPastClosed(ftl, d);
    ftl.Resting();
    ftl.Facts();
    ftl.AllStored();
    LastKey(ftl.n, ftl.flash, ftl.view, ftl.free);
    PushKeyAlone(ftl, a, d);
    if ftl.mapped {
      IndexBeforeKey(ftl.cur, ftl.free);
      ErasedKey(ftl.n, a);
      TableGives(ftl.table, a);
      ret, value := ReadPast(ftl, a);
    } else {
      ret, value := ftl.BufferScan(a);
      NoPair(ftl.buffer[..ftl.writeIndex], a, value);
      if ret != READ_SUCCESS {
        ret, value := ftl.ScanAll(a, ftl.view);
      }
    }
  }

  lemma TableGives(table: map<Addr, nat>, a: Addr)
    ensures a in table ==> ReadTable(table, a) == table[a]
  {
  }

  /** Opening a page, and collecting, leaves a free pair, and with the table keeps every reading. */
  lemma StillOpen(n: nat, mapped: bool, reliable: bool, v: View)
    requires n >= 2 && 0 < |v.logs| < n && |Newest(v)| == PAGE_PAIRS
    ensures |Newest(AddPage(v))| < PAGE_PAIRS && MapOfLogs(AddPage(v).logs) == MapOfLogs(v.logs)
    ensures forall v' | SettledTo(n, mapped, reliable, v, v') && SettleRoom(n, mapped, v) ::
      v'.logs != [] && |Newest(v')| < PAGE_PAIRS && (mapped ==> MapOfLogs(v'.logs) == MapOfLogs(v.logs))
  {
    hide CopiesOf, RetriesOk, MapOf, MapOfLogs;
    MapOfAddPage(v.logs);
    CopiedPages(mapped, AddPage(v), INFO_SIZE);
    CopiedNewest(mapped, AddPage(v), INFO_SIZE);
    if mapped {
      forall v' | SettledTo(n, mapped, reliable, v, v') ensures MapOfLogs(v'.logs) == MapOfLogs(v.logs) {
        SettlePreserves(n, reliable, v, v');
      }
    }
  }

  /** It is not, and another page is free: the same. */
  method WriteOnOpen(ftl: Ftl, a: Addr, d: Word) returns (ret: nat, value: Word)
    requires ftl.Settled() && ftl.free == PAGE_CELLS && |ftl.view.logs| + 1 < ftl.n && !ftl.collecting && ftl.mapped
    requires ftl.cur < |ftl.flash| && ftl.flash[ftl.cur].end == None && ValidAddr(ftl.n, a)
    modifies ftl, ftl.buffer
    ensures ftl.view == AddPage(old(ftl.view)) && Held(ftl.n, ftl.flash, ftl.view)
    ensures ftl.writeIndex == 1 && ftl.buffer[0] == KeyOf(a, d) && ftl.free == INFO_SIZE
    ensures ret == READ_PARSE_ERROR && ret != READ_SUCCESS
  {
    hide Ftl.Inv, Ftl.Valid, Encodes, Held, Current, Next, KeyOf, KeyAddr, CrcOk, PhysOf, PageOf, CellOf, ValidAddr;
    ftl.Facts();
    PushPastOpen(ftl, d);
    EmptyPageErased(ftl.n, ftl.flash, ftl.view);
    var count := ftl.CountFree(ftl.view);
    assert count > 0;  // so ftl_page_garbage_collect does nothing
    PushKeyAlone(ftl, a, d);
    IndexBeforeKey(ftl.cur, ftl.free);
    ErasedKey(ftl.n, a);
    ret, value := ReadPast(ftl, a);
  }

  // ----- two pages: everything is lost

  /** Read from cell 1024 down, data words pass for keys and keys for data words; the first word read
      lies in the header of the page after this one.  No such pair passes the check. */
  ghost predicate Misread(header: Word, cells: seq<Word>)
    requires |cells| == PAGE_CELLS
  {
    && !CrcOk(header, cells[PAGE_CELLS - 1])
    && forall c | 4 <= c < PAGE_CELLS && c % 2 == 0 :: !CrcOk(cells[c], cells[c - 1])
  }

  /** ftl_gc_imp_app_cb on a page closed with end position 1024: every pair is recycled. */
  method CollectMisread(ftl: Ftl, page: nat, header: Word) returns (recycled: nat)
    requires page < |ftl.flash| && |ftl.flash[page].cells| == PAGE_CELLS && ftl.flash[page].end == Some(PAGE_CELLS)
    requires Misread(header, ftl.flash[page].cells)
    modifies ftl`flash
    ensures ftl.flash == Erase(old(ftl.flash), page) && recycled == PAGE_PAIRS
  {
    hide CrcOk;
    recycled := 0;
    var keyIndex := ftl.flash[page].end.value;
    while keyIndex >= 3
      invariant 2 <= keyIndex <= PAGE_CELLS && keyIndex % 2 == 0 && keyIndex + 2 * recycled == PAGE_CELLS
    {
      var key := if keyIndex == PAGE_CELLS then header else ftl.flash[page].cells[keyIndex];
      var data := ftl.flash[page].cells[keyIndex - 1];
      if CrcOk(key, data) {
        assert false;
      } else {
        recycled := recycled + 1;
      }
      keyIndex := keyIndex - 2;
    }
    ftl.flash := Erase(ftl.flash, page);
  }

  lemma OldestErased(n: nat, f: Image, v: View)
    requires n == 2 && Held(n, f, v) && |v.logs| == 2 && Newest(v) == [] && f[Current(n, v)].end == None
    ensures v.first < |f| && Encodes(n, Erase(f, v.first), DropOldest(n, v))
  {
    var f', v' := Erase(f, v.first), DropOldest(n, v);
    NextSequence(v.sequence, 1);
    forall p | 0 <= p < n ensures PageFits(n, f', v', p) { assert PageHolds(n, f, v, p); }
  }

  lemma FirstIsCurrent(n: nat, v: View)
    requires |v.logs| == 1 && v.first < n
    ensures Current(n, v) == v.first
  {
  }

  /** With one page in use every table entry points into it. */
  lemma TableInto(ftl: Ftl, a: Addr)
    requires ftl.Settled() && ftl.mapped && |ftl.view.logs| == 1
    ensures var phys := ReadTable(ftl.table, a);
      phys != 0 ==> PageOf(phys) == ftl.cur && CellOf(phys) + 1 < PAGE_CELLS
  {
    hide Recorded, Encodes, Durable, Buffered, Fits, Truncate, MapOf, Rotated;
    TableLookup(ftl.conf, ftl.flash, ftl.view, ftl.free, ftl.buffer[..ftl.writeIndex], ftl.table, ftl.hist, ftl.pend, a);
    WhereDecodes(ftl.n, ftl.view, a);
  }

  /** With two pages the open page is the one collected next.  If no pair of it passes the check when
      it is read one cell too far, one write erases all there is: the flash holds no pair, and no
      address `b` can be read. */
  method WriteLosesAll(ftl: Ftl, a: Addr, d: Word, header: Word, b: Addr) returns (ret: nat, value: Word)
    requires ftl.Settled() && ftl.free == PAGE_CELLS && |ftl.view.logs| < ftl.n == 2 && !ftl.collecting && ftl.mapped
    requires ftl.cur < |ftl.flash| && ftl.flash[ftl.cur].end == None && ValidAddr(2, a) && ValidAddr(2, b)
    requires |ftl.flash[ftl.cur].cells| == PAGE_CELLS && Misread(header, ftl.flash[ftl.cur].cells)
    modifies ftl, ftl.buffer
    ensures Encodes(2, ftl.flash, DropOldest(2, AddPage(old(ftl.view)))) && DropOldest(2, AddPage(old(ftl.view))).logs == [[]]
    ensures (ret == READ_NOT_FOUND || ret == READ_PARSE_ERROR) && ret != READ_SUCCESS
  {
    hide Ftl.Inv, Ftl.Valid, Encodes, Held, Current, Next, KeyOf, KeyAddr, CrcOk, PhysOf, PageOf, CellOf, ValidAddr, Misread, Where;
    ftl.Facts();
    TableInto(ftl, b);
    ghost var v, closed, phys := AddPage(ftl.view), ftl.cur, ReadTable(ftl.table, b);
    PushPastOpen(ftl, d);
    ghost var f := ftl.flash;
    EmptyPageErased(2, f, v);
    OldestErased(2, f, v);
    var count := ftl.CountFree(v);
    if count <= 0 {
      var oldest := ftl.OldestPage(v);
      FirstIsCurrent(2, old(ftl.view));
      var _ := CollectMisread(ftl, oldest, header);
    }
    PushKeyAlone(ftl, a, d);
    ErasedKey(2, b);
    IndexBeforeKey(ftl.cur, ftl.free);
    ret, value := ReadPast(ftl, b);
  }

  // ----- the run into it

  /** Alternating data words have alternating parity, and a pair that passes the check has words of
      equal parity. */
  lemma AlternatingMisread(n: nat, f: Image, v: View, flip: nat, header: Word)
    requires Encodes(n, f, v) && v.logs == [Alternating(PAGE_PAIRS, flip)]
    requires Crc.Odd(header) != Crc.Odd((510 + flip) % 2)
    ensures Current(n, v) < |f| && |f[Current(n, v)].cells| == PAGE_CELLS && Misread(header, f[Current(n, v)].cells)
  {
    hide Encodes, CrcOk, KeyOf, Crc.Odd, ValidAddr;
    FirstBound(n, f, v);
    PageCells(n, f, v, Current(n, v));
    var cells, es := f[Current(n, v)].cells, v.logs[0];
    PageReads(n, f, v, 0, 510);
    ParityOf(es[510].addr, es[510].data, header);
    forall c | 4 <= c < PAGE_CELLS && c % 2 == 0 ensures !CrcOk(cells[c], cells[c - 1]) {
      var w := (c - 2) / 2;
      PageReads(n, f, v, 0, w);
      PageReads(n, f, v, 0, w - 1);
      OddBits();
      ParityOf(es[w - 1].addr, es[w - 1].data, es[w].data);
    }
  }

  /** A word of other parity than `d` is no key for the key of `d`. */
  lemma ParityOf(a: Addr, d: Word, word: Word)
    ensures Crc.Odd(word) != Crc.Odd(d) ==> !CrcOk(word, KeyOf(a, d))
  {
    hide Crc.Odd, KeyOf, CrcOk;
    ValidPairHasEvenWeight(KeyOf(a, d), d);
    if CrcOk(word, KeyOf(a, d)) { ValidPairHasEvenWeight(word, KeyOf(a, d)); }
  }

  lemma OddBits()
    ensures !Crc.Odd(0) && Crc.Odd(1)
  {
  }

  /** Whatever word heads the header of the second page, there are 511 writes after which a power cut and
      one more write erase them all, 510 addresses in use notwithstanding. */
  method ReachLoss(blank: Image, header: Word, a: Addr, d: Word, b: Addr) returns (ftl: Ftl, ret: nat, value: Word)
    requires Encodes(2, blank, View(0, 0, [])) && ValidAddr(2, a) && ValidAddr(2, b)
    ensures ftl.n == 2 && Encodes(2, ftl.flash, View(1, 1, [[]]))
    ensures (ret == READ_NOT_FOUND || ret == READ_PARSE_ERROR) && ret != READ_SUCCESS
  {
    hide Ftl.Inv, Ftl.Valid, Encodes, Alternating, AlternatingPuts, Crc.Odd, ValidAddr, Misread, Running, Addresses, DropOldest, AddPage, Current, Newest, Rotated;
    var flip := if Crc.Odd(header) then 0 else 1;
    var operation;
    ftl, operation := ReachStuck(2, blank, flip);
    RunningFacts(ftl, 2, AlternatingPuts(PAGE_PAIRS, flip) + [CutDuring(operation)], 0);
    RunningMode(ftl, 2, AlternatingPuts(PAGE_PAIRS, flip) + [CutDuring(operation)], 0);
    ftl.Facts();
    ftl.AllStored();
    OddBits();
    AlternatingMisread(2, ftl.flash, ftl.view, flip, header);
    AllDropped(ftl.view);
    ret, value := WriteLosesAll(ftl, a, d, header, b);
  }

  lemma AllDropped(v: View)
    requires |v.logs| == 1 && v.first == v.sequence == 0
    ensures DropOldest(2, AddPage(v)) == View(1, 1, [[]])
  {
  }

  lemma RunningMode(ftl: Ftl, n: nat, cmds: seq<Command>, lo: nat)
    requires Running(ftl, n, cmds, lo)
    ensures ftl.mapped && !ftl.collecting
  {
  }
}
