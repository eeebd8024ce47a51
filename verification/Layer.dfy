/** The flash translation layer itself: globals as fields, functions as methods. */
module Layer {
  import opened Words
  import opened Log
  import opened Flash
  import opened Invariant
  import opened Collect

  datatype BufferState = Idle | Filling

  const READ_SUCCESS: nat := 0
  const READ_INVALID_ADDR: nat := 1
  const READ_NOT_FOUND: nat := 2
  const READ_PARSE_ERROR: nat := 3
  const READ_CRC_FAIL: nat := 6
  const WRITE_SUCCESS: nat := 0
  const WRITE_INVALID_ADDR: nat := 2
  const WRITE_BACK_NONE: nat := 0
  const WRITE_BACK_SUCCESS: nat := 1
  const WRITE_BACK_DO_GC: nat := 2

  /** The codes of the headers. */
  lemma Codes()
    ensures READ_SUCCESS == 0 && READ_INVALID_ADDR == 1 && READ_NOT_FOUND == 2 && READ_PARSE_ERROR == 3 && READ_CRC_FAIL == 6
    ensures WRITE_SUCCESS == 0 && WRITE_INVALID_ADDR == 2
    ensures WRITE_BACK_NONE == 0 && WRITE_BACK_SUCCESS == 1 && WRITE_BACK_DO_GC == 2
  {
  }

  class Ftl {
    const n: nat                   // g_PAGE_num
    const mapped: bool             // OTP switch for the mapping table
    const reliable: bool           // the environment: no page erase ever fails
    const buffer: array<Word>      // ftl_buffer

    var flash: Image
    var images: seq<Image>         // every state the flash has been in since mount
    var cur: nat                   // g_cur_pageID
    var free: nat                  // g_free_cell_index
    var flashPage: nat             // ftl_buffer_sm.addr_flash, as page and cell
    var flashCell: nat
    var validLen: nat
    var writeIndex: nat
    var state: BufferState
    var table: map<Addr, nat>      // ftl_mapping_table
    var collecting: bool           // g_doingGarbageCollection
    var freePages: nat             // g_free_page_count
    var abandoned: seq<Image>      // the states of a recovery that ended in clear-all, up to there

    ghost var view: View           // the log, with the buffered pairs on its newest page
    ghost var hist: PageLog        // user writes, oldest first
    ghost var pend: nat            // how many of them are only in the buffer
    ghost var notes: seq<Note>     // what each image holds
    ghost var abandonedNotes: seq<Note>
    ghost const conf: Config

    ghost predicate Inv(words: seq<Word>)
      reads `flash, `images, `cur, `free, `flashPage, `flashCell, `validLen, `table, `view, `hist, `pend, `notes
    {
      && conf == Config(n, mapped, conf.cap)
      && Consistent(conf, flash, view, free, words, table, hist, pend)
      && cur == flashPage == Current(n, view) && flashCell == free && validLen == BufferRoom(free)
      && Recorded(conf, hist, pend, flash, images, notes)
      && Rotated(n, FormatsOf(notes), view)
    }

    ghost predicate Valid()
      reads `flash, `images, `cur, `free, `flashPage, `flashCell, `validLen, `table, `view, `hist, `pend, `notes
      reads `writeIndex, `state, buffer
    {
      && buffer.Length == BUFFER_CELLS && writeIndex <= BUFFER_CELLS
      && (state == Idle <==> writeIndex == 0)
      && Inv(buffer[..writeIndex])
    }

    /** Between two calls: no half pair, and no full buffer that was not flushed. */
    ghost predicate Settled()
      reads `flash, `images, `cur, `free, `flashPage, `flashCell, `validLen, `table, `view, `hist, `pend, `notes
      reads `writeIndex, `state, buffer
    {
      Valid() && writeIndex % 2 == 0 && (writeIndex == 0 || writeIndex < validLen)
    }

    /** A full current page has its end position. */
    ghost predicate Closed()
      reads `flash, `cur, `free
    {
      free == PAGE_CELLS ==> cur < |flash| && flash[cur].end != None
    }

    /** Ready for user writes: the current page has a free pair and the next page is free. */
    ghost predicate Ready()
      reads this, buffer
    {
      Settled() && !collecting && free < PAGE_CELLS && |view.logs| < n && pend == writeIndex / 2
    }

    lemma ReadyParts()
      requires Ready()
      ensures Settled() && Valid() && !collecting && free < PAGE_CELLS && |view.logs| < n && pend == writeIndex / 2
      ensures writeIndex % 2 == 0 && (writeIndex == 0 || writeIndex < validLen)
    {
      hide Valid, Settled;
      Resting();
    }

    lemma ReadyMade()
      requires Settled() && !collecting && free < PAGE_CELLS && |view.logs| < n && pend == writeIndex / 2
      ensures Ready()
    {
      hide Settled;
    }

    /** What the invariant says without regard to what is stored. */
    lemma Facts()
      requires Valid()
      ensures 2 <= n <= 255 && (mapped ==> n <= 4) && conf == Config(n, mapped, conf.cap) && PAGE_PAIRS <= conf.cap
      ensures 0 < |view.logs| <= n && view.first < n && cur == Current(n, view) < n == |flash|
      ensures free % 2 == 0 && INFO_SIZE <= free <= PAGE_CELLS
      ensures validLen % 2 == 0 && writeIndex <= validLen <= BUFFER_CELLS && free + validLen <= PAGE_CELLS
      ensures free < PAGE_CELLS ==> validLen >= 2
      ensures validLen == BufferRoom(free)
      ensures Flushed(free) + writeIndex / 2 == |Newest(view)| && pend <= writeIndex / 2
      ensures Rotated(n, FormatsOf(notes), view) && free == INFO_SIZE + 2 * (|Newest(view)| - writeIndex / 2)
      ensures |Newest(view)| <= PAGE_PAIRS
      ensures buffer.Length == BUFFER_CELLS && flashPage == cur && flashCell == free && (state == Idle <==> writeIndex == 0)
    {
      hide Consistent;
      ConsistentFacts(conf, flash, view, free, buffer[..writeIndex], table, hist, pend);
      RoomIsEven(conf, flash, view, free, buffer[..writeIndex], table, hist, pend);
    }

    /** The invariant taken apart, and put together. */
    lemma Parts()
      requires Valid()
      ensures buffer.Length == BUFFER_CELLS && writeIndex <= BUFFER_CELLS && conf == Config(n, mapped, conf.cap)
      ensures Consistent(conf, flash, view, free, buffer[..writeIndex], table, hist, pend)
      ensures view.logs != [] && cur == flashPage == Current(n, view) && flashCell == free <= PAGE_CELLS && validLen == BufferRoom(free)
      ensures Recorded(conf, hist, pend, flash, images, notes) && Rotated(n, FormatsOf(notes), view)
    {
      hide Recorded, Consistent, Rotated, FormatsOf, BufferRoom;
      ConsistentFacts(conf, flash, view, free, buffer[..writeIndex], table, hist, pend);
    }

    lemma Made(words: seq<Word>)
      requires conf == Config(n, mapped, conf.cap)
      requires Consistent(conf, flash, view, free, words, table, hist, pend)
      requires view.logs != [] && cur == flashPage == Current(n, view) && flashCell == free <= PAGE_CELLS && validLen == BufferRoom(free)
      requires Recorded(conf, hist, pend, flash, images, notes) && Rotated(n, FormatsOf(notes), view)
      ensures Inv(words)
    {
    }

    lemma Rests()
      requires Valid() && writeIndex == 0
      ensures Settled()
    {
      hide Valid;
    }

    lemma Resting()
      requires Settled()
      ensures Valid() && writeIndex % 2 == 0 && (writeIndex == 0 || writeIndex < validLen)
    {
      hide Valid;
    }

    lemma RoomFacts()
      requires Valid()
      ensures buffer.Length == BUFFER_CELLS && validLen % 2 == 0 && validLen <= BUFFER_CELLS && view.logs != []
    {
      hide Inv, Rotated, FormatsOf;
      Facts();
    }

    lemma OldestIsFull()
      requires Valid() && |view.logs| >= 2
      ensures |view.logs[0]| == PAGE_PAIRS
    {
      hide Consistent;
      ConsistentFacts(conf, flash, view, free, buffer[..writeIndex], table, hist, pend);
    }

    /** Where the table sends a read, and what is found there. */
    lemma TableAt(a: Addr)
      requires Valid() && mapped
      ensures INFO_SIZE <= free && Flushed(free) <= |Newest(view)|
      ensures var phys := ReadTable(table, a);
        var p, i := PageOf(phys), CellOf(phys);
        && (phys != 0 ==> p < |flash| && i + 1 < |flash[p].cells|)
        && (a !in MapOf(Newest(view)[Flushed(free)..]) ==>
          var m := MapOfLogs(Truncate(view, Flushed(free)).logs);
          && (phys == 0 <==> a !in m)
          && (phys != 0 ==> flash[p].cells[i] == m[a])
          && (phys != 0 ==> KeyAddr(flash[p].cells[i + 1]) == a && CrcOk(flash[p].cells[i + 1], m[a])))
    {
      hide Rotated, Recorded, Consistent, Where, PageOf, CellOf, MapOf, MapOfLogs, Truncate, ValidAddr, KeyOf, KeyAddr, CrcOk;
      TableLookup(conf, flash, view, free, buffer[..writeIndex], table, hist, pend, a);
      TablePair(conf, flash, view, free, buffer[..writeIndex], table, hist, pend, a);
    }

    /** With an empty buffer the whole log is on flash. */
    lemma AllStored()
      requires Valid() && writeIndex == 0
      ensures Encodes(n, flash, view)
    {
      hide Consistent, Encodes;
      assert buffer[..0] == [];
      ConsistentEncodes(conf, flash, view, free, [], table, hist, pend);
    }

    // ----- the RAM buffer

    /** flash_write of the buffer.  A power cut leaves whole pairs, so every pair programmed is an
        image the layer may wake up to. */
    method FlashWrite()
      requires Valid() && writeIndex % 2 == 0
      modifies `flash, `images, `notes
      ensures Encodes(n, flash, view)
      ensures Programmed(old(flash), flash, cur, free, buffer[..writeIndex])
      ensures Recorded(conf, hist, 0, flash, images, notes) && FormatsOf(notes) == FormatsOf(old(notes))
      ensures |notes| == |old(notes)| + writeIndex / 2
      ensures writeIndex > 0 ==> FlushShown(n, images, notes, |old(notes)|, view, writeIndex / 2, |hist|, old(pend))
      ensures Continues(old(images), old(notes), images, notes, |old(hist)| - old(pend))
    {
      hide *;
      Parts();
      FlashWriteFacts();
      var i := 0;
      ghost var f0, words := Flushed(free), buffer[..writeIndex];
      ContinuesRefl(images, notes, |hist| - pend);
      NothingProgrammed(n, flash, view, f0);
      assert buffer[..0] == [];
      while i < writeIndex
        invariant 0 <= i <= writeIndex && i % 2 == 0
        invariant Encodes(n, flash, Truncate(view, f0 + i / 2))
        invariant Programmed(old(flash), flash, cur, free, buffer[..i])
        invariant Recorded(conf, hist, pend - Min(i / 2, pend), flash, images, notes)
        invariant FormatsOf(notes) == FormatsOf(old(notes))
        invariant |notes| == |old(notes)| + i / 2 && (i > 0 ==> Shows(n, images, notes, |notes| - 1, Truncate(view, f0 + i / 2)))
        invariant forall k | |old(notes)| <= k < |notes| ::
          PairShown(notes[k], view, writeIndex / 2, k - |old(notes)| + 1, |hist|, pend)
        invariant Continues(old(images), old(notes), images, notes, |old(hist)| - old(pend))
      {
        ghost var im, no, low := images, notes, |hist| - (pend - Min(i / 2 + 1, pend));
        ghost var f := flash;
        LeastOf(i / 2 + 1, pend);
        ProgramPair(i, f0);
        PairShownIs(notes[|notes| - 1], view, writeIndex / 2, i / 2 + 1, |hist|, pend);
        ProgrammedPair(old(flash), f, flash, cur, free, buffer[..i], buffer[i], buffer[i + 1]);
        assert buffer[..i + 2] == buffer[..i] + [buffer[i], buffer[i + 1]];
        ContinuesTrans(old(images), old(notes), im, no, images, notes, |old(hist)| - old(pend), low);
        i := i + 2;
      }
      LeastOf(writeIndex / 2, pend);
      TruncateAll(view);
      if writeIndex > 0 { FlushMade(n, images, notes, |old(notes)|, view, writeIndex / 2, |hist|, pend); }
    }

    /** What a flush starts from. */
    lemma FlashWriteFacts()
      requires Valid() && writeIndex % 2 == 0
      ensures n >= 2 && INFO_SIZE <= free && Flushed(free) + writeIndex / 2 == |Newest(view)| <= PAGE_PAIRS && free == INFO_SIZE + 2 * Flushed(free)
      ensures Buffered(n, buffer[..writeIndex], Newest(view)[Flushed(free)..])
      ensures Durable(mapped, view, Flushed(free), hist, pend) && (mapped ==> Fits(n, view, conf.cap))
      ensures Encodes(n, flash, Truncate(view, Flushed(free))) && pend <= writeIndex / 2
      ensures Min(0, pend) == 0
    {
      hide Inv, Rotated, FormatsOf, Encodes, Durable, Fits, Buffered, Recorded;
      Facts();
      Parts();
      ConsistentEncodes(conf, flash, view, free, buffer[..writeIndex], table, hist, pend);
      ConsistentBuffered(conf, flash, view, free, buffer[..writeIndex], table, hist, pend);
      ConsistentParts(conf, flash, view, free, buffer[..writeIndex], table, hist, pend);
    }

    /** Two words of the buffer, a pair. */
    method ProgramPair(i: nat, ghost f0: nat)
      requires conf == Config(n, mapped, conf.cap) && n >= 2 && view.logs != []
      requires buffer.Length == BUFFER_CELLS && i % 2 == 0 && i + 1 < writeIndex <= BUFFER_CELLS
      requires f0 + writeIndex / 2 == |Newest(view)| <= PAGE_PAIRS
      requires flashPage == Current(n, view) && flashCell == INFO_SIZE + 2 * f0
      requires Buffered(n, buffer[..writeIndex], Newest(view)[f0..])
      requires Durable(mapped, view, f0, hist, pend) && (mapped ==> Fits(n, view, conf.cap))
      requires Encodes(n, flash, Truncate(view, f0 + i / 2)) && Rotated(n, FormatsOf(notes), view)
      requires Recorded(conf, hist, pend - Min(i / 2, pend), flash, images, notes)
      modifies `flash, `images, `notes
      ensures Encodes(n, flash, Truncate(view, f0 + i / 2 + 1))
      ensures Programmed(old(flash), flash, flashPage, flashCell + i, [buffer[i], buffer[i + 1]])
      ensures Recorded(conf, hist, pend - Min(i / 2 + 1, pend), flash, images, notes)
      ensures FormatsOf(notes) == FormatsOf(old(notes))
      ensures |notes| == |old(notes)| + 1 && Shows(n, images, notes, |notes| - 1, Truncate(view, f0 + i / 2 + 1))
      ensures notes == old(notes) + [Note(Truncate(view, f0 + i / 2 + 1), |hist| - (pend - Min(i / 2 + 1, pend)), FormatsOf(notes))]
      ensures Continues(old(images), old(notes), images, notes, |hist| - (pend - Min(i / 2 + 1, pend)))
    {
      hide Recorded, Durable, Buffered, Fits, Encodes, Continues, Truncate, Reached, KeyOf, Current, And, Possible, Operated, ValidAddr, Rotated, FormatsOf, Programmed;
      ghost var j, words := i / 2, buffer[..writeIndex];
      PairProgrammed(n, flash, view, f0, words, j);
      assert buffer[i] == words[2 * j] && buffer[i + 1] == words[2 * j + 1];
      var op := PutPair(flashPage, flashCell + i, buffer[i], buffer[i + 1]);
      PairPossible(flash, ProgramCell(ProgramCell(flash, flashPage, flashCell + i, buffer[i]), flashPage, flashCell + i + 1, buffer[i + 1]),
                   flashPage, flashCell + i, buffer[i], buffer[i + 1]);
      ghost var note := PrefixImage(conf, view, f0, hist, pend, j + 1, Operated(flash, op), FormatsOf(notes));
      Operate(op, note, pend - Min(j, pend));
      TruncateCurrent(n, view, f0 + i / 2 + 1);
      NoteShown(n, conf, hist, images, notes, flash, note, |hist| - note.upto);
    }

    // ----- flash operations and their record

    /** The RAM buffer has reached flash; its bookkeeping is about to be renewed. */
    ghost predicate Drained()
      reads this
    {
      && Consistent(conf, flash, view, free, [], table, hist, 0) && pend == 0 && Rotated(n, FormatsOf(notes), view)
      && conf == Config(n, mapped, conf.cap) && cur == Current(n, view)
      && Recorded(conf, hist, 0, flash, images, notes)
    }

    /** `Drained` taken apart, and put together. */
    lemma DrainedParts()
      requires Drained()
      ensures Consistent(conf, flash, view, free, [], table, hist, 0) && pend == 0 && Rotated(n, FormatsOf(notes), view)
      ensures conf == Config(n, mapped, conf.cap) && view.logs != [] && n >= 2 && |flash| == n && cur == Current(n, view) < n
      ensures Recorded(conf, hist, 0, flash, images, notes)
    {
      hide Recorded, Consistent, Rotated, FormatsOf;
      ConsistentFacts(conf, flash, view, free, [], table, hist, 0);
    }

    lemma DrainedMade()
      requires Consistent(conf, flash, view, free, [], table, hist, 0) && pend == 0 && Rotated(n, FormatsOf(notes), view)
      requires conf == Config(n, mapped, conf.cap) && view.logs != [] && n >= 2 && cur == Current(n, view)
      requires Recorded(conf, hist, 0, flash, images, notes)
      ensures Drained()
    {
      hide Recorded, Consistent, Rotated, FormatsOf;
    }

    /** ftl_buffer_sm_init */
    method BufferInit()
      requires Drained() && buffer.Length == BUFFER_CELLS
      modifies `flashPage, `flashCell, `validLen, `writeIndex, `state
      ensures Settled() && writeIndex == 0
    {
      hide Recorded, Encodes, Current, TableOk, Durable, Buffered, Fits, Rotated, FormatsOf;
      flashPage, flashCell := cur, free;
      validLen := if PAGE_CELLS - free > BUFFER_CELLS then BUFFER_CELLS else PAGE_CELLS - free;
      writeIndex := 0;
      state := Idle;
      assert buffer[..0] == [];
    }

    /** One flash operation; the state it leads to goes on record.  Nothing else changes the flash of a
        layer that is at work, but for the clear-all. */
    method Operate(op: Operation, ghost note: Note, ghost missing: int)
      requires Recorded(conf, hist, missing, flash, images, notes) && Possible(flash, op)
      requires ImageOk(conf, hist, Operated(flash, op), note) && FormatsOf(notes) <= note.formats
      modifies `flash, `images, `notes
      ensures Possible(old(flash), op) && flash == Operated(old(flash), op)
      ensures images == old(images) + [flash] && notes == old(notes) + [note] && FormatsOf(notes) == note.formats
      ensures Recorded(conf, hist, |hist| - note.upto, flash, images, notes)
      ensures Continues(old(images), old(notes), images, notes, note.upto)
    {
      hide Recorded, ImageOk, Possible, Operated, Continues;
      TraceExtends(conf, hist, missing, flash, images, notes, op, note);
      flash := Operated(flash, op);
      images, notes := images + [flash], notes + [note];
    }

    /** ftl_get_free_page_count */
    method CountFree(ghost u: View) returns (count: nat)
      requires Held(n, flash, u)
      ensures count == n - |u.logs|
    {
      count := 0;
      ghost var k, first := |u.logs|, u.first;
      for i := 0 to n
        invariant count == if first + k <= n then Min(i, first) + Max(0, i - (first + k))
                           else Max(0, Min(i, first) - (first + k - n))
      {
        assert PageHolds(n, flash, u, i);
        if !flash[i].valid { count := count + 1; }
      }
    }

    /** The first half of ftl_buffer_write_back. */
    method FlushBuffer()
      requires Valid() && writeIndex % 2 == 0
      modifies `flash, `images, `notes, `free, `pend
      ensures Drained() && free == old(free) + writeIndex
      ensures |notes| == |old(notes)| + writeIndex / 2
      ensures writeIndex > 0 ==> FlushShown(n, images, notes, |old(notes)|, view, writeIndex / 2, |hist|, old(pend))
      ensures Programmed(old(flash), flash, cur, old(free), buffer[..writeIndex])
      ensures Continues(old(images), old(notes), images, notes, |old(hist)| - old(pend))
    {
      hide Recorded, Consistent, Encodes, Continues, Current, BufferRoom, Rotated, FormatsOf, Shows, FlushShown, Programmed;
      ghost var words, flash0 := buffer[..writeIndex], flash;
      FlashWrite();
      FlushedAll(conf, flash0, view, free, words, table, hist, pend, flash);
      free := free + writeIndex;
      pend := 0;
    }

    /** ftl_buffer_write_back: flush, and when the page is full open the next one and collect. */
    method WriteBack() returns (ret: nat)
      requires Valid() && writeIndex % 2 == 0
      requires collecting ==> |view.logs| == n
      requires SettleRoom(n, mapped, view)
      modifies this, buffer
      ensures Settled() && writeIndex == 0 && pend == 0 && collecting == old(collecting)
      ensures hist == old(hist) && (old(writeIndex) > 0 && collecting ==> Closed())
      ensures old(writeIndex) == 0 ==> ret == WRITE_BACK_NONE && unchanged(this)
      ensures old(writeIndex) > 0 || |old(view).logs| == n ==> SettledTo(n, mapped, reliable, old(view), view)
      ensures old(writeIndex) > 0 ==>
        FlushShown(n, images, notes, |old(notes)|, old(view), old(writeIndex) / 2, |hist|, old(pend))
      ensures old(writeIndex) > 0 && |Newest(old(view))| < PAGE_PAIRS ==>
        && |notes| == |old(notes)| + old(writeIndex) / 2
        && Programmed(old(flash), flash, old(cur), old(free), old(buffer[..writeIndex]))
      ensures old(writeIndex) > 0 && |Newest(old(view))| == PAGE_PAIRS ==>
        ClosedAt(images, |old(notes)| + old(writeIndex) / 2, old(cur))
      ensures Continues(old(images), old(notes), images, notes, |old(hist)| - old(pend))
      ensures old(writeIndex) > 0 ==>
        ret == if |Newest(old(view))| == PAGE_PAIRS && |old(view).logs| < n && !collecting then WRITE_BACK_DO_GC
               else WRITE_BACK_SUCCESS
      decreases if collecting then 0 else 1, 2
    {
      hide *;
      Sizes();
      Facts();
      if state == Idle {
        Rests();
        if |view.logs| == n { SettledRefl(n, mapped, reliable, view); }
        ret := WRITE_BACK_NONE;
        ContinuesRefl(images, notes, |hist| - pend);
        return;
      }
      FlushBuffer();
      DrainedParts();
      RecordedEnds(conf, hist, 0, flash, images, notes);
      FlushedEnd(n, images, notes, |old(notes)|, view, old(writeIndex) / 2, |hist|, old(pend));
      ret := WRITE_BACK_SUCCESS;
      if free >= PAGE_CELLS {
        ghost var im, no, low := images, notes, |hist| - pend;
        ret := OpenNext();
        ContinuesTrans(old(images), old(notes), im, no, images, notes, |old(hist)| - old(pend), low);
        FlushOn(n, im, no, images, notes, |old(notes)|, old(view), old(writeIndex) / 2, |hist|, old(pend));
      } else {
        OpenIsClosed();
        SettledRefl(n, mapped, reliable, view);
      }
      DrainedParts();
      BufferInit();
    }

    /** The part of ftl_buffer_write_back that runs when the current page is full: set its end
        position; if the next page is free, format it, move there, and let a collection run
        unless one is running already. */
    method OpenNext() returns (ret: nat)
      requires Drained() && buffer.Length == BUFFER_CELLS && free == PAGE_CELLS
      requires collecting ==> |view.logs| == n
      requires SettleRoom(n, mapped, view)
      modifies this, buffer
      ensures Drained() && collecting == old(collecting) && hist == old(hist) && (collecting ==> Closed())
      ensures SettledTo(n, mapped, reliable, old(view), view)
      ensures ret == if |old(view).logs| < n && !collecting then WRITE_BACK_DO_GC else WRITE_BACK_SUCCESS
      ensures Continues(old(images), old(notes), images, notes, |old(hist)| - old(pend))
      ensures old(cur) < |old(flash)| == n && (old(flash)[old(cur)].end == None ==> ClosedAt(images, |old(images)|, old(cur)))
      ensures var closed := SetEnd(old(flash), old(cur), PAGE_CELLS - 1);
        && (|old(view).logs| == n ==> flash == closed)
        && (|old(view).logs| + 1 < n ==> flash == Opened(closed, old(cur), Next(n, old(cur))))
      decreases if collecting then 0 else 1, 1
    {
      hide Recorded, Consistent, Encodes, Continues, CollectedTo, CollectRoom, Next, ValidAddr, Rotated, FormatsOf, Fits;
      ret := WRITE_BACK_SUCCESS;
      ConsistentFacts(conf, flash, view, free, [], table, hist, pend);
      RecordEnd();
      ghost var im, no, low := images, notes, |hist| - pend;
      var next := Next(n, cur);
      FullPage(conf, flash, view, table, hist);
      if !flash[next].valid {
        OpenRoom(conf, view);
        FormatNext(next);
        if !collecting {
          ghost var im1, no1 := images, notes;
          GarbageCollect();
          ret := WRITE_BACK_DO_GC;
          ContinuesTrans(im, no, im1, no1, images, notes, low, low);
        }
        ContinuesTrans(old(images), old(notes), im, no, images, notes, |old(hist)| - old(pend), low);
        if old(flash)[old(cur)].end == None { ClosedOn(im, no, images, notes, low, |old(images)|, old(cur)); }
      }
    }

    method RecordEnd()
      requires Drained() && free == PAGE_CELLS
      modifies `flash, `images, `notes
      ensures Drained() && Continues(old(images), old(notes), images, notes, |old(hist)| - old(pend))
      ensures cur < n == |old(flash)| && old(flash)[cur].end in {None, Some(PAGE_CELLS - 1)}
      ensures flash == SetEnd(old(flash), cur, PAGE_CELLS - 1)
      ensures if old(flash)[cur].end == None then images == old(images) + [flash] && ClosedAt(images, |old(images)|, cur)
              else images == old(images)
    {
      hide Recorded, Consistent, Encodes, ImageOk, Continues, Current, Rotated, FormatsOf;
      FullPage(conf, flash, view, table, hist);
      EndRecorded(conf, flash, view, table, hist);
      RecordedEnds(conf, hist, 0, flash, images, notes);
      ContinuesRefl(images, notes, |hist| - pend);
      if flash[cur].end == None {
        RestingImage(conf, SetEnd(flash, cur, PAGE_CELLS - 1), view, free, table, hist, FormatsOf(notes));
        Operate(PutEnd(cur, PAGE_CELLS - 1), Note(view, |hist|, FormatsOf(notes)), 0);
      }
    }

    /** ftl_page_format of the free page `next`, which becomes the current page. */
    method FormatNext(next: nat)
      requires Drained() && buffer.Length == BUFFER_CELLS && free == PAGE_CELLS && |view.logs| < n
      requires next == Next(n, cur) && (mapped ==> Fits(n, AddPage(view), conf.cap))
      modifies this
      ensures Settled() && writeIndex == 0 && pend == 0
      ensures hist == old(hist) && collecting == old(collecting)
      ensures view == AddPage(old(view)) && free == INFO_SIZE
      ensures old(cur) < n == |old(flash)| && next < n
      ensures var sequence := (old(flash)[old(cur)].sequence + 1) % 0x100;
        && flash == WriteHeader(Erase(old(flash), next), next, sequence)
        && FormatsOf(notes) == FormatsOf(old(notes)) + [Format(next, sequence)]
      ensures Continues(old(images), old(notes), images, notes, |old(hist)| - old(pend))
    {
      hide *;
      DrainedParts();
      NextPageFormatted(conf, flash, view, table, hist, FormatsOf(notes));
      AddPageFacts(view);
      var sequence := (flash[cur].sequence + 1) % 0x100;
      ghost var next1, formats := WriteHeader(Erase(flash, next), next, sequence), FormatsOf(notes) + [Format(next, sequence)];
      RestingImage(conf, next1, AddPage(view), INFO_SIZE, table, hist, formats);
      FormatPage(next, sequence, view, AddPage(view));
      view := AddPage(view);
      cur := next;
      free := INFO_SIZE;
      DrainedMade();
      BufferInit();
    }

    /** ftl_page_format: erase, then write the header, which completes the format. */
    method FormatPage(p: nat, sequence: Byte, ghost v: View, ghost v': View)
      requires p < |flash| && Recorded(conf, hist, 0, flash, images, notes)
      requires |Erase(flash, p)| == |flash|
      requires ImageOk(conf, hist, Erase(flash, p), Note(v, |hist|, FormatsOf(notes)))
      requires ImageOk(conf, hist, WriteHeader(Erase(flash, p), p, sequence), Note(v', |hist|, FormatsOf(notes) + [Format(p, sequence)]))
      modifies `flash, `images, `notes
      ensures flash == WriteHeader(Erase(old(flash), p), p, sequence)
      ensures FormatsOf(notes) == FormatsOf(old(notes)) + [Format(p, sequence)]
      ensures notes == old(notes) + [Note(v, |hist|, FormatsOf(old(notes))), Note(v', |hist|, FormatsOf(notes))]
      ensures Recorded(conf, hist, 0, flash, images, notes)
      ensures Continues(old(images), old(notes), images, notes, |hist|)
    {
      hide Recorded, ImageOk, Continues, Erase, WriteHeader, FormatsOf;
      Operate(ErasePage(p), Note(v, |hist|, FormatsOf(notes)), 0);
      ghost var im, no, low := images, notes, |hist|;
      Operate(PutHeader(p, sequence), Note(v', |hist|, FormatsOf(notes) + [Format(p, sequence)]), 0);
      ContinuesTrans(old(images), old(notes), im, no, images, notes, |hist|, low);
    }

    /** ftl_page_garbage_collect(0, ...): collect when no page is free. */
    method GarbageCollect()
      requires Settled() && writeIndex == 0 && pend == 0 && free == INFO_SIZE && !collecting
      requires |view.logs| == n ==> RetriesOk(n, 0) && CollectRoom(mapped, view, INFO_SIZE)
      modifies this, buffer
      ensures Settled() && writeIndex == 0 && pend == 0 && !collecting
      ensures hist == old(hist)
      ensures if |old(view).logs| == n then CollectedTo(n, mapped, reliable, old(view), INFO_SIZE, view)
              else view == old(view) && flash == old(flash)
      ensures Continues(old(images), old(notes), images, notes, |old(hist)| - old(pend))
      decreases if collecting then 0 else 1, 0
    {
      hide Inv, Valid, Held, Encodes, Continues, CollectRoom, CollectedTo, CopiesOf, ValidAddr, Rotated, FormatsOf, Shows, BufferRoom, Newest, Current;
      Facts();
      AllStored();
      EncodesHeld(n, flash, view);
      ContinuesRefl(images, notes, |hist|);
      var count := CountFree(view);
      if count <= 0 {
        collecting := true;
        var _ := Collect();
        collecting := false;
      }
    }

    // ----- writing

    /** ftl_buffer_push */
    method Push(w: Word)
      requires buffer.Length == BUFFER_CELLS && writeIndex < BUFFER_CELLS && Inv(buffer[..writeIndex] + [w])
      requires writeIndex + 1 == validLen ==>
        && validLen % 2 == 0
        && (collecting ==> |view.logs| == n) && SettleRoom(n, mapped, view)
      modifies this, buffer
      ensures Valid() && hist == old(hist) && collecting == old(collecting)
      ensures writeIndex % 2 == 0 ==> Settled()
      ensures collecting && old(free) < PAGE_CELLS ==> Closed()
      ensures Continues(old(images), old(notes), images, notes, |old(hist)| - old(pend))
      ensures old(writeIndex) + 1 < old(validLen) ==>
        && writeIndex == old(writeIndex) + 1 && buffer[old(writeIndex)] == w
        && view == old(view) && free == old(free) && validLen == old(validLen) && pend == old(pend)
        && flash == old(flash) && images == old(images) && notes == old(notes)
      ensures old(writeIndex) + 1 >= old(validLen) ==> writeIndex == 0 && pend == 0 && Settled()
      ensures old(writeIndex) + 1 == old(validLen) ==>
        && FlushShown(n, images, notes, |old(notes)|, old(view), old(validLen) / 2, |hist|, old(pend))
        && (|Newest(old(view))| < PAGE_PAIRS ==> |notes| == |old(notes)| + old(validLen) / 2)
      ensures SettledTo(n, mapped, reliable, old(view), view)
      decreases if collecting then 0 else 1, 3
    {
      hide Recorded, Consistent, Encodes, Continues, SettledTo, SettleRoom, ValidAddr, Rotated, FormatsOf, Shows, FlushShown;
      ghost var words := buffer[..writeIndex] + [w];
      ConsistentFacts(conf, flash, view, free, words, table, hist, pend);
      ContinuesRefl(images, notes, |hist| - pend);
      state := Filling;
      buffer[writeIndex] := w;
      writeIndex := writeIndex + 1;
      assert buffer[..writeIndex] == words;
      if writeIndex >= validLen {
        var _ := WriteBack();
      } else {
        SettledRefl(n, mapped, reliable, view);
      }
    }

    /** The state that a pair leaves once its key has joined its data word in the buffer. */
    lemma PairConsistent(key: Word, e: Entry, copy: bool, words: seq<Word>, table': map<Addr, nat>, hist': PageLog, pend': nat)
      requires Valid() && writeIndex % 2 == 1 && writeIndex < validLen
      requires ValidAddr(n, e.addr) && key == KeyOf(e.addr, e.data) && buffer[writeIndex - 1] == e.data
      requires copy ==> |view.logs| == n && (mapped ==> IsLive(view, e))
      requires !copy ==> pend == writeIndex / 2 && (mapped ==> view.logs != [] && NoneLive(n, view))
      requires table' == if mapped then table[KeyAddr(key) := PhysOf(cur, free + writeIndex - 1)] else table
      requires words == buffer[..writeIndex]
      requires hist' == (if copy then hist else hist + [e]) && pend' == if copy then pend else pend + 1
      ensures conf == Config(n, mapped, conf.cap) && flashCell == free && validLen == BufferRoom(free)
      ensures view.logs != [] && cur == flashPage == Current(n, AppendTo(view, [e]))
      ensures Consistent(conf, flash, AppendTo(view, [e]), free, words + [key], table', hist', pend')
      ensures Recorded(conf, hist', pend', flash, images, notes) && Rotated(n, FormatsOf(notes), AppendTo(view, [e]))
    {
      hide *;
      Parts();
      ConsistentFacts(conf, flash, view, free, words, table, hist, pend);
      if mapped {
        TableIndex(conf, flash, view, free, words, table, hist, pend);
      }
      PairPushed(conf, flash, view, free, words, table, hist, pend, images, notes, e, copy, table');
      AppendFacts(view, e);
      RotatedAppend(n, FormatsOf(notes), view, e);
    }

    /** write_mapping_table for the pair that `key` completes; from here on it is in the log. */
    method WriteTable(key: Word, ghost e: Entry, ghost copy: bool)
      requires Valid() && writeIndex % 2 == 1 && writeIndex < validLen
      requires ValidAddr(n, e.addr) && key == KeyOf(e.addr, e.data) && buffer[writeIndex - 1] == e.data
      requires copy ==> |view.logs| == n && (mapped ==> IsLive(view, e))
      requires !copy ==> pend == writeIndex / 2 && (mapped ==> view.logs != [] && NoneLive(n, view))
      modifies `table, `view, `hist, `pend
      ensures Inv(buffer[..writeIndex] + [key]) && view == AppendTo(old(view), [e])
      ensures |view.logs| == |old(view).logs|
      ensures hist == if copy then old(hist) else old(hist) + [e]
      ensures pend == if copy then old(pend) else old(pend) + 1
    {
      hide *;
      Parts();
      AppendFacts(view, e);
      var table' := if mapped then table[KeyAddr(key) := PhysOf(cur, free + writeIndex - 1)] else table;
      ghost var words := buffer[..writeIndex];
      ghost var hist', pend' := if copy then hist else hist + [e], if copy then pend else pend + 1;
      PairConsistent(key, e, copy, words, table', hist', pend');
      table, view, hist, pend := table', AppendTo(view, [e]), hist', pend';
      Made(words + [key]);
    }

    /** ftl_buffer_push_key: point the table at the pair, then let the key complete it. */
    method PushKey(key: Word, ghost e: Entry, ghost copy: bool)
      requires Valid() && writeIndex % 2 == 1 && writeIndex < validLen && free < PAGE_CELLS
      requires ValidAddr(n, e.addr) && key == KeyOf(e.addr, e.data) && buffer[writeIndex - 1] == e.data
      requires collecting ==> |view.logs| == n
      requires copy ==> |view.logs| == n && (mapped ==> IsLive(view, e))
      requires !copy ==> pend == writeIndex / 2 && (mapped ==> view.logs != [] && NoneLive(n, view))
      requires SettleRoom(n, mapped, AppendTo(view, [e]))
      modifies this, buffer
      ensures Settled() && collecting == old(collecting) && (collecting ==> Closed())
      ensures hist == (if copy then old(hist) else old(hist) + [e])
      ensures if copy then pend <= old(pend) else pend == writeIndex / 2
      ensures SettledTo(n, mapped, reliable, AppendTo(old(view), [e]), view)
      ensures writeIndex == if old(writeIndex) + 1 == old(validLen) then 0 else old(writeIndex) + 1
      ensures if old(writeIndex) + 1 < old(validLen) then images == old(images) && notes == old(notes)
        else
          && FlushShown(n, images, notes, |old(notes)|, AppendTo(old(view), [e]), old(validLen) / 2, |hist|, if copy then old(pend) else old(pend) + 1)
          && (|Newest(old(view))| + 1 < PAGE_PAIRS ==> |notes| == |old(notes)| + old(validLen) / 2)
      ensures Continues(old(images), old(notes), images, notes, |old(hist)| - old(pend))
      decreases if collecting then 0 else 1, 4
    {
      hide *;
      RoomFacts();
      AppendFacts(view, e);
      WriteTable(key, e, copy);
      Push(key);
    }

    /** ftl_buffer_push of a data word: there is always room for it, and for its key. */
    method PushData(d: Word)
      requires Settled() && free < PAGE_CELLS
      requires (collecting ==> |view.logs| == n)
      modifies this, buffer
      ensures Valid() && writeIndex == old(writeIndex) + 1 < validLen && buffer[writeIndex - 1] == d
      ensures view == old(view) && free == old(free) && validLen == old(validLen)
      ensures hist == old(hist) && pend == old(pend) && collecting == old(collecting)
      ensures images == old(images) && notes == old(notes)
      decreases if collecting then 0 else 1, 4
    {
      hide Recorded, Consistent, Encodes, Continues, SettledTo, SettleRoom, BufferRoom, Current, ValidAddr, Rotated, FormatsOf, Shows, FlushShown;
      ghost var words := buffer[..writeIndex];
      RoomIsEven(conf, flash, view, free, words, table, hist, pend);
      DataPushed(conf, flash, view, free, words, table, hist, pend, d);
      Push(d);
    }

    /** ftl_write_app_cb; `copy` tells the pairs that collection moves from user writes. */
    method Write(a: Addr, d: Word, ghost copy: bool) returns (ret: nat)
      requires Settled() && free < PAGE_CELLS
      requires collecting ==> |view.logs| == n
      requires ValidAddr(n, a) ==>
        && (copy ==> |view.logs| == n && (mapped ==> IsLive(view, Entry(a, d))))
        && (!copy ==> pend == writeIndex / 2 && (mapped ==> view.logs != [] && NoneLive(n, view)))
        && SettleRoom(n, mapped, AppendTo(view, [Entry(a, d)]))
      modifies this, buffer
      ensures Settled() && collecting == old(collecting)
      ensures ret == if ValidAddr(n, a) then WRITE_SUCCESS else WRITE_INVALID_ADDR
      ensures ret == WRITE_INVALID_ADDR ==> unchanged(this) && unchanged(buffer)
      ensures collecting ==> Closed()
      ensures ret == WRITE_SUCCESS ==>
        && hist == (if copy then old(hist) else old(hist) + [Entry(a, d)])
        && (if copy then pend <= old(pend) else pend == writeIndex / 2)
        && SettledTo(n, mapped, reliable, AppendTo(old(view), [Entry(a, d)]), view)
        && writeIndex == (if old(writeIndex) + 2 == old(validLen) then 0 else old(writeIndex) + 2)
        && (if old(writeIndex) + 2 < old(validLen) then images == old(images) && notes == old(notes)
            else
              && FlushShown(n, images, notes, |old(notes)|, AppendTo(old(view), [Entry(a, d)]), old(validLen) / 2, |hist|, if copy then old(pend) else old(pend) + 1)
              && (|Newest(old(view))| + 1 < PAGE_PAIRS ==> |notes| == |old(notes)| + old(validLen) / 2))
        && Continues(old(images), old(notes), images, notes, |old(hist)| - old(pend))
      decreases if collecting then 0 else 1, 5
    {
      hide Inv, Continues, SettledTo, SettleRoom, IsLive, BufferRoom, AppendTo, Current, KeyOf, KeyAddr, CrcOk, ValidAddr, Shows, FlushShown;
      ret := WRITE_SUCCESS;
      if !ValidAddr(n, a) {
        ret := WRITE_INVALID_ADDR;
      } else {
        PushData(d);
        PushKey(KeyOf(a, d), Entry(a, d), copy);
      }
    }

    // ----- walking the ring

    /** ftl_get_prev_page */
    method PrevPage(p: nat, ghost u: View, ghost r: nat) returns (found: bool, prev: nat)
      requires 2 <= n <= 255 && Held(n, flash, u) && r < |u.logs| && p == At(n, u.first, r)
      ensures found <==> r > 0
      ensures found ==> prev == At(n, u.first, r - 1)
    {
      hide Held;
      PrevPageExists(n, flash, u, r);
      prev := if p == 0 then n - 1 else p - 1;
      found := flash[prev].valid && flash[prev].sequence == (flash[p].sequence + 0xff) % 0x100;
    }

    /** ftl_page_get_oldest: the start of the run that ends in the current page. */
    method OldestPage(ghost u: View) returns (p: nat)
      requires 2 <= n <= 255 && Held(n, flash, u) && u.logs != [] && cur == Current(n, u)
      ensures p == u.first
    {
      hide Held;
      p := cur;
      ghost var r := |u.logs| - 1;
      var found, prev := PrevPage(p, u, r);
      while found
        invariant 0 <= r < |u.logs| && p == At(n, u.first, r)
        invariant found <==> r > 0
        invariant found ==> prev == At(n, u.first, r - 1)
        decreases r
      {
        p, r := prev, r - 1;
        found, prev := PrevPage(p, u, r);
      }
      assert At(n, u.first, 0) == u.first by { HeldBound(n, flash, u); }
    }

    /** The key index a scan of page `p` starts from: its end position, or the last cell when none
        is recorded. */
    method EndIndex(p: nat, ghost u: View, ghost r: nat) returns (keyIndex: nat)
      requires Encodes(n, flash, u) && r < |u.logs| && p == At(n, u.first, r)
      ensures keyIndex == PAGE_CELLS - 1
    {
      hide Encodes;
      PageEnd(n, flash, u, r);
      match flash[p].end {
        case Some(end) => keyIndex := end;
        case None => keyIndex := PAGE_CELLS - 1;
      }
    }

    /** ftl_page_can_addr_drop_app: the mapping table knows of a copy outside the page, or a
        backward scan of the newer pages finds one; the scan does not see the buffer. */
    method CanDrop(a: Addr, endPage: nat) returns (found: bool)
      requires Settled() && |view.logs| >= 2 && endPage == view.first && a in MapOf(view.logs[0])
      ensures INFO_SIZE <= free && Flushed(free) <= |Newest(view)|
      ensures found <==> Droppable(mapped, view, free, a)
    {
      hide Recorded, Encodes, Durable, TableOk, Buffered, Fits, Rotated;
      ConsistentFacts(conf, flash, view, free, buffer[..writeIndex], table, hist, pend);
      ConsistentEncodes(conf, flash, view, free, buffer[..writeIndex], table, hist, pend);
      KnownWaiting(view, Flushed(free));
      if mapped {
        TableLookup(conf, flash, view, free, buffer[..writeIndex], table, hist, pend, a);
        var phys := ReadTable(table, a);
        WhereOutsideOldest(n, view, a);
        found := phys != 0 && PageOf(phys) != endPage;
      } else {
        found := ScanNewer(a, endPage, Truncate(view, Flushed(free)));
      }
    }

    /** The scan loop of ftl_page_can_addr_drop_app. */
    method ScanNewer(a: Addr, endPage: nat, ghost u: View) returns (found: bool)
      requires 2 <= n <= 255 && Encodes(n, flash, u) && u.logs != [] && cur == Current(n, u)
      requires endPage == u.first && free == INFO_SIZE + 2 * |Newest(u)|
      ensures found <==> a in MapOfLogs(u.logs[1..])
    {
      hide Encodes, Held;
      EncodesHeld(n, flash, u);
      found := false;
      var pageID, keyIndex := cur, free - 1;
      ghost var r := |u.logs| - 1;
      FirstBound(n, flash, u);
      while pageID != endPage && !found
        invariant 0 <= r < |u.logs| && pageID == At(n, u.first, r) && keyIndex == 2 * |u.logs[r]| + 1
        invariant forall i | r < i < |u.logs| :: Last(u.logs[i], a) < 0
        invariant found ==> r > 0 && Last(u.logs[r], a) >= 0
        decreases r, !found
      {
        found := ScanPage(a, pageID, keyIndex, u, r);
        if !found {
          var ok, prev := PrevPage(pageID, u, r);
          if !ok { break; }
          keyIndex := EndIndex(prev, u, r - 1);
          PageEnd(n, flash, u, r - 1);
          pageID, r := prev, r - 1;
        }
      }
      FoundInTail(u.logs, a, r, found);
    }

    /** The inner loop: down the keys of one page. */
    method ScanPage(a: Addr, pageID: nat, top: nat, ghost u: View, ghost r: nat) returns (found: bool)
      requires Encodes(n, flash, u) && r < |u.logs| && pageID == At(n, u.first, r) && top == 2 * |u.logs[r]| + 1
      ensures found <==> Last(u.logs[r], a) >= 0
    {
      hide Encodes, KeyOf, KeyAddr, ValidAddr;
      found := false;
      var keyIndex := top;
      ghost var w := |u.logs[r]|;
      while keyIndex >= 3
        invariant 0 <= w <= |u.logs[r]| && keyIndex == 2 * w + 1
        invariant forall i | w <= i < |u.logs[r]| :: u.logs[r][i].addr != a
      {
        PageReads(n, flash, u, r, w - 1);
        if KeyAddr(flash[pageID].cells[keyIndex]) == a {
          found := true;
          break;
        }
        keyIndex, w := keyIndex - 2, w - 1;
      }
    }

    // ----- garbage collection

    /** The pair below `keyIndex` of the oldest page, as the copying loops read it. */
    method ReadPair(page: nat, keyIndex: nat, ghost w: nat) returns (key: Word, data: Word)
      requires Settled() && |view.logs| >= 2 && page == view.first
      requires 0 < w <= |view.logs[0]| && keyIndex == 2 * w + 1
      ensures data == view.logs[0][w - 1].data && key == KeyOf(view.logs[0][w - 1].addr, data)
      ensures ValidAddr(n, view.logs[0][w - 1].addr) && view.logs[0][w - 1].addr in MapOf(view.logs[0])
    {
      hide Rotated, Recorded, Consistent, Encodes, ValidAddr;
      ConsistentEncodes(conf, flash, view, free, buffer[..writeIndex], table, hist, pend);
      ghost var u := Truncate(view, Flushed(free));
      FirstBound(n, flash, u);
      PageReads(n, flash, u, 0, w - 1);
      MapKeys(view.logs[0], w - 1);
      key := flash[page].cells[keyIndex];
      data := flash[page].cells[keyIndex - 1];
    }

    /** ftl_write_app_cb as the copying loops use it. */
    method WriteCopy(a: Addr, d: Word, ghost v0: View, ghost free0: nat, ghost w: nat, ghost copied: PageLog)
      requires Settled() && |view.logs| == n && free < PAGE_CELLS
      requires Copying(mapped, v0, free0, view, free, w, copied) && 0 < w
      requires v0.logs[0][w - 1] == Entry(a, d) && ValidAddr(n, a)
      requires !Droppable(mapped, view, free, a)
      modifies this, buffer
      ensures Settled() && |view.logs| == n && collecting == old(collecting) && hist == old(hist) && pend <= old(pend)
      ensures collecting ==> Closed()
      ensures Copying(mapped, v0, free0, view, free, w - 1, copied + [Entry(a, d)])
      ensures Continues(old(images), old(notes), images, notes, |old(hist)| - old(pend))
      decreases if collecting then 0 else 1, 6
    {
      hide *;
      Resting();
      Facts();
      CopyingFacts(mapped, v0, free0, view, free, w, copied);
      CopyingLive(mapped, v0, free0, view, free, w, copied);
      AppendFacts(view, Entry(a, d));
      ghost var v1, full := AppendTo(view, [Entry(a, d)]), writeIndex + 2 == validLen;
      NothingToSettle(n, mapped, v1);
      CopyingCopy(mapped, v0, free0, view, free, w, copied, if full then free + writeIndex + 2 else free);
      var _ := Write(a, d, true);
      SettledKeeps(n, mapped, reliable, v1, view);
      Resting();
      Facts();
    }

    lemma OpenIsClosed()
      ensures free < PAGE_CELLS ==> Closed()
    {
    }

    /** The loop of ftl_gc_imp_app_cb over the pairs of the oldest page. */
    method CopyLive(recyclePage: nat, keyIndex0: nat) returns (recycled: int)
      requires Settled() && collecting && |view.logs| == n && free < PAGE_CELLS
      requires |Newest(view)| + |CopiesOf(mapped, view, free)| <= PAGE_PAIRS
      requires recyclePage == view.first && keyIndex0 == PAGE_CELLS - 1
      modifies this, buffer
      ensures Settled() && collecting && Closed() && hist == old(hist) && pend <= old(pend)
      ensures view == Copied(mapped, old(view), old(free))
      ensures MapOf(view.logs[0]).Keys <= MapOfLogs(view.logs[1..]).Keys
      ensures recycled == PAGE_PAIRS - |CopiesOf(mapped, old(view), old(free))|
      ensures Continues(old(images), old(notes), images, notes, |old(hist)| - old(pend))
      decreases if collecting then 0 else 1, 7
    {
      hide *;
      Sizes();
      Resting();
      ghost var v0, free0, w, copied := view, free, PAGE_PAIRS, [];
      Facts();
      OpenIsClosed();
      OldestIsFull();
      CopyingStart(mapped, view, free);
      ContinuesRefl(images, notes, |hist| - pend);
      recycled := 0;
      var keyIndex := keyIndex0;
      while keyIndex >= 3
        invariant Settled() && collecting && Closed() && hist == old(hist) && pend <= old(pend) && |view.logs| == n
        invariant 0 <= w <= PAGE_PAIRS && keyIndex == 2 * w + 1
        invariant Copying(mapped, v0, free0, view, free, w, copied)
        invariant recycled + |copied| == PAGE_PAIRS - w
        invariant Continues(old(images), old(notes), images, notes, |old(hist)| - old(pend))
      {
        CopyingFacts(mapped, v0, free0, view, free, w, copied);
        var key, data := ReadPair(recyclePage, keyIndex, w);
        if CrcOk(key, data) {
          var drop := CanDrop(KeyAddr(key), recyclePage);
          if drop {
            CopyingDrop(mapped, v0, free0, view, free, w, copied);
            recycled := recycled + 1;
          } else {
            CopyingLive(mapped, v0, free0, view, free, w, copied);
            Resting();
            Facts();
            ghost var im, no, low := images, notes, |hist| - pend;
            WriteCopy(KeyAddr(key), data, v0, free0, w, copied);
            ContinuesTrans(old(images), old(notes), im, no, images, notes, |old(hist)| - old(pend), low);
            copied := copied + [v0.logs[0][w - 1]];
          }
        } else {
          recycled := recycled + 1;
        }
        keyIndex, w := keyIndex - 2, w - 1;
      }
      CopyingFacts(mapped, v0, free0, view, free, 0, copied);
      CopyingEnd(mapped, v0, free0, view, free, copied);
    }

    lemma OldestIsNotCurrent()
      requires Valid() && |view.logs| >= 2
      ensures view.first < n == |flash| && cur < n && cur != view.first
      ensures |Erase(flash, view.first)| == n && Erase(flash, view.first)[cur] == flash[cur]
    {
      hide Inv, Rotated, FormatsOf;
      Facts();
      PlaceAt(n, view.first, |view.logs| - 1);
      PlaceAt(n, view.first, 0);
    }

    /** ftl_page_erase of the oldest page; the environment decides whether it succeeds. */
    method EraseOldest(p: nat) returns (ok: bool)
      requires Settled() && writeIndex == 0 && pend == 0 && |view.logs| >= 2 && p == view.first
      requires MapOf(view.logs[0]).Keys <= MapOfLogs(view.logs[1..]).Keys
      modifies `flash, `view, `images, `notes
      ensures Settled() && writeIndex == 0 && pend == 0
      ensures (reliable ==> ok) && (old(Closed()) ==> Closed())
      ensures view == if ok then DropOldest(n, old(view)) else old(view)
      ensures p < |old(flash)| && flash == if ok then Erase(old(flash), p) else old(flash)
      ensures images == if ok then old(images) + [flash] else old(images)
      ensures ok ==> ErasedLast(n, images, old(view))
      ensures Continues(old(images), old(notes), images, notes, |old(hist)| - old(pend))
    {
      hide Recorded, Consistent, Encodes, Continues, ImageOk, DropOldest, MapOf, MapOfLogs, Current, ValidAddr, Rotated, FormatsOf, Sequence;
      ok := *;
      ok := ok || reliable;
      AllStored();
      RecordedEnds(conf, hist, pend, flash, images, notes);
      ContinuesRefl(images, notes, |hist| - pend);
      assert buffer[..0] == [];
      OldestIsNotCurrent();
      if ok {
        ghost var gone := Page(false, 0, None, seq(PAGE_CELLS, _ => ERASED));
        PageDropped(conf, flash, view, free, table, hist, gone);
        ConsistentFacts(conf, flash, view, free, [], table, hist, 0);
        DropKeepsCurrent(n, view);
        RotatedDrop(n, FormatsOf(notes), view);
        view := DropOldest(n, view);
        RestingImage(conf, Erase(flash, p), view, free, table, hist, FormatsOf(notes));
        Operate(ErasePage(p), Note(view, |hist|, FormatsOf(notes)), 0);
      }
    }

    /** The loop and the flush that follows it. */
    method CopyAndFlush(recyclePage: nat, keyIndex0: nat) returns (recycled: int)
      requires Settled() && collecting && |view.logs| == n && free < PAGE_CELLS
      requires |Newest(view)| + |CopiesOf(mapped, view, free)| <= PAGE_PAIRS
      requires recyclePage == view.first && keyIndex0 == PAGE_CELLS - 1
      modifies this, buffer
      ensures Settled() && Closed() && writeIndex == 0 && pend == 0 && collecting && hist == old(hist)
      ensures view == Copied(mapped, old(view), old(free))
      ensures MapOf(view.logs[0]).Keys <= MapOfLogs(view.logs[1..]).Keys
      ensures recycled == PAGE_PAIRS - |CopiesOf(mapped, old(view), old(free))|
      ensures Continues(old(images), old(notes), images, notes, |old(hist)| - old(pend))
      decreases if collecting then 0 else 1, 8
    {
      hide Inv, Valid, Held, Encodes, Continues, CopiesOf, SettledTo, Copied, CollectRoom, MapOf, MapOfLogs, ValidAddr, Rotated, FormatsOf, Shows, FlushShown;
      Facts();
      recycled := CopyLive(recyclePage, keyIndex0);
      Facts();
      CopiedPages(mapped, old(view), old(free));
      ghost var v1, im, no, low := view, images, notes, |hist| - pend;
      var _ := WriteBack();
      SettledKeeps(n, mapped, reliable, v1, view);
      ContinuesTrans(old(images), old(notes), im, no, images, notes, |old(hist)| - old(pend), low);
    }

    /** The number of further passes, in the 8-bit variable of the C code. */
    method RetryCount(ghost u: View) returns (retryCount: int)
      requires Held(n, flash, u) && |u.logs| == n > 0
      ensures retryCount == Int8(n - 1)
    {
      hide Held, Int8;
      var count := CountFree(u);
      retryCount := Int8(n - count - 1);
    }

    /** The page to recycle, where its scan starts, and how many more passes would be allowed. */
    method Prepare() returns (retryCount: int, recyclePage: nat, keyIndex: nat)
      requires Settled() && |view.logs| == n && RetriesOk(n, 0)
      ensures retryCount == n - 1 && recyclePage == view.first && keyIndex == PAGE_CELLS - 1
    {
      hide Rotated, Recorded, Consistent, Encodes, Held;
      ConsistentFacts(conf, flash, view, free, buffer[..writeIndex], table, hist, pend);
      ConsistentEncodes(conf, flash, view, free, buffer[..writeIndex], table, hist, pend);
      ghost var u := Truncate(view, Flushed(free));
      EncodesHeld(n, flash, u);
      retryCount := RetryCount(u);
      assert n > retryCount && retryCount >= 0;  // PLATFORM_ASSERT
      recyclePage := OldestPage(u);
      FirstBound(n, flash, u);
      keyIndex := EndIndex(recyclePage, u, 0);
    }

    /** ftl_gc_imp_app_cb: copy what is live on the oldest page and erase it. */
    method Collect() returns (recycled: int)
      requires Settled() && collecting && |view.logs| == n && free < PAGE_CELLS
      requires RetriesOk(n, 0) && CollectRoom(mapped, view, free)
      modifies this, buffer
      ensures Settled() && writeIndex == 0 && pend == 0 && collecting
      ensures hist == old(hist)
      ensures CollectedTo(n, mapped, reliable, old(view), old(free), view)
      ensures recycled == PAGE_PAIRS - |CopiesOf(mapped, old(view), old(free))|
      ensures |view.logs| < n ==> ErasedLast(n, images, Copied(mapped, old(view), old(free)))
      ensures freePages == n - |view.logs|
      ensures Continues(old(images), old(notes), images, notes, |old(hist)| - old(pend))
      decreases if collecting then 0 else 1, 9
    {
      hide Inv, Valid, Held, Encodes, Continues, CopiesOf, Copied, MapOf, MapOfLogs, ValidAddr, Rotated, FormatsOf, Shows, FlushShown;
      Facts();
      var retryCount, recyclePage, keyIndex := Prepare();
      CopiedPages(mapped, view, free);
      recycled := CopyAndFlush(recyclePage, keyIndex);
      ghost var im, no, low := images, notes, |hist| - pend;
      var ok := EraseOldest(recyclePage);
      ContinuesTrans(old(images), old(notes), im, no, images, notes, |old(hist)| - old(pend), low);
      if ok && recycled == 0 && retryCount != 0 {
        assert false;  // a pass that recycled nothing would be retried on the next page
      }
      AllStored();
      EncodesHeld(n, flash, view);
      freePages := CountFree(view);
    }

    // ----- reading

    /** ftl_buffer_read, whatever the buffer holds: two words at a time from its end, the first two of
        which the upper one is a key of the address and passes the check. */
    method BufferScan(a: Addr) returns (ret: nat, value: Word)
      requires buffer.Length == BUFFER_CELLS && writeIndex <= BUFFER_CELLS
      ensures ret == READ_SUCCESS || ret == READ_NOT_FOUND
      ensures ret == READ_SUCCESS ==> LastPairIs(buffer[..writeIndex], a, value)
      ensures ret != READ_SUCCESS ==> forall k :: !PairAt(buffer[..writeIndex], k, a)
    {
      hide KeyAddr, CrcOk;
      ret, value := READ_NOT_FOUND, 0;
      if writeIndex == 0 {
        return;
      }
      var i := writeIndex;
      while i >= 2
        invariant 0 <= i <= writeIndex && (writeIndex - i) % 2 == 0
        invariant forall k | i < k <= writeIndex :: !PairAt(buffer[..writeIndex], k, a)
      {
        var key, data := buffer[i - 1], buffer[i - 2];
        if KeyAddr(key) == a {
          if CrcOk(key, data) {
            assert PairAt(buffer[..writeIndex], i, a);
            ret, value := READ_SUCCESS, data;
            return;
          }
        }
        i := i - 2;
      }
    }

    /** ... the newest buffered pair of the address, when the buffer holds pairs. */
    method BufferRead(a: Addr) returns (ret: nat, value: Word)
      requires Settled()
      ensures INFO_SIZE <= free && Flushed(free) <= |Newest(view)|
      ensures Looked(MapOf(Newest(view)[Flushed(free)..]), a, ret, value)
    {
      hide *;
      Codes();
      Resting();
      Facts();
      Parts();
      ghost var words := buffer[..writeIndex];
      ConsistentBuffered(conf, flash, view, free, words, table, hist, pend);
      ret, value := BufferScan(a);
      assert buffer[..writeIndex] == words;
      PairsLooked(n, words, Newest(view)[Flushed(free)..], a, ret, value);
    }

    /** The mapping-table branch of ftl_read_app_cb. */
    method TableRead(a: Addr) returns (ret: nat, value: Word)
      requires Settled() && mapped
      ensures INFO_SIZE <= free && Flushed(free) <= |Newest(view)|
      ensures a !in MapOf(Newest(view)[Flushed(free)..]) ==>
        Looked(MapOfLogs(Truncate(view, Flushed(free)).logs), a, ret, value)
    {
      hide Inv, PageOf, CellOf, MapOf, MapOfLogs, Truncate, ValidAddr, KeyOf, KeyAddr, CrcOk, ReadTable;
      TableAt(a);
      var phys := ReadTable(table, a);
      ret, value := ReadAt(a, phys);
    }

    /** ... once the index has been looked up. */
    method ReadAt(a: Addr, phys: nat) returns (ret: nat, value: Word)
      requires phys != 0 ==> PageOf(phys) < |flash| && CellOf(phys) + 1 < |flash[PageOf(phys)].cells|
      ensures phys == 0 ==> ret == READ_NOT_FOUND
      ensures phys != 0 ==>
        var key, data := flash[PageOf(phys)].cells[CellOf(phys) + 1], flash[PageOf(phys)].cells[CellOf(phys)];
        if KeyAddr(key) != a then ret == READ_PARSE_ERROR
        else value == data && ret == if CrcOk(key, data) then READ_SUCCESS else READ_CRC_FAIL
    {
      hide KeyAddr, CrcOk;
      ret, value := READ_NOT_FOUND, 0;
      if phys == 0 {
        return;
      }
      var pageID, index := PageOf(phys), CellOf(phys);
      var key := flash[pageID].cells[index + 1];
      if KeyAddr(key) == a {
        value := flash[pageID].cells[index];
        ret := if CrcOk(key, value) then READ_SUCCESS else READ_CRC_FAIL;
      } else {
        ret := READ_PARSE_ERROR;
      }
    }

    /** The linear-search branch of ftl_read_app_cb: down the keys of each page, newest page
        first. */
    method LinearRead(a: Addr) returns (ret: nat, value: Word)
      requires Settled()
      ensures INFO_SIZE <= free && Flushed(free) <= |Newest(view)|
      ensures Looked(MapOfLogs(Truncate(view, Flushed(free)).logs), a, ret, value)
    {
      hide Rotated, Recorded, Consistent, Encodes, MapOf, MapOfLogs, ValidAddr;
      ConsistentFacts(conf, flash, view, free, buffer[..writeIndex], table, hist, pend);
      ConsistentEncodes(conf, flash, view, free, buffer[..writeIndex], table, hist, pend);
      ghost var u := Truncate(view, Flushed(free));
      ret, value := ScanAll(a, u);
    }

    method ScanAll(a: Addr, ghost u: View) returns (ret: nat, value: Word)
      requires 2 <= n <= 255 && Encodes(n, flash, u) && u.logs != [] && cur == Current(n, u)
      requires free == INFO_SIZE + 2 * |Newest(u)|
      ensures Looked(MapOfLogs(u.logs), a, ret, value)
    {
      hide Encodes, Held, MapOf, MapOfLogs, Last, LastPage, At, KeyOf;
      EncodesHeld(n, flash, u);
      ret, value := READ_NOT_FOUND, 0;
      var found, pageID, keyIndex := false, cur, free - 1;
      ghost var r := |u.logs| - 1;
      FirstBound(n, flash, u);
      LastPageIsMapped(u.logs, a);
      while true
        invariant 0 <= r < |u.logs| && pageID == At(n, u.first, r) && keyIndex == 2 * |u.logs[r]| + 1
        invariant !found && LastPage(u.logs, a) <= r
        decreases r
      {
        found, ret, value := ReadPage(a, pageID, keyIndex, u, r);
        if found { break; }
        var ok, prev := PrevPage(pageID, u, r);
        if !ok { break; }
        keyIndex := EndIndex(prev, u, r - 1);
        PageEnd(n, flash, u, r - 1);
        pageID, r := prev, r - 1;
      }
      if !found {
        ret := READ_NOT_FOUND;
      }
    }

    /** The inner loop, whatever the page holds. */
    method ScanKeys(a: Addr, pageID: nat, top: int) returns (found: bool, ret: nat, value: Word)
      requires pageID < |flash| && top < |flash[pageID].cells| && top % 2 == 1
      ensures PageScanned(flash[pageID].cells, top, a, found, ret, value)
    {
      hide KeyAddr, CrcOk;
      found, ret, value := false, READ_NOT_FOUND, 0;
      var keyIndex := top;
      while keyIndex >= 3
        invariant keyIndex <= top && keyIndex % 2 == 1
        invariant found <==> exists k :: keyIndex < k <= top && KeyAt(flash[pageID].cells, k, a)
        invariant forall j | keyIndex < j <= top :: !PassesAt(flash[pageID].cells, j, a)
        invariant found ==> ret == READ_CRC_FAIL && LowestKey(flash[pageID].cells, keyIndex, top, a, value)
      {
        var key := flash[pageID].cells[keyIndex];
        if KeyAddr(key) == a {
          assert KeyAt(flash[pageID].cells, keyIndex, a);
          found := true;
          value := flash[pageID].cells[keyIndex - 1];
          if CrcOk(key, value) {
            ret := READ_SUCCESS;
            assert PassesAt(flash[pageID].cells, keyIndex, a);
            return;
          } else {
            ret := READ_CRC_FAIL;
          }
        }
        keyIndex := keyIndex - 2;
      }
      if found { LowestDown(flash[pageID].cells, keyIndex, top, a, value); }
    }

    /** ... the newest pair of the address on a page of the log. */
    method ReadPage(a: Addr, pageID: nat, top: nat, ghost u: View, ghost r: nat) returns (found: bool, ret: nat, value: Word)
      requires Encodes(n, flash, u) && r < |u.logs| && pageID == At(n, u.first, r) && top == 2 * |u.logs[r]| + 1
      ensures found <==> Last(u.logs[r], a) >= 0
      ensures found ==> ret == READ_SUCCESS && value == u.logs[r][Last(u.logs[r], a)].data
    {
      hide *;
      Codes();
      FirstBound(n, flash, u);
      PlaceAt(n, u.first, r);
      PageCells(n, flash, u, pageID);
      PageLength(n, flash, u, r);
      Sizes();
      found, ret, value := ScanKeys(a, pageID, top);
      PageLooked(n, flash, u, r, a, found, ret, value);
    }

    /** ftl_read_app_cb: the buffer first, then the flash, by table or by scan. */
    method Read(a: Addr) returns (ret: nat, value: Word)
      requires Settled()
      ensures ValidAddr(n, a) ==> Looked(MapOfLogs(view.logs), a, ret, value)
      ensures !ValidAddr(n, a) ==> ret == READ_INVALID_ADDR
    {
      hide Rotated, Recorded, Consistent, Encodes, MapOf, MapOfLogs, Truncate, ValidAddr;
      ConsistentFacts(conf, flash, view, free, buffer[..writeIndex], table, hist, pend);
      value := 0;
      if !ValidAddr(n, a) {
        ret := READ_INVALID_ADDR;
        return;
      }
      TruncatedMap(view, Flushed(free));
      ret, value := BufferRead(a);
      if ret == READ_SUCCESS {
        return;
      }
      if mapped {
        ret, value := TableRead(a);
      } else {
        ret, value := LinearRead(a);
      }
    }

    // ----- mounting

    /** ftl_mapping_table_init_app: a backward scan that fills in what is still 0. */
    method InitTable()
      requires 2 <= n <= 4 && Encodes(n, flash, view) && view.logs != [] && cur == Current(n, view)
      requires free == INFO_SIZE + 2 * |Newest(view)| && table == map[]
      modifies `table
      ensures TableOk(n, view, table)
    {
      hide Encodes, Held, Scanned, TableOk;
      EncodesHeld(n, flash, view);
      var pageID, keyIndex := cur, free - 1;
      ghost var r := |view.logs| - 1;
      FirstBound(n, flash, view);
      ScannedStart(n, view, table);
      while true
        invariant 0 <= r < |view.logs| && pageID == At(n, view.first, r) && keyIndex == 2 * |view.logs[r]| + 1
        invariant Scanned(n, view, table, r, |view.logs[r]|)
        decreases r
      {
        TablePage(pageID, keyIndex, r);
        var ok, prev := PrevPage(pageID, view, r);
        if !ok { break; }
        ScannedPage(n, view, table, r);
        keyIndex := EndIndex(prev, view, r - 1);
        PageEnd(n, flash, view, r - 1);
        pageID, r := prev, r - 1;
      }
      ScannedEnd(n, view, table);
    }

    /** The inner loop over one page. */
    method TablePage(pageID: nat, top: nat, ghost r: nat)
      requires 2 <= n <= 4 && Encodes(n, flash, view) && r < |view.logs|
      requires pageID == At(n, view.first, r) && top == 2 * |view.logs[r]| + 1
      requires Scanned(n, view, table, r, |view.logs[r]|)
      modifies `table
      ensures Scanned(n, view, table, r, 0)
    {
      hide Encodes, Scanned, KeyOf, KeyAddr, At, ValidAddr;
      PageEnd(n, flash, view, r);
      FirstBound(n, flash, view);
      var keyIndex := top;
      ghost var w := |view.logs[r]|;
      while keyIndex >= 3
        invariant 0 <= w <= |view.logs[r]| && keyIndex == 2 * w + 1
        invariant Scanned(n, view, table, r, w)
      {
        PageReads(n, flash, view, r, w - 1);
        var a := KeyAddr(flash[pageID].cells[keyIndex]);
        ScannedStep(n, view, table, r, w, a, PhysOf(pageID, keyIndex - 1));
        if ReadTable(table, a) == 0 {
          table := table[a := PhysOf(pageID, keyIndex - 1)];
        }
        keyIndex, w := keyIndex - 2, w - 1;
      }
    }

    // ----- recovery from power loss

    /** The loop of ftl_recover_from_power_lost_app: as in a collection, but a pair is copied only
        while the current page has a free cell; the others are counted. */
    method RecoverCopies(recyclePage: nat, keyIndex0: nat) returns (later: nat)
      requires Settled() && !collecting && |view.logs| == n
      requires recyclePage == view.first && keyIndex0 == PAGE_CELLS - 1
      modifies this, buffer
      ensures Settled() && !collecting && hist == old(hist) && pend <= old(pend) && |view.logs| == n && view.first == old(view).first
      ensures |old(view).logs| >= 2 && INFO_SIZE <= old(free) && Flushed(old(free)) <= |Newest(old(view))| <= PAGE_PAIRS
      ensures later == 0 <==> |Newest(old(view))| + |CopiesOf(mapped, old(view), old(free))| <= PAGE_PAIRS
      ensures later > 0 ==> view == CopiedPart(mapped, old(view), old(free))
      ensures later == 0 ==>
        && view == Copied(mapped, old(view), old(free))
        && MapOf(view.logs[0]).Keys <= MapOfLogs(view.logs[1..]).Keys
      ensures Continues(old(images), old(notes), images, notes, |old(hist)| - old(pend))
    {
      hide *;
      Sizes();
      ghost var v0, free0, w, copied := view, free, PAGE_PAIRS, [];
      Resting();
      Facts();
      OldestIsFull();
      RecoveringStart(mapped, view, free);
      ContinuesRefl(images, notes, |hist| - pend);
      later := 0;
      var keyIndex := keyIndex0;
      while keyIndex >= 3
        invariant Settled() && !collecting && hist == old(hist) && pend <= old(pend) && |view.logs| == n
        invariant 0 <= w <= PAGE_PAIRS && keyIndex == 2 * w + 1
        invariant Recovering(mapped, v0, free0, view, free, w, copied, later)
        invariant Continues(old(images), old(notes), images, notes, |old(hist)| - old(pend))
      {
        Resting();
        Facts();
        RecoveringFacts(mapped, v0, free0, view, free, w, copied, later);
        var key, data := ReadPair(recyclePage, keyIndex, w);
        if CrcOk(key, data) {
          var drop := CanDrop(KeyAddr(key), recyclePage);
          if drop {
            RecoveringDrop(mapped, v0, free0, view, free, w, copied, later);
          } else if free + 1 < PAGE_CELLS {
            ghost var im, no, low := images, notes, |hist| - pend;
            WriteCopy(KeyAddr(key), data, v0, free0, w, copied);
            ContinuesTrans(old(images), old(notes), im, no, images, notes, |old(hist)| - old(pend), low);
            copied := copied + [v0.logs[0][w - 1]];
            RecoveringCopied(mapped, v0, free0, view, free, w - 1, copied);
          } else {
            RecoveringLater(mapped, v0, free0, view, free, w, copied, later);
            later := later + 1;
          }
        }
        keyIndex, w := keyIndex - 2, w - 1;
      }
      Resting();
      Facts();
      RecoveringFacts(mapped, v0, free0, view, free, 0, copied, later);
      RecoveringEnd(mapped, v0, free0, view, free, copied, later);
    }

    /** ftl_ioctl(FTL_IOCTL_CLEAR_ALL), as far as the layer depends on it: all pages are erased, the
        layer starts again on page 0, and what was written before is forgotten. */
    method ClearAll()
      requires 2 <= n <= 255 && (mapped ==> n <= 4) && |flash| == n && buffer.Length == BUFFER_CELLS
      requires conf == Config(n, mapped, conf.cap) && conf.cap >= PAGE_PAIRS
      modifies this
      ensures Settled() && writeIndex == 0 && pend == 0 && collecting == old(collecting)
      ensures view == View(0, 0, [[]]) && hist == []
      ensures abandoned == old(abandoned) && abandonedNotes == old(abandonedNotes)
    {
      hide *;
      EraseAll();
      Forget();
      DrainedParts();
      BufferInit();
    }

    /** RAM as it is when nothing has been written yet. */
    method Forget()
      requires 2 <= n <= 255 && (mapped ==> n <= 4) && buffer.Length == BUFFER_CELLS
      requires conf == Config(n, mapped, conf.cap) && conf.cap >= PAGE_PAIRS
      requires Encodes(n, flash, View(0, 0, [[]]))
      modifies `table, `cur, `free, `view, `hist, `pend, `images, `notes
      ensures Drained() && view == View(0, 0, [[]]) && hist == []
    {
      hide Encodes, Recorded, Consistent, ImageOk, Current, MapOf, TableOk, Rotated;
      table := map[];
      cur, free := 0, INFO_SIZE;
      view, hist, pend := View(0, 0, [[]]), [], 0;
      images, notes := [flash], [Note(view, 0, [Format(0, 0)])];
      EmptyMaps();
      MountedEmpty(conf, flash, table, hist, [Format(0, 0)]);
      TraceStarts(conf, hist, flash, notes[0]);
    }

    /** Erase every page, then format page 0. */
    method EraseAll()
      requires n >= 2 && |flash| == n
      modifies `flash
      ensures Encodes(n, flash, View(0, 0, [[]]))
    {
      var i := 0;
      while i < n
        invariant 0 <= i <= n && |flash| == n
        invariant forall p | 0 <= p < i :: !flash[p].valid && |flash[p].cells| == PAGE_CELLS
      {
        flash := Erase(flash, i);
        i := i + 1;
      }
      AllErased(n, flash);
      FirstFormat(n, flash, View(0, 0, []));
      flash := WriteHeader(Erase(flash, 0), 0, 0);
    }

    /** The rest of ftl_recover_from_power_lost_app: flush, invalidate the oldest page, and clear
        everything if a live pair did not fit.  Until the oldest page is invalidated every state holds
        all user writes; the state between that and the clear-all holds the log without that page. */
    method RecoverFinish(recyclePage: nat, later: nat)
      requires Settled() && !collecting && |view.logs| == n && recyclePage == view.first
      requires later == 0 ==> MapOf(view.logs[0]).Keys <= MapOfLogs(view.logs[1..]).Keys
      modifies this, buffer
      ensures Settled() && writeIndex == 0 && pend == 0 && !collecting
      ensures later == 0 ==>
        view == DropOldest(n, old(view)) && hist == old(hist) && Continues(old(images), old(notes), images, notes, |old(hist)| - old(pend))
      ensures later == 0 ==> ClearedLast(n, images, old(view))
      ensures later > 0 ==> view == View(0, 0, [[]]) && hist == []
      ensures later > 0 ==>
        && Abandoned(conf, old(hist), abandoned, abandonedNotes, DropOldest(n, old(view)))
        && Continues(old(images), old(notes), Most(abandoned), Most(abandonedNotes), |old(hist)| - old(pend))
    {
      hide Inv, Valid, Held, Encodes, Continues, SettledTo, MapOf, MapOfLogs, ImageOk, ValidAddr, Rotated, FormatsOf, Shows, FlushShown, Abandoned;
      Facts();
      var _ := WriteBack();
      SettledKeeps(n, mapped, reliable, old(view), view);
      Facts();
      if later == 0 {
        ghost var im, no, low := images, notes, |hist| - pend;
        InvalidateOldest(recyclePage);
        ContinuesTrans(old(images), old(notes), im, no, images, notes, |old(hist)| - old(pend), low);
      } else {
        Abandon(recyclePage);
        ClearAll();
      }
    }

    /** The oldest page is invalidated although some pair of it has no copy. */
    method Abandon(p: nat)
      requires Settled() && writeIndex == 0 && pend == 0 && |view.logs| >= 2 && p == view.first
      modifies `flash, `abandoned, `abandonedNotes
      ensures p < |old(flash)| && flash == Invalidate(old(flash), p) && |flash| == |old(flash)|
      ensures Abandoned(conf, hist, abandoned, abandonedNotes, DropOldest(n, view))
      ensures Most(abandoned) == images && Most(abandonedNotes) == notes
    {
      hide Recorded, Consistent, Encodes, DropOldest, Rotated, FormatsOf;
      Facts();
      AllStored();
      PageCells(n, flash, view, p);
      OldestGone(n, flash, view, flash[p].(valid := false));
      ghost var f := flash;
      flash := Operated(flash, ClearValid(p));
      abandoned := images + [flash];
      abandonedNotes := notes + [Note(DropOldest(n, view), |hist|, FormatsOf(notes))];
      assert Most(abandoned) == images && Most(abandonedNotes) == notes;
      AbandonedIs(conf, hist, f, images, notes, ClearValid(p), DropOldest(n, view), FormatsOf(notes));
    }

    /** ftl_page_write(page, INFO_beg_index, 0): the page is no longer valid. */
    method InvalidateOldest(p: nat)
      requires Settled() && writeIndex == 0 && pend == 0 && |view.logs| >= 2 && p == view.first
      requires MapOf(view.logs[0]).Keys <= MapOfLogs(view.logs[1..]).Keys
      modifies `flash, `view, `images, `notes
      ensures Settled() && writeIndex == 0 && pend == 0
      ensures p < |old(flash)| && flash == Invalidate(old(flash), p) && images == old(images) + [flash]
      ensures ClearedLast(n, images, old(view))
      ensures view == DropOldest(n, old(view))
      ensures Continues(old(images), old(notes), images, notes, |old(hist)| - old(pend))
    {
      hide Recorded, Consistent, Encodes, Continues, ImageOk, DropOldest, MapOf, MapOfLogs, Current, ValidAddr, Rotated, FormatsOf, Sequence;
      assert buffer[..0] == [];
      ConsistentEncodes(conf, flash, view, free, [], table, hist, 0);
      ConsistentFacts(conf, flash, view, free, [], table, hist, 0);
      RecordedEnds(conf, hist, pend, flash, images, notes);
      PageCells(n, flash, view, p);
      ghost var gone := flash[p].(valid := false);
      PageDropped(conf, flash, view, free, table, hist, gone);
      DropKeepsCurrent(n, view);
      RotatedDrop(n, FormatsOf(notes), view);
      view := DropOldest(n, view);
      RestingImage(conf, Invalidate(flash, p), view, free, table, hist, FormatsOf(notes));
      Operate(ClearValid(p), Note(view, |hist|, FormatsOf(notes)), 0);
    }

    /** ftl_recover_from_power_lost_app */
    method Recover()
      requires Settled() && writeIndex == 0 && pend == 0 && !collecting
      modifies this, buffer
      ensures Settled() && writeIndex == 0 && pend == 0 && !collecting
      ensures |old(view).logs| < n ==>
        view == old(view) && hist == old(hist) && flash == old(flash) && images == old(images) && notes == old(notes)
      ensures |old(view).logs| == n ==> INFO_SIZE <= old(free) && Flushed(old(free)) <= |Newest(old(view))|
      ensures |old(view).logs| == n && |Newest(old(view))| + |CopiesOf(mapped, old(view), old(free))| <= PAGE_PAIRS ==>
        view == DropOldest(n, Copied(mapped, old(view), old(free))) && hist == old(hist)
        && ClearedLast(n, images, Copied(mapped, old(view), old(free)))
        && Continues(old(images), old(notes), images, notes, |old(hist)| - old(pend))
      ensures |old(view).logs| == n && |Newest(old(view))| + |CopiesOf(mapped, old(view), old(free))| > PAGE_PAIRS ==>
        && view == View(0, 0, [[]]) && hist == [] && |old(view).logs| >= 2 && |Newest(old(view))| <= PAGE_PAIRS
        && Abandoned(conf, old(hist), abandoned, abandonedNotes, DropOldest(n, CopiedPart(mapped, old(view), old(free))))
        && Continues(old(images), old(notes), Most(abandoned), Most(abandonedNotes), |old(hist)|)
    {
      hide Inv, Valid, Held, Encodes, Continues, CopiesOf, Copied, MapOf, MapOfLogs, ValidAddr, Rotated, FormatsOf, Shows, FlushShown, Abandoned, CopiedPart, Most;
      Facts();
      AllStored();
      EncodesHeld(n, flash, view);
      var count := CountFree(view);
      if count != 0 {
        return;
      }
      var recyclePage := OldestPage(view);
      var keyIndex := EndIndex(recyclePage, view, 0);
      CopiedPages(mapped, view, free);
      var later := RecoverCopies(recyclePage, keyIndex);
      ghost var im, no, low := images, notes, |hist| - pend;
      RecoverFinish(recyclePage, later);
      if later == 0 {
        ContinuesTrans(old(images), old(notes), im, no, images, notes, |old(hist)| - old(pend), low);
      } else {
        ContinuesTrans(old(images), old(notes), im, no, Most(abandoned), Most(abandonedNotes), |old(hist)| - old(pend), low);
      }
    }

    // ----- ftl_init_app_cb

    /** The one-pass scan for the page with the newest sequence number. */
    method FindNewest(ghost v: View) returns (valid: bool, page: nat)
      requires 2 <= n <= 255 && Encodes(n, flash, v)
      ensures valid <==> v.logs != []
      ensures valid ==> page == Current(n, v)
    {
      hide Encodes, NewestSoFar;
      valid, page := false, 0;
      var sequence: Byte := 0;
      NewestStart(n, v);
      for i := 0 to n
        invariant NewestSoFar(n, v, i, valid, page)
        invariant valid ==> page < |flash| && sequence == flash[page].sequence
      {
        var update := false;
        NewestStep(n, flash, v, i, valid, page);
        if flash[i].valid {
          if valid {
            var next := flash[i].sequence;
            if next > sequence {
              if next == sequence + 1 { update := true; }
            } else if next == 0 && sequence == 0xff {
              update := true;
            }
          } else {
            update := true;
          }
        }
        if update {
          valid, page, sequence := true, i, flash[i].sequence;
        }
      }
      NewestEnd(n, flash, v, valid, page);
    }

    /** The search for the first free cell, from the bottom of the page. */
    method FindFree(page: nat, ghost v: View) returns (index: nat)
      requires Encodes(n, flash, v) && v.logs != [] && page == Current(n, v)
      ensures index == INFO_SIZE + 2 * |Newest(v)|
    {
      hide Encodes;
      index := INFO_SIZE;
      var i := PAGE_CELLS - 1;
      LastKey(n, flash, v, i);
      while i >= INFO_SIZE
        invariant INFO_SIZE - 1 <= i < PAGE_CELLS && index == INFO_SIZE
        invariant 2 * |Newest(v)| + 1 <= i
      {
        LastKey(n, flash, v, i);
        if flash[page].cells[i] != ERASED {
          index := i + 1;
          break;
        }
        i := i - 1;
      }
    }

    /** First format: no page was valid. */
    method FormatFirst()
      requires 2 <= n <= 255 && (mapped ==> n <= 4) && conf == Config(n, mapped, conf.cap) && PAGE_PAIRS <= conf.cap
      requires Encodes(n, flash, view) && view.logs == [] && Recorded(conf, hist, 0, flash, images, notes) && table == map[]
      requires Rotated(n, FormatsOf(notes), view)
      requires mapped ==> MapOfLogs(view.logs) == MapOf(hist)
      modifies `flash, `images, `notes, `view
      ensures view == View(0, 0, [[]]) && Encodes(n, flash, view) && Current(n, view) == 0
      ensures |old(flash)| > 0 && flash == WriteHeader(Erase(old(flash), 0), 0, 0)
      ensures Recorded(conf, hist, 0, flash, images, notes)
      ensures FormatsOf(notes) == [Format(0, 0)] && Rotated(n, FormatsOf(notes), view)
      ensures notes == old(notes) + FirstNotes(old(view), |hist|)
      ensures Continues(old(images), old(notes), images, notes, |hist|)
      ensures mapped ==> MapOfLogs(view.logs) == MapOf(hist)
    {
      hide Encodes, Recorded, ImageOk, Consistent, Erase, WriteHeader, MapOf, Current, FormatsOf, Rotated;
      FirstFormat(n, flash, view);
      NoFormats(n, FormatsOf(notes), view);
      ghost var next, formats := WriteHeader(Erase(flash, 0), 0, 0), FormatsOf(notes) + [Format(0, 0)];
      assert formats == [Format(0, 0)];
      MountedEmpty(conf, next, table, hist, formats);
      BlankImage(conf, hist, Erase(flash, 0), view);
      MapOfAddPage([]);
      assert [] + [[]] == View(0, 0, [[]]).logs;
      FormatPage(0, 0, view, View(0, 0, [[]]));
      view := View(0, 0, [[]]);
    }

    /** The first part of ftl_init_app_cb: everything but recovery.  The table is filled in before
        the buffer is set up, the two having nothing in common. */
    method Attach()
      requires 2 <= n <= 255 && (mapped ==> n <= 4) && conf == Config(n, mapped, conf.cap) && PAGE_PAIRS <= conf.cap
      requires buffer.Length == BUFFER_CELLS && !collecting && table == map[] && pend == 0
      requires Encodes(n, flash, view) && Recorded(conf, hist, 0, flash, images, notes) && Rotated(n, FormatsOf(notes), view)
      requires mapped ==> MapOfLogs(view.logs) == MapOf(hist)
      requires mapped ==> Fits(n, view, conf.cap)
      modifies this
      ensures Settled() && writeIndex == 0 && pend == 0 && !collecting && hist == old(hist)
      ensures view == if old(view).logs == [] then View(0, 0, [[]]) else old(view)
      ensures free == INFO_SIZE + 2 * |Newest(view)|
      ensures old(view).logs != [] ==> flash == old(flash) && images == old(images)
      ensures old(view).logs == [] ==> notes == old(notes) + FirstNotes(old(view), |hist|)
      ensures Continues(old(images), old(notes), images, notes, |hist|)
    {
      hide *;
      ContinuesRefl(images, notes, |hist|);
      var valid, page := FindNewest(view);
      if !valid {
        page := 0;
        FormatFirst();
        EmptyLogFits(n, conf.cap);
      }
      free := FindFree(page, view);
      cur := page;
      if mapped {
        InitTable();
      }
      Mounted(conf, flash, view, table, hist);
      DrainedMade();
      BufferInit();
    }

    /** ftl_init_app_cb */
    method Init()
      requires 2 <= n <= 255 && (mapped ==> n <= 4) && conf == Config(n, mapped, conf.cap) && PAGE_PAIRS <= conf.cap
      requires buffer.Length == BUFFER_CELLS && !collecting && table == map[] && pend == 0
      requires Encodes(n, flash, view) && Recorded(conf, hist, 0, flash, images, notes) && Rotated(n, FormatsOf(notes), view)
      requires mapped ==> MapOfLogs(view.logs) == MapOf(hist)
      requires mapped ==> Fits(n, view, conf.cap)
      modifies this, buffer
      ensures Settled() && writeIndex == 0 && pend == 0 && !collecting
      ensures MountedTo(n, mapped, old(view), view) && freePages == n - |view.logs|
      ensures |old(view).logs| < n || !Overflows(mapped, old(view)) ==>
        hist == old(hist) && Continues(old(images), old(notes), images, notes, |hist|)
      ensures |old(view).logs| == n && !Overflows(mapped, old(view)) ==> ClearedLast(n, images, Copied(mapped, old(view), INFO_SIZE + 2 * |Newest(old(view))|))
      ensures 0 < |old(view).logs| < n ==> flash == old(flash) && images == old(images)
      ensures old(view).logs == [] ==> notes == old(notes) + FirstNotes(old(view), |hist|)
      ensures |old(view).logs| == n && Overflows(mapped, old(view)) ==>
        && hist == [] && |Newest(old(view))| <= PAGE_PAIRS
        && Abandoned(conf, old(hist), abandoned, abandonedNotes, CutShort(n, mapped, old(view)))
        && Continues(old(images), old(notes), Most(abandoned), Most(abandonedNotes), |old(hist)|)
    {
      hide Encodes, Recorded, Consistent, Fits, MapOf, MapOfLogs, Continues, CopiesOf, Copied, Current, TableOk, Rotated, FormatsOf, Abandoned, Most;
      FirstBound(n, flash, view);
      Attach();
      ghost var im, no := images, notes;
      Recover();
      if |old(view).logs| == n {
        if Overflows(mapped, old(view)) {
          ContinuesTrans(old(images), old(notes), im, no, Most(abandoned), Most(abandonedNotes), |old(hist)|, |old(hist)|);
        } else {
          ContinuesTrans(old(images), old(notes), im, no, images, notes, |hist|, |hist|);
        }
      }
      AllStored();
      EncodesHeld(n, flash, view);
      freePages := CountFree(view);
    }

    /** Power-up with the flash in a state that holds the log `v`, that is, the writes `h`, and that
        the formats `fs` have led to. */
    constructor Mount(image: Image, pages: nat, useTable: bool, eraseWorks: bool, ghost v: View, ghost h: PageLog, ghost fs: seq<Format>)
      requires 2 <= pages <= 255 && (useTable ==> pages <= 4) && Encodes(pages, image, v)
      requires (useTable ==> MapOfLogs(v.logs) == MapOf(h)) && Rotated(pages, fs, v)
      ensures fresh(buffer) && n == pages && mapped == useTable && reliable == eraseWorks
      ensures conf.cap == MountCap(pages, v)
      ensures Settled() && writeIndex == 0 && pend == 0 && !collecting
      ensures MountedTo(n, mapped, v, view) && freePages == n - |view.logs|
      ensures |v.logs| < n || !Overflows(mapped, v) ==>
        hist == h && Continues([image], [Note(v, |h|, fs)], images, notes, |h|)
      ensures |v.logs| == n && !Overflows(mapped, v) ==> ClearedLast(n, images, Copied(mapped, v, INFO_SIZE + 2 * |Newest(v)|))
      ensures 0 < |v.logs| < n ==> flash == image && images == [image]
      ensures v.logs == [] ==> notes == [Note(v, |h|, fs)] + FirstNotes(v, |h|)
      ensures |v.logs| == n && Overflows(mapped, v) ==>
        && hist == [] && |Newest(v)| <= PAGE_PAIRS
        && Abandoned(conf, h, abandoned, abandonedNotes, CutShort(n, mapped, v))
        && Continues([image], [Note(v, |h|, fs)], Most(abandoned), Most(abandonedNotes), |h|)
    {
      hide *;
      n, mapped, reliable := pages, useTable, eraseWorks;
      buffer := new Word[BUFFER_CELLS](_ => 0);
      flash, images := image, [image];
      cur, free, flashPage, flashCell, validLen, writeIndex, state := 0, INFO_SIZE, 0, INFO_SIZE, 0, 0, Idle;
      table, collecting, freePages, abandoned := map[], false, 0, [];
      abandonedNotes := [];
      view, hist, pend := v, h, 0;
      notes := [Note(v, |h|, fs)];
      conf := Config(pages, useTable, MountCap(pages, v));
      new;
      PowerUp(conf, h, image, v, fs);
      Init();
    }
  }
}
