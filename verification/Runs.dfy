/** Whole runs: user writes with power cuts after any flash operation, during writes, flushes,
    collections and during the recovery that a mount performs. */
module Runs {
  import opened Words
  import opened Log
  import opened Flash
  import opened Invariant
  import opened Collect
  import opened Capacity
  import opened Layer
  import opened Wear

  /** A user write, or a power cut.  A cut during the last command brings the layer up again on the
      state the flash was in before that command or after any of its operations; a cut between two
      commands, on the state the last command has left. */
  datatype Command = Put(addr: Addr, data: Word) | CutDuring(operation: nat) | CutBetween

  /** How many acknowledged writes may still be only in the RAM buffer: six at most, one at most for
      each write since the last mount. */
  function Unsaved(n: nat, cmds: seq<Command>): (k: nat)
    ensures k <= 6
  {
    if cmds == [] then 0
    else
      var last, before := cmds[|cmds| - 1], cmds[..|cmds| - 1];
      if !last.Put? then 0
      else if ValidAddr(n, last.addr) then Min(6, Unsaved(n, before) + 1)
      else Unsaved(n, before)
  }

  /** How many writes are lost at most if the last command is cut short: what was only in the buffer
      before it, and the write it makes itself.  Cutting a mount short loses nothing. */
  function AtRisk(n: nat, cmds: seq<Command>): (k: nat)
    ensures k <= 7
  {
    if cmds == [] || !cmds[|cmds| - 1].Put? then 0
    else Unsaved(n, cmds[..|cmds| - 1]) + (if ValidAddr(n, cmds[|cmds| - 1].addr) then 1 else 0)
  }

  /** `hist` may be what has survived of the writes in `cmds`: writes in order, each power cut
      taking a few off the end. */
  ghost predicate Outcome(n: nat, cmds: seq<Command>, hist: PageLog) {
    if cmds == [] then hist == []
    else
      var last, before := cmds[|cmds| - 1], cmds[..|cmds| - 1];
      match last
      case Put(a, d) =>
        if ValidAddr(n, a) then
          hist != [] && hist[|hist| - 1] == Entry(a, d) && Outcome(n, before, hist[..|hist| - 1])
        else Outcome(n, before, hist)
      case CutDuring(_) =>
        exists was: PageLog :: Outcome(n, before, was) && hist <= was && |was| - |hist| <= AtRisk(n, before)
      case CutBetween =>
        exists was: PageLog :: Outcome(n, before, was) && hist <= was && |was| - |hist| <= Unsaved(n, before)
  }

  /** The addresses a run writes to. */
  function Addresses(cmds: seq<Command>): set<Addr> {
    set i | 0 <= i < |cmds| && cmds[i].Put? :: cmds[i].addr
  }

  /** With reliable erases and room for the collection, a write leaves a free page and a free
      pair. */
  lemma StaysReady(n: nat, v: View, v': View)
    requires n >= 2 && 0 < |v.logs| < n && |Newest(v)| <= PAGE_PAIRS
    requires SettledTo(n, true, true, v, v') && SettleRoom(n, true, v)
    ensures 0 < |v'.logs| < n && |Newest(v')| < PAGE_PAIRS
  {
    hide CopiesOf;
    if |Newest(v)| == PAGE_PAIRS && |v.logs| + 1 == n {
      CopiedPages(true, AddPage(v), INFO_SIZE);
      CopiedNewest(true, AddPage(v), INFO_SIZE);
    }
  }

  lemma CopiedNewest(mapped: bool, v: View, free: nat)
    requires |v.logs| >= 2 && INFO_SIZE <= free && Flushed(free) <= |Newest(v)|
    ensures |Newest(Copied(mapped, v, free))| == |Newest(v)| + |CopiesOf(mapped, v, free)|
    ensures forall n :: Newest(DropOldest(n, Copied(mapped, v, free))) == Newest(Copied(mapped, v, free))
  {
  }

  // ----- what a run leaves on record

  /** One more pair fills a buffer that holds the last `used / 2` pairs of `v`: seven pairs are as many
      as it takes, unless the page is full before. */
  predicate Fills(v: View, used: nat) {
    v.logs != [] && (used + 2 >= BUFFER_CELLS || |Newest(v)| + 1 >= PAGE_PAIRS)
  }

  lemma FillsIs(ftl: Ftl)
    requires ftl.Settled() && ftl.free < PAGE_CELLS
    ensures ftl.validLen >= 2 && ftl.writeIndex + 2 <= ftl.validLen && ftl.writeIndex % 2 == 0
    ensures Fills(ftl.view, ftl.writeIndex) <==> ftl.writeIndex + 2 == ftl.validLen
  {
    hide *;
    Sizes();
    ftl.Resting();
    ftl.Facts();
    FillsMeans(ftl.view, ftl.writeIndex);
    RoomMeans(ftl.free);
  }

  lemma FillsMeans(v: View, used: nat)
    requires v.logs != []
    ensures Fills(v, used) <==> used + 2 >= 14 || |Newest(v)| + 1 >= 511
  {
  }

  lemma RoomMeans(free: nat)
    requires free <= 1024
    ensures BufferRoom(free) == if 1024 - free > 14 then 14 else 1024 - free
  {
  }

  /** Where a run stands: the states the flash has been in since the last mount and what they hold,
      from which of them on a cut of the last command may take it, the log, how many cells of the
      buffer are used, and the user writes. */
  datatype Stage = Stage(images: seq<Image>, notes: seq<Note>, lo: nat, view: View, used: nat, hist: PageLog)

  ghost function StageOf(ftl: Ftl, lo: nat): Stage
    reads ftl
  {
    Stage(ftl.images, ftl.notes, lo, ftl.view, ftl.writeIndex, ftl.hist)
  }

  /** What ftl_write_app_cb makes of it.  Nothing reaches the flash unless the pair fills the buffer; then
      the buffered pairs do, one operation each, and whatever follows loses nothing more. */
  ghost predicate PutDone(reliable: bool, n: nat, a: Addr, d: Word, s: Stage, s': Stage) {
    && s.view.logs != []
    && if !ValidAddr(n, a) then s' == s.(lo := s'.lo)
       else
         var v, m := AppendTo(s.view, [Entry(a, d)]), s.used / 2 + 1;
         && s'.hist == s.hist + [Entry(a, d)] && SettledTo(n, true, reliable, v, s'.view)
         && Continues(s.images, s.notes, s'.images, s'.notes, |s.hist| - s.used / 2)
         && if !Fills(s.view, s.used) then s'.used == s.used + 2 && s'.images == s.images && s'.notes == s.notes
            else
              && s'.used == 0 && FlushShown(n, s'.images, s'.notes, |s.notes|, v, m, |s'.hist|, m)
              && (|Newest(s.view)| + 1 < PAGE_PAIRS ==> |s'.notes| == |s.notes| + m)
  }

  /** What a power cut makes of it that takes entry `k` of the trace: the layer is mounted on that image,
      and has the user writes the image holds. */
  ghost predicate CutDone(n: nat, k: int, s: Stage, s': Stage) {
    && 0 <= k < |s.images| == |s.notes| && s.notes[k].upto <= |s.hist|
    && s'.lo == 0 && s'.images != [] && s'.images[0] == s.images[k]
    && MountedTo(n, true, s.notes[k].view, s'.view)
    && s'.hist == s.hist[..s.notes[k].upto] && s'.used == 0
    && forall i | 0 <= i < |s'.notes| :: s'.notes[i].upto >= |s'.hist|
  }

  /** One command of a run.  A cut during the last command takes the state after operation `i` of it,
      counted modulo the number of its operations and one. */
  ghost predicate Done(reliable: bool, n: nat, cmd: Command, s: Stage, s': Stage) {
    match cmd
    case Put(a, d) => PutDone(reliable, n, a, d, s, s') && s'.lo == |s.images| - 1
    case CutDuring(i) => s.lo < |s.images| && CutDone(n, s.lo + i % (|s.images| - s.lo), s, s')
    case CutBetween => CutDone(n, |s.images| - 1, s, s')
  }

  /** What every stage is: each image holds what its note says and follows from the one before by one
      operation, and all but the buffered writes are on the last one. */
  ghost predicate Sound(n: nat, s: Stage) {
    && TraceOk(Config(n, true, PAGE_PAIRS), s.hist, s.images, s.notes) && Traced(s.images)
    && s.lo < |s.images| == |s.notes| && s.notes[|s.notes| - 1].upto + s.used / 2 == |s.hist|
    && s.used % 2 == 0
  }

  /** The first mount. */
  ghost predicate Started(n: nat, blank: Image, s: Stage) {
    && s.images != [] && s.images[0] == blank && s.lo == 0
    && s.view == View(0, 0, [[]]) && s.used == 0 && s.hist == []
  }

  /** The stages of a run of `cmds`, one more than there are commands. */
  ghost predicate History(reliable: bool, n: nat, blank: Image, cmds: seq<Command>, stages: seq<Stage>) {
    && |stages| == |cmds| + 1 && Started(n, blank, stages[0])
    && (forall k | 0 <= k < |stages| :: Sound(n, stages[k]))
    && (forall k | 0 <= k < |cmds| :: Done(reliable, n, cmds[k], stages[k], stages[k + 1]))
  }

  lemma HistoryStarts(reliable: bool, n: nat, blank: Image, s: Stage)
    requires Started(n, blank, s) && Sound(n, s)
    ensures History(reliable, n, blank, [], [s])
  {
    hide Started, Sound;
  }

  lemma HistoryGoesOn(reliable: bool, n: nat, blank: Image, cmds: seq<Command>, stages: seq<Stage>, cmd: Command, s: Stage)
    requires History(reliable, n, blank, cmds, stages) && Sound(n, s)
    requires Done(reliable, n, cmd, stages[|cmds|], s)
    ensures History(reliable, n, blank, cmds + [cmd], stages + [s])
  {
    hide Started, Sound, Done;
    var cmds', stages' := cmds + [cmd], stages + [s];
    forall k | 0 <= k < |cmds'| ensures Done(reliable, n, cmds'[k], stages'[k], stages'[k + 1]) {
      if k < |cmds| { assert Done(reliable, n, cmds[k], stages[k], stages[k + 1]); }
    }
  }

  // ----- writing

  /** Between two calls, with the table: every pair in the buffer is a user write, and if no page is free
      nothing is left to collect. */
  ghost predicate Resting(ftl: Ftl)
    reads ftl, ftl.buffer
  {
    && ftl.Settled() && ftl.mapped && !ftl.collecting && ftl.pend == ftl.writeIndex / 2
    && 0 < |ftl.view.logs| <= ftl.n && NoneLive(ftl.n, ftl.view)
  }

  /** ftl_write_app_cb as the user calls it, whether or not erases work. */
  method UserWrite(ftl: Ftl, a: Addr, d: Word) returns (ret: nat)
    requires Resting(ftl) && ftl.free < PAGE_CELLS
    requires ValidAddr(ftl.n, a) ==> SettleRoom(ftl.n, true, AppendTo(ftl.view, [Entry(a, d)]))
    modifies ftl, ftl.buffer
    ensures Resting(ftl) && (ftl.reliable && old(ftl.Ready()) ==> ftl.Ready())
    ensures ret == if ValidAddr(ftl.n, a) then WRITE_SUCCESS else WRITE_INVALID_ADDR
    ensures ftl.hist == if ValidAddr(ftl.n, a) then old(ftl.hist) + [Entry(a, d)] else old(ftl.hist)
    ensures MapOfLogs(ftl.view.logs) ==
      if ValidAddr(ftl.n, a) then MapOfLogs(old(ftl.view).logs)[a := d] else MapOfLogs(old(ftl.view).logs)
    ensures Continues(old(ftl.images), old(ftl.notes), ftl.images, ftl.notes, |old(ftl.hist)| - old(ftl.pend))
    ensures ValidAddr(ftl.n, a) ==>
      && old(ftl.view).logs != []
      && SettledTo(ftl.n, true, ftl.reliable, AppendTo(old(ftl.view), [Entry(a, d)]), ftl.view)
    ensures PutDone(ftl.reliable, ftl.n, a, d, old(StageOf(ftl, 0)), StageOf(ftl, 0))
  {
    hide Ftl.Inv, Continues, SettledTo, SettleRoom, MapOfLogs, MapOf, AppendTo, Shows, FlushShown, Rotated, NoneLive, LiveKeys, Fills;
    ftl.Facts();
    ContinuesRefl(ftl.images, ftl.notes, |ftl.hist| - ftl.pend);
    FillsIs(ftl);
    ghost var v, e, s := ftl.view, Entry(a, d), StageOf(ftl, 0);
    ret := ftl.Write(a, d, false);
    if ret == WRITE_SUCCESS {
      AppendFacts(v, e);
      AppendNoneLive(ftl.n, v, e);
      ftl.Facts();
      SettledNoneLive(ftl.n, ftl.reliable, AppendTo(v, [e]), ftl.view);
      if ftl.reliable && |v.logs| < ftl.n { StaysReady(ftl.n, AppendTo(v, [e]), ftl.view); }
      WriteUpdates(ftl.n, ftl.reliable, v, e, ftl.view);
    }
  }

  /** Every address there is: number `k` of 511 (N - 1) - 1 can be written, if there is room, and reads what
      was written. */
  method WriteThenRead(ftl: Ftl, k: nat, d: Word) returns (written: nat, ret: nat, value: Word)
    requires Resting(ftl) && ftl.free < PAGE_CELLS && 2 <= ftl.n <= 4 && k < 511 * (ftl.n - 1) - 1
    requires ftl.view.logs != [] && SettleRoom(ftl.n, true, AppendTo(ftl.view, [Entry(4 * k, d)]))
    modifies ftl, ftl.buffer
    ensures written == 0 && ret == 0 && value == d
  {
    hide *;
    Codes();
    Sizes();
    AddressAccepted(ftl.n, k);
    written := UserWrite(ftl, 4 * k, d);
    RestingIs(ftl);
    ret, value := ftl.Read(4 * k);
    LookedUp(MapOfLogs(ftl.view.logs), 4 * k, ret, value);
  }

  lemma AddressAccepted(n: nat, k: nat)
    requires 2 <= n <= 4 && k < 511 * (n - 1) - 1
    ensures ValidAddr(n, 4 * k)
  {
  }

  lemma LookedUp(m: map<Addr, Word>, a: Addr, ret: nat, value: Word)
    requires Looked(m, a, ret, value) && a in m
    ensures ret == READ_SUCCESS && value == m[a]
  {
  }

  lemma AppendNoneLive(n: nat, v: View, e: Entry)
    requires n >= 2 && v.logs != [] && NoneLive(n, v)
    ensures NoneLive(n, AppendTo(v, [e]))
  {
    hide MapOf, MapOfLogs;
    if |v.logs| == n {
      assert AppendTo(v, [e]).logs[1..] == Append(v.logs[1..], [e]);
      MapOfAppendOne(v.logs[1..], e);
      assert LiveKeys(AppendTo(v, [e])) <= LiveKeys(v);
    }
  }

  /** After a mount the current page is full in two cases and no other: a page was free and the
      newest page was full already, by a cut between the flush that fills a page and the header of
      the next page; or no page was free and recovery has just filled the newest page. */
  lemma MountWritable(n: nat, mapped: bool, v: View, v': View)
    requires n >= 2 && |v.logs| <= n && MountedTo(n, mapped, v, v')
    requires forall r | 0 <= r < |v.logs| :: |v.logs[r]| <= PAGE_PAIRS
    ensures 0 < |v'.logs| < n && |Newest(v')| <= PAGE_PAIRS
    ensures |Newest(v')| == PAGE_PAIRS <==>
      || (0 < |v.logs| < n && |Newest(v)| == PAGE_PAIRS)
      || (|v.logs| == n && |Newest(v)| + |CopiesOf(mapped, v, INFO_SIZE + 2 * |Newest(v)|)| == PAGE_PAIRS)
    ensures mapped && |v.logs| == n ==> |CopiesOf(mapped, v, INFO_SIZE + 2 * |Newest(v)|)| == |LiveKeys(v)|
    ensures mapped && (|v.logs| < n || !Overflows(mapped, v)) ==> MapOfLogs(v'.logs) == MapOfLogs(v.logs)
  {
    hide CopiesOf, MapOf, MapOfLogs, LiveKeys, Copied;
    if mapped { MountAllOrNothing(n, v, v'); }
    if |v.logs| == n {
      var free := INFO_SIZE + 2 * |Newest(v)|;
      if mapped { MappedCopies(v, free); }
      CopiedPages(mapped, v, free);
      CopiedNewest(mapped, v, free);
    }
  }

  /** The newest page has no free pair. */
  ghost predicate Stuck(ftl: Ftl)
    reads ftl
  {
    ftl.free == PAGE_CELLS
  }

  /** What holds between the commands of a run. */
  ghost predicate Running(ftl: Ftl, n: nat, cmds: seq<Command>, lo: nat)
    reads ftl, ftl.buffer
  {
    && ftl.n == n && ftl.conf.cap == PAGE_PAIRS
    && Turned(ftl, lo) && Resting(ftl)
    && Outcome(n, cmds, ftl.hist) && MapOf(ftl.hist).Keys <= Addresses(cmds)
    && ftl.pend <= Unsaved(n, cmds)
    && forall i | lo <= i < |ftl.notes| :: ftl.notes[i].upto >= |ftl.hist| - AtRisk(n, cmds)
  }

  /** `Running` taken apart, and put together. */
  lemma RunningIs(ftl: Ftl, n: nat, cmds: seq<Command>, lo: nat)
    requires Running(ftl, n, cmds, lo)
    ensures ftl.n == n && ftl.conf.cap == PAGE_PAIRS && Turned(ftl, lo) && Resting(ftl)
    ensures ftl.Settled() && ftl.Valid() && ftl.mapped && ftl.pend == ftl.writeIndex / 2 && ftl.view.logs != []
    ensures Outcome(n, cmds, ftl.hist) && MapOf(ftl.hist).Keys <= Addresses(cmds) && ftl.pend <= Unsaved(n, cmds)
    ensures lo < |ftl.images| == |ftl.notes|
    ensures forall i | lo <= i < |ftl.notes| :: ftl.notes[i].upto >= |ftl.hist| - AtRisk(n, cmds) && FromFirst(ftl.notes[i].formats)
  {
    hide Ftl.Valid, Outcome, Addresses, MapOf, Unsaved, AtRisk, FromFirst, NoneLive;
  }

  lemma RunningMade(ftl: Ftl, n: nat, cmds: seq<Command>, lo: nat)
    requires ftl.n == n && ftl.conf.cap == PAGE_PAIRS && Resting(ftl)
    requires Outcome(n, cmds, ftl.hist) && MapOf(ftl.hist).Keys <= Addresses(cmds) && ftl.pend <= Unsaved(n, cmds)
    requires lo < |ftl.images| == |ftl.notes|
    requires forall i | lo <= i < |ftl.notes| :: ftl.notes[i].upto >= |ftl.hist| - AtRisk(n, cmds) && FromFirst(ftl.notes[i].formats)
    ensures Running(ftl, n, cmds, lo)
  {
    hide Ftl.Settled, Outcome, Addresses, MapOf, Unsaved, AtRisk, FromFirst, NoneLive;
  }

  lemma RestingIs(ftl: Ftl)
    requires Resting(ftl)
    ensures ftl.Settled() && ftl.Valid() && ftl.pend == ftl.writeIndex / 2 && ftl.mapped && ftl.view.logs != []
  {
    hide Ftl.Valid, NoneLive;
  }

  lemma AddressesGrow(before: seq<Command>, c: Command)
    ensures Addresses(before + [c]) == Addresses(before) + (if c.Put? then {c.addr} else {})
  {
    var cmds := before + [c];
    assert forall i | 0 <= i < |before| :: cmds[i] == before[i];
    assert cmds[|before|] == c;
    forall a | a in Addresses(before) ensures a in Addresses(cmds) {
      var i :| 0 <= i < |before| && before[i].Put? && before[i].addr == a;
      assert cmds[i].addr == a;
    }
    if c.Put? { assert cmds[|before|].addr in Addresses(cmds); }
  }

  lemma OutcomePut(n: nat, before: seq<Command>, a: Addr, d: Word, hist: PageLog)
    requires Outcome(n, before, hist)
    ensures Outcome(n, before + [Put(a, d)], if ValidAddr(n, a) then hist + [Entry(a, d)] else hist)
  {
    var cmds := before + [Put(a, d)];
    assert cmds[..|cmds| - 1] == before;
    assert (hist + [Entry(a, d)])[..|hist|] == hist;
  }

  lemma OutcomeCut(n: nat, before: seq<Command>, cut: Command, was: PageLog, hist: PageLog)
    requires Outcome(n, before, was) && hist <= was && !cut.Put?
    requires |was| - |hist| <= if cut.CutBetween? then Unsaved(n, before) else AtRisk(n, before)
    ensures Outcome(n, before + [cut], hist) && Unsaved(n, before + [cut]) == AtRisk(n, before + [cut]) == 0
  {
    var cmds := before + [cut];
    assert cmds[..|cmds| - 1] == before;
  }

  lemma UnsavedPut(n: nat, before: seq<Command>, a: Addr, d: Word)
    ensures var cmds := before + [Put(a, d)];
      && Unsaved(n, cmds) == (if ValidAddr(n, a) then Min(6, Unsaved(n, before) + 1) else Unsaved(n, before))
      && AtRisk(n, cmds) == Unsaved(n, before) + (if ValidAddr(n, a) then 1 else 0)
  {
    var cmds := before + [Put(a, d)];
    assert cmds[..|cmds| - 1] == before;
  }

  lemma {:induction false} PrefixKeys(hist: PageLog, k: nat)
    requires k <= |hist|
    ensures MapOf(hist[..k]).Keys <= MapOf(hist).Keys
    decreases |hist|
  {
    if k < |hist| {
      PrefixKeys(hist[..|hist| - 1], k);
      assert hist[..|hist| - 1][..k] == hist[..k];
    } else {
      assert hist[..k] == hist;
    }
  }

  lemma AppendKeys(hist: PageLog, e: Entry)
    ensures MapOf(hist + [e]).Keys == MapOf(hist).Keys + {e.addr}
  {
    MapOfConcat(hist, [e]);
    MapOfSingle(e);
  }

  lemma RoomForPut(ftl: Ftl, cmds: seq<Command>, e: Entry)
    requires ftl.Settled() && ftl.mapped
    requires MapOf(ftl.hist).Keys + {e.addr} <= Addresses(cmds) && |Addresses(cmds)| < PAGE_PAIRS
    ensures ftl.view.logs != [] && SettleRoom(ftl.n, true, AppendTo(ftl.view, [e]))
  {
    hide Recorded, SettleRoom, MapOf, MapOfLogs, Encodes, TableOk, Buffered, Fits;
    var v := ftl.view;
    DurableMap(v, Flushed(ftl.free), ftl.hist, ftl.pend);
    MapOfAppendOne(v.logs, e);
    Smaller(MapOfLogs(AppendTo(v, [e]).logs).Keys, Addresses(cmds));
    FewAddressesHaveRoom(ftl.n, AppendTo(v, [e]));
  }

  /** One user write of a run; any number of addresses may be in use as long as there is room. */
  method RunPut(ftl: Ftl, n: nat, ghost before: seq<Command>, a: Addr, d: Word, lo: nat) returns (lo': nat)
    requires Running(ftl, n, before, lo) && !Stuck(ftl)
    requires ValidAddr(n, a) ==> SettleRoom(n, true, AppendTo(ftl.view, [Entry(a, d)]))
    modifies ftl, ftl.buffer
    ensures Running(ftl, n, before + [Put(a, d)], lo') && lo' == |old(ftl.images)| - 1
    ensures ftl.reliable && |old(ftl.view).logs| < n ==> !Stuck(ftl) && |ftl.view.logs| < n
    ensures ValidAddr(n, a) ==>
      && old(ftl.view).logs != []
      && SettledTo(n, true, ftl.reliable, AppendTo(old(ftl.view), [Entry(a, d)]), ftl.view)
      && ftl.hist == old(ftl.hist) + [Entry(a, d)]
    ensures PutDone(ftl.reliable, n, a, d, old(StageOf(ftl, lo)), StageOf(ftl, lo'))
  {
    hide *;
    Sizes();
    RunningIs(ftl, n, before, lo);
    AddressesGrow(before, Put(a, d));
    AppendKeys(ftl.hist, Entry(a, d));
    OutcomePut(n, before, a, d, ftl.hist);
    UnsavedPut(n, before, a, d);
    LeastOf(6, Unsaved(n, before) + 1);
    ftl.Facts();
    ftl.Parts();
    LastNote(ftl.conf, ftl.hist, ftl.pend, ftl.flash, ftl.images, ftl.notes);
    HasFormats(ftl);
    LastFormats(ftl.notes);
    FreePair(ftl);
    StageIs(ftl, 0);
    StageIs(ftl, lo);
    lo' := |ftl.images| - 1;
    ghost var im, no, low, s := ftl.images, ftl.notes, |ftl.hist| - ftl.pend, StageOf(ftl, 0);
    var _ := UserWrite(ftl, a, d);
    RestingIs(ftl);
    FreePair(ftl);
    ftl.Resting();
    ftl.Facts();
    ftl.Parts();
    LastNote(ftl.conf, ftl.hist, ftl.pend, ftl.flash, ftl.images, ftl.notes);
    TurnedOn(im, no, ftl.images, ftl.notes, low);
    UptoOn(im, no, ftl.images, ftl.notes, low);
    StageIs(ftl, 0);
    StageIs(ftl, lo');
    PutUsed(ftl.reliable, n, a, d, s, StageOf(ftl, 0), lo, lo');
    RunningMade(ftl, n, before + [Put(a, d)], lo');
  }

  /** Ready for the next write. */
  lemma FreePair(ftl: Ftl)
    requires Resting(ftl)
    ensures Stuck(ftl) <==> ftl.free == PAGE_CELLS
    ensures ftl.free < PAGE_CELLS && |ftl.view.logs| < ftl.n <==> ftl.Ready()
  {
    hide Ftl.Inv, NoneLive;
    ftl.Facts();
  }

  lemma LastFormats(notes: seq<Note>)
    requires notes != []
    ensures FormatsOf(notes) == notes[|notes| - 1].formats
  {
  }

  /** The buffer grows by a pair at most; the place of the next cut has no influence on a write. */
  lemma PutUsed(reliable: bool, n: nat, a: Addr, d: Word, s: Stage, s': Stage, lo: nat, lo': nat)
    requires PutDone(reliable, n, a, d, s, s')
    ensures s'.used <= if ValidAddr(n, a) then s.used + 2 else s.used
    ensures PutDone(reliable, n, a, d, s.(lo := lo), s'.(lo := lo'))
  {
    hide SettledTo, Continues, FlushShown, Fills, ValidAddr, AppendTo;
  }

  lemma UptoOn(im: seq<Image>, no: seq<Note>, im': seq<Image>, no': seq<Note>, lower: int)
    requires Continues(im, no, im', no', lower) && no != [] && no[|no| - 1].upto >= lower
    ensures forall i | |no| - 1 <= i < |no'| :: no'[i].upto >= lower
  {
    assert no'[|no| - 1] == no'[..|no|][|no| - 1];
  }

  /** What the layer finds when it wakes up to an image of the trace.  Whatever addresses are in use and
      whether or not erases work, recovery finds room: nothing is ever cleared. */
  lemma WakeUp(c: Config, hist: PageLog, images: seq<Image>, notes: seq<Note>, k: nat)
    requires TraceOk(c, hist, images, notes) && k < |notes| && c.mapped && c.n >= 2
    requires c.cap == PAGE_PAIRS
    ensures |images| == |notes| && notes[k].upto <= |hist|
    ensures Encodes(c.n, images[k], notes[k].view) && Rotated(c.n, notes[k].formats, notes[k].view)
    ensures MapOfLogs(notes[k].view.logs) == MapOf(hist[..notes[k].upto])
    ensures Fits(c.n, notes[k].view, c.cap) && MountCap(c.n, notes[k].view) == c.cap
    ensures |notes[k].view.logs| == c.n ==> !Overflows(true, notes[k].view)
    ensures |notes[k].view.logs| <= c.n
    ensures forall r | 0 <= r < |notes[k].view.logs| :: |notes[k].view.logs[r]| <= PAGE_PAIRS
  {
    hide TraceOk, Encodes, Fits, MountCap, Overflows, MapOf, MapOfLogs, Rotated, CopiesOf, LiveKeys;
    TraceAt(c, hist, images, notes, k);
    TraceFits(c, hist, images, notes, k);
    PageBounds(c.n, images[k], notes[k].view);
    FitsMeansRoom(c.n, notes[k].view);
  }

  lemma TraceFits(c: Config, hist: PageLog, images: seq<Image>, notes: seq<Note>, k: nat)
    requires TraceOk(c, hist, images, notes) && k < |notes| && c.mapped
    ensures Fits(c.n, notes[k].view, c.cap)
  {
    hide Encodes, Fits, Rotated, MapOf, MapOfLogs;
    assert ImageOk(c, hist, images[k], notes[k]);
  }

  lemma PageBounds(n: nat, f: Image, v: View)
    requires Encodes(n, f, v)
    ensures |v.logs| <= n && forall r | 0 <= r < |v.logs| :: |v.logs[r]| <= PAGE_PAIRS
  {
    forall r | 0 <= r < |v.logs| ensures |v.logs[r]| <= PAGE_PAIRS { PageLength(n, f, v, r); }
  }

  /** An image whose live pairs fit is one that recovery has room for. */
  lemma FitsMeansRoom(n: nat, v: View)
    requires n >= 2 && |v.logs| <= n && Fits(n, v, PAGE_PAIRS)
    ensures MountCap(n, v) == PAGE_PAIRS && (|v.logs| == n ==> !Overflows(true, v))
  {
    hide CopiesOf, LiveKeys;
    if |v.logs| == n { MappedCopies(v, INFO_SIZE + 2 * |Newest(v)|); }
  }

  /** One power cut of a run: RAM is lost, and the layer mounts the state `k` the flash was in; for a
      cut between two commands, the last one. */
  method RunCut(ftl: Ftl, n: nat, ghost before: seq<Command>, ghost cut: Command, k: nat, lo: nat) returns (woken: Ftl)
    requires Running(ftl, n, before, lo) && 2 <= n <= 4 && lo <= k < |ftl.images|
    requires !cut.Put? && (cut.CutBetween? ==> k == |ftl.images| - 1)
    ensures fresh(woken) && fresh(woken.buffer) && Running(woken, n, before + [cut], 0)
    ensures woken.reliable == ftl.reliable && |woken.view.logs| < n
    ensures k < |ftl.notes| && ftl.notes[k].upto <= |ftl.hist|
    ensures MountedTo(n, true, ftl.notes[k].view, woken.view) && woken.hist == ftl.hist[..ftl.notes[k].upto]
    ensures CutDone(n, k, StageOf(ftl, lo), StageOf(woken, 0))
    ensures 0 < |ftl.notes[k].view.logs| < n ==> woken.flash == ftl.images[k]
  {
    hide *;
    RunningIs(ftl, n, before, lo);
    ftl.Parts();
    RecordedTrace(ftl.conf, ftl.hist, ftl.pend, ftl.flash, ftl.images, ftl.notes);
    LastNote(ftl.conf, ftl.hist, ftl.pend, ftl.flash, ftl.images, ftl.notes);
    ghost var note := ftl.notes[k];
    WakeUp(ftl.conf, ftl.hist, ftl.images, ftl.notes, k);
    ghost var hist := ftl.hist[..note.upto];
    PrefixKeys(ftl.hist, note.upto);
    AddressesGrow(before, cut);
    OutcomeCut(n, before, cut, ftl.hist, hist);
    woken := new Ftl.Mount(ftl.images[k], n, true, ftl.reliable, note.view, hist, note.formats);
    woken.Resting();
    woken.Facts();
    woken.Parts();
    MountWritable(n, true, note.view, woken.view);
    MountedTrace(woken.conf, woken.hist, woken.flash, ftl.images[k], note, woken.images, woken.notes);
    WokenTurned(n, ftl.images[k], note, woken.images, woken.notes, woken.hist);
    MountRests(woken);
    StageIs(ftl, lo);
    StageIs(woken, 0);
    CutDoneIs(n, k, StageOf(ftl, lo), StageOf(woken, 0));
    RunningMade(woken, n, before + [cut], 0);
  }

  lemma MountRests(ftl: Ftl)
    requires ftl.Settled() && ftl.mapped && !ftl.collecting && ftl.pend == ftl.writeIndex == 0 && 0 < |ftl.view.logs| < ftl.n
    ensures Resting(ftl)
  {
    hide Ftl.Settled;
  }

  lemma CutDoneIs(n: nat, k: int, s: Stage, s': Stage)
    requires 0 <= k < |s.images| == |s.notes| && s.notes[k].upto <= |s.hist|
    requires s'.lo == 0 && s'.images != [] && s'.images[0] == s.images[k]
    requires MountedTo(n, true, s.notes[k].view, s'.view)
    requires s'.hist == s.hist[..s.notes[k].upto] && s'.used == 0
    requires forall i | 0 <= i < |s'.notes| :: s'.notes[i].upto >= |s'.hist|
    ensures CutDone(n, k, s, s')
  {
    hide MountedTo;
  }

  lemma RecordedTrace(c: Config, hist: PageLog, pend: int, flash: Image, images: seq<Image>, notes: seq<Note>)
    requires Recorded(c, hist, pend, flash, images, notes)
    ensures TraceOk(c, hist, images, notes)
  {
    hide TraceOk;
  }

  lemma MountedTrace(c: Config, hist: PageLog, flash: Image, f: Image, note: Note, images: seq<Image>, notes: seq<Note>)
    requires Recorded(c, hist, 0, flash, images, notes)
    requires Continues([f], [Note(note.view, |hist|, note.formats)], images, notes, |hist|)
    ensures |images| == |notes| > 0 && images[0] == f && forall i | 0 <= i < |notes| :: notes[i].upto >= |hist|
  {
    assert notes[0] == notes[..1][0] && images[0] == images[..1][0];
  }

  /** The first mount of a run. */
  method RunStart(n: nat, blank: Image, eraseWorks: bool) returns (ftl: Ftl)
    requires 2 <= n <= 4 && Encodes(n, blank, View(0, 0, []))
    ensures fresh(ftl) && fresh(ftl.buffer) && Running(ftl, n, [], 0) && !Stuck(ftl) && ftl.reliable == eraseWorks
    ensures ftl.view == View(0, 0, [[]]) && ftl.hist == [] && Started(n, blank, StageOf(ftl, 0))
  {
    hide Consistent, Recorded, Encodes, MapOf, MapOfLogs, Outcome, Addresses, Continues, Rotated;
    EmptyMaps();
    EmptyOutcome(n);
    BlankRotated(n);
    ghost var note := Note(View(0, 0, []), 0, []);
    ftl := new Ftl.Mount(blank, n, true, eraseWorks, View(0, 0, []), [], []);
    ftl.Facts();
    MountedTrace(ftl.conf, ftl.hist, ftl.flash, blank, note, ftl.images, ftl.notes);
    WokenTurned(n, blank, note, ftl.images, ftl.notes, ftl.hist);
  }

  /** A whole run from the first mount of a blank flash.  Whatever the commands are, as long as
      they use at most 510 addresses, and whatever erases fail, what is read after them is what a
      possible outcome says, and the pages have been formatted in turn.  The run goes on until the
      current page is full; if erases work, only a power cut can lead to that. */
  method Run(n: nat, blank: Image, eraseWorks: bool, cmds: seq<Command>)
    returns (ftl: Ftl, done: nat, ghost stages: seq<Stage>)
    requires 2 <= n <= 4 && Encodes(n, blank, View(0, 0, []))
    requires |Addresses(cmds)| < PAGE_PAIRS
    ensures done <= |cmds| && ftl.Settled() && ftl.n == n && Outcome(n, cmds[..done], ftl.hist)
    ensures History(eraseWorks, n, blank, cmds[..done], stages) && stages[done] == StageOf(ftl, stages[done].lo)
    ensures MapOfLogs(ftl.view.logs) == MapOf(ftl.hist)
    ensures Even(n, FormatsOf(ftl.notes), ftl.flash, ftl.cur)
    ensures !Stuck(ftl) ==> done == |cmds| && (eraseWorks ==> ftl.Ready())
    ensures Stuck(ftl) ==> done > 0 && (eraseWorks ==> !cmds[done - 1].Put?)
  {
    hide *;
    assert cmds[..0] == [];
    ftl := RunStart(n, blank, eraseWorks);
    StuckIs(ftl, n, cmds[..0], 0);
    done := 0;
    var lo: nat := 0;
    stages := [StageOf(ftl, lo)];
    StageSound(ftl, n, cmds[..0], lo);
    HistoryStarts(eraseWorks, n, blank, stages[0]);
    StageIs(ftl, lo);
    while done < |cmds| && ftl.free < PAGE_CELLS
      invariant 0 <= done <= |cmds| && fresh(ftl) && fresh(ftl.buffer) && ftl.reliable == eraseWorks
      invariant Running(ftl, n, cmds[..done], lo) && (eraseWorks ==> |ftl.view.logs| < n)
      invariant Stuck(ftl) ==> done > 0 && (eraseWorks ==> !cmds[done - 1].Put?)
      invariant History(eraseWorks, n, blank, cmds[..done], stages) && |stages| == done + 1
      invariant stages[done] == StageOf(ftl, lo) && stages[done].lo == lo
    {
      ghost var before := cmds[..done];
      assert cmds[..done + 1] == before + [cmds[done]];
      RunningTrace(ftl, n, before, lo);
      StuckIs(ftl, n, before, lo);
      StageIs(ftl, lo);
      match cmds[done] {
        case Put(a, d) =>
          RunRoom(ftl, n, cmds, done, lo);
          lo := RunPut(ftl, n, before, a, d, lo);
        case CutDuring(i) =>
          ftl := RunCut(ftl, n, before, cmds[done], lo + i % (|ftl.images| - lo), lo);
          lo := 0;
        case CutBetween =>
          ftl := RunCut(ftl, n, before, cmds[done], |ftl.images| - 1, lo);
          lo := 0;
      }
      StageIs(ftl, lo);
      StageSound(ftl, n, cmds[..done + 1], lo);
      DoneIs(eraseWorks, n, cmds[done], stages[done], StageOf(ftl, lo));
      HistoryGoesOn(eraseWorks, n, blank, before, stages, cmds[done], StageOf(ftl, lo));
      stages := stages + [StageOf(ftl, lo)];
      done := done + 1;
    }
    RunningTrace(ftl, n, cmds[..done], lo);
    EvenWear(ftl, lo);
    RunningMap(ftl, n, cmds[..done], lo);
    StuckIs(ftl, n, cmds[..done], lo);
  }

  lemma StageIs(ftl: Ftl, lo: nat)
    ensures StageOf(ftl, lo) == Stage(ftl.images, ftl.notes, lo, ftl.view, ftl.writeIndex, ftl.hist)
  {
  }

  lemma StageSound(ftl: Ftl, n: nat, cmds: seq<Command>, lo: nat)
    requires Running(ftl, n, cmds, lo)
    ensures Sound(n, StageOf(ftl, lo))
  {
    hide Consistent, Outcome, Addresses, MapOf, Unsaved, AtRisk, Rotated, FromFirst, NoneLive, TraceOk, Traced;
  }

  lemma DoneIs(reliable: bool, n: nat, cmd: Command, s: Stage, s': Stage)
    requires cmd.Put? ==> PutDone(reliable, n, cmd.addr, cmd.data, s, s') && s'.lo == |s.images| - 1
    requires cmd.CutDuring? ==> s.lo < |s.images| && CutDone(n, s.lo + cmd.operation % (|s.images| - s.lo), s, s')
    requires cmd.CutBetween? ==> CutDone(n, |s.images| - 1, s, s')
    ensures Done(reliable, n, cmd, s, s')
  {
    hide PutDone, CutDone;
  }

  lemma StuckIs(ftl: Ftl, n: nat, cmds: seq<Command>, lo: nat)
    requires Running(ftl, n, cmds, lo)
    ensures ftl.n == n && (Stuck(ftl) <==> ftl.free >= PAGE_CELLS) && Outcome(n, cmds, ftl.hist)
    ensures !Stuck(ftl) && |ftl.view.logs| < n ==> ftl.Ready()
  {
    hide Recorded, Consistent, Outcome, Addresses, MapOf, Unsaved, AtRisk, Rotated, FromFirst, NoneLive;
    ftl.Facts();
  }

  /** Room for the next write, from the bound on the addresses of the run. */
  lemma RunRoom(ftl: Ftl, n: nat, cmds: seq<Command>, k: nat, lo: nat)
    requires k < |cmds| && cmds[k].Put? && Running(ftl, n, cmds[..k], lo) && |Addresses(cmds)| < PAGE_PAIRS
    ensures ftl.view.logs != [] && SettleRoom(n, true, AppendTo(ftl.view, [Entry(cmds[k].addr, cmds[k].data)]))
  {
    hide Ftl.Inv, SettleRoom, MapOf, Outcome, Addresses, AppendTo, Unsaved, AtRisk, FromFirst;
    TakeAddresses(cmds, k + 1);
    assert cmds[..k + 1] == cmds[..k] + [cmds[k]];
    AddressesGrow(cmds[..k], cmds[k]);
    RoomForPut(ftl, cmds, Entry(cmds[k].addr, cmds[k].data));
  }

  lemma RunningTrace(ftl: Ftl, n: nat, cmds: seq<Command>, lo: nat)
    requires Running(ftl, n, cmds, lo)
    ensures lo < |ftl.images| == |ftl.notes| && ftl.Settled() && Turned(ftl, lo)
  {
  }

  lemma EmptyOutcome(n: nat)
    ensures Outcome(n, [], []) && MapOf([]).Keys <= Addresses([])
  {
  }

  lemma TakeAddresses(cmds: seq<Command>, k: nat)
    requires k <= |cmds|
    ensures Addresses(cmds[..k]) <= Addresses(cmds)
  {
    forall a | a in Addresses(cmds[..k]) ensures a in Addresses(cmds) {
      var i :| 0 <= i < k && cmds[..k][i].Put? && cmds[..k][i].addr == a;
      assert cmds[i].addr == a;
    }
  }

  lemma RunningMap(ftl: Ftl, n: nat, cmds: seq<Command>, lo: nat)
    requires Running(ftl, n, cmds, lo)
    ensures MapOfLogs(ftl.view.logs) == MapOf(ftl.hist)
  {
    hide Recorded, Encodes, TableOk, Buffered, Fits, MapOf, MapOfLogs, Outcome;
    DurableMap(ftl.view, Flushed(ftl.free), ftl.hist, ftl.pend);
  }

  /** What the user reads after a run: the last surviving write to the address, or not found. */
  method RunAndRead(n: nat, blank: Image, eraseWorks: bool, cmds: seq<Command>, a: Addr)
    returns (ret: nat, value: Word, done: nat, ghost stages: seq<Stage>)
    requires 2 <= n <= 4 && Encodes(n, blank, View(0, 0, []))
    requires |Addresses(cmds)| < PAGE_PAIRS && ValidAddr(n, a)
    ensures done <= |cmds| && History(eraseWorks, n, blank, cmds[..done], stages) && Outcome(n, cmds[..done], stages[done].hist)
    ensures done < |cmds| ==> done > 0 && (eraseWorks ==> !cmds[done - 1].Put?)
    ensures Looked(MapOf(stages[done].hist), a, ret, value)
  {
    hide Encodes, MapOf, MapOfLogs, Outcome, Addresses, Done, Sound, Started;
    var ftl: Ftl;
    ftl, done, stages := Run(n, blank, eraseWorks, cmds);
    ret, value := ftl.Read(a);
  }

  // ----- exactly what survives a cut

  /** A cut during a write: with `k` operations done, the pairs that were in the buffer, and the one
      written, survive as far as the first `k` of them if the write filled the buffer; else none of them. */
  lemma CutInWrite(reliable: bool, n: nat, a: Addr, d: Word, i: nat, s: Stage, s1: Stage, s2: Stage)
    requires Sound(n, s) && Sound(n, s1) && ValidAddr(n, a)
    requires Done(reliable, n, Put(a, d), s, s1) && Done(reliable, n, CutDuring(i), s1, s2)
    ensures |s.images| <= |s1.images| && s.images != []
    ensures var k, m := i % (|s1.images| - |s.images| + 1), s.used / 2 + 1;
      && s1.hist == s.hist + [Entry(a, d)] && m <= |s1.hist|
      && s2.hist == s1.hist[..|s1.hist| - m + (if Fills(s.view, s.used) then Min(k, m) else 0)]
  {
    hide *;
    WriteStarts(reliable, n, a, d, s, s1);
    CutTakes(reliable, n, i, s1, s2);
    WriteEntry(reliable, n, a, d, s, s1, i % (|s1.images| - |s.images| + 1));
  }

  lemma WriteStarts(reliable: bool, n: nat, a: Addr, d: Word, s: Stage, s1: Stage)
    requires Sound(n, s) && Sound(n, s1) && ValidAddr(n, a) && Done(reliable, n, Put(a, d), s, s1)
    ensures 0 < |s.images| == |s.notes| <= |s1.images| == |s1.notes| && s1.lo == |s.images| - 1
    ensures s1.hist == s.hist + [Entry(a, d)] && s.used / 2 + 1 <= |s1.hist|
  {
    hide ImageOk, Traced, SettledTo, AppendTo, Fills, FlushShown, TraceOk;
  }

  /** How many user writes the trace holds `k` entries after the last one before a write. */
  lemma WriteEntry(reliable: bool, n: nat, a: Addr, d: Word, s: Stage, s1: Stage, k: nat)
    requires Sound(n, s) && Sound(n, s1) && ValidAddr(n, a) && Done(reliable, n, Put(a, d), s, s1)
    requires |s.images| - 1 + k < |s1.images|
    ensures s.images != [] && |s1.images| == |s1.notes| && s1.hist == s.hist + [Entry(a, d)]
    ensures var m := s.used / 2 + 1;
      s1.notes[|s.images| - 1 + k].upto == |s1.hist| - m + (if Fills(s.view, s.used) then Min(k, m) else 0)
  {
    hide ImageOk, Traced, SettledTo, AppendTo, Fills, Shows, TraceOk;
    var m := s.used / 2 + 1;
    SoundAt(n, s1, |s.images| - 1 + k);
    if k == 0 {
      assert s1.notes[|s.notes| - 1] == s1.notes[..|s.notes|][|s.notes| - 1];
    } else if k <= m {
      assert PairShown(s1.notes[|s.notes| + k - 1], AppendTo(s.view, [Entry(a, d)]), m, k, |s1.hist|, m);
    }
  }

  lemma CutTakes(reliable: bool, n: nat, i: nat, s: Stage, s': Stage)
    requires Done(reliable, n, CutDuring(i), s, s')
    ensures s.lo < |s.images| == |s.notes|
    ensures var k := s.lo + i % (|s.images| - s.lo);
      s.notes[k].upto <= |s.hist| && s'.hist == s.hist[..s.notes[k].upto]
  {
    hide MountedTo;
  }

  lemma SoundAt(n: nat, s: Stage, k: nat)
    requires Sound(n, s) && k < |s.notes|
    ensures s.notes[k].upto <= |s.hist|
  {
    hide Traced;
    UptoBound(Config(n, true, PAGE_PAIRS), s.hist, s.images[k], s.notes[k]);
  }

  lemma UptoBound(c: Config, hist: PageLog, f: Image, note: Note)
    requires ImageOk(c, hist, f, note)
    ensures note.upto <= |hist|
  {
  }

  /** A cut between two commands: all but what is in the buffer survives. */
  lemma CutAfter(reliable: bool, n: nat, s: Stage, s': Stage)
    requires Sound(n, s) && Done(reliable, n, CutBetween, s, s')
    ensures s.used / 2 <= |s.hist| && s'.hist == s.hist[..|s.hist| - s.used / 2]
  {
    hide TraceOk, Traced, MountedTo;
  }

  /** A cut during a mount loses nothing. */
  lemma CutInMount(reliable: bool, n: nat, cut: Command, i: nat, s: Stage, s1: Stage, s2: Stage)
    requires !cut.Put? && Sound(n, s1) && Done(reliable, n, cut, s, s1) && Done(reliable, n, CutDuring(i), s1, s2)
    ensures s2.hist == s1.hist
  {
    hide TraceOk, Traced, MountedTo;
  }

  /** Seven writes and a cut of the last one after operation `i`: the first `i` of them survive. */
  method SevenWritesCut(n: nat, blank: Image, i: nat) returns (ftl: Ftl)
    requires 2 <= n <= 4 && Encodes(n, blank, View(0, 0, [])) && i <= 7
    ensures ftl.Settled() && ftl.n == n && ftl.hist == Ones(i) && MapOfLogs(ftl.view.logs) == MapOf(Ones(i))
  {
    hide Encodes, MapOf, MapOfLogs, Outcome, Addresses, Even, History, Ftl.Inv;
    var cmds := OnesPut(7) + [CutDuring(i)];
    OnesAddresses(cmds);
    var done;
    ghost var stages;
    ftl, done, stages := Run(n, blank, true, cmds);
    assert done == 8;
    assert cmds[..done] == cmds;
    SevenThenCut(n, blank, cmds, stages, i);
  }

  function Ones(k: nat): (es: PageLog)
    requires k <= 7
    ensures |es| == k
  {
    seq(k, j requires 0 <= j < k => Entry(4 * j, 1))
  }

  function OnesPut(k: nat): (cmds: seq<Command>)
    requires k <= 7
    ensures |cmds| == k
  {
    seq(k, j requires 0 <= j < k => Put(4 * j, 1))
  }

  lemma OnesAddresses(cmds: seq<Command>)
    requires |cmds| == 8 && cmds[..7] == OnesPut(7) && !cmds[7].Put?
    ensures |Addresses(cmds)| < PAGE_PAIRS
  {
    forall a | a in Addresses(cmds) ensures a % 4 == 0 && a < 4 * 7 {
      var j :| 0 <= j < 8 && cmds[j].Put? && cmds[j].addr == a;
      assert cmds[j] == cmds[..7][j];
    }
    AddressCount(Addresses(cmds), 7);
  }

  /** The first six writes stay in the buffer. */
  lemma {:induction false} StillBuffered(n: nat, blank: Image, cmds: seq<Command>, stages: seq<Stage>, k: nat)
    requires n >= 2 && |cmds| == 8 && cmds[..7] == OnesPut(7) && History(true, n, blank, cmds, stages) && k <= 6
    ensures var s := stages[k];
      && s.view == View(0, 0, [Ones(k)]) && s.used == 2 * k && s.hist == Ones(k) && s.images == stages[0].images && s.notes == stages[0].notes
    decreases k
  {
    hide Sound, Continues, FlushShown;
    if k > 0 {
      StillBuffered(n, blank, cmds, stages, k - 1);
      var s, s', e := stages[k - 1], stages[k], Entry(4 * (k - 1), 1);
      assert Done(true, n, cmds[k - 1], s, s');
      assert cmds[k - 1] == cmds[..7][k - 1];
      OneMore(n, k, s'.view);
    }
  }

  lemma OneMore(n: nat, k: nat, v': View)
    requires n >= 2 && 0 < k <= 7
    ensures var v, e := View(0, 0, [Ones(k - 1)]), Entry(4 * (k - 1), 1);
      && ValidAddr(n, e.addr) && (Fills(v, 2 * (k - 1)) <==> k == 7) && |Newest(v)| == k - 1
      && Ones(k - 1) + [e] == Ones(k) && AppendTo(v, [e]) == View(0, 0, [Ones(k)])
      && (SettledTo(n, true, true, AppendTo(v, [e]), v') ==> v' == AppendTo(v, [e]))
  {
    hide CollectedTo;
    var v, e := View(0, 0, [Ones(k - 1)]), Entry(4 * (k - 1), 1);
    assert Ones(k - 1) + [e] == Ones(k);
    assert AppendTo(v, [e]).logs == [Ones(k)];
  }

  lemma SevenThenCut(n: nat, blank: Image, cmds: seq<Command>, stages: seq<Stage>, i: nat)
    requires n >= 2 && i <= 7 && |cmds| == 8 && cmds[..7] == OnesPut(7) && cmds[7] == CutDuring(i)
    requires History(true, n, blank, cmds, stages)
    ensures stages[8].hist == Ones(i)
  {
    hide *;
    StillBuffered(n, blank, cmds, stages, 6);
    HistoryAt(true, n, blank, cmds, stages, 6);
    HistoryAt(true, n, blank, cmds, stages, 7);
    SeventhPut(n, cmds);
    var s, s1, s2 := stages[6], stages[7], stages[8];
    OneMore(n, 7, s1.view);
    SoundLengths(n, s);
    SoundLengths(n, s1);
    SevenEntries(n, s, s1);
    CutInWrite(true, n, 24, 1, i, s, s1, s2);
    LeastOf(i, 7);
    FirstOnes(i);
  }

  lemma SeventhPut(n: nat, cmds: seq<Command>)
    requires |cmds| == 8 && cmds[..7] == OnesPut(7)
    ensures cmds[6] == Put(24, 1)
  {
    assert cmds[6] == cmds[..7][6];
  }

  lemma FirstOnes(i: nat)
    requires i <= 7
    ensures Ones(7)[..i] == Ones(i)
  {
  }

  lemma SevenEntries(n: nat, s: Stage, s1: Stage)
    requires n >= 2 && s.view == View(0, 0, [Ones(6)]) && s.used == 12 && Done(true, n, Put(24, 1), s, s1)
    requires |s.images| == |s.notes| && |s1.images| == |s1.notes|
    ensures |s1.images| == |s.images| + 7
  {
    hide Continues, FlushShown, SettledTo;
  }

  lemma HistoryAt(reliable: bool, n: nat, blank: Image, cmds: seq<Command>, stages: seq<Stage>, k: nat)
    requires History(reliable, n, blank, cmds, stages) && k < |cmds|
    ensures |stages| == |cmds| + 1 && Sound(n, stages[k]) && Sound(n, stages[k + 1]) && Done(reliable, n, cmds[k], stages[k], stages[k + 1])
  {
    hide Sound, Done, Started;
  }

  lemma SoundLengths(n: nat, s: Stage)
    requires Sound(n, s)
    ensures |s.images| == |s.notes|
  {
    hide TraceOk, Traced;
  }

  // ----- a run into the state in which the current page is full

  /** Pairs whose data words alternate between 0 and 1, of 510 addresses in turn. */
  function Alternating(k: nat, flip: nat): (es: PageLog)
    ensures |es| == k
  {
    seq(k, i requires 0 <= i < k => Entry(4 * (i % 510), (i + flip) % 2))
  }

  function AlternatingPuts(k: nat, flip: nat): (cmds: seq<Command>)
    ensures |cmds| == k
  {
    seq(k, i requires 0 <= i < k => Put(4 * (i % 510), (i + flip) % 2))
  }

  lemma AlternatingStep(k: nat, flip: nat)
    ensures Alternating(k, flip) + [Entry(4 * (k % 510), (k + flip) % 2)] == Alternating(k + 1, flip)
    ensures AlternatingPuts(k, flip) + [Put(4 * (k % 510), (k + flip) % 2)] == AlternatingPuts(k + 1, flip)
    ensures AlternatingPuts(k + 1, flip)[..k] == AlternatingPuts(k, flip)
  {
  }

  lemma AlternatingAddresses(k: nat, flip: nat)
    ensures |Addresses(AlternatingPuts(k, flip))| < PAGE_PAIRS
  {
    AddressCount(Addresses(AlternatingPuts(k, flip)), 510);
  }

  lemma AlternatingPrefix(k: nat, m: nat, flip: nat)
    requires k < m
    ensures AlternatingPuts(m, flip)[..k] == AlternatingPuts(k, flip)
    ensures AlternatingPuts(m, flip)[k] == Put(4 * (k % 510), (k + flip) % 2)
  {
  }

  /** 511 writes; entry `k` of the trace is the state in which the pair that fills the page has been
      programmed and nothing else has happened yet. */
  method FillPage(n: nat, blank: Image, flip: nat) returns (ftl: Ftl, lo: nat, k: nat)
    requires 2 <= n <= 4 && Encodes(n, blank, View(0, 0, []))
    ensures fresh(ftl) && fresh(ftl.buffer) && Running(ftl, n, AlternatingPuts(PAGE_PAIRS, flip), lo) && lo < k
    ensures ftl.reliable
    ensures Shows(n, ftl.images, ftl.notes, k, View(0, 0, [Alternating(PAGE_PAIRS, flip)]))
  {
    hide *;
    Sizes();
    var i := 0;
    lo, k := 0, 0;
    ftl := RunStart(n, blank, true);
    NoneAlternating(flip);
    AlternatingAddresses(PAGE_PAIRS, flip);
    while i < PAGE_PAIRS
      invariant 0 <= i <= PAGE_PAIRS && fresh(ftl) && fresh(ftl.buffer) && ftl.reliable && |ftl.view.logs| < n
      invariant Running(ftl, n, AlternatingPuts(i, flip), lo) && !Stuck(ftl)
      invariant i < PAGE_PAIRS ==> ftl.view == View(0, 0, [Alternating(i, flip)])
      invariant i == PAGE_PAIRS ==>
        lo < k && Shows(n, ftl.images, ftl.notes, k, View(0, 0, [Alternating(i, flip)]))
    {
      AlternatingStep(i, flip);
      AlternatingPrefix(i, PAGE_PAIRS, flip);
      RunRoom(ftl, n, AlternatingPuts(PAGE_PAIRS, flip), i, lo);
      RunningFacts(ftl, n, AlternatingPuts(i, flip), lo);
      AlternatingView(n, i, flip);
      StageIs(ftl, lo);
      ghost var s := StageOf(ftl, lo);
      k := |ftl.images| + ftl.writeIndex / 2;
      lo := RunPut(ftl, n, AlternatingPuts(i, flip), 4 * (i % 510), (i + flip) % 2, lo);
      StageIs(ftl, lo);
      if i + 1 == PAGE_PAIRS { PutShown(ftl.reliable, n, 4 * (i % 510), (i + flip) % 2, s, StageOf(ftl, lo)); }
      i := i + 1;
    }
  }

  /** The pair that fills the page is shown by the entry that follows the pairs in the buffer. */
  lemma PutShown(reliable: bool, n: nat, a: Addr, d: Word, s: Stage, s': Stage)
    requires PutDone(reliable, n, a, d, s, s') && ValidAddr(n, a) && s.view.logs != [] && |Newest(s.view)| == PAGE_PAIRS - 1
    ensures Shows(n, s'.images, s'.notes, |s.notes| + s.used / 2, AppendTo(s.view, [Entry(a, d)]))
  {
    hide SettledTo, Continues, ValidAddr, AppendTo, PairShown, Shows;
  }

  /** A power cut during the last of these writes, in that state: the mount keeps every reading, but
      it leaves a full current page without an end position, and the next page is free. */
  method ReachStuck(n: nat, blank: Image, flip: nat) returns (ftl: Ftl, operation: nat)
    requires 2 <= n <= 4 && Encodes(n, blank, View(0, 0, []))
    ensures fresh(ftl) && fresh(ftl.buffer)
    ensures Running(ftl, n, AlternatingPuts(PAGE_PAIRS, flip) + [CutDuring(operation)], 0) && Stuck(ftl) && ftl.reliable
    ensures ftl.view == View(0, 0, [Alternating(PAGE_PAIRS, flip)])
    ensures ftl.cur < |ftl.flash| && ftl.flash[ftl.cur].end == None
  {
    hide Running, Alternating, AlternatingPuts, Shows, Turned, MountedTo, Encodes;
    var lo, k;
    ftl, lo, k := FillPage(n, blank, flip);
    ghost var v := View(0, 0, [Alternating(PAGE_PAIRS, flip)]);
    ShownFacts(n, ftl.images, ftl.notes, k, v);
    operation := k - lo;
    ftl := RunCut(ftl, n, AlternatingPuts(PAGE_PAIRS, flip), CutDuring(operation), k, lo);
    MountedFull(ftl, n, AlternatingPuts(PAGE_PAIRS, flip) + [CutDuring(operation)], v);
  }

  lemma NoneAlternating(flip: nat)
    ensures Alternating(0, flip) == [] && AlternatingPuts(0, flip) == []
  {
  }

  /** The log of the loop above, and what a write makes of it. */
  lemma AlternatingView(n: nat, k: nat, flip: nat)
    requires n >= 2 && k < PAGE_PAIRS
    ensures var v, e := View(0, 0, [Alternating(k, flip)]), Entry(4 * (k % 510), (k + flip) % 2);
      && ValidAddr(n, e.addr) && |Newest(v)| == k && AppendTo(v, [e]) == View(0, 0, [Alternating(k + 1, flip)])
      && forall v' :: SettledTo(n, true, true, AppendTo(v, [e]), v') && k + 1 < PAGE_PAIRS ==> v' == AppendTo(v, [e])
  {
    AlternatingStep(k, flip);
    var v, e := View(0, 0, [Alternating(k, flip)]), Entry(4 * (k % 510), (k + flip) % 2);
    assert |Newest(AppendTo(v, [e]))| == k + 1;
    hide CollectedTo, Alternating;
  }

  lemma RunningFacts(ftl: Ftl, n: nat, cmds: seq<Command>, lo: nat)
    requires Running(ftl, n, cmds, lo)
    ensures ftl.n == n && ftl.Settled() && lo < |ftl.images| == |ftl.notes| && ftl.view.logs != []
    ensures ftl.validLen % 2 == 0
    ensures |Newest(ftl.view)| == PAGE_PAIRS - 1 && !Stuck(ftl) ==> ftl.writeIndex + 2 == ftl.validLen >= 2
  {
    hide Recorded, Consistent, Outcome, Addresses, MapOf, Unsaved, AtRisk, Rotated;
    ftl.Facts();
  }

  lemma ShownFacts(n: nat, images: seq<Image>, notes: seq<Note>, k: int, v: View)
    requires Shows(n, images, notes, k, v)
    ensures 0 <= k < |images| && k < |notes| && notes[k].view == v && v.logs != []
    ensures Current(n, v) < |images[k]| && images[k][Current(n, v)].end == None
  {
  }

  /** A mount that finds a full newest page and a free page leaves the page full. */
  lemma MountedFull(ftl: Ftl, n: nat, cmds: seq<Command>, v: View)
    requires Running(ftl, n, cmds, 0) && cmds != [] && cmds[|cmds| - 1].CutDuring?
    requires 0 < |v.logs| < n && |Newest(v)| == PAGE_PAIRS && MountedTo(n, true, v, ftl.view)
    ensures ftl.view == v && Stuck(ftl) && ftl.cur == Current(n, v)
  {
    hide Recorded, Consistent, Outcome, Addresses, MapOf, AtRisk, Rotated;
    ftl.Facts();
  }

  // ----- the write that starts a collection

  /** ftl_write_app_cb for the pair that fills the last page but one, up to the collection it starts:
      the pair is flushed, the page closed and the last page opened. */
  method UpToCollection(ftl: Ftl, a: Addr, d: Word)
    requires ftl.Ready() && ValidAddr(ftl.n, a)
    requires |ftl.view.logs| + 1 == ftl.n && |Newest(ftl.view)| == PAGE_PAIRS - 1
    modifies ftl, ftl.buffer
    ensures ftl.Settled() && ftl.writeIndex == 0 && ftl.pend == 0 && ftl.free == INFO_SIZE && !ftl.collecting
    ensures ftl.view == AddPage(AppendTo(old(ftl.view), [Entry(a, d)])) && |ftl.view.logs| == ftl.n
    ensures ftl.hist == old(ftl.hist) + [Entry(a, d)]
  {
    hide *;
    Sizes();
    ftl.ReadyParts();
    ftl.Facts();
    AppendFacts(ftl.view, Entry(a, d));
    ftl.PushData(d);
    ftl.Facts();
    NothingLive(ftl.n, ftl.view);
    ftl.WriteTable(KeyOf(a, d), Entry(a, d), false);
    KeyPushed(ftl, KeyOf(a, d));
    ftl.Facts();
    assert ftl.writeIndex >= ftl.validLen;  // so the buffer is written back
    FlushFull(ftl);
  }

  lemma NothingLive(n: nat, v: View)
    requires 0 < |v.logs| < n
    ensures NoneLive(n, v)
  {
  }

  /** The key enters the buffer. */
  method KeyPushed(ftl: Ftl, key: Word)
    requires ftl.buffer.Length == BUFFER_CELLS && 0 < ftl.writeIndex < BUFFER_CELLS && ftl.state == Filling
    requires ftl.Inv(ftl.buffer[..ftl.writeIndex] + [key])
    modifies ftl`writeIndex, ftl.buffer
    ensures ftl.Valid() && ftl.writeIndex == old(ftl.writeIndex) + 1
  {
    hide Ftl.Inv;
    ghost var words := ftl.buffer[..ftl.writeIndex] + [key];
    ftl.buffer[ftl.writeIndex] := key;
    ftl.writeIndex := ftl.writeIndex + 1;
    assert ftl.buffer[..ftl.writeIndex] == words;
  }

  /** A buffer whose last pair fills the page is flushed: the page is closed and the next one opened. */
  method FlushFull(ftl: Ftl)
    requires ftl.Valid() && ftl.writeIndex % 2 == 0 && ftl.writeIndex >= ftl.validLen > 0
    requires |ftl.view.logs| + 1 == ftl.n && |Newest(ftl.view)| == PAGE_PAIRS
    modifies ftl, ftl.buffer
    ensures ftl.Settled() && ftl.writeIndex == 0 && ftl.pend == 0 && ftl.free == INFO_SIZE
    ensures ftl.view == AddPage(old(ftl.view)) && |ftl.view.logs| == ftl.n
    ensures ftl.hist == old(ftl.hist) && ftl.collecting == old(ftl.collecting)
  {
    hide *;
    Sizes();
    ftl.Facts();
    OldestLength(ftl);
    ftl.FlushBuffer();
    assert ftl.free >= PAGE_CELLS;  // so the page is closed
    ftl.RecordEnd();
    ftl.DrainedParts();
    FullPage(ftl.conf, ftl.flash, ftl.view, ftl.table, ftl.hist);
    var next := Next(ftl.n, ftl.cur);
    assert !ftl.flash[next].valid;  // so it is opened
    AddPageFacts(ftl.view);
    NewPageFits(ftl.n, ftl.view, ftl.conf.cap);
    ftl.FormatNext(next);
  }

  lemma OldestLength(ftl: Ftl)
    requires ftl.Valid()
    ensures ftl.view.logs != [] && |ftl.view.logs[0]| <= PAGE_PAIRS
  {
    hide *;
    ftl.Facts();
    if |ftl.view.logs| >= 2 { ftl.OldestIsFull(); } else { OnlyPage(ftl.view); }
  }

  lemma OnlyPage(v: View)
    requires |v.logs| == 1
    ensures v.logs[0] == Newest(v)
  {
  }

  /** A page that has just been opened can take all that is live on another one. */
  lemma NewPageFits(n: nat, v: View, cap: nat)
    requires n >= 2 && v.logs != [] && |v.logs[0]| <= PAGE_PAIRS <= cap
    ensures Fits(n, AddPage(v), cap)
  {
    hide MapOf, MapOfLogs, CopiesOf;
    var v', rest := AddPage(v), AddPage(v).logs[1..];
    LiveCount(v'.logs[0], |v'.logs[0]|, MapOfLogs(rest).Keys);
    LiveDistinct(v'.logs[0], |v'.logs[0]|, MapOfLogs(rest).Keys);
    assert v'.logs[0][..|v'.logs[0]|] == v'.logs[0];
  }

  // ----- a run into the state without room

  /** The log after the first `k` addresses of a three-page ring have been written in turn. */
  function Progress(k: nat): View
    requires k <= 1021
  {
    View(0, 0, if k < PAGE_PAIRS then [Consecutive(0, k)] else [Consecutive(0, PAGE_PAIRS), Consecutive(PAGE_PAIRS, k - PAGE_PAIRS)])
  }

  lemma ProgressStep(k: nat, v': View)
    requires k < 1021 && SettledTo(3, true, true, AppendTo(Progress(k), [Entry(4 * k, 0)]), v')
    ensures v' == Progress(k + 1)
  {
    hide CollectedTo, CollectRoom;
    var v := AppendTo(Progress(k), [Entry(4 * k, 0)]);
    if k < PAGE_PAIRS {
      assert Consecutive(0, k) + [Entry(4 * k, 0)] == Consecutive(0, k + 1);
      assert v.logs == [Consecutive(0, k + 1)];
      assert Consecutive(PAGE_PAIRS, 0) == [];
    } else {
      assert Consecutive(PAGE_PAIRS, k - PAGE_PAIRS) + [Entry(4 * k, 0)] == Consecutive(PAGE_PAIRS, k + 1 - PAGE_PAIRS);
      assert v.logs == [Consecutive(0, PAGE_PAIRS), Consecutive(PAGE_PAIRS, k + 1 - PAGE_PAIRS)];
    }
  }

  /** 1021 writes from the first mount lead to a state in which one more write, of an address that
      is already there, has no room for the collection it starts. */
  method ReachNoRoom(blank: Image) returns (ftl: Ftl)
    requires Encodes(3, blank, View(0, 0, []))
    ensures fresh(ftl) && fresh(ftl.buffer) && ftl.Ready() && ftl.n == 3 && ftl.mapped && ftl.reliable
    ensures AppendTo(ftl.view, [Entry(4 * 1020, 0)]) == NoRoomLog()
    ensures ValidAddr(3, 4 * 1020) && !SettleRoom(3, true, AppendTo(ftl.view, [Entry(4 * 1020, 0)]))
  {
    hide Consistent, Recorded, Encodes, MapOf, MapOfLogs, SettledTo, SettleRoom, Continues, Progress, Outcome, Rotated, FromFirst;
    ftl := RunStart(3, blank, true);
    assert Progress(0) == View(0, 0, [[]]) by { NoProgress(); }
    var k := 0;
    ConsistentFacts(ftl.conf, ftl.flash, ftl.view, ftl.free, ftl.buffer[..ftl.writeIndex], ftl.table, ftl.hist, ftl.pend);
    while k < 1021
      invariant 0 <= k <= 1021 && fresh(ftl) && fresh(ftl.buffer)
      invariant ftl.n == 3 && ftl.mapped && ftl.reliable
      invariant ftl.Ready() && ftl.view == Progress(k)
    {
      ghost var v := ftl.view;
      ProgressRoom(k);
      ConsistentFacts(ftl.conf, ftl.flash, ftl.view, ftl.free, ftl.buffer[..ftl.writeIndex], ftl.table, ftl.hist, ftl.pend);
      var _ := ftl.Write(4 * k, 0, false);
      ProgressStep(k, ftl.view);
      ProgressShape(k + 1);
      ConsistentFacts(ftl.conf, ftl.flash, ftl.view, ftl.free, ftl.buffer[..ftl.writeIndex], ftl.table, ftl.hist, ftl.pend);
      RoomIsEven(ftl.conf, ftl.flash, ftl.view, ftl.free, ftl.buffer[..ftl.writeIndex], ftl.table, ftl.hist, ftl.pend);
      k := k + 1;
    }
    NoProgressLeft();
    NoRoomForThreePages();
  }

  lemma NoProgress()
    ensures Progress(0) == View(0, 0, [[]])
  {
  }

  lemma ProgressRoom(k: nat)
    requires k < 1021
    ensures ValidAddr(3, 4 * k) && SettleRoom(3, true, AppendTo(Progress(k), [Entry(4 * k, 0)]))
  {
  }

  lemma ProgressShape(k: nat)
    requires k <= 1021
    ensures 0 < |Progress(k).logs| < 3 && |Newest(Progress(k))| < PAGE_PAIRS
  {
  }

  lemma NoProgressLeft()
    ensures AppendTo(Progress(1021), [Entry(4 * 1020, 0)]) == NoRoomLog()
  {
    assert Consecutive(511, 510) + Consecutive(1020, 1) == Consecutive(511, 510) + [Entry(4 * 1020, 0)];
  }
}
