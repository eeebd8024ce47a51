/** ftl_gc_imp_app_cb in full, with the mapping table.  If nothing on the oldest page can be dropped, the
    copies fill the new page, nothing has been recycled, and once the page is erased the collector makes
    a further pass over the next oldest page, with a full current page. */
module Retry {
  import opened Words
  import opened Log
  import opened Flash
  import opened Invariant
  import opened Collect
  import opened Capacity
  import opened Layer
  import opened Runs
  import opened FullPage

  // ----- the log

  /** The address a collector that looks at pairs `w - 1` and below copies first. */
  function FirstKept(p0: PageLog, w: nat, newer: set<Addr>): Option<Addr>
    requires w <= |p0|
  {
    if w == 0 then None
    else if p0[w - 1].addr in newer then FirstKept(p0, w - 1, newer)
    else Some(p0[w - 1].addr)
  }

  /** The first address that is live on the oldest page, from the end of the page. */
  function FirstLive(v: View): Option<Addr>
    requires v.logs != []
  {
    FirstKept(v.logs[0], |v.logs[0]|, MapOfLogs(v.logs[1..]).Keys)
  }

  lemma {:induction false} FirstKeptIs(p0: PageLog, w: nat, newer: set<Addr>)
    requires w <= |p0|
    ensures match FirstKept(p0, w, newer)
      case None => forall i | 0 <= i < w :: p0[i].addr in newer
      case Some(a) => a !in newer && exists i | 0 <= i < w :: p0[i].addr == a
    decreases w
  {
    if w > 0 && p0[w - 1].addr in newer { FirstKeptIs(p0, w - 1, newer); }
  }

  /** There is one exactly when an address has its only pairs on the oldest page, and it is such an
      address. */
  lemma FirstLiveIff(v: View)
    requires v.logs != []
    ensures match FirstLive(v)
      case None => LiveKeys(v) == {} && MapOf(v.logs[0]).Keys <= MapOfLogs(v.logs[1..]).Keys
      case Some(a) => a in LiveKeys(v)
  {
    hide MapOf, MapOfLogs, FirstKept;
    FirstKeptIs(v.logs[0], |v.logs[0]|, MapOfLogs(v.logs[1..]).Keys);
    match FirstLive(v)
    case None => AllMet(v);
    case Some(a) =>
      var i :| 0 <= i < |v.logs[0]| && v.logs[0][i].addr == a;
      MapKeys(v.logs[0], i);
  }

  /** The log after the first pass, erase working. */
  function Collected(n: nat, v: View): (v1: View)
    requires |v.logs| >= 2
    ensures |v1.logs| == |v.logs| - 1
  {
    DropOldest(n, Copied(true, v, INFO_SIZE + 2 * |Newest(v)|))
  }

  /** What the first pass onto a page just opened leads to: the pairs copied fit, all readings are kept,
      and the page is full exactly when nothing was recycled, that is, without room. */
  lemma FirstPass(n: nat, v: View)
    requires |v.logs| >= 2 && Newest(v) == [] && |v.logs[0]| == PAGE_PAIRS
    ensures var copies, copied := CopiesOf(true, v, INFO_SIZE), Copied(true, v, INFO_SIZE);
      && |copies| == |LiveKeys(v)| <= PAGE_PAIRS && Newest(copied) == copies
      && (CollectRoom(true, v, INFO_SIZE) <==> |copies| < PAGE_PAIRS)
      && MapOfLogs(copied.logs) == MapOfLogs(Collected(n, v).logs) == MapOfLogs(v.logs)
      && copied.logs[0] == v.logs[0] && Collected(n, v) == DropOldest(n, copied) && Newest(Collected(n, v)) == copies
      && |Collected(n, v).logs[0]| == if |v.logs| == 2 then |copies| else |v.logs[1]|
  {
    hide MapOf, MapOfLogs, CopiesOf, LiveKeys;
    var seen := MapOfLogs(v.logs[1..]).Keys;
    MappedCopies(v, INFO_SIZE);
    LiveDistinct(v.logs[0], PAGE_PAIRS, seen);
    assert [] + CopiesOf(true, v, INFO_SIZE) == CopiesOf(true, v, INFO_SIZE);
    CopiedMap(v, INFO_SIZE);
    DropSuperseded(Copied(true, v, INFO_SIZE).logs);
  }

  // ----- two pages never come to it

  lemma StoredValid(n: nat, f: Image, v: View)
    requires Encodes(n, f, v)
    ensures AllValid(n, v.logs)
  {
    hide Encodes, ValidAddr;
    forall r, w | 0 <= r < |v.logs| && 0 <= w < |v.logs[r]| ensures ValidAddr(n, v.logs[r][w].addr) {
      PageReads(n, f, v, r, w);
    }
  }

  /** A page of live pairs is more than the addresses of a two-page ring. */
  lemma AllLiveNeedsThree(n: nat, v: View)
    requires n >= 2 && |v.logs| == n && AllValid(n, v.logs)
    ensures |LiveKeys(v)| == PAGE_PAIRS ==> n >= 3
  {
    hide MapOf, MapOfLogs, AllValid;
    KeyCount(n, v.logs);
    MapOfOldest(v.logs);
    Smaller(LiveKeys(v), MapOfLogs(v.logs).Keys);
  }

  lemma LiveIsMapped(v: View)
    requires v.logs != []
    ensures LiveKeys(v) <= MapOfLogs(v.logs).Keys
  {
    hide MapOf, MapOfLogs;
    MapOfOldest(v.logs);
  }

  lemma DroppedKeeps(n: nat, v: View)
    requires |v.logs| >= 2
    ensures |DropOldest(n, v).logs| == |v.logs| - 1
    ensures MapOf(v.logs[0]).Keys <= MapOfLogs(v.logs[1..]).Keys ==> MapOfLogs(DropOldest(n, v).logs) == MapOfLogs(v.logs)
  {
    hide MapOf, MapOfLogs;
    if MapOf(v.logs[0]).Keys <= MapOfLogs(v.logs[1..]).Keys { DropSuperseded(v.logs); }
  }

  lemma ClosedIs(ftl: Ftl)
    requires ftl.Closed() && ftl.free == PAGE_CELLS
    ensures ftl.cur < |ftl.flash| && ftl.flash[ftl.cur].end != None
  {
  }

  // ----- the passes

  /** The scan of a further pass, up to the first pair that it copies. */
  method ScanOldest(ftl: Ftl, page: nat, keyIndex0: nat) returns (kept: Option<Addr>, data: Word)
    requires ftl.Settled() && ftl.mapped && |ftl.view.logs| >= 2 && page == ftl.view.first && keyIndex0 == PAGE_CELLS - 1
    ensures kept == FirstLive(ftl.view) && (kept != None ==> ValidAddr(ftl.n, kept.value))
  {
    hide Ftl.Inv, Ftl.Valid, Ftl.Settled, KeyOf, KeyAddr, CrcOk, ValidAddr, MapOf, MapOfLogs, Known, Waiting;
    ftl.Resting();
    ftl.OldestIsFull();
    kept, data := None, 0;
    ghost var p0, newer, w := ftl.view.logs[0], MapOfLogs(ftl.view.logs[1..]).Keys, PAGE_PAIRS;
    var keyIndex := keyIndex0;
    while keyIndex >= 3
      invariant 0 <= w <= PAGE_PAIRS && keyIndex == 2 * w + 1
      invariant FirstKept(p0, w, newer) == FirstLive(ftl.view)
    {
      var key, d := ftl.ReadPair(page, keyIndex, w);
      if CrcOk(key, d) {
        var drop := ftl.CanDrop(KeyAddr(key), page);
        KnownWaiting(ftl.view, Flushed(ftl.free));
        if !drop {
          kept, data := Some(KeyAddr(key)), d;
          return;
        }
      }
      keyIndex, w := keyIndex - 2, w - 1;
    }
  }

  /** A further pass, with a full current page: up to the first copy, if there is anything to copy. */
  method FurtherPass(ftl: Ftl) returns (lost: Option<Addr>, ret: nat, value: Word)
    requires ftl.Settled() && ftl.collecting && ftl.mapped && 2 <= |ftl.view.logs| < ftl.n
    requires ftl.free == PAGE_CELLS && ftl.Closed() && ftl.writeIndex == 0 && ftl.pend == 0
    modifies ftl, ftl.buffer
    ensures lost == FirstLive(old(ftl.view)) && ftl.hist == old(ftl.hist)
    ensures lost == None ==>
      && ftl.Settled() && ftl.writeIndex == 0 && ftl.view.logs != [] && MapOfLogs(ftl.view.logs) == MapOfLogs(old(ftl.view).logs)
    ensures lost != None ==> ret == READ_PARSE_ERROR && ret != READ_SUCCESS
  {
    hide *;
    Sizes();
    Codes();
    ftl.Resting();
    ftl.Facts();
    ftl.AllStored();
    EncodesHeld(ftl.n, ftl.flash, ftl.view);
    FirstBound(ftl.n, ftl.flash, ftl.view);
    FirstLiveIff(ftl.view);
    DroppedKeeps(ftl.n, ftl.view);
    ret, value := READ_SUCCESS, 0;
    var page := ftl.OldestPage(ftl.view);
    var keyIndex := ftl.EndIndex(page, ftl.view, 0);
    var data;
    lost, data := ScanOldest(ftl, page, keyIndex);
    if lost != None {
      ClosedIs(ftl);
      ret, value := WriteOnClosed(ftl, lost.value, data);
    } else {
      var _ := ftl.EraseOldest(page);
    }
  }

  /** ftl_gc_imp_app_cb after a page has been opened, with the table.  If every erase works, an address
      becomes unreadable exactly when there was no room and an address has its only pairs on the next
      oldest page: it is the first such address from the end of that page.  The method then stops at the
      read of the address; otherwise the collection ends with every reading kept. */
  method CollectAny(ftl: Ftl) returns (lost: Option<Addr>, ret: nat, value: Word)
    requires ftl.Settled() && ftl.collecting && ftl.mapped && |ftl.view.logs| == ftl.n
    requires ftl.free == INFO_SIZE && ftl.writeIndex == 0
    modifies ftl, ftl.buffer
    ensures |old(ftl.view).logs| == ftl.n >= 2 && Newest(old(ftl.view)) == [] && ftl.hist == old(ftl.hist)
    ensures lost == None ==>
      && ftl.Settled() && ftl.view.logs != [] && MapOfLogs(ftl.view.logs) == MapOfLogs(old(ftl.view).logs)
      && ftl.freePages == ftl.n - |ftl.view.logs|
    ensures lost != None ==>
      && !CollectRoom(true, old(ftl.view), INFO_SIZE) && lost == FirstLive(Collected(ftl.n, old(ftl.view)))
      && lost.value in MapOfLogs(old(ftl.view).logs) && ret == READ_PARSE_ERROR && ret != READ_SUCCESS
    ensures ftl.reliable ==>
      (lost != None <==> !CollectRoom(true, old(ftl.view), INFO_SIZE) && LiveKeys(Collected(ftl.n, old(ftl.view))) != {})
  {
    hide *;
    Sizes();
    ftl.Resting();
    ftl.Facts();
    ftl.OldestIsFull();
    RetriesOkIff(ftl.n);
    ftl.AllStored();
    ghost var n, v := ftl.n, ftl.view;
    StoredValid(n, ftl.flash, v);
    AllLiveNeedsThree(n, v);
    FirstPass(n, v);
    FirstLiveIff(Collected(n, v));
    LiveIsMapped(Collected(n, v));
    CopiedPages(true, v, INFO_SIZE);
    lost, ret, value := None, READ_SUCCESS, 0;
    var retryCount, page, keyIndex := ftl.Prepare();
    var recycled := ftl.CopyAndFlush(page, keyIndex);
    var ok := ftl.EraseOldest(page);
    ftl.Resting();
    ftl.Facts();
    ftl.AllStored();
    EncodesHeld(n, ftl.flash, ftl.view);
    if ok && recycled == 0 && retryCount != 0 {
      lost, ret, value := FurtherPass(ftl);
      if lost != None {
        return;
      }
      ftl.Resting();
      ftl.AllStored();
      EncodesHeld(n, ftl.flash, ftl.view);
    }
    ftl.freePages := ftl.CountFree(ftl.view);
  }

  // ----- a run into it

  /** After a first pass without anything to drop, the addresses on the newest page are those of the page
      that is gone. */
  lemma NewestKeys(n: nat, v: View)
    requires |v.logs| >= 2 && Newest(v) == [] && |v.logs[0]| == PAGE_PAIRS
    ensures MapOf(Newest(Collected(n, v))).Keys <= MapOf(v.logs[0]).Keys
  {
    hide MapOf, MapOfLogs, CopiesOf, Live, LiveKeys, Collected;
    FirstPass(n, v);
    MappedCopies(v, INFO_SIZE);
    LiveIsExact(v.logs[0], PAGE_PAIRS, MapOfLogs(v.logs[1..]).Keys);
    assert v.logs[0][..PAGE_PAIRS] == v.logs[0];
  }

  /** The collection that the last write to `NoRoomLog` starts finds nothing to drop, and on the next
      page the pair written last, whose address is on no newer page. */
  lemma NoRoomLoses()
    ensures var v := AddPage(NoRoomLog());
      && |v.logs| == 3 && Newest(v) == [] && !CollectRoom(true, v, INFO_SIZE)
      && FirstLive(Collected(3, v)) == Some(4 * 1020)
  {
    hide MapOf, MapOfLogs, CollectRoom, Copied, CopiesOf, NoRoomLog, SettleRoom;
    NoRoomForThreePages();
    NoRoomEnds();
    var v := AddPage(NoRoomLog());
    var v1 := Collected(3, v);
    FirstPass(3, v);
    NewestKeys(3, v);
    CollectedShape(3, v);
    OnePageMap(v1.logs[1..], Newest(v1));
    assert 4 * 1020 !in MapOfLogs(v1.logs[1..]);
  }

  lemma NoRoomEnds()
    ensures var v := AddPage(NoRoomLog());
      && |v.logs| == 3 && |v.logs[0]| == |v.logs[1]| == PAGE_PAIRS && Newest(v) == []
      && |NoRoomLog().logs| == 2 && |Newest(NoRoomLog())| == PAGE_PAIRS
      && v.logs[1][PAGE_PAIRS - 1] == Entry(4 * 1020, 0)
      && forall a | a in MapOf(v.logs[0]) :: a < 4 * 511
  {
    hide MapOf;
    var p0 := AddPage(NoRoomLog()).logs[0];
    forall a | a in MapOf(p0) ensures a < 4 * 511 { LastIsMapped(p0, a); }
  }

  lemma CollectedShape(n: nat, v: View)
    requires |v.logs| == 3
    ensures var v1 := Collected(n, v); |v1.logs| == 2 && v1.logs[0] == v.logs[1] && v1.logs[1..] == [Newest(v1)]
  {
    hide CopiesOf;
  }

  lemma OnePageMap(logs: seq<PageLog>, p: PageLog)
    requires logs == [p]
    ensures MapOfLogs(logs) == MapOf(p)
  {
    assert logs[..0] == [];
    assert map[] + MapOf(p) == MapOf(p);
  }

  /** Three pages: after 1022 writes from the first mount, none of which failed, the address written last
      cannot be read. */
  method ReachUnreadable(blank: Image) returns (ftl: Ftl, ret: nat, value: Word)
    requires Encodes(3, blank, View(0, 0, []))
    ensures ftl.n == 3 && ftl.mapped && ValidAddr(3, 4 * 1020)
    ensures ftl.hist != [] && ftl.hist[|ftl.hist| - 1] == Entry(4 * 1020, 0)
    ensures ret == READ_PARSE_ERROR && ret != READ_SUCCESS
  {
    hide *;
    ftl := ReachNoRoom(blank);
    ftl.ReadyParts();
    ftl.Facts();
    AppendFacts(ftl.view, Entry(4 * 1020, 0));
    NoRoomEnds();
    UpToCollection(ftl, 4 * 1020, 0);
    NoRoomLoses();
    FirstLiveIff(Collected(3, ftl.view));
    ftl.collecting := true;
    var lost;
    lost, ret, value := CollectAny(ftl);
    assert lost == Some(4 * 1020);
  }
}
