/** Runs without the mapping table: when they read what was written, and two that end badly. */
module LinearRuns {
  import opened Words
  import opened Log
  import opened Flash
  import opened Invariant
  import opened Collect
  import opened Capacity
  import opened Layer
  import opened Linear
  import opened Wear
  import opened Runs

  /** The log after a flush that opens and collects pages, erases working. */
  function Settle(n: nat, v: View): (r: View)
    requires v.logs != []
    ensures r.logs != []
  {
    if |Newest(v)| < PAGE_PAIRS || |v.logs| == n then v
    else if |v.logs| + 1 < n then AddPage(v)
    else DropOldest(n, Copied(false, AddPage(v), INFO_SIZE))
  }

  /** The log after the writes `es`. */
  function After(n: nat, es: PageLog): (v: View)
    ensures v.logs != []
  {
    if es == [] then View(0, 0, [[]])
    else Settle(n, AppendTo(After(n, es[..|es| - 1]), [es[|es| - 1]]))
  }

  /** If a flush of `v` collects, there are not too many pages, the new page has room for the copies, and
      the addresses on the oldest page lie apart. */
  ghost predicate Collectible(n: nat, v: View)
    requires v.logs != []
  {
    |Newest(v)| == PAGE_PAIRS && |v.logs| + 1 == n ==>
      RetriesOk(n, 0) && CollectRoom(false, AddPage(v), INFO_SIZE) && Spread(v.logs[0], MapOfLogs(v.logs[1..]).Keys)
  }

  /** So it is for every flush while the writes `es` are made. */
  ghost predicate AllCollectible(n: nat, es: PageLog) {
    forall k | 0 <= k < |es| :: ValidAddr(n, es[k].addr) && Collectible(n, AppendTo(After(n, es[..k]), [es[k]]))
  }

  /** A write whose collection is of this kind changes the reading of its own address and of no other,
      and leaves a free page and a free pair. */
  lemma SpreadWrite(n: nat, v: View, e: Entry)
    requires n >= 2 && 0 < |v.logs| < n && |Newest(v)| < PAGE_PAIRS
    requires |v.logs[0]| <= PAGE_PAIRS
    requires Collectible(n, AppendTo(v, [e]))
    ensures var v1 := AppendTo(v, [e]);
      var v' := Settle(n, v1);
      && SettleRoom(n, false, v1) && 0 < |v'.logs| < n && |Newest(v')| < PAGE_PAIRS
      && MapOfLogs(v'.logs) == MapOfLogs(v.logs)[e.addr := e.data]
      && forall w :: SettledTo(n, false, true, v1, w) ==> w == v'
  {
    hide MapOf, MapOfLogs, Spread, Survives, CopiesOf, RetriesOk;
    var v1 := AppendTo(v, [e]);
    AppendFacts(v, e);
    MapOfAppendOne(v.logs, e);
    MapOfAddPage(v1.logs);
    if |Newest(v1)| == PAGE_PAIRS && |v1.logs| + 1 == n {
      var v2 := AddPage(v1);
      AddedMap(v1);
      SpreadKeeps(n, v2);
      CopiedPages(false, v2, INFO_SIZE);
      CopiedNewest(false, v2, INFO_SIZE);
    }
  }

  lemma AddedMap(v: View)
    requires v.logs != []
    ensures AddPage(v).logs[0] == v.logs[0] && MapOfLogs(AddPage(v).logs[1..]) == MapOfLogs(v.logs[1..])
  {
    assert AddPage(v).logs[1..] == v.logs[1..] + [[]];
    MapOfAddPage(v.logs[1..]);
  }

  /** `Spread` is enough for a collection onto an empty page to keep every reading. */
  lemma SpreadKeeps(n: nat, v: View)
    requires |v.logs| >= 2 && Newest(v) == [] && |v.logs[0]| <= PAGE_PAIRS
    requires Spread(v.logs[0], MapOfLogs(v.logs[1..]).Keys)
    ensures MapOfLogs(DropOldest(n, Copied(false, v, INFO_SIZE)).logs) == MapOfLogs(v.logs)
  {
    hide MapOf, MapOfLogs, Spread, Copies, Survives;
    SpreadExact(v.logs[0], MapOfLogs(v.logs[1..]).Keys);
    DistinctSurvives(v.logs[0], MapOfLogs(v.logs[1..]).Keys, INFO_SIZE);
    SurvivesKeepsMap(n, v, INFO_SIZE);
  }

  /** A whole run of writes without the table, from the first mount: if the oldest page is of this kind
      whenever one is collected, every address reads what was written to it last. */
  method LinearRun(n: nat, blank: Image, es: PageLog) returns (ftl: Ftl)
    requires 2 <= n <= 255 && Encodes(n, blank, View(0, 0, [])) && AllCollectible(n, es)
    ensures fresh(ftl) && fresh(ftl.buffer) && ftl.n == n && ftl.Ready() && !ftl.mapped && ftl.reliable
    ensures ftl.hist == es
    ensures ftl.view == After(n, es) && MapOfLogs(ftl.view.logs) == MapOf(es)
  {
    hide *;
    EmptyMaps();
    MapOfAddPage([]);
    assert [] + [[]] == View(0, 0, [[]]).logs;
    BlankRotated(n);
    AfterNothing(n);
    Sizes();
    ftl := new Ftl.Mount(blank, n, false, true, View(0, 0, []), [], []);
    MountedFirst(n, ftl.view);
    ftl.Resting();
    ftl.Facts();
    ftl.ReadyMade();
    assert es[..0] == [];
    var k := 0;
    while k < |es|
      invariant 0 <= k <= |es| && fresh(ftl) && fresh(ftl.buffer)
      invariant ftl.n == n && !ftl.mapped && ftl.reliable
      invariant ftl.Ready() && ftl.view == After(n, es[..k]) && ftl.hist == es[..k]
      invariant MapOfLogs(ftl.view.logs) == MapOf(es[..k])
    {
      ftl.ReadyParts();
      ftl.Facts();
      OldestLength(ftl);
      CollectibleAt(n, es, k);
      SpreadWrite(n, ftl.view, es[k]);
      AfterOne(n, es, k);
      var _ := ftl.Write(es[k].addr, es[k].data, false);
      ftl.Resting();
      ftl.Facts();
      ftl.ReadyMade();
      assert es[..k + 1] == es[..k] + [es[k]];
      k := k + 1;
    }
    assert es[..|es|] == es;
  }

  /** The first mount of all. */
  lemma MountedFirst(n: nat, v': View)
    requires n >= 2 && MountedTo(n, false, View(0, 0, []), v')
    ensures v' == View(0, 0, [[]]) && Newest(v') == [] && |v'.logs| == 1
  {
    hide CopiesOf;
  }

  lemma AfterNothing(n: nat)
    ensures After(n, []) == View(0, 0, [[]])
  {
  }

  lemma CollectibleAt(n: nat, es: PageLog, k: nat)
    requires AllCollectible(n, es) && k < |es|
    ensures ValidAddr(n, es[k].addr) && Collectible(n, AppendTo(After(n, es[..k]), [es[k]]))
  {
  }

  lemma AfterOne(n: nat, es: PageLog, k: nat)
    requires k < |es|
    ensures After(n, es[..k + 1]) == Settle(n, AppendTo(After(n, es[..k]), [es[k]]))
    ensures MapOf(es[..k + 1]) == MapOf(es[..k])[es[k].addr := es[k].data]
  {
    assert es[..k + 1][..k] == es[..k];
  }

  /** What a user reads after it. */
  method LinearRunAndRead(n: nat, blank: Image, es: PageLog, a: Addr) returns (ret: nat, value: Word)
    requires 2 <= n <= 255 && Encodes(n, blank, View(0, 0, [])) && AllCollectible(n, es) && ValidAddr(n, a)
    ensures Looked(MapOf(es), a, ret, value)
  {
    hide Encodes, MapOf, MapOfLogs, AllCollectible, After;
    var ftl := LinearRun(n, blank, es);
    ret, value := ftl.Read(a);
  }

  // ----- no room

  /** 510 writes from the first mount lead to a state in which one more write, of an address that is
      already there, has no room for the collection it starts, though it would have with the table. */
  method ReachNoRoomLinear(blank: Image) returns (ftl: Ftl)
    requires Encodes(2, blank, View(0, 0, []))
    ensures ftl.Ready() && ftl.n == 2 && !ftl.mapped && ftl.reliable
    ensures AppendTo(ftl.view, [Entry(4 * 509, 1)]) == NoRoomLinearLog()
    ensures ValidAddr(2, 4 * 509)
    ensures SettleRoom(2, true, NoRoomLinearLog()) && !SettleRoom(2, false, NoRoomLinearLog())
  {
    hide MapOf, MapOfLogs, AllCollectible, After, Encodes, SettleRoom, Ftl.Inv, AllValid, CopiesOf;
    OnePage(2, Consecutive(0, 510));
    ftl := LinearRun(2, blank, Consecutive(0, 510));
    NoRoomWithoutTable();
  }

  /** As long as the first page is not full the log is just what was written. */
  lemma {:induction false} OnePage(n: nat, es: PageLog)
    requires n >= 2 && |es| < PAGE_PAIRS && forall i | 0 <= i < |es| :: ValidAddr(n, es[i].addr)
    ensures After(n, es) == View(0, 0, [es]) && AllCollectible(n, es)
    decreases |es|
  {
    hide ValidAddr, Spread, CollectRoom, AllCollectible, RetriesOk;
    if es == [] {
      NothingCollectible(n);
    } else {
      var k := |es| - 1;
      OnePage(n, es[..k]);
      assert es[..k] + [es[k]] == es;
      assert AppendTo(View(0, 0, [es[..k]]), [es[k]]) == View(0, 0, [es]);
      CollectibleMore(n, es);
    }
  }

  lemma NothingCollectible(n: nat)
    ensures AllCollectible(n, [])
  {
  }

  lemma CollectibleMore(n: nat, es: PageLog)
    requires es != [] && AllCollectible(n, es[..|es| - 1]) && ValidAddr(n, es[|es| - 1].addr)
    requires Collectible(n, AppendTo(After(n, es[..|es| - 1]), [es[|es| - 1]]))
    ensures AllCollectible(n, es)
  {
    hide ValidAddr, Collectible, After;
    var before := es[..|es| - 1];
    forall k | 0 <= k < |before|
      ensures ValidAddr(n, es[k].addr) && Collectible(n, AppendTo(After(n, es[..k]), [es[k]]))
    {
      assert before[..k] == es[..k] && before[k] == es[k];
      CollectibleAt(n, before, k);
    }
  }

  // ----- too many pages

  /** Until the last page but one is full nothing is collected: the pages fill up one by one. */
  lemma {:induction false} FillingUp(n: nat, es: PageLog)
    requires n >= 2 && |es| < PAGE_PAIRS * (n - 1) && forall i | 0 <= i < |es| :: ValidAddr(n, es[i].addr)
    ensures var v := After(n, es);
      |v.logs| == |es| / PAGE_PAIRS + 1 < n && |Newest(v)| == |es| % PAGE_PAIRS
    ensures AllCollectible(n, es)
    decreases |es|
  {
    hide ValidAddr, Spread, CollectRoom, AllCollectible, RetriesOk, Copied;
    if es == [] {
      NothingCollectible(n);
    } else {
      var k := |es| - 1;
      FillingUp(n, es[..k]);
      var v := After(n, es[..k]);
      AppendFacts(v, es[k]);
      NextPair(k, n);
      CollectibleMore(n, es);
    }
  }

  lemma NextPair(k: nat, n: nat)
    requires k + 1 < PAGE_PAIRS * (n - 1)
    ensures if k % PAGE_PAIRS == PAGE_PAIRS - 1 then (k + 1) / PAGE_PAIRS == k / PAGE_PAIRS + 1 && (k + 1) % PAGE_PAIRS == 0
            else (k + 1) / PAGE_PAIRS == k / PAGE_PAIRS && (k + 1) % PAGE_PAIRS == k % PAGE_PAIRS + 1
    ensures (k + 1) / PAGE_PAIRS + 1 < n
  {
  }

  /** The write that starts the first collection, up to the assertion with which the collection
      begins: there the number of further passes is computed in 8 bits. */
  method UpToAssertion(ftl: Ftl, a: Addr, d: Word) returns (retryCount: int)
    requires ftl.Ready() && !ftl.mapped && ValidAddr(ftl.n, a)
    requires |ftl.view.logs| + 1 == ftl.n && |Newest(ftl.view)| == PAGE_PAIRS - 1
    modifies ftl, ftl.buffer
    ensures ftl.view == AddPage(AppendTo(old(ftl.view), [Entry(a, d)])) && |ftl.view.logs| == ftl.n && ftl.Settled()
    ensures retryCount == Int8(ftl.n - 1)
  {
    hide *;
    UpToCollection(ftl, a, d);
    ftl.Resting();
    ftl.Facts();
    ftl.AllStored();
    EncodesHeld(ftl.n, ftl.flash, ftl.view);
    retryCount := ftl.RetryCount(ftl.view);
  }

  /** With more than 128 pages the first collection ever stops the program. */
  method ReachAssertion(n: nat, blank: Image) returns (ftl: Ftl, retryCount: int)
    requires 128 < n <= 255 && Encodes(n, blank, View(0, 0, []))
    ensures ftl.n == n && |ftl.view.logs| == n
    ensures retryCount == Int8(n - 1) && !(n > retryCount && retryCount >= 0)
  {
    hide MapOf, MapOfLogs, AllCollectible, After, Encodes, Ftl.Inv, AppendTo;
    var es := seq(PAGE_PAIRS * (n - 1) - 1, _ => Entry(0, 0));
    AlmostFull(n);
    FillingUp(n, es);
    ftl := LinearRun(n, blank, es);
    AppendFacts(ftl.view, Entry(0, 0));
    retryCount := UpToAssertion(ftl, 0, 0);
    RetriesOkIff(n);
  }

  lemma AlmostFull(n: nat)
    requires n >= 2
    ensures var k := PAGE_PAIRS * (n - 1) - 1;
      ValidAddr(n, 0) && k / PAGE_PAIRS + 2 == n && k % PAGE_PAIRS == PAGE_PAIRS - 1
  {
    var k := PAGE_PAIRS * (n - 1) - 1;
    assert k == PAGE_PAIRS * (n - 2) + (PAGE_PAIRS - 1);
  }

  // ----- an overwritten value comes back

  /** Two pages, no table: address 0 is written 510 times with 1 and then with 2, and reads 1. */
  method OlderValueRead(blank: Image) returns (ftl: Ftl, ret: nat, value: Word)
    requires Encodes(2, blank, View(0, 0, []))
    ensures ftl.Ready() && ftl.n == 2 && !ftl.mapped && ftl.hist == TwiceWritten()
    ensures ret == READ_SUCCESS && value == 1
  {
    hide MapOf, MapOfLogs, AllCollectible, After, Encodes, Ftl.Inv, CopiesOf, TwiceWritten, Continues, Shows, SettledTo, SettleRoom, AppendTo, Rotated;
    var es := seq(PAGE_PAIRS - 1, _ => Entry(0, 1));
    OnePage(2, es);
    ftl := LinearRun(2, blank, es);
    ftl.Facts();
    Overwritten();
    var _ := ftl.Write(0, 2, false);
    OverwrittenAfter(ftl.view);
    ftl.Facts();
    ret, value := ftl.Read(0);
  }

  lemma Overwritten()
    ensures var v := View(0, 0, [seq(PAGE_PAIRS - 1, _ => Entry(0, 1))]);
      && seq(PAGE_PAIRS - 1, _ => Entry(0, 1)) + [Entry(0, 2)] == TwiceWritten()
      && AppendTo(v, [Entry(0, 2)]) == View(0, 0, [TwiceWritten()])
      && SettleRoom(2, false, AppendTo(v, [Entry(0, 2)]))
  {
    hide CopiesOf, MapOf, MapOfLogs;
    var v := View(0, 0, [seq(PAGE_PAIRS - 1, _ => Entry(0, 1))]);
    assert AppendTo(v, [Entry(0, 2)]).logs == [TwiceWritten()];
    assert AddPage(View(0, 0, [TwiceWritten()])) == View(0, 0, [TwiceWritten(), []]);
    OlderValueReturns();
  }

  lemma OverwrittenAfter(v': View)
    requires SettledTo(2, false, true, View(0, 0, [TwiceWritten()]), v')
    ensures |v'.logs| == 1 && |Newest(v')| == 7 && MapOfLogs(v'.logs) == map[0 := 1]
  {
    hide CopiesOf, MapOf, MapOfLogs;
    assert AddPage(View(0, 0, [TwiceWritten()])) == View(0, 0, [TwiceWritten(), []]);
    OlderValueReturns();
    CopiedNewest(false, View(0, 0, [TwiceWritten(), []]), INFO_SIZE);
  }
}
