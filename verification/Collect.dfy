/** Garbage collection as a transformation of the log, and what it takes to have room for it. */
module Collect {
  import opened Words
  import opened Log
  import opened Flash
  import opened Invariant

  /** Addresses a backward scan of the flash meets before the oldest page. */
  function Known(v: View, flushed: nat): set<Addr>
    requires v.logs != [] && flushed <= |Newest(v)|
  {
    MapOfLogs(Truncate(v, flushed).logs[1..]).Keys
  }

  function Waiting(v: View, flushed: nat): set<Addr>
    requires v.logs != [] && flushed <= |Newest(v)|
  {
    MapOf(Newest(v)[flushed..]).Keys
  }

  /** What is left to copy off the oldest page below pair `w`. */
  function CopiesBelow(mapped: bool, v: View, w: nat, free: nat): PageLog
    requires v.logs != [] && w <= |v.logs[0]| && INFO_SIZE <= free && Flushed(free) <= |Newest(v)|
  {
    Copies(mapped, v.logs[0], w, Known(v, Flushed(free)), Waiting(v, Flushed(free)), free,
           2 * (|Newest(v)| - Flushed(free)))
  }

  function CopiesOf(mapped: bool, v: View, free: nat): PageLog
    requires v.logs != [] && INFO_SIZE <= free && Flushed(free) <= |Newest(v)|
  {
    CopiesBelow(mapped, v, |v.logs[0]|, free)
  }

  /** The log after the pairs of the oldest page were copied... */
  function Copied(mapped: bool, v: View, free: nat): View
    requires v.logs != [] && INFO_SIZE <= free && Flushed(free) <= |Newest(v)|
  {
    AppendTo(v, CopiesOf(mapped, v, free))
  }

  /** ... and that page was erased, if the erase succeeded. */
  ghost predicate CollectedTo(n: nat, mapped: bool, reliable: bool, v: View, free: nat, v': View)
    requires v.logs != [] && INFO_SIZE <= free && Flushed(free) <= |Newest(v)|
  {
    || v' == DropOldest(n, Copied(mapped, v, free))
    || (!reliable && v' == Copied(mapped, v, free))
  }

  /** The newest page can take the copies and keep a free pair. */
  ghost predicate CollectRoom(mapped: bool, v: View, free: nat)
    requires v.logs != [] && INFO_SIZE <= free && Flushed(free) <= |Newest(v)|
  {
    |Newest(v)| + |CopiesOf(mapped, v, free)| < PAGE_PAIRS
  }

  /** What a flush makes of the log: nothing, unless the newest page is full and the next page is
      free; then a page is added and, if that was the last free one, a page is collected. */
  ghost predicate SettledTo(n: nat, mapped: bool, reliable: bool, v: View, v': View)
    requires v.logs != []
  {
    if |Newest(v)| < PAGE_PAIRS || |v.logs| == n then v' == v
    else if |v.logs| + 1 < n then v' == AddPage(v)
    else CollectedTo(n, mapped, reliable, AddPage(v), INFO_SIZE, v')
  }

  /** A signed 8-bit variable. */
  function Int8(x: nat): int {
    if x % 0x100 < 0x80 then x % 0x100 else x % 0x100 - 0x100
  }

  /** ftl_gc_imp_app_cb starts by computing the number of further passes it may make, in 8 bits, and
      asserts that the number makes sense. */
  predicate RetriesOk(n: nat, freePages: nat)
    requires freePages < n
  {
    n > Int8(n - freePages - 1) >= 0
  }

  /** A collection starts when no page is free: the assertion holds up to 128 pages. */
  lemma RetriesOkIff(n: nat)
    requires 2 <= n <= 255
    ensures RetriesOk(n, 0) <==> n <= 128
  {
  }

  /** A flush of `v` may collect: then there must be room, and not too many pages. */
  ghost predicate SettleRoom(n: nat, mapped: bool, v: View)
    requires v.logs != []
  {
    |Newest(v)| == PAGE_PAIRS && |v.logs| + 1 == n ==> RetriesOk(n, 0) && CollectRoom(mapped, AddPage(v), INFO_SIZE)
  }

  /** Flash scan and buffer together cover every page but the oldest. */
  lemma KnownWaiting(v: View, flushed: nat)
    requires |v.logs| >= 2 && flushed <= |Newest(v)|
    ensures Known(v, flushed) + Waiting(v, flushed) == MapOfLogs(v.logs[1..]).Keys
  {
    var t := Truncate(v, flushed).logs[1..];
    assert Newest(v)[..flushed] + Newest(v)[flushed..] == Newest(v);
    assert v.logs[1..] == Append(t, Newest(v)[flushed..]);
    MapOfAppend(t, Newest(v)[flushed..]);
  }

  /** In mapping-table mode what is copied is exactly the live part of the oldest page. */
  lemma MappedCopies(v: View, free: nat)
    requires |v.logs| >= 2 && INFO_SIZE <= free && Flushed(free) <= |Newest(v)|
    ensures CopiesOf(true, v, free) == Live(v.logs[0], |v.logs[0]|, MapOfLogs(v.logs[1..]).Keys)
    ensures |CopiesOf(true, v, free)| == |LiveKeys(v)|
  {
    hide MapOf, MapOfLogs, Live, Copies, Known, Waiting;
    var p0, f, seen := v.logs[0], Flushed(free), MapOfLogs(v.logs[1..]).Keys;
    assert Known(v, f) + Waiting(v, f) == seen by { KnownWaiting(v, f); }
    CopiesAreLive(p0, |p0|, Known(v, f), Waiting(v, f), free, 2 * (|Newest(v)| - f));
    LiveCount(p0, |p0|, seen);
    assert p0[..|p0|] == p0;
  }

  lemma RoomFits(n: nat, v: View, cap: nat)
    requires n >= 2 && |v.logs| == n && v.logs[n - 1] == [] && CollectRoom(true, v, INFO_SIZE)
    requires cap >= PAGE_PAIRS - 1
    ensures Fits(n, v, cap)
  {
    MappedCopies(v, INFO_SIZE);
  }

  /** One pair copied. */
  lemma CopyStep(mapped: bool, v: View, w: nat, free: nat, free': nat)
    requires |v.logs| >= 2 && 0 < w <= |v.logs[0]|
    requires INFO_SIZE <= free < PAGE_CELLS && Flushed(free) <= |Newest(v)|
    requires free % 2 == 0
    requires var used := 2 * (|Newest(v)| - Flushed(free));
      used + 2 <= BufferRoom(free) && free' == if used + 2 == BufferRoom(free) then free + used + 2 else free
    requires v.logs[0][w - 1].addr !in Known(v, Flushed(free))
    requires mapped ==> v.logs[0][w - 1].addr !in Waiting(v, Flushed(free))
    ensures var e := v.logs[0][w - 1];
      var v' := AppendTo(v, [e]);
      && v'.logs[0] == v.logs[0] && Flushed(free') <= |Newest(v')|
      && CopiesBelow(mapped, v, w, free) == [e] + CopiesBelow(mapped, v', w - 1, free')
  {
    hide MapOf, MapOfLogs, Truncate;
    var e, f, f' := v.logs[0][w - 1], Flushed(free), Flushed(free');
    var v' := AppendTo(v, [e]);
    WaitingGrows(v, e, f);
    if free' != free {
      assert f' == |Newest(v')|;
      TruncateAll(v');
      assert Newest(v')[f'..] == [];
      EmptyMaps();
      KnownWaiting(v', f);
      assert Known(v', f') == MapOfLogs(v'.logs[1..]).Keys;
      assert Known(v', f') == Known(v, f) + Waiting(v, f) + {e.addr};
      assert Waiting(v', f') == {};
    }
  }

  lemma WaitingGrows(v: View, e: Entry, f: nat)
    requires v.logs != [] && f <= |Newest(v)|
    ensures Known(AppendTo(v, [e]), f) == Known(v, f)
    ensures Waiting(AppendTo(v, [e]), f) == Waiting(v, f) + {e.addr}
  {
    var v' := AppendTo(v, [e]);
    TruncateAppended(v, e, f);
    assert Newest(v')[f..] == Newest(v)[f..] + [e];
    MapOfConcat(Newest(v)[f..], [e]);
    MapOfSingle(e);
  }

  /** One pair dropped. */
  lemma DropStep(mapped: bool, v: View, w: nat, free: nat)
    requires v.logs != [] && 0 < w <= |v.logs[0]|
    requires INFO_SIZE <= free && Flushed(free) <= |Newest(v)|
    requires var a := v.logs[0][w - 1].addr;
      a in Known(v, Flushed(free)) || (mapped && a in Waiting(v, Flushed(free)))
    ensures CopiesBelow(mapped, v, w, free) == CopiesBelow(mapped, v, w - 1, free)
  {
  }

  /** The pair a collector meets first is the newest of its address on the page. */
  lemma FirstMetIsLive(v: View, w: nat)
    requires v.logs != [] && 0 < w <= |v.logs[0]|
    requires forall i | w <= i < |v.logs[0]| :: v.logs[0][i].addr in MapOfLogs(v.logs[1..])
    requires v.logs[0][w - 1].addr !in MapOfLogs(v.logs[1..])
    ensures IsLive(v, v.logs[0][w - 1])
  {
    LastIsMapped(v.logs[0], v.logs[0][w - 1].addr);
  }

  lemma AllMet(v: View)
    requires v.logs != []
    requires forall i | 0 <= i < |v.logs[0]| :: v.logs[0][i].addr in MapOfLogs(v.logs[1..])
    ensures MapOf(v.logs[0]).Keys <= MapOfLogs(v.logs[1..]).Keys
  {
    forall a | a in MapOf(v.logs[0]) ensures a in MapOfLogs(v.logs[1..]) {
      LastIsMapped(v.logs[0], a);
    }
  }

  /** Opening a page never needs more room than a collection would find. */
  lemma OpenRoom(c: Config, v: View)
    requires c.n >= 2 && 0 < |v.logs| < c.n && |Newest(v)| == PAGE_PAIRS && SettleRoom(c.n, c.mapped, v)
    requires c.cap >= PAGE_PAIRS
    ensures c.mapped ==> Fits(c.n, AddPage(v), c.cap)
  {
    if c.mapped && |v.logs| + 1 == c.n { RoomFits(c.n, AddPage(v), c.cap); }
  }

  lemma SettledRefl(n: nat, mapped: bool, reliable: bool, v: View)
    requires v.logs != [] && (|Newest(v)| < PAGE_PAIRS || |v.logs| == n)
    ensures SettledTo(n, mapped, reliable, v, v)
  {
  }

  lemma SettledKeeps(n: nat, mapped: bool, reliable: bool, v: View, v': View)
    requires v.logs != [] && (|Newest(v)| < PAGE_PAIRS || |v.logs| == n)
    requires SettledTo(n, mapped, reliable, v, v')
    ensures v' == v
  {
  }

  lemma NothingToSettle(n: nat, mapped: bool, v: View)
    requires |v.logs| == n > 0
    ensures SettleRoom(n, mapped, v)
  {
  }

  lemma CopiedPages(mapped: bool, v: View, free: nat)
    requires v.logs != [] && INFO_SIZE <= free && Flushed(free) <= |Newest(v)|
    ensures |Copied(mapped, v, free).logs| == |v.logs| && Copied(mapped, v, free).first == v.first
    ensures Copied(mapped, v, free).sequence == v.sequence
  {
  }

  // ----- the copying loop

  /** A collector that started from `v0` is about to look at pair `w - 1` of the oldest page and
      has copied `copied` so far. */
  ghost predicate Copying(mapped: bool, v0: View, free0: nat, v: View, free: nat, w: nat, copied: PageLog) {
    && |v0.logs| >= 2 && v == AppendTo(v0, copied) && w <= |v0.logs[0]|
    && INFO_SIZE <= free0 && INFO_SIZE <= free && Flushed(free0) <= |Newest(v0)| && Flushed(free) <= |Newest(v)|
    && copied + CopiesBelow(mapped, v, w, free) == CopiesOf(mapped, v0, free0)
    && forall i | w <= i < |v0.logs[0]| :: v0.logs[0][i].addr in MapOfLogs(v.logs[1..])
  }

  /** The drop test: what the table, or the scan of the flash, knows of the address. */
  ghost predicate Droppable(mapped: bool, v: View, free: nat, a: Addr)
    requires v.logs != [] && INFO_SIZE <= free && Flushed(free) <= |Newest(v)|
  {
    a in Known(v, Flushed(free)) || (mapped && a in Waiting(v, Flushed(free)))
  }

  lemma CopyingStart(mapped: bool, v: View, free: nat)
    requires |v.logs| >= 2 && INFO_SIZE <= free && Flushed(free) <= |Newest(v)|
    ensures Copying(mapped, v, free, v, free, |v.logs[0]|, [])
  {
    assert Newest(v) + [] == Newest(v);
    assert AppendTo(v, []).logs == v.logs;
    assert [] + CopiesOf(mapped, v, free) == CopiesOf(mapped, v, free);
  }

  /** What holds at every turn of the loop. */
  lemma CopyingFacts(mapped: bool, v0: View, free0: nat, v: View, free: nat, w: nat, copied: PageLog)
    requires Copying(mapped, v0, free0, v, free, w, copied)
    ensures |v.logs| == |v0.logs| >= 2 && v.first == v0.first && v.sequence == v0.sequence
    ensures v.logs[0] == v0.logs[0] && w <= |v.logs[0]|
    ensures Newest(v) == Newest(v0) + copied
    ensures INFO_SIZE <= free0 && Flushed(free0) <= |Newest(v0)|
    ensures INFO_SIZE <= free && Flushed(free) <= |Newest(v)|
    ensures |copied| <= |CopiesOf(mapped, v0, free0)| && copied == CopiesOf(mapped, v0, free0)[..|copied|]
    ensures v == AppendTo(v0, copied)
  {
  }

  lemma CopyingDrop(mapped: bool, v0: View, free0: nat, v: View, free: nat, w: nat, copied: PageLog)
    requires Copying(mapped, v0, free0, v, free, w, copied) && 0 < w
    requires Droppable(mapped, v, free, v0.logs[0][w - 1].addr)
    ensures Copying(mapped, v0, free0, v, free, w - 1, copied)
  {
    hide CopiesBelow, CopiesOf, MapOfLogs;
    CopyingFacts(mapped, v0, free0, v, free, w, copied);
    DropStep(mapped, v, w, free);
    KnownWaiting(v, Flushed(free));
  }

  /** A pair that is not dropped is live, and there is still room for it in the plan. */
  lemma CopyingLive(mapped: bool, v0: View, free0: nat, v: View, free: nat, w: nat, copied: PageLog)
    requires Copying(mapped, v0, free0, v, free, w, copied) && 0 < w
    requires !Droppable(mapped, v, free, v0.logs[0][w - 1].addr)
    ensures mapped ==> IsLive(v, v0.logs[0][w - 1])
    ensures |copied| < |CopiesOf(mapped, v0, free0)|
  {
    CopyingFacts(mapped, v0, free0, v, free, w, copied);
    KnownWaiting(v, Flushed(free));
    if mapped { FirstMetIsLive(v, w); }
    assert CopiesBelow(mapped, v, w, free) != [];
  }

  lemma CopyingCopy(mapped: bool, v0: View, free0: nat, v: View, free: nat, w: nat, copied: PageLog, free': nat)
    requires Copying(mapped, v0, free0, v, free, w, copied) && 0 < w
    requires !Droppable(mapped, v, free, v0.logs[0][w - 1].addr)
    requires free < PAGE_CELLS && free % 2 == 0
    requires var used := 2 * (|Newest(v)| - Flushed(free));
      used + 2 <= BufferRoom(free) && free' == if used + 2 == BufferRoom(free) then free + used + 2 else free
    ensures var e := v0.logs[0][w - 1];
      Copying(mapped, v0, free0, AppendTo(v, [e]), free', w - 1, copied + [e])
  {
    hide CopiesBelow, CopiesOf, MapOfLogs, BufferRoom;
    var e := v0.logs[0][w - 1];
    var v' := AppendTo(v, [e]);
    CopyingFacts(mapped, v0, free0, v, free, w, copied);
    CopyStep(mapped, v, w, free, free');
    assert v' == AppendTo(v0, copied + [e]) by {
      assert Newest(v0) + (copied + [e]) == Newest(v0) + copied + [e];
    }
    assert copied + [e] + CopiesBelow(mapped, v', w - 1, free') == copied + ([e] + CopiesBelow(mapped, v', w - 1, free'));
    assert v'.logs[1..] == Append(v.logs[1..], [e]);
    MapOfAppendOne(v.logs[1..], e);
  }

  lemma CopyingEnd(mapped: bool, v0: View, free0: nat, v: View, free: nat, copied: PageLog)
    requires Copying(mapped, v0, free0, v, free, 0, copied)
    ensures copied == CopiesOf(mapped, v0, free0) && v == Copied(mapped, v0, free0)
    ensures MapOf(v.logs[0]).Keys <= MapOfLogs(v.logs[1..]).Keys
  {
    CopyingFacts(mapped, v0, free0, v, free, 0, copied);
    assert copied + [] == copied;
    AllMet(v);
  }

  // ----- mounting

  /** Recovery at mount finds a live pair for which the newest page has no room. */
  ghost predicate Overflows(mapped: bool, v: View)
    requires v.logs != []
  {
    |Newest(v)| + |CopiesOf(mapped, v, INFO_SIZE + 2 * |Newest(v)|)| > PAGE_PAIRS
  }

  /** A recovery for which there is not enough room copies what fits... */
  function CopiedPart(mapped: bool, v: View, free: nat): View
    requires v.logs != [] && INFO_SIZE <= free && Flushed(free) <= |Newest(v)| <= PAGE_PAIRS
    requires |Newest(v)| + |CopiesOf(mapped, v, free)| > PAGE_PAIRS
  {
    AppendTo(v, CopiesOf(mapped, v, free)[..PAGE_PAIRS - |Newest(v)|])
  }

  /** ... and invalidates the oldest page all the same, before it clears everything. */
  function CutShort(n: nat, mapped: bool, v: View): View
    requires v.logs != [] && |Newest(v)| <= PAGE_PAIRS && Overflows(mapped, v)
  {
    DropOldest(n, CopiedPart(mapped, v, INFO_SIZE + 2 * |Newest(v)|))
  }

  /** A recovery that started from `v0` is about to look at pair `w - 1` of the oldest page, has copied
      `copied` so far and found no room for `later` pairs. */
  ghost predicate Recovering(mapped: bool, v0: View, free0: nat, v: View, free: nat, w: nat, copied: PageLog, later: nat) {
    && |v0.logs| >= 2 && INFO_SIZE <= free0 && Flushed(free0) <= |Newest(v0)| && w <= |v0.logs[0]|
    && v == AppendTo(v0, copied)
    && |copied| <= |CopiesOf(mapped, v0, free0)| && copied == CopiesOf(mapped, v0, free0)[..|copied|]
    && (later == 0 ==> Copying(mapped, v0, free0, v, free, w, copied))
    && (later > 0 ==> |Newest(v0)| + |copied| == PAGE_PAIRS && free == PAGE_CELLS
                      && |CopiesOf(mapped, v0, free0)| > |copied|)
  }

  lemma RecoveringStart(mapped: bool, v: View, free: nat)
    requires |v.logs| >= 2 && INFO_SIZE <= free && Flushed(free) <= |Newest(v)|
    ensures Recovering(mapped, v, free, v, free, |v.logs[0]|, [], 0)
  {
    hide Copying, CopiesOf;
    CopyingStart(mapped, v, free);
    CopyingFacts(mapped, v, free, v, free, |v.logs[0]|, []);
  }

  lemma RecoveringFacts(mapped: bool, v0: View, free0: nat, v: View, free: nat, w: nat, copied: PageLog, later: nat)
    requires Recovering(mapped, v0, free0, v, free, w, copied, later)
    ensures |v.logs| == |v0.logs| >= 2 && v.first == v0.first && v.logs[0] == v0.logs[0] && w <= |v.logs[0]|
    ensures Newest(v) == Newest(v0) + copied
    ensures later == 0 ==> Copying(mapped, v0, free0, v, free, w, copied)
    ensures later > 0 ==> free == PAGE_CELLS
  {
    hide Copying, CopiesOf;
  }

  lemma RecoveringDrop(mapped: bool, v0: View, free0: nat, v: View, free: nat, w: nat, copied: PageLog, later: nat)
    requires Recovering(mapped, v0, free0, v, free, w, copied, later) && 0 < w
    requires INFO_SIZE <= free && v.logs != [] && Flushed(free) <= |Newest(v)| && Droppable(mapped, v, free, v0.logs[0][w - 1].addr)
    ensures Recovering(mapped, v0, free0, v, free, w - 1, copied, later)
  {
    hide Copying, CopiesOf, Droppable;
    if later == 0 { CopyingDrop(mapped, v0, free0, v, free, w, copied); }
  }

  lemma RecoveringCopied(mapped: bool, v0: View, free0: nat, v: View, free: nat, w: nat, copied: PageLog)
    requires Copying(mapped, v0, free0, v, free, w, copied)
    ensures Recovering(mapped, v0, free0, v, free, w, copied, 0)
  {
    hide Copying, CopiesOf;
    CopyingFacts(mapped, v0, free0, v, free, w, copied);
  }

  /** The page is full, and there is another pair to copy. */
  lemma RecoveringLater(mapped: bool, v0: View, free0: nat, v: View, free: nat, w: nat, copied: PageLog, later: nat)
    requires Recovering(mapped, v0, free0, v, free, w, copied, later) && 0 < w
    requires free == PAGE_CELLS && v.logs != [] && Flushed(free) == |Newest(v)|
    requires !Droppable(mapped, v, free, v0.logs[0][w - 1].addr)
    ensures Recovering(mapped, v0, free0, v, free, w - 1, copied, later + 1)
  {
    RecoveringFacts(mapped, v0, free0, v, free, w, copied, later);
    hide Copying, CopiesOf, Droppable;
    if later == 0 { CopyingLive(mapped, v0, free0, v, free, w, copied); }
  }

  lemma RecoveringEnd(mapped: bool, v0: View, free0: nat, v: View, free: nat, copied: PageLog, later: nat)
    requires Recovering(mapped, v0, free0, v, free, 0, copied, later)
    requires v.logs != [] && |Newest(v)| <= PAGE_PAIRS
    ensures |v0.logs| >= 2 && INFO_SIZE <= free0 && Flushed(free0) <= |Newest(v0)| <= PAGE_PAIRS
    ensures later == 0 <==> |Newest(v0)| + |CopiesOf(mapped, v0, free0)| <= PAGE_PAIRS
    ensures later > 0 ==> v == CopiedPart(mapped, v0, free0)
    ensures later == 0 ==> v == Copied(mapped, v0, free0) && MapOf(v.logs[0]).Keys <= MapOfLogs(v.logs[1..]).Keys
  {
    RecoveringFacts(mapped, v0, free0, v, free, 0, copied, later);
    hide Copying, CopiesOf, MapOf, MapOfLogs;
    if later == 0 { CopyingEnd(mapped, v0, free0, v, free, copied); }
  }

  /** What mounting makes of the log on flash: a first page if there is none, the same log if a
      page is free, and otherwise the log with its oldest page recycled, or nothing at all. */
  ghost predicate MountedTo(n: nat, mapped: bool, v: View, v': View) {
    if v.logs == [] then v' == View(0, 0, [[]])
    else if |v.logs| < n then v' == v
    else if Overflows(mapped, v) then v' == View(0, 0, [[]])
    else v' == DropOldest(n, Copied(mapped, v, INFO_SIZE + 2 * |Newest(v)|))
  }
}
