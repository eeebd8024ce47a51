/** Collection without the mapping table: the drop test scans the flash but not the buffer, so an
    address that occurs twice on the oldest page may be copied twice, the older value last. */
module Linear {
  import opened Words
  import opened Log
  import opened Flash
  import opened Invariant
  import opened Collect
  import opened Capacity

  /** The same pairs with other data words. */
  function Relabel(es: PageLog, data: seq<Word>): (r: PageLog)
    requires |data| == |es|
    ensures |r| == |es|
  {
    seq(|es|, i requires 0 <= i < |es| => Entry(es[i].addr, data[i]))
  }

  /** The pairs `p0` on the oldest page survive a linear collection that starts with an empty
      buffer: reading the copies gives the newest value of everything not found on newer pages. */
  ghost predicate Survives(p0: PageLog, known: set<Addr>, free: nat) {
    MapOf(Copies(false, p0, |p0|, known, {}, free, 0)) == MapOf(p0) - known
  }

  // ----- which addresses are copied does not depend on the data

  /** What becomes of the pair below which the scan goes on. */
  lemma OneCopy(p0: PageLog, w: nat, known: set<Addr>, pending: set<Addr>, free: nat, used: nat)
    requires 0 < w <= |p0|
    ensures var e, full := p0[w - 1], free > PAGE_CELLS || used + 2 >= BufferRoom(free);
      Copies(false, p0, w, known, pending, free, used) ==
        if e.addr in known then Copies(false, p0, w - 1, known, pending, free, used)
        else [e] + (if full then Copies(false, p0, w - 1, known + pending + {e.addr}, {}, free + used + 2, 0)
                    else Copies(false, p0, w - 1, known, pending + {e.addr}, free, used + 2))
  {
  }

  lemma {:induction false} CopiesRelabelled(p0: PageLog, data: seq<Word>, w: nat, known: set<Addr>,
                                            pending: set<Addr>, free: nat, used: nat)
    requires |data| == |p0| && w <= |p0|
    ensures var c, c' := Copies(false, p0, w, known, pending, free, used),
                         Copies(false, Relabel(p0, data), w, known, pending, free, used);
      |c| == |c'| && forall i | 0 <= i < |c| :: c[i].addr == c'[i].addr
    decreases w
  {
    if w > 0 {
      OneCopy(p0, w, known, pending, free, used);
      OneCopy(Relabel(p0, data), w, known, pending, free, used);
      hide Copies;
      var e := p0[w - 1];
      if e.addr in known {
        CopiesRelabelled(p0, data, w - 1, known, pending, free, used);
      } else if free > PAGE_CELLS || used + 2 >= BufferRoom(free) {
        CopiesRelabelled(p0, data, w - 1, known + pending + {e.addr}, {}, free + used + 2, 0);
      } else {
        CopiesRelabelled(p0, data, w - 1, known, pending + {e.addr}, free, used + 2);
      }
    }
  }

  // ----- what is copied covers what is not known

  lemma {:induction false} CopiesCover(p0: PageLog, w: nat, known: set<Addr>, pending: set<Addr>, free: nat, used: nat)
    requires w <= |p0|
    ensures var c := Copies(false, p0, w, known, pending, free, used);
      && MapOf(c).Keys !! known
      && MapOf(p0[..w]).Keys <= MapOf(c).Keys + known + pending
      && MapOf(c).Keys <= MapOf(p0[..w]).Keys
    decreases w
  {
    if w > 0 {
      var e := p0[w - 1];
      assert p0[..w][..w - 1] == p0[..w - 1];
      assert MapOf(p0[..w]).Keys == MapOf(p0[..w - 1]).Keys + {e.addr};
      if e.addr in known {
        CopiesCover(p0, w - 1, known, pending, free, used);
      } else {
        var full := free > PAGE_CELLS || used + 2 >= BufferRoom(free);
        var known', pending' := if full then known + pending + {e.addr} else known, if full then {} else pending + {e.addr};
        var free', used' := if full then free + used + 2 else free, if full then 0 else used + 2;
        var rest := Copies(false, p0, w - 1, known', pending', free', used');
        CopiesCover(p0, w - 1, known', pending', free', used');
        assert Copies(false, p0, w, known, pending, free, used) == [e] + rest;
        assert known' + pending' == known + pending + {e.addr};
        MapOfConcat([e], rest);
        MapOfSingle(e);
        assert MapOf([e] + rest).Keys == MapOf(rest).Keys + {e.addr};
      }
    }
  }

  /** If nothing is copied twice, every copy is the newest pair of its address. */
  lemma {:induction false} DistinctCopiesAreNewest(p0: PageLog, w: nat, known: set<Addr>, pending: set<Addr>,
                                                   free: nat, used: nat)
    requires w <= |p0| && Distinct(Copies(false, p0, w, known, pending, free, used))
    ensures var c := Copies(false, p0, w, known, pending, free, used);
      forall i | 0 <= i < |c| :: c[i].addr in MapOf(p0[..w]) && MapOf(p0[..w])[c[i].addr] == c[i].data
    decreases w
  {
    if w > 0 {
      var e := p0[w - 1];
      var m := MapOf(p0[..w - 1]);
      assert p0[..w][..w - 1] == p0[..w - 1];
      assert MapOf(p0[..w]) == m[e.addr := e.data];
      var c := Copies(false, p0, w, known, pending, free, used);
      if e.addr in known {
        DistinctCopiesAreNewest(p0, w - 1, known, pending, free, used);
        CopiesCover(p0, w - 1, known, pending, free, used);
        forall i | 0 <= i < |c| ensures c[i].addr != e.addr { MapKeys(c, i); }
      } else {
        var rest := c[1..];
        forall i, j | 0 <= i < j < |rest| ensures rest[i].addr != rest[j].addr {
          assert c[i + 1].addr != c[j + 1].addr;
        }
        var full := free > PAGE_CELLS || used + 2 >= BufferRoom(free);
        var known', pending' := if full then known + pending + {e.addr} else known, if full then {} else pending + {e.addr};
        var free', used' := if full then free + used + 2 else free, if full then 0 else used + 2;
        assert rest == Copies(false, p0, w - 1, known', pending', free', used');
        DistinctCopiesAreNewest(p0, w - 1, known', pending', free', used');
        assert forall i | 0 <= i < |rest| :: rest[i].addr in m && m[rest[i].addr] == rest[i].data;
        forall i | 0 < i < |c| ensures c[i].addr in m && m[c[i].addr] == c[i].data && c[i].addr != e.addr {
          assert c[i] == rest[i - 1] && c[0].addr != c[i].addr;
        }
      }
    }
  }

  lemma DistinctSurvives(p0: PageLog, known: set<Addr>, free: nat)
    requires Distinct(Copies(false, p0, |p0|, known, {}, free, 0))
    ensures Survives(p0, known, free)
  {
    hide Copies, Distinct, MapOf;
    var c := Copies(false, p0, |p0|, known, {}, free, 0);
    assert p0[..|p0|] == p0;
    DistinctCopiesAreNewest(p0, |p0|, known, {}, free, 0);
    CopiesCover(p0, |p0|, known, {}, free, 0);
    assert MapOf(c).Keys == MapOf(p0).Keys - known;
    forall a | a in MapOf(c) ensures a in MapOf(p0) && MapOf(c)[a] == MapOf(p0)[a] {
      LastIsMapped(c, a);
    }
  }

  // ----- when the data tell the pairs apart

  /** Every pair's data word is its position on the page. */
  ghost predicate Numbered(p0: PageLog) {
    forall i | 0 <= i < |p0| :: p0[i].data == i
  }

  /** Pairs of `p0` from below `w`, in descending order. */
  ghost predicate Descending(p0: PageLog, w: nat, c: PageLog) {
    && (forall i | 0 <= i < |c| :: c[i] in p0 && c[i].data < w)
    && (forall i, j | 0 <= i < j < |c| :: c[j].data < c[i].data)
  }

  /** Copies come in descending order. */
  lemma {:induction false} CopiesDescend(p0: PageLog, w: nat, known: set<Addr>, pending: set<Addr>, free: nat, used: nat)
    requires w <= |p0| && Numbered(p0)
    ensures Descending(p0, w, Copies(false, p0, w, known, pending, free, used))
    decreases w
  {
    if w > 0 {
      var e := p0[w - 1];
      var c := Copies(false, p0, w, known, pending, free, used);
      if e.addr in known {
        CopiesDescend(p0, w - 1, known, pending, free, used);
      } else if free > PAGE_CELLS || used + 2 >= BufferRoom(free) {
        CopiesDescend(p0, w - 1, known + pending + {e.addr}, {}, free + used + 2, 0);
        Prepended(p0, w, Copies(false, p0, w - 1, known + pending + {e.addr}, {}, free + used + 2, 0), c);
      } else {
        CopiesDescend(p0, w - 1, known, pending + {e.addr}, free, used + 2);
        Prepended(p0, w, Copies(false, p0, w - 1, known, pending + {e.addr}, free, used + 2), c);
      }
    }
  }

  /** A descending list below `w - 1`, headed by the pair `w - 1`. */
  lemma Prepended(p0: PageLog, w: nat, rest: PageLog, c: PageLog)
    requires 0 < w <= |p0| && Numbered(p0) && c == [p0[w - 1]] + rest
    requires Descending(p0, w - 1, rest)
    ensures Descending(p0, w, c)
  {
    forall i | 0 <= i < |c| ensures c[i] in p0 && c[i].data < w {
      if i >= 1 { assert c[i] == rest[i - 1]; }
    }
    forall i, j | 0 <= i < j < |c| ensures c[j].data < c[i].data {
      assert c[j] == rest[j - 1];
      if i >= 1 { assert c[i] == rest[i - 1]; }
    }
  }

  lemma RepeatedIsLost(p0: PageLog, known: set<Addr>, free: nat)
    requires Numbered(p0) && !Distinct(Copies(false, p0, |p0|, known, {}, free, 0))
    ensures !Survives(p0, known, free)
  {
    var c := Copies(false, p0, |p0|, known, {}, free, 0);
    CopiesDescend(p0, |p0|, known, {}, free, 0);
    var i, j :| 0 <= i < j < |c| && c[i].addr == c[j].addr;
    var a := c[i].addr;
    LastIsMapped(c, a);
    LastIsMapped(p0, a);
    var k :| 0 <= k < |p0| && p0[k] == c[i];
    assert Last(c, a) >= j;
    assert Last(p0, a) >= k;
    MapKeys(p0, k);
    MapKeys(c, i);
    assert MapOf(p0)[a] >= c[i].data > MapOf(c)[a];
  }

  /** A linear collection keeps the readings of the oldest page, whatever the data words are, if
      and only if it copies no address twice. */
  lemma LinearExact(p0: PageLog, known: set<Addr>, free: nat)
    requires |p0| <= PAGE_PAIRS
    ensures (forall data: seq<Word> | |data| == |p0| :: Survives(Relabel(p0, data), known, free))
       <==> Distinct(Copies(false, p0, |p0|, known, {}, free, 0))
  {
    var c := Copies(false, p0, |p0|, known, {}, free, 0);
    if Distinct(c) {
      forall data: seq<Word> | |data| == |p0| ensures Survives(Relabel(p0, data), known, free) {
        CopiesRelabelled(p0, data, |p0|, known, {}, free, 0);
        DistinctSurvives(Relabel(p0, data), known, free);
      }
    } else {
      var data: seq<Word> := seq(|p0|, i requires 0 <= i < |p0| => i as Word);
      CopiesRelabelled(p0, data, |p0|, known, {}, free, 0);
      RepeatedIsLost(Relabel(p0, data), known, free);
      assert !Survives(Relabel(p0, data), known, free);
    }
  }

  // ----- the same, read off the page

  /** The addresses in `p0` from pair `k` on, but for those known from newer pages. */
  function Fresh(p0: PageLog, k: nat, known: set<Addr>): set<Addr> {
    set i | k <= i < |p0| && p0[i].addr !in known :: p0[i].addr
  }

  /** Coming down from the top, the flush in which an address met at pair `k - 1` would be stored:
      every seventh new address fills the buffer. */
  function Flush(p0: PageLog, k: nat, known: set<Addr>): nat {
    |Fresh(p0, k, known)| / 7
  }

  /** The flush in which the last pair of an address would be stored. */
  function LastFlush(p0: PageLog, a: Addr, known: set<Addr>): nat {
    Flush(p0, Last(p0, a) + 1, known)
  }

  /** How many new addresses are in the buffer by then. */
  function Slot(p0: PageLog, k: nat, known: set<Addr>): nat {
    |Fresh(p0, k, known)| % 7
  }

  /** Pair `i` is the last of its address on the page, or that one has been flushed by the time the
      collection meets pair `i`. */
  ghost predicate Apart(p0: PageLog, known: set<Addr>, i: nat)
    requires i < |p0|
  {
    p0[i].addr !in known && i < Last(p0, p0[i].addr) ==> Flush(p0, i + 1, known) > LastFlush(p0, p0[i].addr, known)
  }

  ghost predicate Spread(p0: PageLog, known: set<Addr>) {
    forall i | 0 <= i < |p0| :: Apart(p0, known, i)
  }

  /** Of the addresses met so far, those already flushed, and those still in the buffer. */
  function Stored(p0: PageLog, w: nat, known: set<Addr>): set<Addr> {
    set a | a in Fresh(p0, w, known) && LastFlush(p0, a, known) < Flush(p0, w, known)
  }

  function Unstored(p0: PageLog, w: nat, known: set<Addr>): set<Addr> {
    set a | a in Fresh(p0, w, known) && LastFlush(p0, a, known) == Flush(p0, w, known)
  }

  /** The collector has come down to pair `w`, and every address it has met so far it copied once. */
  ghost predicate CopiedOnce(p0: PageLog, w: nat, known0: set<Addr>, known: set<Addr>, pending: set<Addr>, free: nat, used: nat) {
    && free == INFO_SIZE + 14 * Flush(p0, w, known0) && used == 2 * Slot(p0, w, known0)
    && known == known0 + Stored(p0, w, known0) && pending == Unstored(p0, w, known0)
  }

  lemma LastIsBelow(p0: PageLog, i: nat)
    requires i < |p0|
    ensures i <= Last(p0, p0[i].addr) < |p0|
  {
  }

  lemma {:induction false} FreshStep(p0: PageLog, w: nat, known: set<Addr>)
    requires 0 < w <= |p0|
    ensures var a := p0[w - 1].addr;
      Fresh(p0, w - 1, known) == if a in known then Fresh(p0, w, known) else Fresh(p0, w, known) + {a}
    ensures |Fresh(p0, w, known)| <= |p0| - w
    decreases |p0| - w
  {
    if w < |p0| {
      FreshStep(p0, w + 1, known);
    } else {
      assert Fresh(p0, w, known) == {};
    }
  }

  lemma FlushLess(p0: PageLog, k: nat, w: nat, known: set<Addr>)
    requires w <= k
    ensures Flush(p0, k, known) <= Flush(p0, w, known)
  {
    Smaller(Fresh(p0, k, known), Fresh(p0, w, known));
  }

  lemma FreshLast(p0: PageLog, w: nat, known: set<Addr>, a: Addr)
    requires a in Fresh(p0, w, known)
    ensures w <= Last(p0, a) < |p0| && LastFlush(p0, a, known) <= Flush(p0, w, known)
  {
    var i :| w <= i < |p0| && p0[i].addr == a;
    LastIsBelow(p0, i);
    FlushLess(p0, Last(p0, a) + 1, w, known);
  }

  lemma LastIsFirstMet(p0: PageLog, w: nat, known: set<Addr>)
    requires 0 < w <= |p0| && p0[w - 1].addr !in known && p0[w - 1].addr !in Fresh(p0, w, known)
    ensures Last(p0, p0[w - 1].addr) == w - 1
  {
    LastIsBelow(p0, w - 1);
  }

  lemma FlushStep(p0: PageLog, w: nat, known: set<Addr>)
    requires 0 < w <= |p0| <= PAGE_PAIRS && p0[w - 1].addr !in known && p0[w - 1].addr !in Fresh(p0, w, known)
    ensures Flush(p0, w, known) <= 72 && Slot(p0, w, known) <= 6
    ensures if Slot(p0, w, known) == 6 then Flush(p0, w - 1, known) == Flush(p0, w, known) + 1 && Slot(p0, w - 1, known) == 0
            else Flush(p0, w - 1, known) == Flush(p0, w, known) && Slot(p0, w - 1, known) == Slot(p0, w, known) + 1
  {
    hide Fresh;
    FreshStep(p0, w, known);
    assert |Fresh(p0, w - 1, known)| == |Fresh(p0, w, known)| + 1;
    Sevenths(|Fresh(p0, w, known)|);
  }

  lemma Sevenths(x: nat)
    ensures if x % 7 == 6 then (x + 1) / 7 == x / 7 + 1 && (x + 1) % 7 == 0
            else (x + 1) / 7 == x / 7 && (x + 1) % 7 == x % 7 + 1
  {
  }

  lemma NoneLater(p0: PageLog, w: nat, known: set<Addr>)
    requires 0 < w <= |p0|
    ensures forall a | a in Fresh(p0, w, known) :: LastFlush(p0, a, known) <= Flush(p0, w, known)
    ensures p0[w - 1].addr !in known && p0[w - 1].addr !in Fresh(p0, w, known) ==>
      LastFlush(p0, p0[w - 1].addr, known) == Flush(p0, w, known)
  {
    forall a | a in Fresh(p0, w, known) ensures LastFlush(p0, a, known) <= Flush(p0, w, known) {
      FreshLast(p0, w, known, a);
    }
    if p0[w - 1].addr !in known && p0[w - 1].addr !in Fresh(p0, w, known) { LastIsFirstMet(p0, w, known); }
  }

  /** A new address goes to the buffer; the seventh flushes it. */
  lemma StoredStep(p0: PageLog, w: nat, known: set<Addr>)
    requires 0 < w <= |p0| <= PAGE_PAIRS && p0[w - 1].addr !in known && p0[w - 1].addr !in Fresh(p0, w, known)
    ensures var a := p0[w - 1].addr;
      if Slot(p0, w, known) == 6 then
        && Stored(p0, w - 1, known) == Stored(p0, w, known) + Unstored(p0, w, known) + {a}
        && Unstored(p0, w - 1, known) == {}
      else
        && Stored(p0, w - 1, known) == Stored(p0, w, known)
        && Unstored(p0, w - 1, known) == Unstored(p0, w, known) + {a}
  {
    hide Fresh, Flush, LastFlush, Slot;
    FreshStep(p0, w, known);
    FlushStep(p0, w, known);
    NoneLater(p0, w, known);
  }

  lemma CopiedOneMore(p0: PageLog, w: nat, known0: set<Addr>, known: set<Addr>, pending: set<Addr>, free: nat, used: nat)
    requires 0 < w <= |p0| <= PAGE_PAIRS && CopiedOnce(p0, w, known0, known, pending, free, used)
    requires p0[w - 1].addr !in known0 && p0[w - 1].addr !in Fresh(p0, w, known0)
    ensures free <= PAGE_CELLS && BufferRoom(free) == 14 && p0[w - 1].addr !in known
    ensures var a := p0[w - 1].addr;
      if used + 2 >= 14 then CopiedOnce(p0, w - 1, known0, known + pending + {a}, {}, free + used + 2, 0)
      else CopiedOnce(p0, w - 1, known0, known, pending + {a}, free, used + 2)
  {
    FlushStep(p0, w, known0);
    StoredStep(p0, w, known0);
    assert Stored(p0, w, known0) <= Fresh(p0, w, known0);
    hide Fresh, Stored, Unstored, Flush, Slot;
  }

  /** An address known from newer pages, or met before, changes nothing. */
  lemma CopiedOnceStill(p0: PageLog, w: nat, known0: set<Addr>, known: set<Addr>, pending: set<Addr>, free: nat, used: nat)
    requires 0 < w <= |p0| && CopiedOnce(p0, w, known0, known, pending, free, used)
    requires Fresh(p0, w - 1, known0) == Fresh(p0, w, known0)
    ensures CopiedOnce(p0, w - 1, known0, known, pending, free, used)
  {
    hide Fresh;
    assert Flush(p0, w - 1, known0) == Flush(p0, w, known0) && Slot(p0, w - 1, known0) == Slot(p0, w, known0);
    hide Flush, Slot;
    assert Stored(p0, w - 1, known0) == Stored(p0, w, known0) && Unstored(p0, w - 1, known0) == Unstored(p0, w, known0);
  }

  /** Nothing of `c` is repeated, and nothing of it has been met. */
  ghost predicate OnceAll(c: PageLog, met: set<Addr>) {
    Distinct(c) && forall i | 0 <= i < |c| :: c[i].addr !in met
  }

  ghost predicate ApartBelow(p0: PageLog, known: set<Addr>, w: nat)
    requires w <= |p0|
  {
    forall i | 0 <= i < w :: Apart(p0, known, i)
  }

  /** What is left is copied once each, and nothing of it for a second time, exactly if all that is
      left lies apart. */
  lemma {:induction false} ApartCopies(p0: PageLog, w: nat, known0: set<Addr>, known: set<Addr>, pending: set<Addr>, free: nat, used: nat)
    requires w <= |p0| <= PAGE_PAIRS && CopiedOnce(p0, w, known0, known, pending, free, used)
    ensures OnceAll(Copies(false, p0, w, known, pending, free, used), Fresh(p0, w, known0)) <==> ApartBelow(p0, known0, w)
    decreases w
  {
    hide Fresh, CopiedOnce, OnceAll, ApartBelow, Apart, Copies;
    if w == 0 {
      NothingLeft(p0, known0, known, pending, free, used);
    } else {
      var e := p0[w - 1];
      FreshStep(p0, w, known0);
      ApartOne(p0, known0, w);
      if e.addr in known0 {
        KnownStill(p0, w, known0, known, pending, free, used);
        CopiedOnceStill(p0, w, known0, known, pending, free, used);
        ApartCopies(p0, w - 1, known0, known, pending, free, used);
      } else if e.addr in Fresh(p0, w, known0) {
        assert Fresh(p0, w - 1, known0) == Fresh(p0, w, known0);
        MetAgain(p0, w, known0, known, pending, free, used);
        if e.addr in known {
          CopiedOnceStill(p0, w, known0, known, pending, free, used);
          ApartCopies(p0, w - 1, known0, known, pending, free, used);
        }
      } else {
        ApartNew(p0, w, known0, known, pending, free, used);
      }
    }
  }

  lemma NothingLeft(p0: PageLog, known0: set<Addr>, known: set<Addr>, pending: set<Addr>, free: nat, used: nat)
    ensures OnceAll(Copies(false, p0, 0, known, pending, free, used), Fresh(p0, 0, known0)) && ApartBelow(p0, known0, 0)
  {
  }

  lemma ApartNew(p0: PageLog, w: nat, known0: set<Addr>, known: set<Addr>, pending: set<Addr>, free: nat, used: nat)
    requires 0 < w <= |p0| <= PAGE_PAIRS && CopiedOnce(p0, w, known0, known, pending, free, used)
    requires p0[w - 1].addr !in known0 && p0[w - 1].addr !in Fresh(p0, w, known0)
    ensures OnceAll(Copies(false, p0, w, known, pending, free, used), Fresh(p0, w, known0)) <==> ApartBelow(p0, known0, w)
    decreases w, 0
  {
    hide Fresh, CopiedOnce, OnceAll, ApartBelow, BufferRoom;
    var e := p0[w - 1];
    FreshStep(p0, w, known0);
    CopiedOneMore(p0, w, known0, known, pending, free, used);
    LastIsFirstMet(p0, w, known0);
    ApartOne(p0, known0, w);
    assert Apart(p0, known0, w - 1);
    hide Apart;
    var full := used + 2 >= 14;
    var known', pending' := if full then known + pending + {e.addr} else known, if full then {} else pending + {e.addr};
    var free', used' := if full then free + used + 2 else free, if full then 0 else used + 2;
    var rest := Copies(false, p0, w - 1, known', pending', free', used');
    assert Copies(false, p0, w, known, pending, free, used) == [e] + rest;
    hide Copies;
    ApartCopies(p0, w - 1, known0, known', pending', free', used');
    HeadAndRest(e, rest, Fresh(p0, w, known0));
  }

  lemma ApartOne(p0: PageLog, known: set<Addr>, w: nat)
    requires 0 < w <= |p0|
    ensures ApartBelow(p0, known, w) <==> ApartBelow(p0, known, w - 1) && Apart(p0, known, w - 1)
  {
    hide Apart;
  }

  lemma KnownStill(p0: PageLog, w: nat, known0: set<Addr>, known: set<Addr>, pending: set<Addr>, free: nat, used: nat)
    requires 0 < w <= |p0| && CopiedOnce(p0, w, known0, known, pending, free, used) && p0[w - 1].addr in known0
    ensures p0[w - 1].addr in known && Apart(p0, known0, w - 1)
    ensures Copies(false, p0, w, known, pending, free, used) == Copies(false, p0, w - 1, known, pending, free, used)
  {
    hide Stored, Unstored, Fresh, Flush, Slot, Last;
  }

  /** An address met before is dropped if it lies apart, and copied again if not. */
  lemma MetAgain(p0: PageLog, w: nat, known0: set<Addr>, known: set<Addr>, pending: set<Addr>, free: nat, used: nat)
    requires 0 < w <= |p0| && CopiedOnce(p0, w, known0, known, pending, free, used)
    requires p0[w - 1].addr in Fresh(p0, w, known0) && p0[w - 1].addr !in known0
    ensures Apart(p0, known0, w - 1) <==> p0[w - 1].addr in known
    ensures p0[w - 1].addr in known ==>
      Copies(false, p0, w, known, pending, free, used) == Copies(false, p0, w - 1, known, pending, free, used)
    ensures p0[w - 1].addr !in known ==>
      !OnceAll(Copies(false, p0, w, known, pending, free, used), Fresh(p0, w, known0))
  {
    hide Fresh, Flush, LastFlush, Slot, Distinct;
    var e := p0[w - 1];
    FreshLast(p0, w, known0, e.addr);
    var c := Copies(false, p0, w, known, pending, free, used);
    assert e.addr !in known ==> c != [] && c[0] == e;
    hide Copies;
  }

  lemma HeadAndRest(e: Entry, rest: PageLog, met: set<Addr>)
    requires e.addr !in met
    ensures OnceAll([e] + rest, met) <==> OnceAll(rest, met + {e.addr})
  {
    if OnceAll([e] + rest, met) { TailOnce(e, rest, met); }
    if OnceAll(rest, met + {e.addr}) { HeadOnce(e, rest, met); }
  }

  lemma TailOnce(e: Entry, rest: PageLog, met: set<Addr>)
    requires OnceAll([e] + rest, met)
    ensures OnceAll(rest, met + {e.addr})
  {
    var c := [e] + rest;
    forall i | 0 <= i < |rest| ensures rest[i].addr !in met + {e.addr} { assert c[i + 1] == rest[i] && c[0] == e; }
    forall i, j | 0 <= i < j < |rest| ensures rest[i].addr != rest[j].addr {
      assert c[i + 1] == rest[i] && c[j + 1] == rest[j];
    }
  }

  lemma HeadOnce(e: Entry, rest: PageLog, met: set<Addr>)
    requires e.addr !in met && OnceAll(rest, met + {e.addr})
    ensures OnceAll([e] + rest, met)
  {
    var c := [e] + rest;
    forall i | 0 <= i < |c| ensures c[i].addr !in met { if i > 0 { assert c[i] == rest[i - 1]; } }
    forall i, j | 0 <= i < j < |c| ensures c[i].addr != c[j].addr {
      assert c[j] == rest[j - 1];
      if i > 0 { assert c[i] == rest[i - 1]; }
    }
  }

  /** So whether a collection on a fresh page keeps the readings of the oldest page, for all data words,
      is decided by the addresses on that page alone. */
  lemma SpreadExact(p0: PageLog, known: set<Addr>)
    requires |p0| <= PAGE_PAIRS
    ensures Spread(p0, known) <==> Distinct(Copies(false, p0, |p0|, known, {}, INFO_SIZE, 0))
    ensures Spread(p0, known) <==> forall data: seq<Word> | |data| == |p0| :: Survives(Relabel(p0, data), known, INFO_SIZE)
  {
    assert Fresh(p0, |p0|, known) == {};
    assert CopiedOnce(p0, |p0|, known, known, {}, INFO_SIZE, 0);
    ApartCopies(p0, |p0|, known, known, {}, INFO_SIZE, 0);
    LinearExact(p0, known, INFO_SIZE);
    hide Survives, Copies, Apart, Fresh, CopiedOnce;
  }

  /** `Survives` is what a collection needs: then every reading of the whole log is kept. */
  lemma SurvivesKeepsMap(n: nat, v: View, free: nat)
    requires |v.logs| >= 2 && INFO_SIZE <= free && Flushed(free) == |Newest(v)|
    requires Survives(v.logs[0], MapOfLogs(v.logs[1..]).Keys, free)
    ensures MapOfLogs(Copied(false, v, free).logs) == MapOfLogs(v.logs)
    ensures MapOfLogs(DropOldest(n, Copied(false, v, free)).logs) == MapOfLogs(v.logs)
  {
    hide MapOf, MapOfLogs, Copies;
    var p0, rest, f := v.logs[0], v.logs[1..], Flushed(free);
    var c := CopiesOf(false, v, free);
    KnownWaiting(v, f);
    assert Newest(v)[f..] == [];
    EmptyMaps();
    assert Waiting(v, f) == {} && Known(v, f) == MapOfLogs(rest).Keys;
    assert c == Copies(false, p0, |p0|, MapOfLogs(rest).Keys, {}, free, 0);
    var v' := Copied(false, v, free);
    MapOfOldest(v.logs);
    MapOfAppend(v.logs, c);
    assert v'.logs[1..] == Append(rest, c) && v'.logs[0] == p0;
    MapOfAppend(rest, c);
    Overlay(MapOf(p0), MapOfLogs(rest));
    DropSuperseded(v'.logs);
  }

  // ----- room

  /** Counting from the top, the buffer load of seven pairs that pair `i` of a full page would be in if
      every pair were copied. */
  function Load(i: nat): nat
    requires i < PAGE_PAIRS
  {
    (PAGE_PAIRS - 1 - i) / 7
  }

  /** Pair `w` of a full page is dropped, if all above it were copied: its address is on a newer page, or
      in an earlier load. */
  ghost predicate Dropped(p0: PageLog, newer: set<Addr>, w: nat)
    requires w < |p0| == PAGE_PAIRS
  {
    p0[w].addr in newer || exists i :: w < i < PAGE_PAIRS && p0[i].addr == p0[w].addr && Load(i) < Load(w)
  }

  ghost predicate AnyDropped(p0: PageLog, newer: set<Addr>)
    requires |p0| == PAGE_PAIRS
  {
    exists w :: 0 <= w < PAGE_PAIRS && Dropped(p0, newer, w)
  }

  function Between(p0: PageLog, lo: nat, hi: nat): set<Addr>
    requires hi <= |p0|
  {
    set i | lo <= i < hi :: p0[i].addr
  }

  /** The lowest pair of the last full load above pair `w`. */
  function LoadEnd(w: nat): (m: nat)
    requires w <= PAGE_PAIRS
    ensures w <= m <= PAGE_PAIRS
  {
    PAGE_PAIRS - 7 * ((PAGE_PAIRS - w) / 7)
  }

  /** The collector has come down to pair `w` and has copied everything above it. */
  ghost predicate CopiedAll(p0: PageLog, w: nat, newer: set<Addr>, known: set<Addr>, pending: set<Addr>, free: nat, used: nat)
    requires w <= |p0| == PAGE_PAIRS
  {
    && free == INFO_SIZE + 2 * (PAGE_PAIRS - LoadEnd(w)) && used == 2 * (LoadEnd(w) - w)
    && known == newer + Between(p0, LoadEnd(w), PAGE_PAIRS) && pending == Between(p0, w, LoadEnd(w))
  }

  /** Which pairs are in a full load above pair `w - 1`. */
  lemma LoadEndIs(w: nat, i: nat)
    requires 0 < w <= i < PAGE_PAIRS
    ensures i >= LoadEnd(w) <==> Load(i) < Load(w - 1)
  {
    var x, y := PAGE_PAIRS - 1 - i, PAGE_PAIRS - w;
    var q, r := y / 7, y % 7;
    assert y == 7 * q + r;
  }

  lemma LoadEndStep(w: nat)
    requires 0 < w <= PAGE_PAIRS
    ensures LoadEnd(w) - w <= 6 && LoadEnd(w) >= 7
    ensures LoadEnd(w - 1) == if LoadEnd(w) - w == 6 then w - 1 else LoadEnd(w)
  {
    var y := PAGE_PAIRS - w;
    var q, r := y / 7, y % 7;
    assert y == 7 * q + r;
  }

  lemma CopiedAllStep(p0: PageLog, w: nat, newer: set<Addr>, known: set<Addr>, pending: set<Addr>, free: nat, used: nat)
    requires 0 < w <= |p0| == PAGE_PAIRS && CopiedAll(p0, w, newer, known, pending, free, used)
    ensures free <= PAGE_CELLS && BufferRoom(free) == 14
    ensures var a := p0[w - 1].addr;
      if used + 2 >= 14 then CopiedAll(p0, w - 1, newer, known + pending + {a}, {}, free + used + 2, 0)
      else CopiedAll(p0, w - 1, newer, known, pending + {a}, free, used + 2)
    ensures p0[w - 1].addr in known <==> Dropped(p0, newer, w - 1)
  {
    hide LoadEnd, Load;
    LoadEndStep(w);
    forall i | w <= i < PAGE_PAIRS ensures i >= LoadEnd(w) <==> Load(i) < Load(w - 1) { LoadEndIs(w, i); }
    assert Between(p0, w - 1, LoadEnd(w)) == Between(p0, w, LoadEnd(w)) + {p0[w - 1].addr};
    assert Between(p0, w - 1, PAGE_PAIRS) ==
      Between(p0, LoadEnd(w), PAGE_PAIRS) + Between(p0, w, LoadEnd(w)) + {p0[w - 1].addr};
    assert Between(p0, w - 1, w - 1) == {};
  }

  lemma {:induction false} CopiesAtMost(p0: PageLog, w: nat, known: set<Addr>, pending: set<Addr>, free: nat, used: nat)
    requires w <= |p0|
    ensures |Copies(false, p0, w, known, pending, free, used)| <= w
    decreases w
  {
    if w > 0 {
      var e := p0[w - 1];
      if e.addr in known {
        CopiesAtMost(p0, w - 1, known, pending, free, used);
      } else if free > PAGE_CELLS || used + 2 >= BufferRoom(free) {
        CopiesAtMost(p0, w - 1, known + pending + {e.addr}, {}, free + used + 2, 0);
      } else {
        CopiesAtMost(p0, w - 1, known, pending + {e.addr}, free, used + 2);
      }
    }
  }

  /** Everything below `w` is copied too, unless some pair of it is dropped. */
  lemma {:induction false} AllOrDropped(p0: PageLog, w: nat, newer: set<Addr>, known: set<Addr>, pending: set<Addr>, free: nat, used: nat)
    requires w <= |p0| == PAGE_PAIRS && CopiedAll(p0, w, newer, known, pending, free, used)
    ensures |Copies(false, p0, w, known, pending, free, used)| < w <==> exists i :: 0 <= i < w && Dropped(p0, newer, i)
    decreases w
  {
    hide *;
    if w == 0 {
      CopiesAtMost(p0, 0, known, pending, free, used);
    } else {
      var e := p0[w - 1];
      CopiedAllStep(p0, w, newer, known, pending, free, used);
      OneCopy(p0, w, known, pending, free, used);
      if e.addr in known {
        CopiesAtMost(p0, w - 1, known, pending, free, used);
      } else {
        var full := used + 2 >= 14;
        var known', pending' := if full then known + pending + {e.addr} else known, if full then {} else pending + {e.addr};
        var free', used' := if full then free + used + 2 else free, if full then 0 else used + 2;
        AllOrDropped(p0, w - 1, newer, known', pending', free', used');
      }
    }
  }

  /** What is copied onto an empty page. */
  lemma CopiesToEmpty(v: View)
    requires |v.logs| >= 2 && Newest(v) == []
    ensures CopiesOf(false, v, INFO_SIZE)
         == Copies(false, v.logs[0], |v.logs[0]|, MapOfLogs(v.logs[1..]).Keys, {}, INFO_SIZE, 0)
  {
    hide Copies, MapOf, MapOfLogs;
    KnownWaiting(v, 0);
    assert Newest(v)[0..] == [];
    EmptyMaps();
    assert Waiting(v, 0) == {} && Known(v, 0) == MapOfLogs(v.logs[1..]).Keys;
  }

  /** Without the table a collection onto an empty page has room if and only if some pair of the full
      oldest page has its address on a newer page, or again higher up on the page in another load of
      seven. */
  lemma LinearRoomIff(v: View)
    requires |v.logs| >= 2 && Newest(v) == [] && |v.logs[0]| == PAGE_PAIRS
    ensures CollectRoom(false, v, INFO_SIZE) <==> AnyDropped(v.logs[0], MapOfLogs(v.logs[1..]).Keys)
  {
    var p0, newer := v.logs[0], MapOfLogs(v.logs[1..]).Keys;
    CopiesToEmpty(v);
    CopiesAtMost(p0, PAGE_PAIRS, newer, {}, INFO_SIZE, 0);
    AllIsCopied(p0, newer);
    AllOrDropped(p0, PAGE_PAIRS, newer, newer, {}, INFO_SIZE, 0);
    hide Copies, MapOf, MapOfLogs, Dropped, CopiesOf;
  }

  lemma AllIsCopied(p0: PageLog, newer: set<Addr>)
    requires |p0| == PAGE_PAIRS
    ensures CopiedAll(p0, PAGE_PAIRS, newer, newer, {}, INFO_SIZE, 0)
  {
  }

  /** The address at the head of load `b`, and those of the first `k` loads. */
  function HeadOf(p0: PageLog, b: nat): Addr
    requires |p0| == PAGE_PAIRS && b < 73
  {
    p0[PAGE_PAIRS - 1 - 7 * b].addr
  }

  function Heads(p0: PageLog, k: nat): set<Addr>
    requires |p0| == PAGE_PAIRS && k <= 73
  {
    set b | 0 <= b < k :: HeadOf(p0, b)
  }

  lemma HeadsDiffer(p0: PageLog, b: nat, k: nat)
    requires |p0| == PAGE_PAIRS && b < k < 73 && !AnyDropped(p0, {})
    ensures HeadOf(p0, b) != HeadOf(p0, k)
  {
    var i, w := PAGE_PAIRS - 1 - 7 * b, PAGE_PAIRS - 1 - 7 * k;
    assert w < i && Load(i) < Load(w);
    assert !Dropped(p0, {}, w);
  }

  /** They differ if no pair is dropped. */
  lemma {:induction false} LoadsDiffer(p0: PageLog, k: nat)
    requires |p0| == PAGE_PAIRS && k <= 73 && !AnyDropped(p0, {})
    ensures |Heads(p0, k)| == k
    decreases k
  {
    hide AnyDropped, HeadOf;
    if k == 0 {
      assert Heads(p0, 0) == {};
    } else {
      LoadsDiffer(p0, k - 1);
      forall b | 0 <= b < k - 1 ensures HeadOf(p0, b) != HeadOf(p0, k - 1) { HeadsDiffer(p0, b, k - 1); }
      assert HeadOf(p0, k - 1) !in Heads(p0, k - 1);
      assert Heads(p0, k) == Heads(p0, k - 1) + {HeadOf(p0, k - 1)};
    }
  }

  lemma HeadsOnPage(p0: PageLog)
    requires |p0| == PAGE_PAIRS && !AnyDropped(p0, {})
    ensures |MapOf(p0).Keys| >= 73
  {
    hide AnyDropped, MapOf;
    LoadsDiffer(p0, 73);
    forall a | a in Heads(p0, 73) ensures a in MapOf(p0) {
      var b :| 0 <= b < 73 && HeadOf(p0, b) == a;
      MapKeys(p0, PAGE_PAIRS - 1 - 7 * b);
    }
    Smaller(Heads(p0, 73), MapOf(p0).Keys);
  }

  lemma DroppedAnyway(p0: PageLog, newer: set<Addr>)
    requires |p0| == PAGE_PAIRS && AnyDropped(p0, {})
    ensures AnyDropped(p0, newer)
  {
    var w :| 0 <= w < PAGE_PAIRS && Dropped(p0, {}, w);
    assert Dropped(p0, newer, w);
  }

  /** So at most 72 addresses are always enough: each of the 73 loads has an address of its own. */
  lemma FewerAddressesHaveRoom(n: nat, v: View)
    requires 2 <= n <= 128 && 0 < |v.logs| && |MapOfLogs(v.logs).Keys| <= 72
    requires forall r | 0 <= r < |v.logs| - 1 :: |v.logs[r]| == PAGE_PAIRS
    ensures SettleRoom(n, false, v)
  {
    hide CollectRoom, AnyDropped, MapOf, MapOfLogs;
    RetriesOkIff(n);
    if |Newest(v)| == PAGE_PAIRS && |v.logs| + 1 == n && !CollectRoom(false, AddPage(v), INFO_SIZE) {
      var v' := AddPage(v);
      var p0, newer := v'.logs[0], MapOfLogs(v'.logs[1..]).Keys;
      LinearRoomIff(v');
      if AnyDropped(p0, {}) { DroppedAnyway(p0, newer); }
      HeadsOnPage(p0);
      MapOfAddPage(v.logs);
      MapOfOldest(v'.logs);
      Smaller(MapOf(p0).Keys, MapOfLogs(v'.logs).Keys);
    }
  }

  /** 73 addresses are not: each of them written seven times in a row fills a page of which every pair
      is copied. */
  function Sevens(): (es: PageLog)
    ensures |es| == PAGE_PAIRS
  {
    seq(PAGE_PAIRS, i requires 0 <= i < PAGE_PAIRS => Entry(4 * (i / 7), i))
  }

  lemma SevensAddresses()
    ensures |MapOf(Sevens()).Keys| == 73
  {
    hide MapOf;
    var p0 := Sevens();
    var all := set b | 0 <= b < 73 :: (4 * b) as Addr;
    forall a | a in MapOf(p0) ensures a in all {
      LastIsMapped(p0, a);
      assert a == 4 * (Last(p0, a) / 7);
    }
    forall a | a in all ensures a in MapOf(p0) {
      assert p0[7 * (a / 4)].addr == a;
      MapKeys(p0, 7 * (a / 4));
    }
    assert MapOf(p0).Keys == all;
    FirstFew(73);
  }

  lemma SevensLog()
    ensures var v := View(0, 0, [Sevens()]);
      && AllValid(2, v.logs) && MapOfLogs(v.logs) == MapOf(Sevens())
      && AddPage(v).logs[0] == Sevens() && MapOfLogs(AddPage(v).logs[1..]) == map[]
  {
    assert AllValid(2, View(0, 0, [Sevens()]).logs);
    hide MapOf, Sevens, AllValid;
    var v := View(0, 0, [Sevens()]);
    assert v.logs[..0] == [];
    assert AddPage(v).logs[1..] == [] + [[]];
    MapOfAddPage([]);
    EmptyMaps();
  }

  lemma SeventyThreeHaveNone()
    ensures var v := View(0, 0, [Sevens()]);
      AllValid(2, v.logs) && |MapOfLogs(v.logs).Keys| == 73 && !SettleRoom(2, false, v)
  {
    hide MapOf, MapOfLogs, Sevens, CollectRoom, Dropped, AllValid;
    var v := View(0, 0, [Sevens()]);
    SevensAddresses();
    SevensLog();
    forall w | 0 <= w < PAGE_PAIRS ensures !Dropped(Sevens(), {}, w) { SevensLoads(w); }
    LinearRoomIff(AddPage(v));
    assert MapOfLogs(AddPage(v).logs[1..]).Keys == {};
  }

  lemma {:induction false} FirstFew(k: nat)
    requires k <= 73
    ensures |set b | 0 <= b < k :: (4 * b) as Addr| == k
    decreases k
  {
    var s := set b | 0 <= b < k :: (4 * b) as Addr;
    if k == 0 {
      assert s == {};
    } else {
      FirstFew(k - 1);
      assert s == (set b | 0 <= b < k - 1 :: (4 * b) as Addr) + {(4 * (k - 1)) as Addr};
    }
  }

  lemma SevensLoads(w: nat)
    requires w < PAGE_PAIRS
    ensures !Dropped(Sevens(), {}, w)
  {
    forall i | w < i < PAGE_PAIRS && i / 7 == w / 7 ensures Load(i) == Load(w) {}
  }

  /** Two pages: all 510 addresses in turn, the last of them twice. */
  function NoRoomLinearLog(): View {
    View(0, 0, [Consecutive(0, 510) + [Entry(4 * 509, 1)]])
  }

  /** With the table the repeated address would be dropped, so there is room; without it both of its
      pairs are copied, as they are in one load of the buffer, and there is none. */
  lemma NoRoomWithoutTable()
    ensures var v := NoRoomLinearLog();
      && AllValid(2, v.logs) && |v.logs| + 1 == 2 && |Newest(v)| == PAGE_PAIRS
      && SettleRoom(2, true, v) && !SettleRoom(2, false, v)
      && |CopiesOf(false, AddPage(v), INFO_SIZE)| == PAGE_PAIRS
      && |Newest(Copied(false, AddPage(v), INFO_SIZE))| == PAGE_PAIRS
      && BufferRoom(INFO_SIZE + 2 * |Newest(Copied(false, AddPage(v), INFO_SIZE))|) == 0
  {
    hide MapOf, MapOfLogs, CollectRoom, CopiesOf, SettleRoom, Dropped, Copied, BufferRoom;
    var v := NoRoomLinearLog();
    assert AllValid(2, v.logs);
    TwoPagesHaveRoom(v);
    hide AllValid;
    var v' := AddPage(v);
    assert v'.logs[1..] == [] + [[]];
    MapOfAddPage([]);
    EmptyMaps();
    forall w | 0 <= w < PAGE_PAIRS ensures !Dropped(v'.logs[0], {}, w) { NoneDroppedThere(w); }
    assert MapOfLogs(v'.logs[1..]).Keys == {};
    LinearRoomIff(v');
    CopiesToEmpty(v');
    CopiesAtMost(v'.logs[0], PAGE_PAIRS, {}, {}, INFO_SIZE, 0);
    NoRoomThen(v);
    FilledByCopies(v');
  }

  lemma FilledByCopies(v: View)
    requires v.logs != [] && Newest(v) == [] && |CopiesOf(false, v, INFO_SIZE)| == PAGE_PAIRS
    ensures |Newest(Copied(false, v, INFO_SIZE))| == PAGE_PAIRS
    ensures BufferRoom(INFO_SIZE + 2 * |Newest(Copied(false, v, INFO_SIZE))|) == 0
  {
    hide CopiesOf;
  }

  lemma NoRoomThen(v: View)
    requires v.logs != [] && |Newest(v)| == PAGE_PAIRS && |v.logs| + 1 == 2 && !CollectRoom(false, AddPage(v), INFO_SIZE)
    ensures !SettleRoom(2, false, v) && |CopiesOf(false, AddPage(v), INFO_SIZE)| >= PAGE_PAIRS
  {
    hide CopiesOf;
  }

  lemma NoneDroppedThere(w: nat)
    requires w < PAGE_PAIRS
    ensures |NoRoomLinearLog().logs[0]| == PAGE_PAIRS && !Dropped(NoRoomLinearLog().logs[0], {}, w)
  {
    assert Load(509) == Load(510) == 0;
  }

  // ----- a state that shows the loss

  /** Address 0, written 510 times with 1 and then with 2. */
  function TwiceWritten(): PageLog {
    seq(PAGE_PAIRS - 1, _ => Entry(0, 1)) + [Entry(0, 2)]
  }

  lemma {:induction false} Constant(k: nat)
    ensures MapOf(seq(k, _ => Entry(0, 1))) == if k == 0 then map[] else map[0 := 1]
    decreases k
  {
    if k > 0 {
      Constant(k - 1);
      assert seq(k, _ => Entry(0, 1))[..k - 1] == seq(k - 1, _ => Entry(0, 1));
    }
  }

  lemma {:induction false} AllKnown(p0: PageLog, w: nat, known: set<Addr>, free: nat)
    requires w <= |p0| && forall i | 0 <= i < w :: p0[i].addr in known
    ensures Copies(false, p0, w, known, {}, free, 0) == []
    decreases w
  {
    if w > 0 { AllKnown(p0, w - 1, known, free); }
  }

  /** While the buffer fills, every pair of address 0 is copied; the seventh flushes it. */
  lemma {:induction false} FirstSeven(p0: PageLog, w: nat, k: nat)
    requires k <= 7 <= w + k && w + k <= |p0|
    requires forall i | 0 <= i < |p0| :: p0[i].addr == 0
    ensures Copies(false, p0, w, if k == 7 then {0} else {}, if k == 0 || k == 7 then {} else {0},
                   if k == 7 then 16 else 2, if k == 7 then 0 else 2 * k)
         == seq(7 - k, i requires 0 <= i < 7 - k => p0[w - 1 - i])
    decreases 7 - k
  {
    hide Copies;
    if k == 7 {
      AllKnown(p0, w, {0}, 16);
    } else {
      var pending: set<Addr> := if k == 0 then {} else {0};
      OneCopy(p0, w, {}, pending, 2, 2 * k);
      FirstSeven(p0, w - 1, k + 1);
      assert pending + {0} == {0} && {} + pending + {0} == {0};
    }
  }

  /** With two pages and no table, collecting this page makes address 0 read 1 again. */
  lemma OlderValueReturns()
    ensures var v := View(0, 0, [TwiceWritten(), []]);
      && MapOfLogs(v.logs) == map[0 := 2]
      && MapOfLogs(Copied(false, v, INFO_SIZE).logs) == map[0 := 1]
      && MapOfLogs(DropOldest(2, Copied(false, v, INFO_SIZE)).logs) == map[0 := 1]
      && |CopiesOf(false, v, INFO_SIZE)| == 7
  {
    hide MapOf, MapOfLogs, TwiceWritten, CopiesOf;
    var v := View(0, 0, [TwiceWritten(), []]);
    TwiceWrittenMap();
    MapOfOldest(v.logs);
    assert v.logs[1..] == [] + [[]];
    EmptyMaps();
    MapOfAddPage([]);
    var c := CopiesOf(false, v, INFO_SIZE);
    TwiceWrittenCopies(v);
    MapOfConcat([Entry(0, 2)], seq(6, _ => Entry(0, 1)));
    MapOfSingle(Entry(0, 2));
    Constant(6);
    MapOfAppend(v.logs, c);
    var tail := Copied(false, v, INFO_SIZE).logs[1..];
    assert tail == [] + [[] + c] && tail[..0] == [] && [] + c == c;
    OneLog(c);
  }

  lemma OneLog(es: PageLog)
    ensures MapOfLogs([es]) == MapOf(es)
  {
    assert [es][..0] == [];
  }

  lemma TwiceWrittenMap()
    ensures MapOf(TwiceWritten()) == map[0 := 2]
  {
    var p0, n := TwiceWritten(), PAGE_PAIRS - 1;
    assert p0[..n] == seq(n, _ => Entry(0, 1));
    Constant(n);
  }

  lemma TwiceWrittenCopies(v: View)
    requires v == View(0, 0, [TwiceWritten(), []])
    ensures CopiesOf(false, v, INFO_SIZE) == [Entry(0, 2)] + seq(6, _ => Entry(0, 1))
  {
    hide MapOf, MapOfLogs;
    var p0 := TwiceWritten();
    assert v.logs[1..] == [] + [[]];
    EmptyMaps();
    MapOfAddPage([]);
    assert Newest(v)[0..] == [];
    KnownWaiting(v, 0);
    FirstSeven(p0, PAGE_PAIRS, 0);
    assert Known(v, 0) == {} && Waiting(v, 0) == {};
    assert CopiesOf(false, v, INFO_SIZE) == Copies(false, p0, PAGE_PAIRS, {}, {}, 2, 0);
  }
}
