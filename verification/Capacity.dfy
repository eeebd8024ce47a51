/** What garbage collection preserves, when it has room, and when it has not. */
module Capacity {
  import opened Words
  import opened Log
  import opened Flash
  import opened Invariant
  import opened Collect

  // ----- the meaning of the log

  /** In mapping-table mode copying changes no value, and the oldest page is superseded. */
  lemma CopiedMap(v: View, free: nat)
    requires |v.logs| >= 2 && INFO_SIZE <= free && Flushed(free) <= |Newest(v)|
    ensures var v' := Copied(true, v, free);
      && MapOfLogs(v'.logs) == MapOfLogs(v.logs)
      && v'.logs[0] == v.logs[0] && MapOf(v'.logs[0]).Keys <= MapOfLogs(v'.logs[1..]).Keys
  {
    hide MapOf, MapOfLogs, Live, LiveKeys;
    var p0, rest := v.logs[0], v.logs[1..];
    var seen := MapOfLogs(rest).Keys;
    var live := Live(p0, |p0|, seen);
    var v' := Copied(true, v, free);
    MappedCopies(v, free);
    LiveIsExact(p0, |p0|, seen);
    assert p0[..|p0|] == p0;
    MapOfOldest(v.logs);
    MapOfAppend(v.logs, live);
    assert v'.logs[1..] == Append(rest, live);
    MapOfAppend(rest, live);
    Overlay(MapOf(p0), MapOfLogs(rest));
  }

  lemma Overlay(m0: map<Addr, Word>, m: map<Addr, Word>)
    ensures (m0 + m) + (m0 - m.Keys) == m0 + m
    ensures m0.Keys <= (m + (m0 - m.Keys)).Keys
  {
  }

  /** Without the table the same holds if the buffer is empty and the oldest page stores no
      address twice. */
  lemma LinearCopies(v: View, free: nat)
    requires |v.logs| >= 2 && INFO_SIZE <= free && Flushed(free) == |Newest(v)| && Distinct(v.logs[0])
    ensures CopiesOf(false, v, free) == CopiesOf(true, v, free)
  {
    var f := Flushed(free);
    assert Newest(v)[f..] == [];
    CopiesOfDistinct(v.logs[0], |v.logs[0]|, Known(v, f), Waiting(v, f), free, 0);
  }

  /** Garbage collection preserves every reading, whether or not the final erase succeeds. */
  lemma CollectPreserves(n: nat, mapped: bool, reliable: bool, v: View, free: nat, v': View)
    requires |v.logs| >= 2 && INFO_SIZE <= free && Flushed(free) <= |Newest(v)|
    requires CollectedTo(n, mapped, reliable, v, free, v')
    requires mapped || (Flushed(free) == |Newest(v)| && Distinct(v.logs[0]))
    ensures MapOfLogs(v'.logs) == MapOfLogs(v.logs)
  {
    if !mapped { LinearCopies(v, free); }
    CopiedMap(v, free);
    DropSuperseded(Copied(mapped, v, free).logs);
  }

  /** So does every flush, with the page it may open and the collection it may start. */
  lemma SettlePreserves(n: nat, reliable: bool, v: View, v': View)
    requires n >= 2 && 0 < |v.logs| <= n && SettledTo(n, true, reliable, v, v')
    ensures MapOfLogs(v'.logs) == MapOfLogs(v.logs)
  {
    hide CollectedTo, MapOf, MapOfLogs;
    if v' != v {
      MapOfAddPage(v.logs);
      if |v.logs| + 1 == n { CollectPreserves(n, true, reliable, AddPage(v), INFO_SIZE, v'); }
    }
  }

  /** After every flush nothing is left to collect if no page is free: then an erase has failed. */
  lemma SettledNoneLive(n: nat, reliable: bool, v: View, v': View)
    requires n >= 2 && 0 < |v.logs| <= n && NoneLive(n, v) && SettledTo(n, true, reliable, v, v')
    ensures 0 < |v'.logs| <= n && NoneLive(n, v') && (reliable && |v.logs| < n ==> |v'.logs| < n)
  {
    hide MapOf, MapOfLogs, CopiesOf, Copied;
    if v' != v && |v.logs| + 1 == n {
      CopiedMap(AddPage(v), INFO_SIZE);
      CopiedPages(true, AddPage(v), INFO_SIZE);
    }
  }

  /** A user write changes the reading of its own address and of no other. */
  lemma WriteUpdates(n: nat, reliable: bool, v: View, e: Entry, v': View)
    requires n >= 2 && 0 < |v.logs| <= n && SettledTo(n, true, reliable, AppendTo(v, [e]), v')
    ensures MapOfLogs(v'.logs) == MapOfLogs(v.logs)[e.addr := e.data]
  {
    hide SettledTo, MapOf, MapOfLogs;
    SettlePreserves(n, reliable, AppendTo(v, [e]), v');
    MapOfAppendOne(v.logs, e);
  }

  /** Mounting is all or nothing: every reading is kept, or, exactly when no page was free and a
      live pair of the oldest page did not fit, none. */
  lemma MountAllOrNothing(n: nat, v: View, v': View)
    requires n >= 2 && |v.logs| <= n && MountedTo(n, true, v, v')
    ensures MapOfLogs(v'.logs) ==
      if |v.logs| == n && |Newest(v)| + |LiveKeys(v)| > PAGE_PAIRS then map[] else MapOfLogs(v.logs)
  {
    hide *;
    MountedIs(n, v, v');
    if v.logs != [] && |v.logs| == n {
      var free := INFO_SIZE + 2 * |Newest(v)|;
      FlushedAllOf(v);
      MappedCopies(v, free);
      CopiedMap(v, free);
      CopiedPages(true, v, free);
      DropSuperseded(Copied(true, v, free).logs);
    }
  }

  lemma FlushedAllOf(v: View)
    requires v.logs != []
    ensures Flushed(INFO_SIZE + 2 * |Newest(v)|) == |Newest(v)|
  {
  }

  /** What a mount with the table leads to. */
  lemma MountedIs(n: nat, v: View, v': View)
    requires n >= 2 && |v.logs| <= n && MountedTo(n, true, v, v')
    ensures v.logs == [] ==> MapOfLogs(v'.logs) == MapOfLogs(v.logs) == map[]
    ensures 0 < |v.logs| < n ==> v' == v
    ensures v.logs != [] && |v.logs| == n ==>
      var free := INFO_SIZE + 2 * |Newest(v)|;
      if |Newest(v)| + |CopiesOf(true, v, free)| > PAGE_PAIRS then MapOfLogs(v'.logs) == map[]
      else v'.logs == Copied(true, v, free).logs[1..]
  {
    hide MapOf, CopiesOf, Copied;
    MapOfAddPage([]);
    assert [] + [[]] == View(0, 0, [[]]).logs;
  }

  // ----- a recovery that is given up

  lemma {:induction false} LiveDistinct(p0: PageLog, w: nat, seen: set<Addr>)
    requires w <= |p0|
    ensures var live := Live(p0, w, seen);
      |live| <= w && Distinct(live) && forall i | 0 <= i < |live| :: live[i].addr !in seen
    decreases w
  {
    if w > 0 {
      var e := p0[w - 1];
      if e.addr in seen {
        LiveDistinct(p0, w - 1, seen);
      } else {
        var rest := Live(p0, w - 1, seen + {e.addr});
        LiveDistinct(p0, w - 1, seen + {e.addr});
        var live := [e] + rest;
        forall i | 0 < i < |live| ensures live[i].addr !in seen + {e.addr} { assert live[i] == rest[i - 1]; }
        forall i, j | 0 <= i < j < |live| ensures live[i].addr != live[j].addr {
          assert live[j] == rest[j - 1];
          if i > 0 { assert live[i] == rest[i - 1]; }
        }
      }
    }
  }

  /** The first pairs of a list without repetitions keep their values. */
  lemma DistinctPart(es: PageLog, k: nat)
    requires Distinct(es) && k <= |es|
    ensures |MapOf(es[..k]).Keys| == k && MapOf(es[..k]).Keys <= MapOf(es).Keys
    ensures forall a | a in MapOf(es[..k]) :: MapOf(es)[a] == MapOf(es[..k])[a]
  {
    hide MapOf;
    DistinctCount(es[..k]);
    assert es[..k] + es[k..] == es;
    MapOfConcat(es[..k], es[k..]);
    forall a | a in MapOf(es[..k]) ensures a !in MapOf(es[k..]) {
      LastIsMapped(es[..k], a);
      if a in MapOf(es[k..]) { LastIsMapped(es[k..], a); }
    }
  }

  /** What a recovery without enough room has copied when it invalidates the oldest page... */
  function PartOf(v: View): map<Addr, Word>
    requires v.logs != [] && |Newest(v)| <= PAGE_PAIRS && Overflows(true, v)
  {
    MapOf(CopiesOf(true, v, INFO_SIZE + 2 * |Newest(v)|)[..PAGE_PAIRS - |Newest(v)|])
  }

  /** ... and the addresses that are lost if it is cut then. */
  function LostKeys(v: View): set<Addr>
    requires v.logs != [] && |Newest(v)| <= PAGE_PAIRS && Overflows(true, v)
  {
    LiveKeys(v) - PartOf(v).Keys
  }

  /** What is read from the oldest page alone. */
  function OldOnly(v: View): (m: map<Addr, Word>)
    requires v.logs != []
    ensures m.Keys == LiveKeys(v)
  {
    MapOf(v.logs[0]) - MapOfLogs(v.logs[1..]).Keys
  }

  lemma PartCopied(v: View)
    requires |v.logs| >= 2 && |Newest(v)| <= PAGE_PAIRS && Overflows(true, v)
    ensures PartOf(v).Keys <= LiveKeys(v) && |PartOf(v).Keys| == PAGE_PAIRS - |Newest(v)|
    ensures forall a | a in PartOf(v) :: OldOnly(v)[a] == PartOf(v)[a]
  {
    hide MapOf, MapOfLogs, CopiesOf, Distinct, OldOnly, LiveKeys;
    CopiesAreDistinct(v);
    DistinctPart(CopiesOf(true, v, INFO_SIZE + 2 * |Newest(v)|), PAGE_PAIRS - |Newest(v)|);
  }

  lemma PartRead(n: nat, v: View)
    requires |v.logs| >= 2 && |Newest(v)| <= PAGE_PAIRS && Overflows(true, v)
    ensures MapOfLogs(CutShort(n, true, v).logs) == MapOfLogs(v.logs[1..]) + PartOf(v)
  {
    hide MapOf, MapOfLogs, CopiesOf, CutShort, Append;
    CutShortLogs(n, v);
    MapOfAppend(v.logs[1..], CopiesOf(true, v, INFO_SIZE + 2 * |Newest(v)|)[..PAGE_PAIRS - |Newest(v)|]);
  }

  lemma CutShortLogs(n: nat, v: View)
    requires |v.logs| >= 2 && |Newest(v)| <= PAGE_PAIRS && Overflows(true, v)
    ensures var live, k := CopiesOf(true, v, INFO_SIZE + 2 * |Newest(v)|), PAGE_PAIRS - |Newest(v)|;
      k < |live| && CutShort(n, true, v).logs == Append(v.logs[1..], live[..k])
  {
    hide CopiesOf;
  }

  /** With the table every copy is of an address of its own, with the value the address has. */
  lemma CopiesAreDistinct(v: View)
    requires |v.logs| >= 2 && |Newest(v)| <= PAGE_PAIRS
    ensures var live := CopiesOf(true, v, INFO_SIZE + 2 * |Newest(v)|);
      Distinct(live) && MapOf(live) == OldOnly(v)
  {
    hide MapOf, MapOfLogs, Live, CopiesOf, LiveKeys;
    var p0, seen := v.logs[0], MapOfLogs(v.logs[1..]).Keys;
    MappedCopies(v, INFO_SIZE + 2 * |Newest(v)|);
    LiveIsExact(p0, |p0|, seen);
    LiveDistinct(p0, |p0|, seen);
    assert p0[..|p0|] == p0;
  }

  /** Neither all nor nothing: exactly the live pairs for which there was no room are lost, at least one,
      and every other address keeps its reading. */
  lemma CutShortLoses(n: nat, v: View)
    requires |v.logs| >= 2 && |Newest(v)| <= PAGE_PAIRS && Overflows(true, v)
    ensures MapOfLogs(CutShort(n, true, v).logs) == MapOfLogs(v.logs) - LostKeys(v)
    ensures LostKeys(v) <= MapOfLogs(v.logs).Keys
    ensures |LostKeys(v)| == |Newest(v)| + |LiveKeys(v)| - PAGE_PAIRS > 0
  {
    hide MapOf, MapOfLogs, CutShort, PartOf, Overflows, CopiesOf;
    LostCount(v);
    PartCopied(v);
    PartRead(n, v);
    MapOfOldest(v.logs);
    PartKept(MapOf(v.logs[0]), MapOfLogs(v.logs[1..]), PartOf(v));
  }

  lemma LostCount(v: View)
    requires |v.logs| >= 2 && |Newest(v)| <= PAGE_PAIRS && Overflows(true, v)
    ensures |LostKeys(v)| == |Newest(v)| + |LiveKeys(v)| - PAGE_PAIRS > 0
  {
    hide LiveKeys, PartOf, CopiesOf, OldOnly, Live, MapOf, MapOfLogs;
    MappedCopies(v, INFO_SIZE + 2 * |Newest(v)|);
    assert |Newest(v)| + |LiveKeys(v)| > PAGE_PAIRS;
    hide Overflows, Newest;
    PartSize(v);
    KeysMinus(LiveKeys(v), PartOf(v).Keys);
  }

  lemma PartSize(v: View)
    requires |v.logs| >= 2 && |Newest(v)| <= PAGE_PAIRS && Overflows(true, v)
    ensures PartOf(v).Keys <= LiveKeys(v) && |PartOf(v).Keys| == PAGE_PAIRS - |Newest(v)|
  {
    hide LiveKeys, PartOf, CopiesOf, OldOnly, Overflows, Newest;
    PartCopied(v);
  }

  lemma PartKept(m0: map<Addr, Word>, m: map<Addr, Word>, part: map<Addr, Word>)
    requires part.Keys <= (m0 - m.Keys).Keys && forall a | a in part :: (m0 - m.Keys)[a] == part[a]
    ensures var lost := m0.Keys - m.Keys - part.Keys;
      m + part == (m0 + m) - lost && lost <= (m0 + m).Keys && part.Keys <= m0.Keys - m.Keys
  {
  }

  lemma KeysMinus(a: set<Addr>, b: set<Addr>)
    requires b <= a
    ensures |a - b| == |a| - |b|
  {
    assert a == (a - b) + b;
  }

  /** No later mount repairs it: the image has a free page, so recovery does nothing.  Its current page is
      full. */
  lemma CutShortStays(n: nat, v: View, v': View)
    requires |v.logs| == n >= 2 && |Newest(v)| <= PAGE_PAIRS && Overflows(true, v)
    requires MountedTo(n, true, CutShort(n, true, v), v')
    ensures v' == CutShort(n, true, v) && |Newest(v')| == PAGE_PAIRS
  {
    hide CopiesOf;
  }

  // ----- room

  /** The pair `w` of the oldest page is superseded: its address occurs again, later on the page
      or on a newer page. */
  ghost predicate Superseded(v: View, w: nat)
    requires v.logs != [] && w < |v.logs[0]|
  {
    || v.logs[0][w].addr in MapOfLogs(v.logs[1..])
    || exists i :: w < i < |v.logs[0]| && v.logs[0][i].addr == v.logs[0][w].addr
  }

  /** Live pairs below `w` that would not fit beside `w` others: fewer than `w` exactly when one of
      them has been seen or occurs again. */
  lemma {:induction false} LiveAllOrFewer(p0: PageLog, w: nat, seen: set<Addr>)
    requires w <= |p0|
    ensures |Live(p0, w, seen)| <= w
    ensures |Live(p0, w, seen)| < w <==>
      exists j :: 0 <= j < w && (p0[j].addr in seen || exists i :: j < i < w && p0[i].addr == p0[j].addr)
    decreases w
  {
    if w > 0 {
      var e := p0[w - 1];
      if e.addr in seen {
        LiveAllOrFewer(p0, w - 1, seen);
        assert p0[w - 1].addr in seen;
      } else {
        LiveAllOrFewer(p0, w - 1, seen + {e.addr});
        if j :| 0 <= j < w && (p0[j].addr in seen || exists i :: j < i < w && p0[i].addr == p0[j].addr) {
          assert j < w - 1;
          if p0[j].addr !in seen {
            var i :| j < i < w && p0[i].addr == p0[j].addr;
            assert i < w - 1 || p0[j].addr == e.addr;
          }
        }
        if j :| 0 <= j < w - 1 && (p0[j].addr in seen + {e.addr} || exists i :: j < i < w - 1 && p0[i].addr == p0[j].addr) {
          if p0[j].addr == e.addr { assert j < w - 1 < w && p0[w - 1].addr == p0[j].addr; }
        }
      }
    }
  }

  /** A collection onto an empty page has room if and only if some pair of the full oldest page is
      superseded. */
  lemma RoomIffSuperseded(v: View)
    requires |v.logs| >= 2 && Newest(v) == [] && |v.logs[0]| == PAGE_PAIRS
    ensures CollectRoom(true, v, INFO_SIZE) <==> exists w :: 0 <= w < |v.logs[0]| && Superseded(v, w)
  {
    var p0, seen := v.logs[0], MapOfLogs(v.logs[1..]).Keys;
    MappedCopies(v, INFO_SIZE);
    LiveAllOrFewer(p0, |p0|, seen);
    if w :| 0 <= w < |p0| && Superseded(v, w) {
      assert p0[w].addr in seen || exists i :: w < i < |p0| && p0[i].addr == p0[w].addr;
    }
    if w :| 0 <= w < |p0| && (p0[w].addr in seen || exists i :: w < i < |p0| && p0[i].addr == p0[w].addr) {
      assert Superseded(v, w);
    }
  }

  // ----- how many addresses there are

  /** At most `m` multiples of four lie below `4 * m`. */
  lemma {:induction false} AddressCount(s: set<Addr>, m: nat)
    requires forall a | a in s :: a % 4 == 0 && a < 4 * m
    ensures |s| <= m
    decreases m
  {
    if m == 0 {
      if a :| a in s {}
      assert s == {};
    } else {
      var a := 4 * (m - 1);
      var rest := set b | b in s && b != a;
      AddressCount(rest, m - 1);
      if a < 0x1_0000 && a in s {
        assert s == rest + {a};
      } else {
        assert s == rest;
      }
    }
  }

  ghost predicate AllValid(n: nat, logs: seq<PageLog>) {
    forall r, w | 0 <= r < |logs| && 0 <= w < |logs[r]| :: ValidAddr(n, logs[r][w].addr)
  }

  lemma KeysValid(n: nat, logs: seq<PageLog>)
    requires AllValid(n, logs)
    ensures forall a | a in MapOfLogs(logs) :: ValidAddr(n, a)
  {
    forall a | a in MapOfLogs(logs) ensures ValidAddr(n, a) {
      LastPageIsMapped(logs, a);
      LastIsMapped(logs[LastPage(logs, a)], a);
    }
  }

  /** The first `m` multiples of four. */
  function Multiples(m: nat): set<int> {
    if m == 0 then {} else Multiples(m - 1) + {4 * (m - 1)}
  }

  lemma {:induction false} MultiplesIn(m: nat, a: int)
    ensures a in Multiples(m) <==> 0 <= a < 4 * m && a % 4 == 0
    decreases m
  {
    if m > 0 { MultiplesIn(m - 1, a); }
  }

  lemma {:induction false} MultiplesCount(m: nat)
    ensures |Multiples(m)| == m
    decreases m
  {
    if m > 0 {
      MultiplesCount(m - 1);
      MultiplesIn(m - 1, 4 * (m - 1));
    }
  }

  /** The addresses that are accepted: 0, 4, 8 and so on, one for every pair but one of N - 1 pages,
      as far as they fit in 16 bits. */
  lemma AddressesExact(n: nat)
    requires n >= 2
    ensures var m := Min(511 * (n - 1) - 1, 0x4000);
      var accepted := set a: int | 0 <= a < 0x1_0000 && ValidAddr(n, a);
      accepted == Multiples(m) && |accepted| == m
  {
    hide Multiples;
    var m := Min(511 * (n - 1) - 1, 0x4000);
    MultiplesCount(m);
    forall a: int ensures a in Multiples(m) <==> 0 <= a < 4 * m && a % 4 == 0 { MultiplesIn(m, a); }
  }

  /** No log holds more addresses than MAX_logical_address_size allows. */
  lemma KeyCount(n: nat, logs: seq<PageLog>)
    requires n >= 2 && AllValid(n, logs)
    ensures |MapOfLogs(logs).Keys| <= PAGE_PAIRS * (n - 1) - 1
  {
    KeysValid(n, logs);
    AddressCount(MapOfLogs(logs).Keys, PAGE_PAIRS * (n - 1) - 1);
  }

  /** With at most 510 addresses in use a flush always has room for the collection it starts; more than
      128 pages would stop it, but there are at most four with the table. */
  lemma FewAddressesHaveRoom(n: nat, v: View)
    requires 2 <= n <= 128 && 0 < |v.logs| && |MapOfLogs(v.logs).Keys| < PAGE_PAIRS
    ensures SettleRoom(n, true, v)
  {
    hide MapOf, MapOfLogs;
    RetriesOkIff(n);
    if |Newest(v)| == PAGE_PAIRS && |v.logs| + 1 == n {
      var v' := AddPage(v);
      MapOfAddPage(v.logs);
      MapOfOldest(v'.logs);
      MappedCopies(v', INFO_SIZE);
      Smaller(LiveKeys(v'), MapOfLogs(v'.logs).Keys);
    }
  }

  /** With two pages there are only 510 addresses, so there is always room. */
  lemma TwoPagesHaveRoom(v: View)
    requires 0 < |v.logs| && AllValid(2, v.logs)
    ensures SettleRoom(2, true, v)
  {
    KeyCount(2, v.logs);
    FewAddressesHaveRoom(2, v);
  }

  // ----- the capacity of the ring

  function Total(logs: seq<PageLog>): nat {
    if logs == [] then 0 else |logs[0]| + Total(logs[1..])
  }

  lemma {:induction false} DistinctCount(es: PageLog)
    requires Distinct(es)
    ensures |MapOf(es).Keys| == |es|
    decreases |es|
  {
    if es != [] {
      var n := |es| - 1;
      var e := es[n];
      DistinctCount(es[..n]);
      if e.addr in MapOf(es[..n]) { LastIsMapped(es[..n], e.addr); }
      assert MapOf(es).Keys == MapOf(es[..n]).Keys + {e.addr};
    }
  }

  /** Without superseded pairs every pair has an address of its own. */
  lemma {:induction false} NothingSuperseded(logs: seq<PageLog>)
    requires forall r, w | 0 <= r < |logs| && 0 <= w < |logs[r]| :: !Superseded(View(0, 0, logs[r..]), w)
    ensures |MapOfLogs(logs).Keys| == Total(logs)
    decreases |logs|
  {
    if logs != [] {
      var p0, rest := logs[0], logs[1..];
      forall r, w | 0 <= r < |rest| && 0 <= w < |rest[r]| ensures !Superseded(View(0, 0, rest[r..]), w) {
        assert rest[r..] == logs[r + 1..];
        assert !Superseded(View(0, 0, logs[r + 1..]), w);
      }
      NothingSuperseded(rest);
      assert logs[0..] == logs;
      forall w | 0 <= w < |p0|
        ensures p0[w].addr !in MapOfLogs(rest) && forall i | w < i < |p0| :: p0[i].addr != p0[w].addr
      {
        assert !Superseded(View(0, 0, logs[0..]), w);
      }
      DistinctCount(p0);
      forall a | a in MapOf(p0) ensures a !in MapOfLogs(rest) { LastIsMapped(p0, a); }
      MapOfOldest(logs);
      assert MapOfLogs(logs).Keys == MapOf(p0).Keys + MapOfLogs(rest).Keys;
    }
  }

  lemma {:induction false} FullTotal(logs: seq<PageLog>)
    requires forall r | 0 <= r < |logs| :: |logs[r]| == PAGE_PAIRS
    ensures Total(logs) == PAGE_PAIRS * |logs|
    decreases |logs|
  {
    if logs != [] { FullTotal(logs[1..]); }
  }

  /** MAX_logical_address_size leaves one pair to spare: on N - 1 full pages some pair is
      superseded. */
  lemma CapacityToSpare(n: nat, logs: seq<PageLog>)
    requires n >= 2 && |logs| == n - 1 && AllValid(n, logs)
    requires forall r | 0 <= r < |logs| :: |logs[r]| == PAGE_PAIRS
    ensures exists r, w :: 0 <= r < |logs| && 0 <= w < |logs[r]| && Superseded(View(0, 0, logs[r..]), w)
  {
    if forall r, w | 0 <= r < |logs| && 0 <= w < |logs[r]| :: !Superseded(View(0, 0, logs[r..]), w) {
      NothingSuperseded(logs);
      FullTotal(logs);
      KeyCount(n, logs);
      assert false;
    }
  }

  // ----- where the spare pair is not enough

  function Consecutive(first: nat, count: nat): PageLog
    requires 4 * (first + count) <= 0x1_0000
  {
    seq(count, i requires 0 <= i < count => Entry(4 * (first + i), 0))
  }

  /** Three pages: the first 511 addresses, then the other 510, the last of them twice. */
  function NoRoomLog(): View {
    View(0, 0, [Consecutive(0, 511), Consecutive(511, 510) + Consecutive(1020, 1)])
  }

  /** The spare pair need not be on the oldest page.  With three pages, writing all 1021 addresses
      in turn and the last one twice fills two pages; the collection this starts copies 511 pairs,
      the new page is full, and the next page is the one being collected: the buffer has no room
      left for a single word. */
  lemma NoRoomForThreePages()
    ensures var v := NoRoomLog();
      && AllValid(3, v.logs) && |v.logs| + 1 == 3 && |Newest(v)| == PAGE_PAIRS
      && !SettleRoom(3, true, v)
      && |Newest(Copied(true, AddPage(v), INFO_SIZE))| == PAGE_PAIRS
      && BufferRoom(INFO_SIZE + 2 * |Newest(Copied(true, AddPage(v), INFO_SIZE))|) == 0
  {
    hide Superseded, MapOf, MapOfLogs, SettleRoom, NoRoomLog, CollectRoom, Copied, BufferRoom, AllValid;
    NoRoomLogShape();
    var v' := AddPage(NoRoomLog());
    forall w | 0 <= w < |v'.logs[0]| ensures !Superseded(v', w) { AllLiveThere(w); }
    NothingToDrop(v');
    NoCollectRoom(3, NoRoomLog());
  }

  lemma NoCollectRoom(n: nat, v: View)
    requires v.logs != [] && |Newest(v)| == PAGE_PAIRS && |v.logs| + 1 == n && !CollectRoom(true, AddPage(v), INFO_SIZE)
    ensures !SettleRoom(n, true, v)
  {
  }

  lemma NoRoomLogShape()
    ensures var v := NoRoomLog();
      |v.logs| == 2 && |v.logs[0]| == PAGE_PAIRS && |v.logs[1]| == PAGE_PAIRS && AllValid(3, v.logs)
  {
  }

  lemma AllLiveThere(w: nat)
    requires w < PAGE_PAIRS
    ensures |AddPage(NoRoomLog()).logs[0]| == PAGE_PAIRS && !Superseded(AddPage(NoRoomLog()), w)
  {
    hide MapOf, MapOfLogs;
    NewerAddresses(AddPage(NoRoomLog()));
  }

  lemma NewerAddresses(v: View)
    requires v == AddPage(NoRoomLog())
    ensures forall a | a in MapOfLogs(v.logs[1..]) :: a >= 4 * 511
  {
    var rest := v.logs[1..];
    assert rest == [NoRoomLog().logs[1], []];
    forall a | a in MapOfLogs(rest) ensures a >= 4 * 511 {
      LastPageIsMapped(rest, a);
      LastIsMapped(rest[LastPage(rest, a)], a);
    }
  }

  /** If no pair of the full oldest page is superseded, the collection fills the new page. */
  lemma NothingToDrop(v: View)
    requires |v.logs| >= 2 && Newest(v) == [] && |v.logs[0]| == PAGE_PAIRS
    requires forall w | 0 <= w < |v.logs[0]| :: !Superseded(v, w)
    ensures !CollectRoom(true, v, INFO_SIZE) && |Newest(Copied(true, v, INFO_SIZE))| == PAGE_PAIRS
    ensures BufferRoom(INFO_SIZE + 2 * |Newest(Copied(true, v, INFO_SIZE))|) == 0
  {
    RoomIffSuperseded(v);
    MappedCopies(v, INFO_SIZE);
    LiveAllOrFewer(v.logs[0], PAGE_PAIRS, MapOfLogs(v.logs[1..]).Keys);
  }
}
