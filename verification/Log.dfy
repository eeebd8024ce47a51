/** The log as a value: one sequence of entries per valid page, oldest page first, and what
    garbage collection copies off the oldest page. */
module Log {
  import opened Words

  type PageLog = seq<Entry>

  /** What a reader of these entries finds: the last entry of an address wins. */
  function MapOf(es: PageLog): map<Addr, Word> {
    if es == [] then map[]
    else MapOf(es[..|es| - 1])[es[|es| - 1].addr := es[|es| - 1].data]
  }

  function MapOfLogs(logs: seq<PageLog>): map<Addr, Word> {
    if logs == [] then map[]
    else MapOfLogs(logs[..|logs| - 1]) + MapOf(logs[|logs| - 1])
  }

  /** Index of the last entry of `a`, or -1. */
  function Last(es: PageLog, a: Addr): (w: int)
    ensures -1 <= w < |es|
    ensures w >= 0 ==> es[w].addr == a
    ensures forall i | w < i < |es| :: es[i].addr != a
  {
    if es == [] then -1
    else if es[|es| - 1].addr == a then |es| - 1
    else Last(es[..|es| - 1], a)
  }

  /** Index of the last page with an entry of `a`, or -1. */
  function LastPage(logs: seq<PageLog>, a: Addr): (r: int)
    ensures -1 <= r < |logs|
    ensures r >= 0 ==> Last(logs[r], a) >= 0
    ensures forall i | r < i < |logs| :: Last(logs[i], a) < 0
  {
    if logs == [] then -1
    else if Last(logs[|logs| - 1], a) >= 0 then |logs| - 1
    else LastPage(logs[..|logs| - 1], a)
  }

  /** `es` appended to the newest page. */
  function Append(logs: seq<PageLog>, es: PageLog): (r: seq<PageLog>)
    requires logs != []
    ensures |r| == |logs|
  {
    logs[..|logs| - 1] + [logs[|logs| - 1] + es]
  }

  /** Cells the RAM buffer may take before it must be flushed (ftl_buffer_sm_init). */
  function BufferRoom(free: nat): nat
    requires free <= PAGE_CELLS
  {
    if PAGE_CELLS - free > BUFFER_CELLS then BUFFER_CELLS else PAGE_CELLS - free
  }

  /** What a collector copies off the page `p0`, going down from pair `w`.  `known` are the
      addresses found on newer flash pages, `pending` those that sit only in the RAM buffer, which
      has `used` cells and is flushed when the room before `free` allows no more.  With the
      mapping table the drop test sees the buffer, without it it does not. */
  function Copies(mapped: bool, p0: PageLog, w: nat, known: set<Addr>, pending: set<Addr>,
                  free: nat, used: nat): PageLog
    requires w <= |p0|
    decreases w
  {
    if w == 0 then []
    else
      var e := p0[w - 1];
      if e.addr in known || (mapped && e.addr in pending) then
        Copies(mapped, p0, w - 1, known, pending, free, used)
      else if free > PAGE_CELLS || used + 2 >= BufferRoom(free) then
        [e] + Copies(mapped, p0, w - 1, known + pending + {e.addr}, {}, free + used + 2, 0)
      else
        [e] + Copies(mapped, p0, w - 1, known, pending + {e.addr}, free, used + 2)
  }

  /** The pairs of `p0` that hold the only copy of their address, newest first. */
  function Live(p0: PageLog, w: nat, seen: set<Addr>): PageLog
    requires w <= |p0|
    decreases w
  {
    if w == 0 then []
    else if p0[w - 1].addr in seen then Live(p0, w - 1, seen)
    else [p0[w - 1]] + Live(p0, w - 1, seen + {p0[w - 1].addr})
  }

  /** The entries with distinct addresses. */
  ghost predicate Distinct(es: PageLog) {
    forall i, j | 0 <= i < j < |es| :: es[i].addr != es[j].addr
  }

  // ----- maps of concatenated logs

  lemma {:induction false} MapOfConcat(a: PageLog, b: PageLog)
    ensures MapOf(a + b) == MapOf(a) + MapOf(b)
    decreases |b|
  {
    if b == [] {
      assert a + b == a;
    } else {
      var n := |b| - 1;
      var ab := a + b;
      MapOfConcat(a, b[..n]);
      Updated(MapOf(a), MapOf(b[..n]), b[n]);
      assert ab[..|ab| - 1] == a + b[..n] && ab[|ab| - 1] == b[n];
    }
  }

  lemma Updated(x: map<Addr, Word>, y: map<Addr, Word>, e: Entry)
    ensures (x + y)[e.addr := e.data] == x + y[e.addr := e.data]
  {
  }

  lemma PlusAssociates(x: map<Addr, Word>, y: map<Addr, Word>, z: map<Addr, Word>)
    ensures x + (y + z) == x + y + z
  {
  }

  lemma MapOfAppend(logs: seq<PageLog>, es: PageLog)
    requires logs != []
    ensures MapOfLogs(Append(logs, es)) == MapOfLogs(logs) + MapOf(es)
  {
    var n, r := |logs| - 1, Append(logs, es);
    assert r[..n] == logs[..n] && r[n] == logs[n] + es;
    MapOfConcat(logs[n], es);
    PlusAssociates(MapOfLogs(logs[..n]), MapOf(logs[n]), MapOf(es));
  }

  lemma EmptyMaps()
    ensures MapOf([]) == map[] && MapOfLogs([]) == map[]
  {
  }

  lemma MapOfSingle(e: Entry)
    ensures MapOf([e]) == map[e.addr := e.data]
  {
    assert [e][..0] == [];
  }

  lemma MapOfAppendOne(logs: seq<PageLog>, e: Entry)
    requires logs != []
    ensures MapOfLogs(Append(logs, [e])) == MapOfLogs(logs)[e.addr := e.data]
  {
    MapOfAppend(logs, [e]);
    MapOfSingle(e);
  }

  lemma MapOfAddPage(logs: seq<PageLog>)
    ensures MapOfLogs(logs + [[]]) == MapOfLogs(logs)
  {
    assert (logs + [[]])[..|logs|] == logs;
  }

  /** The oldest page is overridden by all the others. */
  lemma {:induction false} MapOfOldest(logs: seq<PageLog>)
    requires logs != []
    ensures MapOfLogs(logs) == MapOf(logs[0]) + MapOfLogs(logs[1..])
    decreases |logs|
  {
    var n := |logs| - 1;
    if n == 0 {
      assert logs[..0] == [] && logs[1..] == [];
    } else {
      MapOfOldest(logs[..n]);
      assert logs[..n][1..] == logs[1..][..n - 1];
      PlusAssociates(MapOf(logs[0]), MapOfLogs(logs[1..][..n - 1]), MapOf(logs[n]));
    }
  }

  /** A page whose every address also occurs on a newer page may be dropped. */
  lemma DropSuperseded(logs: seq<PageLog>)
    requires logs != []
    requires MapOf(logs[0]).Keys <= MapOfLogs(logs[1..]).Keys
    ensures MapOfLogs(logs[1..]) == MapOfLogs(logs)
  {
    MapOfOldest(logs);
  }

  lemma {:induction false} LastIsMapped(es: PageLog, a: Addr)
    ensures Last(es, a) >= 0 <==> a in MapOf(es)
    ensures a in MapOf(es) ==> MapOf(es)[a] == es[Last(es, a)].data
    decreases |es|
  {
    if es != [] { LastIsMapped(es[..|es| - 1], a); }
  }

  lemma {:induction false} LastPageIsMapped(logs: seq<PageLog>, a: Addr)
    ensures LastPage(logs, a) >= 0 <==> a in MapOfLogs(logs)
    ensures a in MapOfLogs(logs) ==>
      var es := logs[LastPage(logs, a)]; a in MapOf(es) && MapOfLogs(logs)[a] == es[Last(es, a)].data
    decreases |logs|
  {
    if logs != [] {
      LastPageIsMapped(logs[..|logs| - 1], a);
      LastIsMapped(logs[|logs| - 1], a);
    }
  }

  // ----- what garbage collection copies

  /** With the mapping table the buffer boundary does not matter. */
  lemma {:induction false} CopiesAreLive(p0: PageLog, w: nat, known: set<Addr>, pending: set<Addr>,
                                         free: nat, used: nat)
    requires w <= |p0|
    ensures Copies(true, p0, w, known, pending, free, used) == Live(p0, w, known + pending)
    decreases w
  {
    if w > 0 {
      var e := p0[w - 1];
      if e.addr in known || e.addr in pending {
        CopiesAreLive(p0, w - 1, known, pending, free, used);
      } else if free > PAGE_CELLS || used + 2 >= BufferRoom(free) {
        CopiesAreLive(p0, w - 1, known + pending + {e.addr}, {}, free + used + 2, 0);
        assert known + pending + {e.addr} + {} == known + pending + {e.addr};
      } else {
        CopiesAreLive(p0, w - 1, known, pending + {e.addr}, free, used + 2);
        assert known + (pending + {e.addr}) == known + pending + {e.addr};
      }
    }
  }

  /** Nor does the mapping table itself when no address occurs twice on the page. */
  lemma {:induction false} CopiesOfDistinct(p0: PageLog, w: nat, known: set<Addr>, pending: set<Addr>,
                                            free: nat, used: nat)
    requires w <= |p0| && Distinct(p0)
    requires forall i | 0 <= i < w :: p0[i].addr !in pending
    ensures Copies(false, p0, w, known, pending, free, used)
         == Copies(true, p0, w, known, pending, free, used)
    decreases w
  {
    if w > 0 {
      var e := p0[w - 1];
      if e.addr in known {
        CopiesOfDistinct(p0, w - 1, known, pending, free, used);
      } else if free > PAGE_CELLS || used + 2 >= BufferRoom(free) {
        CopiesOfDistinct(p0, w - 1, known + pending + {e.addr}, {}, free + used + 2, 0);
      } else {
        CopiesOfDistinct(p0, w - 1, known, pending + {e.addr}, free, used + 2);
      }
    }
  }

  lemma MapKeys(es: PageLog, i: nat)
    requires i < |es|
    ensures es[i].addr in MapOf(es)
  {
    LastIsMapped(es, es[i].addr);
  }

  /** Live pairs: exactly the addresses not seen elsewhere, each with its newest value... */
  lemma {:induction false} LiveIsExact(p0: PageLog, w: nat, seen: set<Addr>)
    requires w <= |p0|
    ensures MapOf(Live(p0, w, seen)) == MapOf(p0[..w]) - seen
    decreases w
  {
    if w > 0 {
      var e := p0[w - 1];
      var m := MapOf(p0[..w - 1]);
      assert p0[..w][..w - 1] == p0[..w - 1];
      assert MapOf(p0[..w]) == m[e.addr := e.data];
      if e.addr in seen {
        LiveIsExact(p0, w - 1, seen);
        assert m[e.addr := e.data] - seen == m - seen;
      } else {
        var seen' := seen + {e.addr};
        var rest := Live(p0, w - 1, seen');
        LiveIsExact(p0, w - 1, seen');
        MapOfConcat([e], rest);
        MapOfSingle(e);
        assert map[e.addr := e.data] + (m - seen') == m[e.addr := e.data] - seen;
      }
    }
  }

  /** ... and each once. */
  lemma {:induction false} LiveCount(p0: PageLog, w: nat, seen: set<Addr>)
    requires w <= |p0|
    ensures |Live(p0, w, seen)| == |MapOf(p0[..w]).Keys - seen|
    decreases w
  {
    hide *;
    if w == 0 {
      LiveNone(p0, seen);
    } else {
      var a := p0[w - 1].addr;
      LiveCount(p0, w - 1, if a in seen then seen else seen + {a});
      LiveCountStep(p0, w, seen);
    }
  }

  lemma LiveCountStep(p0: PageLog, w: nat, seen: set<Addr>)
    requires 0 < w <= |p0|
    requires var a := p0[w - 1].addr;
      var seen' := if a in seen then seen else seen + {a};
      |Live(p0, w - 1, seen')| == |MapOf(p0[..w - 1]).Keys - seen'|
    ensures |Live(p0, w, seen)| == |MapOf(p0[..w]).Keys - seen|
  {
    LiveStep(p0, w, seen);
    UnseenCount(MapOf(p0[..w - 1]).Keys, seen, p0[w - 1].addr);
  }

  lemma UnseenCount(keys: set<Addr>, seen: set<Addr>, a: Addr)
    ensures |(keys + {a}) - seen| == if a in seen then |keys - seen| else 1 + |keys - (seen + {a})|
  {
    if a in seen {
      assert (keys + {a}) - seen == keys - seen;
    } else {
      var rest := keys - (seen + {a});
      assert (keys + {a}) - seen == rest + {a};
    }
  }

  lemma LiveNone(p0: PageLog, seen: set<Addr>)
    ensures Live(p0, 0, seen) == [] && MapOf(p0[..0]).Keys - seen == {}
  {
  }

  lemma LiveStep(p0: PageLog, w: nat, seen: set<Addr>)
    requires 0 < w <= |p0|
    ensures var e := p0[w - 1];
      && Live(p0, w, seen) == (if e.addr in seen then Live(p0, w - 1, seen) else [e] + Live(p0, w - 1, seen + {e.addr}))
      && MapOf(p0[..w]).Keys == MapOf(p0[..w - 1]).Keys + {e.addr}
  {
    assert p0[..w][..w - 1] == p0[..w - 1];
  }
}
