/** The parts of the layer's invariant, as predicates over values, and how appending, flushing,
    opening a page and dropping one act on each part. */
module Invariant {
  import opened Words
  import opened Log
  import opened Flash

  // ----- the mapping table

  /** Physical index of the newest pair of `a`, 0 when there is none. */
  function Where(n: nat, v: View, a: Addr): nat {
    var r := LastPage(v.logs, a);
    if r < 0 then 0
    else At(n, v.first, r) * PAGE_CELLS + 2 + 2 * Last(v.logs[r], a)
  }

  /** read_mapping_table: 0 marks an absent address. */
  function ReadTable(table: map<Addr, nat>, a: Addr): nat {
    if a in table then table[a] else 0
  }

  /** Twelve bits are enough for four pages and no more. */
  lemma TwelveBits(page: nat, cell: nat)
    requires cell < PAGE_CELLS
    ensures PageOf(PhysOf(page, cell)) == page && CellOf(PhysOf(page, cell)) == cell <==> page < 4
  {
  }

  /** write_mapping_table keeps 12 bits of the physical index. */
  function PhysOf(page: nat, cell: nat): nat {
    (page * PAGE_CELLS + cell) % 0x1000
  }

  /** The page and the cell of a physical index. */
  function PageOf(phys: nat): nat {
    phys / PAGE_CELLS
  }

  function CellOf(phys: nat): nat {
    phys % PAGE_CELLS
  }

  /** The table points at the newest pair of every address. */
  ghost predicate TableOk(n: nat, v: View, table: map<Addr, nat>) {
    forall a: Addr :: ReadTable(table, a) == Where(n, v, a)
  }

  // ----- the RAM buffer

  /** The buffer words are the entries `es`, possibly followed by a data word whose key is still
      to come. */
  ghost predicate Buffered(n: nat, words: seq<Word>, es: PageLog) {
    && |words| / 2 == |es|
    && forall j | 0 <= j < |es| :: ValidAddr(n, es[j].addr)
                                && words[2 * j] == es[j].data
                                && words[2 * j + 1] == KeyOf(es[j].addr, es[j].data)
  }

  // ----- user writes and what of them has reached flash

  function Min(a: int, b: int): int {
    if a < b then a else b
  }

  function Max(a: int, b: int): int {
    if a < b then b else a
  }

  lemma LeastOf(a: int, b: int)
    ensures Min(a, b) in {a, b} && Min(a, b) <= a && Min(a, b) <= b
  {
  }

  /** `hist` are the user writes so far; the last `pend` of them head the buffer.  However many of
      the buffered pairs reach flash, a reader finds a prefix of the user writes. */
  ghost predicate Durable(mapped: bool, v: View, flushed: nat, hist: PageLog, pend: nat) {
    && v.logs != [] && flushed + pend <= |Newest(v)| && pend <= |hist|
    && (mapped ==> forall j | flushed <= j <= |Newest(v)| ::
          MapOfLogs(Truncate(v, j).logs) == MapOf(Reached(hist, pend, j - flushed)))
  }

  /** The user writes on flash once `k` buffered pairs have followed, the last `pend` user writes
      being the first of the buffer. */
  function Reached(hist: PageLog, pend: nat, k: nat): PageLog
    requires pend <= |hist|
  {
    hist[..|hist| - pend + Min(k, pend)]
  }

  // ----- room for the live pairs of the oldest page

  /** Addresses whose only pairs are on the oldest page. */
  function LiveKeys(v: View): set<Addr>
    requires v.logs != []
  {
    MapOf(v.logs[0]).Keys - MapOfLogs(v.logs[1..]).Keys
  }

  /** When no page is free, at most `cap` pairs will be on the newest page once the live pairs of
      the oldest page have been copied. */
  ghost predicate Fits(n: nat, v: View, cap: nat) {
    |v.logs| == n > 0 ==> |Newest(v)| + |LiveKeys(v)| <= cap
  }

  /** If no page is free, nothing is left to collect from the oldest one: its erase has failed. */
  ghost predicate NoneLive(n: nat, v: View)
    requires v.logs != []
  {
    |v.logs| == n ==> LiveKeys(v) == {}
  }

  // ----- every flash image the layer passes through

  /** The page count, whether the mapping table is used, and the bound of `Fits`. */
  datatype Config = Config(n: nat, mapped: bool, cap: nat)

  /** What an image holds: the log `view`, that is, the first `upto` user writes; and the formats
      that had been completed by then. */
  datatype Note = Note(view: View, upto: nat, formats: seq<Format>)

  /** The formats completed at the end of a trace. */
  ghost function FormatsOf(notes: seq<Note>): seq<Format> {
    if notes == [] then [] else notes[|notes| - 1].formats
  }

  ghost predicate ImageOk(c: Config, hist: PageLog, f: Image, note: Note) {
    && Encodes(c.n, f, note.view)
    && note.upto <= |hist|
    && (c.mapped ==> MapOfLogs(note.view.logs) == MapOf(hist[..note.upto]))
    && (c.mapped ==> Fits(c.n, note.view, c.cap))
    && Rotated(c.n, note.formats, note.view)
  }

  ghost predicate TraceOk(c: Config, hist: PageLog, images: seq<Image>, notes: seq<Note>) {
    && |images| == |notes|
    && forall i | 0 <= i < |notes| :: ImageOk(c, hist, images[i], notes[i])
  }

  // ----- flash, buffer, table and user writes together

  /** The trace is kept, operation by operation, it ends in the flash as it is now, and `pend` user
      writes are not on it. */
  ghost predicate Recorded(c: Config, hist: PageLog, pend: int, flash: Image, images: seq<Image>, notes: seq<Note>) {
    && TraceOk(c, hist, images, notes) && Traced(images)
    && images != [] && images[|images| - 1] == flash
    && notes[|notes| - 1].upto + pend == |hist|
  }

  /** The second trace continues the first, every image added holds at least `lower` user writes,
      and no completed format is forgotten. */
  ghost predicate Continues(images: seq<Image>, notes: seq<Note>, images': seq<Image>, notes': seq<Note>, lower: int) {
    && |images| <= |images'| && |notes| <= |notes'|
    && images'[..|images|] == images && notes'[..|notes|] == notes
    && forall i | |notes| <= i < |notes'| :: notes'[i].upto >= lower && FormatsOf(notes) <= notes'[i].formats
  }

  /** Pairs of the current page that are on flash when the next free cell is `free`. */
  function Flushed(free: nat): nat
    requires INFO_SIZE <= free
  {
    (free - INFO_SIZE) / 2
  }

  /** The current page's used cells followed by the buffer `words` are the log's newest page, and
      every other view of the log agrees with it. */
  ghost predicate Consistent(c: Config, flash: Image, v: View, free: nat, words: seq<Word>,
                             table: map<Addr, nat>, hist: PageLog, pend: nat) {
    && 2 <= c.n <= 255 && (c.mapped ==> c.n <= 4) && PAGE_PAIRS <= c.cap
    && 0 < |v.logs| <= c.n && v.first < c.n
    && free % 2 == 0 && INFO_SIZE <= free <= PAGE_CELLS && |words| <= BufferRoom(free)
    && Flushed(free) + |words| / 2 == |Newest(v)|
    && Encodes(c.n, flash, Truncate(v, Flushed(free)))
    && Buffered(c.n, words, Newest(v)[Flushed(free)..])
    && (c.mapped ==> TableOk(c.n, v, table))
    && Durable(c.mapped, v, Flushed(free), hist, pend)
    && (c.mapped ==> Fits(c.n, v, c.cap))
  }

  // ----- truncation

  lemma TruncateAll(v: View)
    requires v.logs != []
    ensures Truncate(v, |Newest(v)|) == v
  {
    assert Newest(v)[..|Newest(v)|] == Newest(v);
    assert v.logs == v.logs[..|v.logs| - 1] + [Newest(v)];
  }

  lemma TruncateAppended(v: View, e: Entry, j: nat)
    requires v.logs != [] && j <= |Newest(v)|
    ensures Truncate(AppendTo(v, [e]), j) == Truncate(v, j)
  {
    assert (Newest(v) + [e])[..j] == Newest(v)[..j];
  }

  lemma TruncateStep(v: View, j: nat)
    requires v.logs != [] && j < |Newest(v)|
    ensures AppendTo(Truncate(v, j), [Newest(v)[j]]) == Truncate(v, j + 1)
  {
    assert Newest(v)[..j + 1] == Newest(v)[..j] + [Newest(v)[j]];
  }

  // ----- lemmas about the table

  lemma LastAppend(es: PageLog, e: Entry, a: Addr)
    ensures Last(es + [e], a) == if a == e.addr then |es| else Last(es, a)
  {
    assert (es + [e])[..|es|] == es;
  }

  lemma LastPageAppend(logs: seq<PageLog>, e: Entry, a: Addr)
    requires logs != []
    ensures LastPage(Append(logs, [e]), a) == if a == e.addr then |logs| - 1 else LastPage(logs, a)
  {
    var r := Append(logs, [e]);
    LastAppend(logs[|logs| - 1], e, a);
    assert r[..|r| - 1] == logs[..|logs| - 1] && r[|r| - 1] == logs[|logs| - 1] + [e];
  }

  lemma WhereAppend(n: nat, v: View, e: Entry, a: Addr)
    requires v.logs != []
    ensures Where(n, AppendTo(v, [e]), a) ==
      if a == e.addr then Current(n, v) * PAGE_CELLS + 2 + 2 * |Newest(v)| else Where(n, v, a)
  {
    LastPageAppend(v.logs, e, a);
    LastAppend(Newest(v), e, a);
  }

  lemma TableAppend(n: nat, v: View, table: map<Addr, nat>, e: Entry)
    requires v.logs != [] && TableOk(n, v, table)
    ensures TableOk(n, AppendTo(v, [e]), table[e.addr := Current(n, v) * PAGE_CELLS + 2 + 2 * |Newest(v)|])
  {
    var table' := table[e.addr := Current(n, v) * PAGE_CELLS + 2 + 2 * |Newest(v)|];
    forall a: Addr ensures ReadTable(table', a) == Where(n, AppendTo(v, [e]), a) {
      WhereAppend(n, v, e, a);
      assert ReadTable(table, a) == Where(n, v, a);
    }
  }

  lemma TableAddPage(n: nat, v: View, table: map<Addr, nat>)
    requires TableOk(n, v, table)
    ensures TableOk(n, AddPage(v), table)
  {
    forall a: Addr ensures ReadTable(table, a) == Where(n, AddPage(v), a) {
      assert AddPage(v).logs[..|v.logs|] == v.logs;
      assert ReadTable(table, a) == Where(n, v, a);
    }
  }

  lemma WhereDrop(n: nat, v: View, a: Addr)
    requires v.first < n && 0 < |v.logs| <= n
    requires a in MapOf(v.logs[0]) ==> a in MapOfLogs(v.logs[1..])
    ensures Where(n, DropOldest(n, v), a) == Where(n, v, a)
  {
    hide Last, LastPage, MapOf, MapOfLogs;
    var r, s := LastPage(v.logs, a), LastPage(v.logs[1..], a);
    assert r == if s >= 0 then s + 1 else -1 by {
      LastPageTail(v.logs, a);
      LastIsMapped(v.logs[0], a);
      LastPageIsMapped(v.logs[1..], a);
    }
    if s >= 0 { AtNext(n, v.first, s); }
  }

  lemma AtNext(n: nat, first: nat, r: nat)
    requires first < n && r + 1 < n
    ensures At(n, At(n, first, 1), r) == At(n, first, r + 1)
  {
  }

  lemma LastPageTail(logs: seq<PageLog>, a: Addr)
    requires logs != []
    ensures var s := LastPage(logs[1..], a);
      LastPage(logs, a) == if s >= 0 then s + 1 else if Last(logs[0], a) >= 0 then 0 else -1
  {
    var rest := logs[1..];
    forall i | 0 <= i < |rest| ensures Last(rest[i], a) == Last(logs[i + 1], a) {}
    forall i | 1 <= i < |logs| ensures Last(logs[i], a) == Last(rest[i - 1], a) {}
  }

  lemma TableDrop(n: nat, v: View, table: map<Addr, nat>)
    requires v.first < n && 0 < |v.logs| <= n && TableOk(n, v, table)
    requires MapOf(v.logs[0]).Keys <= MapOfLogs(v.logs[1..]).Keys
    ensures TableOk(n, DropOldest(n, v), table)
  {
    forall a: Addr ensures ReadTable(table, a) == Where(n, DropOldest(n, v), a) {
      WhereDrop(n, v, a);
      assert ReadTable(table, a) == Where(n, v, a);
    }
  }

  /** 0 is a sound mark for "absent", and every other index decodes to an even data cell of a
      valid page. */
  lemma WhereDecodes(n: nat, v: View, a: Addr)
    requires v.first < n && |v.logs| <= n && forall r | 0 <= r < |v.logs| :: |v.logs[r]| <= PAGE_PAIRS
    ensures Where(n, v, a) == 0 <==> a !in MapOfLogs(v.logs)
    ensures a in MapOfLogs(v.logs) ==>
      var r := LastPage(v.logs, a);
      var w := Last(v.logs[r], a);
      && 0 <= r && 0 <= w
      && PageOf(Where(n, v, a)) == At(n, v.first, r) < n
      && CellOf(Where(n, v, a)) == 2 + 2 * w < PAGE_CELLS - 1
      && v.logs[r][w] == Entry(a, MapOfLogs(v.logs)[a])
  {
    LastPageIsMapped(v.logs, a);
  }

  /** The drop test of the mapping-table mode: the newest pair is on another page than the oldest
      exactly when the address occurs on some newer page. */
  lemma WhereOutsideOldest(n: nat, v: View, a: Addr)
    requires v.first < n && 0 < |v.logs| <= n && forall r | 0 <= r < |v.logs| :: |v.logs[r]| <= PAGE_PAIRS
    requires a in MapOf(v.logs[0])
    ensures Where(n, v, a) != 0
    ensures PageOf(Where(n, v, a)) != v.first <==> a in MapOfLogs(v.logs[1..])
  {
    MapOfOldest(v.logs);
    WhereDecodes(n, v, a);
    LastPageTail(v.logs, a);
    LastPageIsMapped(v.logs[1..], a);
  }

  // ----- lemmas about durability

  lemma DurableMap(v: View, flushed: nat, hist: PageLog, pend: nat)
    requires Durable(true, v, flushed, hist, pend)
    ensures MapOfLogs(v.logs) == MapOf(hist)
    ensures MapOfLogs(Truncate(v, flushed).logs) == MapOf(hist[..|hist| - pend])
  {
    TruncateAll(v);
    var all := |Newest(v)|;
    assert Reached(hist, pend, all - flushed) == hist;
    assert MapOfLogs(Truncate(v, all).logs) == MapOf(Reached(hist, pend, all - flushed));
    assert Reached(hist, pend, 0) == hist[..|hist| - pend];
  }

  lemma DurableUser(mapped: bool, v: View, flushed: nat, hist: PageLog, pend: nat, e: Entry)
    requires Durable(mapped, v, flushed, hist, pend) && pend == |Newest(v)| - flushed
    ensures Durable(mapped, AppendTo(v, [e]), flushed, hist + [e], pend + 1)
  {
    hide MapOfLogs;
    var v', hist' := AppendTo(v, [e]), hist + [e];
    if mapped {
      DurableMap(v, flushed, hist, pend);
      forall j | flushed <= j <= |Newest(v')|
        ensures MapOfLogs(Truncate(v', j).logs) == MapOf(Reached(hist', pend + 1, j - flushed))
      {
        if j <= |Newest(v)| {
          TruncateAppended(v, e, j);
          assert Reached(hist', pend + 1, j - flushed) == Reached(hist, pend, j - flushed);
        } else {
          TruncateAll(v');
          MapOfAppendOne(v.logs, e);
          assert hist'[..|hist|] == hist;
          assert Reached(hist', pend + 1, j - flushed) == hist';
        }
      }
    }
  }

  lemma DurableCopy(mapped: bool, v: View, flushed: nat, hist: PageLog, pend: nat, e: Entry)
    requires Durable(mapped, v, flushed, hist, pend)
    requires mapped ==> e.addr in MapOfLogs(v.logs) && MapOfLogs(v.logs)[e.addr] == e.data
    ensures Durable(mapped, AppendTo(v, [e]), flushed, hist, pend)
  {
    hide MapOf, MapOfLogs;
    var v' := AppendTo(v, [e]);
    if mapped {
      DurableMap(v, flushed, hist, pend);
      forall j | flushed <= j <= |Newest(v')|
        ensures MapOfLogs(Truncate(v', j).logs) == MapOf(Reached(hist, pend, j - flushed))
      {
        if j <= |Newest(v)| {
          TruncateAppended(v, e, j);
        } else {
          TruncateAll(v');
          MapOfAppendOne(v.logs, e);
          assert Reached(hist, pend, j - flushed) == hist;
        }
      }
    }
  }

  lemma DurableFlushed(mapped: bool, v: View, flushed: nat, hist: PageLog, pend: nat)
    requires Durable(mapped, v, flushed, hist, pend)
    ensures Durable(mapped, v, |Newest(v)|, hist, 0)
  {
    if mapped {
      DurableMap(v, flushed, hist, pend);
      TruncateAll(v);
      assert Reached(hist, 0, 0) == hist;
    }
  }

  /** A settled log stays durable when it is replaced by one with the same map. */
  lemma DurableReplaced(mapped: bool, v: View, hist: PageLog, v': View)
    requires v.logs != [] && v'.logs != [] && Durable(mapped, v, |Newest(v)|, hist, 0)
    requires mapped ==> MapOfLogs(v'.logs) == MapOfLogs(v.logs)
    ensures Durable(mapped, v', |Newest(v')|, hist, 0)
  {
    if mapped {
      DurableMap(v, |Newest(v)|, hist, 0);
      TruncateAll(v');
      assert Reached(hist, 0, 0) == hist;
    }
  }

  // ----- lemmas about room

  /** Copying a live pair uses one pair of room and frees one. */
  lemma FitsCopy(n: nat, v: View, cap: nat, e: Entry)
    requires n >= 2 && Fits(n, v, cap) && |v.logs| == n && e.addr in LiveKeys(v)
    ensures Fits(n, AppendTo(v, [e]), cap)
  {
    hide MapOf, MapOfLogs;
    var v' := AppendTo(v, [e]);
    assert v'.logs[1..] == Append(v.logs[1..], [e]);
    MapOfAppendOne(v.logs[1..], e);
    assert LiveKeys(v') == LiveKeys(v) - {e.addr};
  }

  /** With nothing to collect every write fits that the page has room for. */
  lemma FitsUser(n: nat, v: View, cap: nat, e: Entry)
    requires n >= 2 && v.logs != [] && NoneLive(n, v) && |Newest(v)| < PAGE_PAIRS <= cap
    ensures Fits(n, AppendTo(v, [e]), cap) && NoneLive(n, AppendTo(v, [e]))
  {
    hide MapOf, MapOfLogs;
    if |v.logs| == n {
      var v' := AppendTo(v, [e]);
      assert v'.logs[1..] == Append(v.logs[1..], [e]);
      MapOfAppendOne(v.logs[1..], e);
      assert LiveKeys(v') == {};
    }
  }

  /** With fewer pairs flushed there is at least as much room. */
  lemma {:induction false} FitsTruncate(n: nat, v: View, cap: nat, m: nat)
    requires n >= 2 && v.logs != [] && m <= |Newest(v)| && Fits(n, v, cap)
    ensures Fits(n, Truncate(v, m), cap)
    decreases |Newest(v)| - m
  {
    hide LiveKeys;
    if m == |Newest(v)| {
      TruncateAll(v);
    } else {
      FitsTruncate(n, v, cap, m + 1);
      if |v.logs| == n {
        TruncateStep(v, m);
        FitsBefore(n, Truncate(v, m), cap, Newest(v)[m]);
      }
    }
  }

  lemma FitsBefore(n: nat, v: View, cap: nat, e: Entry)
    requires n >= 2 && |v.logs| == n && Fits(n, AppendTo(v, [e]), cap)
    ensures Fits(n, v, cap)
  {
    hide MapOf, MapOfLogs;
    var v' := AppendTo(v, [e]);
    assert v'.logs[1..] == Append(v.logs[1..], [e]);
    MapOfAppendOne(v.logs[1..], e);
    assert LiveKeys(v) - {e.addr} == LiveKeys(v') - {e.addr};
    hide LiveKeys, Append;
    OneLess(LiveKeys(v), LiveKeys(v'), e.addr);
  }

  lemma OneLess<T>(a: set<T>, b: set<T>, x: T)
    requires a - {x} == b - {x}
    ensures |a| <= |b| + 1
  {
    Smaller(a - {x}, b);
    Smaller(a, (a - {x}) + {x});
  }

  lemma {:induction false} Smaller<T>(a: set<T>, b: set<T>)
    requires a <= b
    ensures |a| <= |b|
    decreases b
  {
    if x :| x in a { Smaller(a - {x}, b - {x}); }
  }

  // ----- lemmas about traces

  lemma TraceGrows(c: Config, hist: PageLog, e: Entry, images: seq<Image>, notes: seq<Note>)
    requires TraceOk(c, hist, images, notes)
    ensures TraceOk(c, hist + [e], images, notes)
  {
    hide Encodes, Fits, Rotated;
    forall i | 0 <= i < |notes| ensures ImageOk(c, hist + [e], images[i], notes[i]) {
      assert ImageOk(c, hist, images[i], notes[i]);
      assert (hist + [e])[..notes[i].upto] == hist[..notes[i].upto];
    }
  }

  /** One operation more on the trace. */
  lemma TraceExtends(c: Config, hist: PageLog, pend: int, flash: Image, images: seq<Image>, notes: seq<Note>, op: Operation, note: Note)
    requires Recorded(c, hist, pend, flash, images, notes) && Possible(flash, op)
    requires ImageOk(c, hist, Operated(flash, op), note) && FormatsOf(notes) <= note.formats
    ensures Recorded(c, hist, |hist| - note.upto, Operated(flash, op), images + [Operated(flash, op)], notes + [note])
    ensures Continues(images, notes, images + [Operated(flash, op)], notes + [note], note.upto)
  {
    hide ImageOk, Traced, Possible, Operated;
    TracedMore(images, op);
  }

  lemma ContinuesRefl(images: seq<Image>, notes: seq<Note>, lower: int)
    ensures Continues(images, notes, images, notes, lower)
  {
  }

  lemma ContinuesTrans(im0: seq<Image>, no0: seq<Note>, im1: seq<Image>, no1: seq<Note>,
                       im2: seq<Image>, no2: seq<Note>, lower0: int, lower1: int)
    requires Continues(im0, no0, im1, no1, lower0) && Continues(im1, no1, im2, no2, lower1) && lower0 <= lower1
    ensures Continues(im0, no0, im2, no2, lower0)
  {
    assert im2[..|im1|][..|im0|] == im2[..|im0|];
    assert no2[..|no1|][..|no0|] == no2[..|no0|];
    assert FormatsOf(no0) <= FormatsOf(no1);
    forall i | |no0| <= i < |no2| ensures no2[i].upto >= lower0 && FormatsOf(no0) <= no2[i].formats {
      if i < |no1| { assert no2[i] == no2[..|no1|][i]; }
    }
  }

  /** All but the last. */
  function Most<T>(xs: seq<T>): seq<T> {
    if xs == [] then [] else xs[..|xs| - 1]
  }

  /** The trace of a recovery that was given up: every state on it holds what its note says, but for the
      last one, which holds the log `v`. */
  ghost predicate Abandoned(c: Config, hist: PageLog, images: seq<Image>, notes: seq<Note>, v: View) {
    && images != [] && TraceOk(c, hist, Most(images), Most(notes)) && Traced(images)
    && Encodes(c.n, images[|images| - 1], v)
  }

  lemma AbandonedIs(c: Config, hist: PageLog, was: Image, images: seq<Image>, notes: seq<Note>, op: Operation, v: View, fs: seq<Format>)
    requires Recorded(c, hist, 0, was, images, notes) && Possible(was, op) && Encodes(c.n, Operated(was, op), v)
    ensures Abandoned(c, hist, images + [Operated(was, op)], notes + [Note(v, |hist|, fs)], v)
  {
    var f := Operated(was, op);
    TracedMore(images, op);
    assert Most(images + [f]) == images && Most(notes + [Note(v, |hist|, fs)]) == notes;
    hide TraceOk, Encodes, Traced, Possible, Operated;
  }

  /** Entry `k` of the trace shows exactly the log `v`, no end position being recorded yet on its
      newest page. */
  ghost predicate Shows(n: nat, images: seq<Image>, notes: seq<Note>, k: int, v: View) {
    && 0 <= k < |images| && k < |notes| && notes[k].view == v && v.logs != []
    && Current(n, v) < |images[k]| && images[k][Current(n, v)].end == None
  }

  /** The entry just recorded, for a page that is not closed. */
  lemma NoteShown(n: nat, c: Config, hist: PageLog, images: seq<Image>, notes: seq<Note>, flash: Image, note: Note, pend: int)
    requires Recorded(c, hist, pend, flash, images, notes) && notes[|notes| - 1] == note
    requires note.view.logs != [] && Current(n, note.view) < |flash| && flash[Current(n, note.view)].end == None
    ensures Shows(n, images, notes, |notes| - 1, note.view)
  {
  }

  /** A record with `k` of the last `m` pairs of `v` programmed, and the user writes that have got as
      far: `total` in all, of which `pend` head those pairs. */
  ghost predicate PairShown(note: Note, v: View, m: int, k: int, total: int, pend: int) {
    && v.logs != [] && 0 < k <= m <= |Newest(v)|
    && note.view == Truncate(v, |Newest(v)| - m + k) && note.upto == total - pend + Min(k, pend)
  }

  /** A flush of the last `m` pairs of `v`, on record from entry `start` on: one entry for each pair;
      whatever follows holds all user writes. */
  ghost predicate FlushShown(n: nat, images: seq<Image>, notes: seq<Note>, start: nat, v: View, m: int, total: int, pend: int) {
    && 0 < m && start + m <= |notes|
    && (forall i | start <= i < start + m :: PairShown(notes[i], v, m, i - start + 1, total, pend))
    && (forall i | start + m <= i < |notes| :: notes[i].upto >= total)
    && Shows(n, images, notes, start + m - 1, v)
  }

  /** Entry `k` of the trace is the one before with the end position of page `p` set to its last cell. */
  ghost predicate ClosedAt(images: seq<Image>, k: int, p: nat) {
    0 < k < |images| && p < |images[k - 1]| && images[k] == SetEnd(images[k - 1], p, PAGE_CELLS - 1)
  }

  lemma ClosedOn(im: seq<Image>, no: seq<Note>, im': seq<Image>, no': seq<Note>, lower: int, k: int, p: nat)
    requires ClosedAt(im, k, p) && Continues(im, no, im', no', lower)
    ensures ClosedAt(im', k, p)
  {
    assert im'[k] == im'[..|im|][k] && im'[k - 1] == im'[..|im|][k - 1];
  }

  lemma RecordedEnds(c: Config, hist: PageLog, pend: int, flash: Image, images: seq<Image>, notes: seq<Note>)
    requires Recorded(c, hist, pend, flash, images, notes)
    ensures |images| == |notes| > 0 && images[|images| - 1] == flash
  {
  }

  lemma PairShownIs(note: Note, v: View, m: int, k: int, total: int, pend: int)
    requires v.logs != [] && 0 < k <= m <= |Newest(v)|
    requires note.view == Truncate(v, |Newest(v)| - m + k) && note.upto == total - (pend - Min(k, pend))
    ensures PairShown(note, v, m, k, total, pend)
  {
  }

  lemma FlushMade(n: nat, images: seq<Image>, notes: seq<Note>, start: nat, v: View, m: int, total: int, pend: int)
    requires 0 < m && start + m == |notes| && Shows(n, images, notes, |notes| - 1, v)
    requires forall i | start <= i < |notes| :: PairShown(notes[i], v, m, i - start + 1, total, pend)
    ensures FlushShown(n, images, notes, start, v, m, total, pend)
  {
    hide PairShown, Shows;
  }

  lemma FlushedEnd(n: nat, images: seq<Image>, notes: seq<Note>, start: nat, v: View, m: int, total: int, pend: int)
    requires FlushShown(n, images, notes, start, v, m, total, pend) && |images| == |notes| == start + m
    ensures v.logs != [] && Current(n, v) < |images[|images| - 1]| && images[|images| - 1][Current(n, v)].end == None
  {
    hide PairShown;
  }

  lemma FlushOn(n: nat, im: seq<Image>, no: seq<Note>, im': seq<Image>, no': seq<Note>, start: nat, v: View, m: int, total: int, pend: int)
    requires FlushShown(n, im, no, start, v, m, total, pend) && Continues(im, no, im', no', total)
    ensures FlushShown(n, im', no', start, v, m, total, pend)
  {
    hide PairShown;
    forall i | 0 <= i < |no| ensures no'[i] == no[i] { assert no'[i] == no'[..|no|][i]; }
    var k := start + m - 1;
    assert im'[k] == im'[..|im|][k];
  }

  // ----- lemmas about the whole state

  /** The data word of the next pair enters the buffer. */
  lemma DataPushed(c: Config, flash: Image, v: View, free: nat, words: seq<Word>,
                   table: map<Addr, nat>, hist: PageLog, pend: nat, w: Word)
    requires Consistent(c, flash, v, free, words, table, hist, pend)
    requires |words| % 2 == 0 && |words| < BufferRoom(free)
    ensures Consistent(c, flash, v, free, words + [w], table, hist, pend)
  {
    hide Encodes, TableOk, Durable, Fits, Truncate;
  }

  /** The index write_mapping_table gets is the cell of the data word. */
  lemma TableIndex(c: Config, flash: Image, v: View, free: nat, words: seq<Word>,
                   table: map<Addr, nat>, hist: PageLog, pend: nat)
    requires Consistent(c, flash, v, free, words, table, hist, pend)
    requires |words| % 2 == 1 && c.mapped
    ensures PhysOf(Current(c.n, v), free + |words| - 1)
         == Current(c.n, v) * PAGE_CELLS + 2 + 2 * |Newest(v)|
  {
    hide Encodes, TableOk, Durable, Fits, Truncate, Buffered;
  }

  lemma BufferCompleted(n: nat, words: seq<Word>, es: PageLog, e: Entry)
    requires Buffered(n, words, es) && |words| % 2 == 1 && ValidAddr(n, e.addr)
    requires words[|words| - 1] == e.data
    ensures Buffered(n, words + [KeyOf(e.addr, e.data)], es + [e])
  {
  }

  /** The parts of the invariant that speak of what is stored. */
  lemma ConsistentParts(c: Config, flash: Image, v: View, free: nat, words: seq<Word>,
                        table: map<Addr, nat>, hist: PageLog, pend: nat)
    requires Consistent(c, flash, v, free, words, table, hist, pend)
    ensures c.n >= 2 && 0 < |v.logs| <= c.n && PAGE_PAIRS <= c.cap && INFO_SIZE <= free && Flushed(free) <= |Newest(v)|
    ensures c.mapped ==> TableOk(c.n, v, table) && Fits(c.n, v, c.cap)
    ensures Durable(c.mapped, v, Flushed(free), hist, pend)
  {
    hide Encodes, TableOk, Durable, Truncate, Buffered, Fits;
  }

  /** A completed pair, and table and user writes that take it into account. */
  lemma PairDone(c: Config, flash: Image, v: View, free: nat, words: seq<Word>,
                 table: map<Addr, nat>, hist: PageLog, pend: nat, e: Entry,
                 table': map<Addr, nat>, hist': PageLog, pend': nat)
    requires Consistent(c, flash, v, free, words, table, hist, pend)
    requires |words| % 2 == 1 && |words| < BufferRoom(free)
    requires ValidAddr(c.n, e.addr) && words[|words| - 1] == e.data
    requires c.mapped ==> TableOk(c.n, AppendTo(v, [e]), table') && Fits(c.n, AppendTo(v, [e]), c.cap)
    requires INFO_SIZE <= free && Durable(c.mapped, AppendTo(v, [e]), Flushed(free), hist', pend')
    ensures Consistent(c, flash, AppendTo(v, [e]), free, words + [KeyOf(e.addr, e.data)], table', hist', pend')
  {
    hide Encodes, TableOk, Durable, Truncate, Buffered, Fits, KeyOf, AppendTo, ValidAddr;
    PairBuffered(c, flash, v, free, words, table, hist, pend, e);
  }

  /** What completing a pair in the buffer makes of the rest of the state. */
  lemma PairBuffered(c: Config, flash: Image, v: View, free: nat, words: seq<Word>,
                     table: map<Addr, nat>, hist: PageLog, pend: nat, e: Entry)
    requires Consistent(c, flash, v, free, words, table, hist, pend)
    requires |words| % 2 == 1 && |words| < BufferRoom(free)
    requires ValidAddr(c.n, e.addr) && words[|words| - 1] == e.data
    ensures v.logs != [] && |Newest(v)| < PAGE_PAIRS && Flushed(free) <= |Newest(v)|
    ensures var v', words' := AppendTo(v, [e]), words + [KeyOf(e.addr, e.data)];
      && 0 < |v'.logs| <= c.n && v'.first < c.n && |words'| <= BufferRoom(free)
      && Flushed(free) + |words'| / 2 == |Newest(v')| == |Newest(v)| + 1
      && Encodes(c.n, flash, Truncate(v', Flushed(free)))
      && Buffered(c.n, words', Newest(v')[Flushed(free)..])
    ensures |words| / 2 == |Newest(v)| - Flushed(free)
  {
    hide Encodes, TableOk, Durable, Truncate, Buffered, Fits, KeyOf;
    var f := Flushed(free);
    TruncateAppended(v, e, f);
    BufferCompleted(c.n, words, Newest(v)[f..], e);
    assert Newest(AppendTo(v, [e]))[f..] == Newest(v)[f..] + [e];
  }

  /** The key of a user write completes its pair. */
  lemma UserPushed(c: Config, flash: Image, v: View, free: nat, words: seq<Word>,
                   table: map<Addr, nat>, hist: PageLog, pend: nat, e: Entry)
    requires Consistent(c, flash, v, free, words, table, hist, pend)
    requires |words| % 2 == 1 && |words| < BufferRoom(free)
    requires ValidAddr(c.n, e.addr) && words[|words| - 1] == e.data
    requires pend == |words| / 2 && (c.mapped ==> v.logs != [] && NoneLive(c.n, v))
    ensures Consistent(c, flash, AppendTo(v, [e]), free, words + [KeyOf(e.addr, e.data)],
                       table[e.addr := Current(c.n, v) * PAGE_CELLS + 2 + 2 * |Newest(v)|], hist + [e], pend + 1)
  {
    hide Consistent, TableOk, Durable, Fits, NoneLive, Encodes, Buffered, KeyOf, BufferRoom, Truncate, ValidAddr, AppendTo, Current;
    ConsistentParts(c, flash, v, free, words, table, hist, pend);
    PairBuffered(c, flash, v, free, words, table, hist, pend, e);
    DurableUser(c.mapped, v, Flushed(free), hist, pend, e);
    var table' := table[e.addr := Current(c.n, v) * PAGE_CELLS + 2 + 2 * |Newest(v)|];
    if c.mapped {
      TableAppend(c.n, v, table, e);
      FitsUser(c.n, v, c.cap, e);
    }
    PairDone(c, flash, v, free, words, table, hist, pend, e, table', hist + [e], pend + 1);
  }

  /** A pair that a collector may copy: the newest pair of an address found only on the oldest
      page. */
  ghost predicate IsLive(v: View, e: Entry)
    requires v.logs != []
  {
    e.addr in LiveKeys(v) && MapOf(v.logs[0])[e.addr] == e.data
  }

  /** The key of a copied pair completes it. */
  lemma CopyPushed(c: Config, flash: Image, v: View, free: nat, words: seq<Word>,
                   table: map<Addr, nat>, hist: PageLog, pend: nat, e: Entry)
    requires Consistent(c, flash, v, free, words, table, hist, pend)
    requires |words| % 2 == 1 && |words| < BufferRoom(free)
    requires ValidAddr(c.n, e.addr) && words[|words| - 1] == e.data
    requires |v.logs| == c.n && (c.mapped ==> IsLive(v, e))
    ensures Consistent(c, flash, AppendTo(v, [e]), free, words + [KeyOf(e.addr, e.data)],
                       table[e.addr := Current(c.n, v) * PAGE_CELLS + 2 + 2 * |Newest(v)|], hist, pend)
  {
    hide Consistent, TableOk, Durable, Fits, IsLive, LiveKeys, Encodes, Buffered, KeyOf, BufferRoom, Truncate, AppendTo, Current, MapOf, MapOfLogs, ValidAddr;
    ConsistentParts(c, flash, v, free, words, table, hist, pend);
    var table' := table[e.addr := Current(c.n, v) * PAGE_CELLS + 2 + 2 * |Newest(v)|];
    if c.mapped {
      TableAppend(c.n, v, table, e);
      LiveCopied(c.n, v, c.cap, e);
    }
    DurableCopy(c.mapped, v, Flushed(free), hist, pend, e);
    PairDone(c, flash, v, free, words, table, hist, pend, e, table', hist, pend);
  }

  lemma LiveCopied(n: nat, v: View, cap: nat, e: Entry)
    requires |v.logs| == n >= 2 && Fits(n, v, cap) && IsLive(v, e)
    ensures Fits(n, AppendTo(v, [e]), cap)
    ensures e.addr in MapOfLogs(v.logs) && MapOfLogs(v.logs)[e.addr] == e.data
  {
    hide MapOf, MapOfLogs;
    MapOfOldest(v.logs);
    FitsCopy(n, v, cap, e);
  }

  /** The buffer reached flash. */
  lemma FlushedAll(c: Config, flash: Image, v: View, free: nat, words: seq<Word>,
                   table: map<Addr, nat>, hist: PageLog, pend: nat, flash': Image)
    requires Consistent(c, flash, v, free, words, table, hist, pend)
    requires |words| % 2 == 0 && Encodes(c.n, flash', v)
    ensures Consistent(c, flash', v, free + |words|, [], table, hist, 0)
  {
    hide Encodes, TableOk, Durable, Truncate, Buffered, Fits;
    TruncateAll(v);
    DurableFlushed(c.mapped, v, Flushed(free), hist, pend);
    BufferedNone(c.n, Newest(v)[|Newest(v)|..]);
  }

  lemma BufferedNone(n: nat, es: PageLog)
    requires es == []
    ensures Buffered(n, [], es)
  {
  }

  /** A page was opened after a full one. */
  lemma PageAdded(c: Config, flash: Image, v: View, table: map<Addr, nat>, hist: PageLog, flash': Image)
    requires Consistent(c, flash, v, PAGE_CELLS, [], table, hist, 0) && |v.logs| < c.n
    requires Encodes(c.n, flash', AddPage(v))
    requires c.mapped ==> Fits(c.n, AddPage(v), c.cap)
    ensures Consistent(c, flash', AddPage(v), INFO_SIZE, [], table, hist, 0)
  {
    hide Encodes, TableOk, Durable, Truncate, Buffered, Fits;
    var v' := AddPage(v);
    TruncateAll(v');
    MapOfAddPage(v.logs);
    DurableReplaced(c.mapped, v, hist, v');
    BufferedNone(c.n, Newest(v')[0..]);
    if c.mapped { TableAddPage(c.n, v, table); }
  }

  /** The oldest page left the ring, every address of it being found on newer pages. */
  lemma PageDropped(c: Config, flash: Image, v: View, free: nat, table: map<Addr, nat>, hist: PageLog, gone: Page)
    requires Consistent(c, flash, v, free, [], table, hist, 0) && |v.logs| >= 2
    requires MapOf(v.logs[0]).Keys <= MapOfLogs(v.logs[1..]).Keys
    requires !gone.valid && |gone.cells| == PAGE_CELLS
    ensures |flash| == c.n
    ensures Consistent(c, flash[v.first := gone], DropOldest(c.n, v), free, [], table, hist, 0)
  {
    TruncateAll(v);
    assert |flash| == c.n;
    OldestGone(c.n, flash, v, gone);
    hide Encodes, TableOk, Durable, Truncate, Buffered, Fits;
    var v' := DropOldest(c.n, v);
    assert Newest(v') == Newest(v);
    TruncateAll(v');
    DropSuperseded(v.logs);
    DurableReplaced(c.mapped, v, hist, v');
    if c.mapped { TableDrop(c.n, v, table); }
    FitsDropped(c.n, v', c.cap);
  }

  lemma FitsDropped(n: nat, v: View, cap: nat)
    requires |v.logs| < n
    ensures Fits(n, v, cap)
  {
  }

  /** Any flash with the same log will do. */
  lemma FlashReplaced(c: Config, flash: Image, v: View, free: nat, words: seq<Word>,
                      table: map<Addr, nat>, hist: PageLog, pend: nat, flash': Image)
    requires Consistent(c, flash, v, free, words, table, hist, pend)
    requires Encodes(c.n, flash', Truncate(v, Flushed(free)))
    ensures Consistent(c, flash', v, free, words, table, hist, pend)
  {
    hide Encodes, TableOk, Durable, Truncate, Buffered, Fits;
  }

  /** With an empty buffer the flash itself is an image that holds all user writes. */
  lemma RestingImage(c: Config, flash: Image, v: View, free: nat, table: map<Addr, nat>, hist: PageLog, fs: seq<Format>)
    requires Consistent(c, flash, v, free, [], table, hist, 0) && Rotated(c.n, fs, v)
    ensures ImageOk(c, hist, flash, Note(v, |hist|, fs))
  {
    hide Rotated, Encodes, TableOk, Truncate, Buffered, Fits, Durable;
    TruncateAll(v);
    if c.mapped { DurableMap(v, Flushed(free), hist, 0); }
    assert hist[..|hist|] == hist;
  }

  /** An image with `k` of the buffered pairs programmed holds a prefix of the user writes. */
  lemma PrefixImage(c: Config, v: View, flushed: nat, hist: PageLog, pend: nat, k: nat, f: Image, fs: seq<Format>)
    returns (note: Note)
    requires Rotated(c.n, fs, v) && c.n >= 2 && Durable(c.mapped, v, flushed, hist, pend)
    requires c.mapped ==> Fits(c.n, v, c.cap)
    requires 0 < k && flushed + k <= |Newest(v)| <= flushed + 7
    requires Encodes(c.n, f, Truncate(v, flushed + k))
    ensures ImageOk(c, hist, f, note)
    ensures note.upto == |hist| - (pend - Min(k, pend)) && note.formats == fs && note.view == Truncate(v, flushed + k)
  {
    hide Encodes, Rotated, MapOf, MapOfLogs, Fits;
    RotatedTruncate(c.n, fs, v, flushed + k);
    note := Note(Truncate(v, flushed + k), |Reached(hist, pend, k)|, fs);
    assert Reached(hist, pend, k) == hist[..note.upto];
    if c.mapped {
      assert MapOfLogs(Truncate(v, flushed + k).logs) == MapOf(Reached(hist, pend, flushed + k - flushed));
      FitsTruncate(c.n, v, c.cap, flushed + k);
    }
  }

  /** Programming the next two buffer words puts the next pair of the log on flash. */
  lemma PairProgrammed(n: nat, f: Image, v: View, flushed: nat, words: seq<Word>, j: nat)
    requires v.logs != [] && flushed + j < |Newest(v)| <= PAGE_PAIRS && 2 * j + 1 < |words|
    requires Encodes(n, f, Truncate(v, flushed + j))
    requires Buffered(n, words, Newest(v)[flushed..])
    ensures var p, c := Current(n, v), 2 + 2 * (flushed + j);
      && p < n == |f| && |f[p].cells| == PAGE_CELLS && f[p].end == None
      && var f' := ProgramCell(ProgramCell(f, p, c, words[2 * j]), p, c + 1, words[2 * j + 1]);
      Encodes(n, f', Truncate(v, flushed + j + 1)) && Programmed(f, f', p, c, [words[2 * j], words[2 * j + 1]])
  {
    hide *;
    var e, u := Newest(v)[flushed + j], Truncate(v, flushed + j);
    BufferedPair(n, words, Newest(v)[flushed..], j);
    TruncateNewest(v, flushed + j);
    TruncateCurrent(n, v, flushed + j);
    TruncateStep(v, flushed + j);
    ProgramAppends(n, f, u, e);
  }

  lemma TruncateNewest(v: View, m: nat)
    requires v.logs != [] && m <= |Newest(v)|
    ensures Truncate(v, m).logs != [] && |Newest(Truncate(v, m))| == m
  {
  }

  // ----- opening and closing pages

  /** The next page of the ring is free unless all pages are in use. */
  lemma NextPage(n: nat, f: Image, v: View)
    requires n >= 2 && Encodes(n, f, v) && v.logs != []
    ensures var next := Next(n, Current(n, v));
      && next < n == |f| && (f[next].valid <==> |v.logs| == n)
      && (|v.logs| < n ==> next == At(n, v.first, |v.logs|))
      && (|v.logs| == n ==> next == v.first)
  {
    hide Holds;
    var next := Next(n, Current(n, v));
    PlaceAt(n, v.first, |v.logs| - 1);
    if |v.logs| < n { PlaceAt(n, v.first, |v.logs|); }
    RingSuccessor(n, v.first, |v.logs| - 1);
    assert PageFits(n, f, v, next);
  }

  lemma RingSuccessor(n: nat, first: nat, r: nat)
    requires first < n && r < n && n >= 2
    ensures Next(n, At(n, first, r)) == if r + 1 < n then At(n, first, r + 1) else first
  {
    var p := At(n, first, r);
    if p + 1 == n { assert (p + 1) % n == 0; } else { assert (p + 1) % n == p + 1; }
  }

  /** ftl_page_format of the next page, in its two steps. */
  lemma NextPageFormatted(c: Config, flash: Image, v: View, table: map<Addr, nat>, hist: PageLog, fs: seq<Format>)
    requires Consistent(c, flash, v, PAGE_CELLS, [], table, hist, 0) && |v.logs| < c.n && Rotated(c.n, fs, v)
    requires c.mapped ==> Fits(c.n, AddPage(v), c.cap)
    ensures var cur, next := Current(c.n, v), Next(c.n, Current(c.n, v));
      && cur < c.n == |flash| && next < c.n && |Erase(flash, next)| == c.n
      && var sequence := (flash[cur].sequence + 1) % 0x100;
      && ImageOk(c, hist, Erase(flash, next), Note(v, |hist|, fs))
      && Consistent(c, WriteHeader(Erase(flash, next), next, sequence), AddPage(v), INFO_SIZE, [], table, hist, 0)
      && next == Current(c.n, AddPage(v))
      && Rotated(c.n, fs + [Format(next, sequence)], AddPage(v))
  {
    hide Encodes;
    ConsistentEncodes(c, flash, v, PAGE_CELLS, [], table, hist, 0);
    NextPageEncodes(c.n, flash, v);
    var next := Next(c.n, Current(c.n, v));
    RotatedNext(c.n, fs, v, Format(next, (flash[Current(c.n, v)].sequence + 1) % 0x100));
    hide Next, Erase, WriteHeader, Consistent, Rotated;
    TruncateAll(v);
    ConsistentFacts(c, flash, v, PAGE_CELLS, [], table, hist, 0);
    FlashReplaced(c, flash, v, PAGE_CELLS, [], table, hist, 0, Erase(flash, next));
    RestingImage(c, Erase(flash, next), v, PAGE_CELLS, table, hist, fs);
    var sequence := (flash[Current(c.n, v)].sequence + 1) % 0x100;
    PageAdded(c, flash, v, table, hist, WriteHeader(Erase(flash, next), next, sequence));
  }

  lemma NextPageEncodes(n: nat, flash: Image, v: View)
    requires n >= 2 && Encodes(n, flash, v) && 0 < |v.logs| < n && |Newest(v)| == PAGE_PAIRS
    ensures var cur, next := Current(n, v), Next(n, Current(n, v));
      && cur < n == |flash| && next < n && |Erase(flash, next)| == n
      && Encodes(n, Erase(flash, next), v)
      && Encodes(n, WriteHeader(Erase(flash, next), next, (flash[cur].sequence + 1) % 0x100), AddPage(v))
      && next == Current(n, AddPage(v))
      && flash[cur].sequence == Sequence(v) && Sequence(AddPage(v)) == (Sequence(v) + 1) % 0x100
  {
    NextPage(n, flash, v);
    hide Next;
    var k := |v.logs|;
    var cur, next := Current(n, v), At(n, v.first, k);
    PlaceAt(n, v.first, k);
    PlaceAt(n, v.first, k - 1);
    assert PageFits(n, flash, v, cur);
    hide PageFits;
    SequenceStep(v.sequence, k);
    EraseFree(n, flash, v, next);
    HeaderAddsPage(n, Erase(flash, next), v, next, (flash[cur].sequence + 1) % 0x100);
  }

  lemma SequenceStep(s: Byte, k: nat)
    requires k > 0
    ensures ((s + (k - 1)) % 0x100 + 1) % 0x100 == (s + k) % 0x100
  {
    var x := s + (k - 1);
    var q, m := x / 0x100, x % 0x100;
    assert x == 0x100 * q + m;
  }

  /** ftl_set_page_end_position on the full page. */
  lemma EndRecorded(c: Config, flash: Image, v: View, table: map<Addr, nat>, hist: PageLog)
    requires Consistent(c, flash, v, PAGE_CELLS, [], table, hist, 0)
    ensures Current(c.n, v) < c.n == |flash|
    ensures Consistent(c, SetEnd(flash, Current(c.n, v), PAGE_CELLS - 1), v, PAGE_CELLS, [], table, hist, 0)
  {
    hide PageFits;
    TruncateAll(v);
    var cur := Current(c.n, v);
    SetEndKeeps(c.n, flash, v, cur);
    FlashReplaced(c, flash, v, PAGE_CELLS, [], table, hist, 0, SetEnd(flash, cur, PAGE_CELLS - 1));
  }

  /** The facts that do not depend on what is stored. */
  lemma ConsistentFacts(c: Config, flash: Image, v: View, free: nat, words: seq<Word>,
                        table: map<Addr, nat>, hist: PageLog, pend: nat)
    requires Consistent(c, flash, v, free, words, table, hist, pend)
    ensures 2 <= c.n <= 255 && (c.mapped ==> c.n <= 4) && 0 < |v.logs| <= c.n && v.first < c.n && |flash| == c.n
    ensures free % 2 == 0 && INFO_SIZE <= free <= PAGE_CELLS && |words| <= BufferRoom(free)
    ensures Flushed(free) + |words| / 2 == |Newest(v)| && free + |words| <= PAGE_CELLS
    ensures Current(c.n, v) < c.n && pend <= |words| / 2 && PAGE_PAIRS <= c.cap
    ensures forall r | 0 <= r < |v.logs| - 1 :: |v.logs[r]| == PAGE_PAIRS
  {
    var u := Truncate(v, Flushed(free));
    assert Encodes(c.n, flash, u);
    forall r | 0 <= r < |v.logs| - 1 ensures |v.logs[r]| == PAGE_PAIRS {
      assert u.logs[r] == v.logs[r];
    }
  }

  lemma ConsistentEncodes(c: Config, flash: Image, v: View, free: nat, words: seq<Word>,
                          table: map<Addr, nat>, hist: PageLog, pend: nat)
    requires Consistent(c, flash, v, free, words, table, hist, pend)
    ensures v.logs != [] && INFO_SIZE <= free && Flushed(free) <= |Newest(v)|
    ensures Encodes(c.n, flash, Truncate(v, Flushed(free)))
    ensures |words| == 0 ==> Encodes(c.n, flash, v)
  {
    if |words| == 0 { TruncateAll(v); }
  }

  /** What the full page's neighbour looks like. */
  lemma FullPage(c: Config, flash: Image, v: View, table: map<Addr, nat>, hist: PageLog)
    requires Consistent(c, flash, v, PAGE_CELLS, [], table, hist, 0)
    ensures var next := Next(c.n, Current(c.n, v));
      next < c.n == |flash| && (flash[next].valid <==> |v.logs| == c.n)
    ensures Current(c.n, v) < c.n && flash[Current(c.n, v)].end in {None, Some(PAGE_CELLS - 1)}
  {
    hide Encodes;
    ConsistentEncodes(c, flash, v, PAGE_CELLS, [], table, hist, 0);
    NextPage(c.n, flash, v);
    PageEnd(c.n, flash, v, |v.logs| - 1);
  }

  /** The buffer always has an even number of cells, and at least one pair unless the page is full. */
  lemma RoomIsEven(c: Config, flash: Image, v: View, free: nat, words: seq<Word>,
                   table: map<Addr, nat>, hist: PageLog, pend: nat)
    requires Consistent(c, flash, v, free, words, table, hist, pend)
    ensures BufferRoom(free) % 2 == 0 && (free < PAGE_CELLS ==> BufferRoom(free) >= 2)
    ensures BufferRoom(free) <= BUFFER_CELLS && free + BufferRoom(free) <= PAGE_CELLS
  {
    hide Encodes, Buffered, TableOk, Durable, Fits;
  }

  /** A key word completes the pair `e` in the buffer, in the table and in the log. */
  lemma PairPushed(c: Config, flash: Image, v: View, free: nat, words: seq<Word>, table: map<Addr, nat>,
                   hist: PageLog, pend: nat, images: seq<Image>, notes: seq<Note>,
                   e: Entry, copy: bool, table': map<Addr, nat>)
    requires Consistent(c, flash, v, free, words, table, hist, pend) && Recorded(c, hist, pend, flash, images, notes)
    requires |words| % 2 == 1 && |words| < BufferRoom(free)
    requires ValidAddr(c.n, e.addr) && words[|words| - 1] == e.data
    requires copy ==> |v.logs| == c.n && (c.mapped ==> IsLive(v, e))
    requires !copy ==> pend == |words| / 2 && (c.mapped ==> v.logs != [] && NoneLive(c.n, v))
    requires c.mapped ==> table' == table[e.addr := Current(c.n, v) * PAGE_CELLS + 2 + 2 * |Newest(v)|]
    ensures var hist', pend' := if copy then hist else hist + [e], if copy then pend else pend + 1;
      && Consistent(c, flash, AppendTo(v, [e]), free, words + [KeyOf(e.addr, e.data)], table', hist', pend')
      && Recorded(c, hist', pend', flash, images, notes)
  {
    hide Encodes, Buffered, Durable, TableOk, Fits, IsLive;
    if copy {
      CopyPushed(c, flash, v, free, words, table, hist, pend, e);
    } else {
      UserPushed(c, flash, v, free, words, table, hist, pend, e);
      TraceGrows(c, hist, e, images, notes);
    }
  }

  lemma TableLookup(c: Config, flash: Image, v: View, free: nat, words: seq<Word>, table: map<Addr, nat>,
                    hist: PageLog, pend: nat, a: Addr)
    requires Consistent(c, flash, v, free, words, table, hist, pend) && c.mapped
    ensures ReadTable(table, a) == Where(c.n, v, a)
    ensures forall r | 0 <= r < |v.logs| :: |v.logs[r]| <= PAGE_PAIRS
  {
    hide Encodes, Durable, Buffered, Fits, Where;
    ConsistentFacts(c, flash, v, free, words, table, hist, pend);
  }

  /** A scan that has passed every page after `r` has searched the tail of the log. */
  lemma FoundInTail(logs: seq<PageLog>, a: Addr, r: nat, found: bool)
    requires r < |logs| && forall i | r < i < |logs| :: Last(logs[i], a) < 0
    requires if found then r > 0 && Last(logs[r], a) >= 0 else r == 0
    ensures found <==> a in MapOfLogs(logs[1..])
  {
    var rest := logs[1..];
    LastPageIsMapped(rest, a);
    forall i | 0 <= i < |rest| ensures Last(rest[i], a) == Last(logs[i + 1], a) {}
    if found { assert rest[r - 1] == logs[r]; }
  }

  // ----- reading

  lemma BufferedPair(n: nat, words: seq<Word>, es: PageLog, j: nat)
    requires Buffered(n, words, es) && j < |es|
    ensures 2 * j + 1 < |words| && words[2 * j] == es[j].data && words[2 * j + 1] == KeyOf(es[j].addr, es[j].data)
    ensures ValidAddr(n, es[j].addr)
  {
  }

  /** Every non-zero table entry is the index of a data cell; when the newest pair of the address
      is on flash, the entry points at exactly that pair. */
  lemma TablePair(c: Config, flash: Image, v: View, free: nat, words: seq<Word>, table: map<Addr, nat>,
                  hist: PageLog, pend: nat, a: Addr)
    requires Consistent(c, flash, v, free, words, table, hist, pend) && c.mapped
    ensures INFO_SIZE <= free && Flushed(free) <= |Newest(v)|
    ensures var phys := Where(c.n, v, a);
      var p, i := PageOf(phys), CellOf(phys);
      phys != 0 ==> p < |flash| && i + 1 < |flash[p].cells| && i >= 2 && i % 2 == 0
    ensures a !in MapOf(Newest(v)[Flushed(free)..]) ==>
      var m, phys := MapOfLogs(Truncate(v, Flushed(free)).logs), Where(c.n, v, a);
      var p, i := PageOf(phys), CellOf(phys);
      && (phys == 0 <==> a !in m)
      && (phys != 0 ==> flash[p].cells[i] == m[a] && flash[p].cells[i + 1] == KeyOf(a, m[a]))
  {
    hide Encodes, TableOk, Durable, Fits, Buffered, MapOf, MapOfLogs, Where, Truncate, Last, LastPage, At, PageOf, CellOf;
    var f := Flushed(free);
    var u := Truncate(v, f);
    ConsistentFacts(c, flash, v, free, words, table, hist, pend);
    WhereDecodes(c.n, v, a);
    TruncatedMap(v, f);
    if a in MapOfLogs(v.logs) {
      var r := LastPage(v.logs, a);
      PageCells(c.n, flash, u, At(c.n, v.first, r));
      if a !in MapOf(Newest(v)[f..]) {
        FlashPair(c.n, flash, v, f, a);
      }
    }
  }

  lemma FlashPair(n: nat, flash: Image, v: View, f: nat, a: Addr)
    requires v.logs != [] && f <= |Newest(v)| && Encodes(n, flash, Truncate(v, f))
    requires a !in MapOf(Newest(v)[f..]) && a in MapOfLogs(v.logs)
    ensures LastPage(v.logs, a) >= 0
    ensures var r := LastPage(v.logs, a);
      var p, w := At(n, v.first, r), Last(v.logs[r], a);
      && 0 <= w < PAGE_PAIRS && p < |flash| && |flash[p].cells| == PAGE_CELLS
      && flash[p].cells[2 + 2 * w] == MapOfLogs(v.logs)[a]
      && flash[p].cells[3 + 2 * w] == KeyOf(a, MapOfLogs(v.logs)[a])
  {
    hide Encodes, MapOf, MapOfLogs;
    LastPageIsMapped(v.logs, a);
    NotWaiting(v, f, a);
    PageReads(n, flash, Truncate(v, f), LastPage(v.logs, a), Last(v.logs[LastPage(v.logs, a)], a));
  }

  lemma TruncatedMap(v: View, f: nat)
    requires v.logs != [] && f <= |Newest(v)|
    ensures MapOfLogs(v.logs) == MapOfLogs(Truncate(v, f).logs) + MapOf(Newest(v)[f..])
  {
    var u, es := Truncate(v, f), Newest(v)[f..];
    assert Newest(v)[..f] + es == Newest(v);
    assert Append(u.logs, es) == v.logs;
    MapOfAppend(u.logs, es);
  }

  lemma NotWaiting(v: View, f: nat, a: Addr)
    requires v.logs != [] && f <= |Newest(v)| && a !in MapOf(Newest(v)[f..]) && LastPage(v.logs, a) >= 0
    ensures var r := LastPage(v.logs, a);
      var w, u := Last(v.logs[r], a), Truncate(v, f);
      0 <= w < |u.logs[r]| && u.logs[r][w] == v.logs[r][w]
  {
    var r := LastPage(v.logs, a);
    var w, es := Last(v.logs[r], a), Newest(v)[f..];
    if r == |v.logs| - 1 && w >= f {
      assert es[w - f].addr == a;
      MapKeys(es, w - f);
    }
  }

  /** The outcome of a lookup in the map `m`. */
  ghost predicate Looked(m: map<Addr, Word>, a: Addr, ret: nat, value: Word) {
    if a in m then ret == 0 && value == m[a] else ret == 2
  }

  /** The two words below `k`, counted in pairs from the end, are a pair of `a` that passes the check. */
  predicate PairAt(words: seq<Word>, k: int, a: Addr) {
    2 <= k <= |words| && (|words| - k) % 2 == 0 && KeyAddr(words[k - 1]) == a && CrcOk(words[k - 1], words[k - 2])
  }

  /** `value` belongs to the last such pair. */
  ghost predicate LastPairIs(words: seq<Word>, a: Addr, value: Word) {
    exists k :: PairAt(words, k, a) && value == words[k - 2] && forall j | k < j <= |words| :: !PairAt(words, j, a)
  }

  lemma PairsLooked(n: nat, words: seq<Word>, es: PageLog, a: Addr, ret: nat, value: Word)
    requires Buffered(n, words, es) && |words| == 2 * |es|
    requires ret == 0 || ret == 2
    requires ret == 0 ==> LastPairIs(words, a, value)
    requires ret != 0 ==> forall k :: !PairAt(words, k, a)
    ensures Looked(MapOf(es), a, ret, value)
  {
    hide MapOf, KeyAddr, CrcOk, KeyOf, ValidAddr;
    LastIsMapped(es, a);
    forall w | 0 <= w < |es| ensures PairAt(words, 2 * w + 2, a) <==> es[w].addr == a { BufferedPair(n, words, es, w); }
    if ret == 0 {
      var k :| PairAt(words, k, a) && value == words[k - 2] && forall j | k < j <= |words| :: !PairAt(words, j, a);
      var w := (k - 2) / 2;
      assert k == 2 * w + 2;
      forall i | w < i < |es| ensures es[i].addr != a { assert !PairAt(words, 2 * i + 2, a); }
      BufferedPair(n, words, es, w);
    }
  }

  /** Cell `k` holds a key of `a`, as a scan down the odd cells reads it. */
  predicate KeyAt(cells: seq<Word>, k: int, a: Addr) {
    3 <= k < |cells| && k % 2 == 1 && KeyAddr(cells[k]) == a
  }

  predicate PassesAt(cells: seq<Word>, k: int, a: Addr) {
    KeyAt(cells, k, a) && CrcOk(cells[k], cells[k - 1])
  }

  /** `value` belongs to the first key of `a` down from cell `top` that passes the check... */
  ghost predicate FirstPassing(cells: seq<Word>, top: int, a: Addr, value: Word) {
    exists k :: k <= top && PassesAt(cells, k, a) && value == cells[k - 1] && forall j | k < j <= top :: !PassesAt(cells, j, a)
  }

  /** ... or to the lowest key of `a` above cell `bottom`. */
  ghost predicate LowestKey(cells: seq<Word>, bottom: int, top: int, a: Addr, value: Word) {
    exists k :: bottom < k <= top && KeyAt(cells, k, a) && value == cells[k - 1] && forall j | bottom < j < k :: !KeyAt(cells, j, a)
  }

  /** What a scan from cell `top` finds: the first pair that passes the check; if none does but there is
      a key of the address, an error and the data word of the last one looked at. */
  ghost predicate PageScanned(cells: seq<Word>, top: int, a: Addr, found: bool, ret: nat, value: Word) {
    && (found <==> exists k :: k <= top && KeyAt(cells, k, a))
    && (found && ret == 0 ==> FirstPassing(cells, top, a, value))
    && (found && ret != 0 ==> ret == 6 && LowestKey(cells, 0, top, a, value) && forall j | j <= top :: !PassesAt(cells, j, a))
  }

  lemma LowestDown(cells: seq<Word>, bottom: int, top: int, a: Addr, value: Word)
    requires bottom < 3 && LowestKey(cells, bottom, top, a, value)
    ensures LowestKey(cells, 0, top, a, value)
  {
    hide KeyAddr;
    var k :| bottom < k <= top && KeyAt(cells, k, a) && value == cells[k - 1] && forall j | bottom < j < k :: !KeyAt(cells, j, a);
    assert forall j | 0 < j < k :: !KeyAt(cells, j, a);
  }

  /** On a page of the log every pair passes. */
  lemma PageLooked(n: nat, f: Image, v: View, r: nat, a: Addr, found: bool, ret: nat, value: Word)
    requires Encodes(n, f, v) && r < |v.logs| && At(n, v.first, r) < |f|
    requires PageScanned(f[At(n, v.first, r)].cells, 2 * |v.logs[r]| + 1, a, found, ret, value)
    ensures found <==> Last(v.logs[r], a) >= 0
    ensures found ==> ret == 0 && value == v.logs[r][Last(v.logs[r], a)].data
  {
    hide Encodes, KeyAddr, CrcOk, KeyOf, ValidAddr, Last, At;
    var cells, es := f[At(n, v.first, r)].cells, v.logs[r];
    forall w | 0 <= w < |es|
      ensures 3 + 2 * w < |cells| && cells[2 + 2 * w] == es[w].data && (KeyAt(cells, 3 + 2 * w, a) <==> es[w].addr == a)
      ensures PassesAt(cells, 3 + 2 * w, a) <==> es[w].addr == a
    {
      PageReads(n, f, v, r, w);
    }
    var last := Last(es, a);
    if last >= 0 { assert PassesAt(cells, 3 + 2 * last, a) && KeyAt(cells, 3 + 2 * last, a); }
    if found {
      var k :| k <= 2 * |es| + 1 && KeyAt(cells, k, a);
      assert k == 3 + 2 * ((k - 3) / 2);
      assert es[(k - 3) / 2].addr == a;
      if ret == 0 {
        var p :| p <= 2 * |es| + 1 && PassesAt(cells, p, a) && value == cells[p - 1]
          && forall j | p < j <= 2 * |es| + 1 :: !PassesAt(cells, j, a);
        var w := (p - 3) / 2;
        assert p == 3 + 2 * w;
        if w < last { assert false; }
        assert es[w].addr == a;
      }
    }
  }

  lemma ConsistentBuffered(c: Config, flash: Image, v: View, free: nat, words: seq<Word>,
                           table: map<Addr, nat>, hist: PageLog, pend: nat)
    requires Consistent(c, flash, v, free, words, table, hist, pend) && |words| % 2 == 0
    ensures v.logs != [] && INFO_SIZE <= free && Flushed(free) <= |Newest(v)|
    ensures Buffered(c.n, words, Newest(v)[Flushed(free)..]) && |words| == 2 * |Newest(v)[Flushed(free)..]|
  {
    hide Encodes, TableOk, Durable, Fits;
  }

  // ----- rebuilding the table

  /** The table after a backward scan that has reached pair `w` of page `r`. */
  ghost predicate Scanned(n: nat, v: View, table: map<Addr, nat>, r: nat, w: nat)
    requires r < |v.logs|
  {
    forall a: Addr :: ReadTable(table, a) ==
      if LastPage(v.logs, a) > r || (LastPage(v.logs, a) == r && Last(v.logs[r], a) >= w) then Where(n, v, a) else 0
  }

  lemma ScannedStart(n: nat, v: View, table: map<Addr, nat>)
    requires v.logs != [] && table == map[]
    ensures Scanned(n, v, table, |v.logs| - 1, |v.logs[|v.logs| - 1]|)
  {
  }

  /** A pair whose address is not in the table yet is the newest of its address. */
  lemma ScannedStep(n: nat, v: View, table: map<Addr, nat>, r: nat, w: nat, a: Addr, phys: nat)
    requires n <= 4 && v.first < n && |v.logs| <= n && r < |v.logs| && 0 < w <= |v.logs[r]| <= PAGE_PAIRS
    requires Scanned(n, v, table, r, w) && a == v.logs[r][w - 1].addr
    requires phys == PhysOf(At(n, v.first, r), 2 * w)
    ensures Scanned(n, v, if ReadTable(table, a) == 0 then table[a := phys] else table, r, w - 1)
  {
    hide Last, LastPage;
    var table' := if ReadTable(table, a) == 0 then table[a := phys] else table;
    var es := v.logs[r];
    assert phys == At(n, v.first, r) * PAGE_CELLS + 2 + 2 * (w - 1);
    assert Last(es, a) >= w - 1 && LastPage(v.logs, a) >= r;
    assert ReadTable(table, a) == 0 ==> Where(n, v, a) == phys;
    assert ReadTable(table, a) != 0 ==> LastPage(v.logs, a) > r || Last(es, a) >= w;
    hide PhysOf, At, Where;
    forall b: Addr ensures ReadTable(table', b) ==
      if LastPage(v.logs, b) > r || (LastPage(v.logs, b) == r && Last(es, b) >= w - 1) then Where(n, v, b) else 0
    {
      assert ReadTable(table, b) ==
        if LastPage(v.logs, b) > r || (LastPage(v.logs, b) == r && Last(es, b) >= w) then Where(n, v, b) else 0;
      if b != a { assert Last(es, b) != w - 1; }
    }
  }

  lemma ScannedPage(n: nat, v: View, table: map<Addr, nat>, r: nat)
    requires 0 < r < |v.logs| && Scanned(n, v, table, r, 0)
    ensures Scanned(n, v, table, r - 1, |v.logs[r - 1]|)
  {
    hide Where;
  }

  lemma ScannedEnd(n: nat, v: View, table: map<Addr, nat>)
    requires v.logs != [] && Scanned(n, v, table, 0, 0)
    ensures TableOk(n, v, table)
  {
    forall a: Addr ensures ReadTable(table, a) == Where(n, v, a) {}
  }

  // ----- states at mount

  lemma AllErased(n: nat, f: Image)
    requires n > 0 && |f| == n && forall p | 0 <= p < n :: !f[p].valid && |f[p].cells| == PAGE_CELLS
    ensures Encodes(n, f, View(0, 0, []))
  {
    var v := View(0, 0, []);
    forall p | 0 <= p < n ensures PageFits(n, f, v, p) {}
  }

  /** With an empty buffer, the flash, a table built from it and the writes it holds agree. */
  lemma Mounted(c: Config, flash: Image, v: View, table: map<Addr, nat>, hist: PageLog)
    requires 2 <= c.n <= 255 && (c.mapped ==> c.n <= 4) && PAGE_PAIRS <= c.cap
    requires Encodes(c.n, flash, v) && v.logs != []
    requires c.mapped ==> MapOfLogs(v.logs) == MapOf(hist) && (TableOk(c.n, v, table) || (table == map[] && MapOfLogs(v.logs) == map[]))
    requires c.mapped ==> Fits(c.n, v, c.cap)
    ensures |Newest(v)| <= PAGE_PAIRS
    ensures Consistent(c, flash, v, INFO_SIZE + 2 * |Newest(v)|, [], table, hist, 0)
  {
    hide Encodes, TableOk, Fits, MapOf, MapOfLogs, Buffered;
    FirstBound(c.n, flash, v);
    PageLength(c.n, flash, v, |v.logs| - 1);
    TruncateAll(v);
    BufferedNone(c.n, Newest(v)[|Newest(v)|..]);
    if c.mapped {
      assert Reached(hist, 0, 0) == hist;
      if !TableOk(c.n, v, table) { EmptyTable(c.n, v, table); }
    }
  }

  lemma EmptyTable(n: nat, v: View, table: map<Addr, nat>)
    requires table == map[] && MapOfLogs(v.logs) == map[]
    ensures TableOk(n, v, table)
  {
    forall a: Addr ensures ReadTable(table, a) == Where(n, v, a) { LastPageIsMapped(v.logs, a); }
  }

  lemma TraceStarts(c: Config, hist: PageLog, f: Image, note: Note)
    requires ImageOk(c, hist, f, note) && note.upto == |hist|
    ensures Recorded(c, hist, 0, f, [f], [note])
  {
    hide ImageOk;
  }

  /** The state after the very first format. */
  lemma MountedEmpty(c: Config, flash: Image, table: map<Addr, nat>, hist: PageLog, fs: seq<Format>)
    requires fs == [Format(0, 0)]
    requires 2 <= c.n <= 255 && (c.mapped ==> c.n <= 4) && PAGE_PAIRS <= c.cap
    requires Encodes(c.n, flash, View(0, 0, [[]])) && table == map[]
    requires c.mapped ==> MapOf(hist) == map[]
    ensures Consistent(c, flash, View(0, 0, [[]]), INFO_SIZE, [], table, hist, 0)
    ensures ImageOk(c, hist, flash, Note(View(0, 0, [[]]), |hist|, fs))
    ensures Current(c.n, View(0, 0, [[]])) == 0 && Rotated(c.n, fs, View(0, 0, [[]]))
  {
    hide Encodes, Fits, Consistent, ImageOk;
    var v := View(0, 0, [[]]);
    FitsDropped(c.n, v, c.cap);
    MapOfAddPage([]);
    assert [] + [[]] == v.logs;
    Mounted(c, flash, v, table, hist);
    RestingImage(c, flash, v, INFO_SIZE, table, hist, fs);
  }

  /** The trace of the very first format. */
  ghost function FirstNotes(v: View, upto: nat): seq<Note> {
    [Note(v, upto, []), Note(View(0, 0, [[]]), upto, [Format(0, 0)])]
  }

  lemma BlankImage(c: Config, hist: PageLog, f: Image, v: View)
    requires c.n > 0 && Encodes(c.n, f, v) && v.logs == [] && (c.mapped ==> MapOf(hist) == map[])
    ensures ImageOk(c, hist, f, Note(v, |hist|, []))
  {
    hide Encodes;
    assert hist[..|hist|] == hist;
  }

  lemma EmptyLogFits(n: nat, cap: nat)
    requires n >= 2
    ensures Fits(n, View(0, 0, [[]]), cap)
  {
  }

  /** The bound a mount starts with: what the newest page will hold when recovery has copied, and
      never less than a page. */
  function MountCap(n: nat, v: View): nat {
    if |v.logs| == n > 0 then Max(PAGE_PAIRS, |Newest(v)| + |LiveKeys(v)|) else PAGE_PAIRS
  }

  /** The trace starts with the image found at power-up. */
  lemma PowerUp(c: Config, hist: PageLog, f: Image, v: View, fs: seq<Format>)
    requires c.cap == MountCap(c.n, v) && Encodes(c.n, f, v) && Rotated(c.n, fs, v)
    requires c.mapped ==> MapOfLogs(v.logs) == MapOf(hist)
    ensures Recorded(c, hist, 0, f, [f], [Note(v, |hist|, fs)]) && FormatsOf([Note(v, |hist|, fs)]) == fs
    ensures (c.mapped ==> Fits(c.n, v, c.cap)) && PAGE_PAIRS <= c.cap
  {
    hide Encodes, MapOf, MapOfLogs, Rotated, LiveKeys;
    assert hist[..|hist|] == hist;
    TraceStarts(c, hist, f, Note(v, |hist|, fs));
  }
}
