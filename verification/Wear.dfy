/** Wear levelling: pages are formatted strictly in turn, with and without the mapping table, whether
    or not erases succeed, and across power cuts. */
module Wear {
  import opened Words
  import opened Log
  import opened Flash
  import opened Invariant
  import opened Collect
  import opened Layer

  /** How often page `p` was formatted. */
  function Count(fs: seq<Format>, p: nat): nat {
    if fs == [] then 0
    else Count(fs[..|fs| - 1], p) + (if fs[|fs| - 1].page == p then 1 else 0)
  }

  /** Nothing was formatted before page 0 with sequence number 0. */
  ghost predicate FromFirst(fs: seq<Format>) {
    fs != [] ==> fs[0] == Format(0, 0)
  }

  // ----- formats in turn

  function Quot(x: nat, m: nat): nat
    requires m > 0
  {
    x / m
  }

  function Rem(x: nat, m: nat): (r: nat)
    requires m > 0
    ensures r < m
  {
    x % m
  }

  lemma QuotOf(x: nat, m: nat, q: nat, r: nat)
    requires r < m && x == m * q + r
    ensures Rem(x, m) == r && Quot(x, m) == q
  {
    var q' := x / m;
    assert x == m * q' + x % m;
    if q' > q {
      TimesMore(m, q, q');
      assert false;
    } else if q' < q {
      TimesMore(m, q', q);
      assert false;
    }
  }

  lemma TimesMore(m: nat, a: nat, b: nat)
    requires a < b
    ensures m * a + m <= m * b
  {
    assert m * b == m * (a + 1) + m * (b - (a + 1));
  }

  /** Quotient and remainder of the next number. */
  lemma NextRem(x: nat, m: nat)
    requires m > 1
    ensures if Rem(x, m) + 1 == m then Quot(x + 1, m) == Quot(x, m) + 1 && Rem(x + 1, m) == 0
            else Quot(x + 1, m) == Quot(x, m) && Rem(x + 1, m) == Rem(x, m) + 1
    ensures (Rem(x, m) + 1) % m == Rem(x + 1, m)
  {
    var q, r := Quot(x, m), Rem(x, m);
    assert x == m * q + r;
    if r + 1 == m {
      assert x + 1 == m * (q + 1);
      QuotOf(x + 1, m, q + 1, 0);
      QuotOf(r + 1, m, 1, 0);
    } else {
      QuotOf(x + 1, m, q, r + 1);
      QuotOf(r + 1, m, 0, r + 1);
    }
  }

  lemma {:induction false} InTurnAt(n: nat, fs: seq<Format>, i: nat)
    requires n > 1 && InTurn(n, fs) && FromFirst(fs) && i < |fs|
    ensures fs[i].page == Rem(i, n) && fs[i].sequence == Rem(i, 0x100)
    decreases i
  {
    if i == 0 {
      QuotOf(0, n, 0, 0);
    } else {
      InTurnAt(n, fs, i - 1);
      assert fs[i] == Format(Next(n, fs[i - 1].page), (fs[i - 1].sequence + 1) % 0x100);
      NextRem(i - 1, n);
      NextRem(i - 1, 0x100);
      hide Rem;
    }
  }

  /** Pages formatted in turn: all equally often, but for the first few once more. */
  lemma {:induction false} CountInTurn(n: nat, fs: seq<Format>, p: nat)
    requires n > 1 && p < n && forall i | 0 <= i < |fs| :: fs[i].page == Rem(i, n)
    ensures Count(fs, p) == Quot(|fs|, n) + (if p < Rem(|fs|, n) then 1 else 0)
    decreases |fs|
  {
    hide Quot, Rem;
    if fs == [] {
      QuotOf(0, n, 0, 0);
    } else {
      CountInTurn(n, fs[..|fs| - 1], p);
      NextRem(|fs| - 1, n);
    }
  }

  /** Over a whole history of formats the last one is number `|fs| - 1` round the ring, its sequence
      number counts them modulo 256, and no page is formatted twice more than another. */
  lemma RoundRobin(n: nat, fs: seq<Format>, v: View, p: nat, q: nat)
    requires n > 1 && Rotated(n, fs, v) && FromFirst(fs) && v.logs != [] && p < n && q < n
    ensures fs != [] && Current(n, v) == (|fs| - 1) % n && Sequence(v) == (|fs| - 1) % 0x100
    ensures Count(fs, p) <= Count(fs, q) + 1
  {
    InTurnAt(n, fs, |fs| - 1);
    forall i | 0 <= i < |fs| ensures fs[i].page == Rem(i, n) { InTurnAt(n, fs, i); }
    CountInTurn(n, fs, p);
    CountInTurn(n, fs, q);
  }

  // ----- the layer

  /** From entry `lo` of the trace on, the formats go back to the first one. */
  ghost predicate Turned(ftl: Ftl, lo: nat)
    reads ftl, ftl.buffer
  {
    && ftl.Settled() && lo < |ftl.images| == |ftl.notes|
    && forall i | lo <= i < |ftl.notes| :: FromFirst(ftl.notes[i].formats)
  }

  /** The current page and its sequence number count the formats, and all pages are worn alike. */
  ghost predicate Even(n: nat, fs: seq<Format>, flash: Image, cur: nat) {
    && n == |flash| > cur && fs != []
    && cur == (|fs| - 1) % n && flash[cur].sequence == (|fs| - 1) % 0x100
    && forall p, q | 0 <= p < n && 0 <= q < n :: Count(fs, p) <= Count(fs, q) + 1
  }

  /** So it is whenever the formats go back to the first one. */
  lemma EvenWear(ftl: Ftl, lo: nat)
    requires Turned(ftl, lo)
    ensures Even(ftl.n, FormatsOf(ftl.notes), ftl.flash, ftl.cur)
  {
    hide *;
    TurnedParts(ftl, lo);
    ftl.Facts();
    ftl.Parts();
    ghost var fs := FormatsOf(ftl.notes);
    StoredSequence(ftl);
    RoundRobin(ftl.n, fs, ftl.view, 0, 0);
    forall p, q | 0 <= p < ftl.n && 0 <= q < ftl.n ensures Count(fs, p) <= Count(fs, q) + 1 {
      RoundRobin(ftl.n, fs, ftl.view, p, q);
    }
    EvenMade(ftl.n, fs, ftl.flash, ftl.cur);
  }

  lemma TurnedParts(ftl: Ftl, lo: nat)
    requires Turned(ftl, lo)
    ensures ftl.Valid() && FromFirst(FormatsOf(ftl.notes))
  {
    hide Ftl.Valid, FromFirst;
  }

  lemma EvenMade(n: nat, fs: seq<Format>, flash: Image, cur: nat)
    requires n == |flash| > cur && fs != []
    requires cur == (|fs| - 1) % n && flash[cur].sequence == (|fs| - 1) % 0x100
    requires forall p, q | 0 <= p < n && 0 <= q < n :: Count(fs, p) <= Count(fs, q) + 1
    ensures Even(n, fs, flash, cur)
  {
  }

  lemma StoredSequence(ftl: Ftl)
    requires ftl.Valid()
    ensures ftl.view.logs != [] && ftl.cur < |ftl.flash| && ftl.flash[ftl.cur].sequence == Sequence(ftl.view)
  {
    hide *;
    ftl.Facts();
    ftl.Parts();
    ConsistentEncodes(ftl.conf, ftl.flash, ftl.view, ftl.free, ftl.buffer[..ftl.writeIndex], ftl.table, ftl.hist, ftl.pend);
    TruncateCurrent(ftl.n, ftl.view, Flushed(ftl.free));
    CurrentSequence(ftl.n, ftl.flash, Truncate(ftl.view, Flushed(ftl.free)));
  }

  lemma CurrentSequence(n: nat, f: Image, v: View)
    requires Encodes(n, f, v) && v.logs != []
    ensures Current(n, v) < n == |f| && f[Current(n, v)].sequence == Sequence(v)
  {
    PlaceAt(n, v.first, |v.logs| - 1);
    assert PageFits(n, f, v, Current(n, v));
  }

  /** A trace that goes on from one that goes back to the first format does so itself. */
  lemma TurnedOn(im: seq<Image>, no: seq<Note>, im': seq<Image>, no': seq<Note>, lower: int)
    requires Continues(im, no, im', no', lower) && no != []
    requires FormatsOf(no) != [] && FromFirst(FormatsOf(no))
    ensures |no| <= |no'| && forall i | |no| - 1 <= i < |no'| :: FromFirst(no'[i].formats)
  {
    assert no'[|no| - 1] == no'[..|no|][|no| - 1];
  }

  /** The first mount starts the history. */
  method WearStart(blank: Image, n: nat, useTable: bool, eraseWorks: bool) returns (ftl: Ftl)
    requires 2 <= n <= 255 && (useTable ==> n <= 4) && Encodes(n, blank, View(0, 0, []))
    ensures fresh(ftl) && fresh(ftl.buffer) && ftl.n == n && ftl.mapped == useTable && ftl.reliable == eraseWorks
    ensures Turned(ftl, 0)
  {
    hide Recorded, Consistent, Encodes, Rotated, MapOf, MapOfLogs, Continues;
    EmptyMaps();
    BlankRotated(n);
    ftl := new Ftl.Mount(blank, n, useTable, eraseWorks, View(0, 0, []), [], []);
    LastNote(ftl.conf, ftl.hist, ftl.pend, ftl.flash, ftl.images, ftl.notes);
  }

  lemma BlankRotated(n: nat)
    requires n > 0
    ensures Rotated(n, [], View(0, 0, []))
  {
  }

  lemma LastNote(c: Config, hist: PageLog, pend: int, flash: Image, images: seq<Image>, notes: seq<Note>)
    requires Recorded(c, hist, pend, flash, images, notes)
    ensures |images| == |notes| > 0 && notes[|notes| - 1].upto + pend == |hist|
    ensures images[|images| - 1] == flash
  {
  }

  /** Every write continues it, in either mode, whatever it flushes, formats and collects. */
  method WearPut(ftl: Ftl, a: Addr, d: Word, lo: nat) returns (lo': nat)
    requires Turned(ftl, lo) && ftl.free < PAGE_CELLS && !ftl.collecting && ftl.pend == ftl.writeIndex / 2
    requires ValidAddr(ftl.n, a) ==>
      && ftl.view.logs != [] && (ftl.mapped ==> NoneLive(ftl.n, ftl.view))
      && SettleRoom(ftl.n, ftl.mapped, AppendTo(ftl.view, [Entry(a, d)]))
    modifies ftl, ftl.buffer
    ensures Turned(ftl, lo') && !ftl.collecting && ftl.pend == ftl.writeIndex / 2
    ensures FormatsOf(old(ftl.notes)) <= FormatsOf(ftl.notes)
  {
    hide Recorded, Consistent, Continues, SettledTo, SettleRoom, AppendTo, Shows, FromFirst, Rotated;
    ghost var im, no, low := ftl.images, ftl.notes, |ftl.hist| - ftl.pend;
    lo' := |ftl.images| - 1;
    HasFormats(ftl);
    ContinuesRefl(im, no, low);
    var _ := ftl.Write(a, d, false);
    LastNote(ftl.conf, ftl.hist, ftl.pend, ftl.flash, ftl.images, ftl.notes);
    TurnedOn(im, no, ftl.images, ftl.notes, low);
    FormatsKept(im, no, ftl.images, ftl.notes, low);
  }

  lemma HasFormats(ftl: Ftl)
    requires ftl.Settled()
    ensures FormatsOf(ftl.notes) != []
  {
    hide Recorded, Consistent;
    ConsistentFacts(ftl.conf, ftl.flash, ftl.view, ftl.free, ftl.buffer[..ftl.writeIndex], ftl.table, ftl.hist, ftl.pend);
  }

  lemma FormatsKept(im: seq<Image>, no: seq<Note>, im': seq<Image>, no': seq<Note>, lower: int)
    requires Continues(im, no, im', no', lower)
    ensures FormatsOf(no) <= FormatsOf(no')
  {
    if |no'| == |no| { assert no' == no'[..|no|]; }
  }

  /** So does a mount, of any state of the flash on the trace from `lo` on, unless it clears all. */
  method WearCut(ftl: Ftl, k: nat, lo: nat) returns (woken: Ftl)
    requires Turned(ftl, lo) && lo <= k < |ftl.images|
    requires |ftl.notes[k].view.logs| == ftl.n > 0 ==> !Overflows(ftl.mapped, ftl.notes[k].view)
    ensures fresh(woken) && fresh(woken.buffer)
    ensures woken.n == ftl.n && woken.mapped == ftl.mapped && woken.reliable == ftl.reliable
    ensures Turned(woken, 0) && !woken.collecting && woken.pend == woken.writeIndex / 2
    ensures ftl.notes[k].formats <= FormatsOf(woken.notes)
  {
    hide Consistent, Encodes, Fits, MountCap, Overflows, MapOf, MapOfLogs, Continues, MountedTo, Rotated, FromFirst, TraceOk;
    ghost var note := ftl.notes[k];
    ConsistentFacts(ftl.conf, ftl.flash, ftl.view, ftl.free, ftl.buffer[..ftl.writeIndex], ftl.table, ftl.hist, ftl.pend);
    TraceAt(ftl.conf, ftl.hist, ftl.images, ftl.notes, k);
    woken := new Ftl.Mount(ftl.images[k], ftl.n, ftl.mapped, ftl.reliable, note.view, ftl.hist[..note.upto], note.formats);
    LastNote(woken.conf, woken.hist, woken.pend, woken.flash, woken.images, woken.notes);
    WokenTurned(ftl.n, ftl.images[k], note, woken.images, woken.notes, woken.hist);
  }

  lemma TraceAt(c: Config, hist: PageLog, images: seq<Image>, notes: seq<Note>, k: nat)
    requires TraceOk(c, hist, images, notes) && k < |notes|
    ensures |images| == |notes| && notes[k].upto <= |hist|
    ensures Encodes(c.n, images[k], notes[k].view) && Rotated(c.n, notes[k].formats, notes[k].view)
    ensures |notes[k].view.logs| <= c.n
    ensures c.mapped ==> MapOfLogs(notes[k].view.logs) == MapOf(hist[..notes[k].upto])
  {
    assert ImageOk(c, hist, images[k], notes[k]);
    hide Rotated, MapOf, MapOfLogs;
  }

  /** The trace of a mount goes back to the first format if the image's history does. */
  lemma WokenTurned(n: nat, f: Image, note: Note, images: seq<Image>, notes: seq<Note>, hist: PageLog)
    requires Rotated(n, note.formats, note.view) && FromFirst(note.formats)
    requires notes != [] && Continues([f], [Note(note.view, |hist|, note.formats)], images, notes, |hist|)
    requires note.view.logs == [] ==> notes == [Note(note.view, |hist|, note.formats)] + FirstNotes(note.view, |hist|)
    ensures forall i | 0 <= i < |notes| :: FromFirst(notes[i].formats)
    ensures note.formats <= FormatsOf(notes)
  {
    var first := [Note(note.view, |hist|, note.formats)];
    FormatsKept([f], first, images, notes, |hist|);
    if note.view.logs != [] { TurnedOn([f], first, images, notes, |hist|); }
  }
}
