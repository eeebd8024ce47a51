/** The NOR flash device, the operations the layer performs on it, and what it means for a flash
    image to hold a log. */
module Flash {
  import Crc
  import opened Words
  import opened Log

  /** The two header cells hold the valid mark, the 8-bit sequence number and the end position;
      their encoding belongs to the ROM, so they appear here as fields. */
  datatype Page = Page(valid: bool, sequence: Byte, end: Option<nat>, cells: seq<Word>)

  type Image = seq<Page>

  /** What the pages mean: the oldest valid page, its sequence number and the entries of every
      valid page, oldest first. */
  datatype View = View(first: nat, sequence: Byte, logs: seq<PageLog>)

  // ----- ring arithmetic

  /** The page `r` places after `first`. */
  function At(n: nat, first: nat, r: nat): nat {
    if first + r >= n then first + r - n else first + r
  }

  /** The page after `p`. */
  function Next(n: nat, p: nat): nat
    requires n > 0
  {
    (p + 1) % n
  }

  /** How many places `p` comes after `first`. */
  function Place(n: nat, first: nat, p: nat): nat
    requires first < n && p < n
  {
    if p >= first then p - first else p + n - first
  }

  // ----- device operations

  /** NOR cells are programmed by clearing bits. */
  function And(x: nat, y: nat): (r: nat)
    ensures r <= x
  {
    if x == 0 || y == 0 then 0
    else 2 * And(x / 2, y / 2) + (if x % 2 == 1 && y % 2 == 1 then 1 else 0)
  }

  lemma {:induction false} AndBits(x: nat, y: nat, j: nat)
    ensures Crc.Bit(And(x, y), j) == (Crc.Bit(x, j) && Crc.Bit(y, j))
    decreases j
  {
    if x == 0 || y == 0 {
      Crc.BitOfZero(j);
    } else if j > 0 {
      AndBits(x / 2, y / 2, j - 1);
    }
  }

  function ProgramCell(f: Image, p: nat, c: nat, w: Word): Image
    requires p < |f| && c < |f[p].cells|
  {
    f[p := f[p].(cells := f[p].cells[c := And(f[p].cells[c], w)])]
  }

  function Erase(f: Image, p: nat): (g: Image)
    requires p < |f|
    ensures |g| == |f|
  {
    f[p := Page(false, 0, None, seq(PAGE_CELLS, _ => ERASED))]
  }

  function WriteHeader(f: Image, p: nat, sequence: Byte): (g: Image)
    requires p < |f|
    ensures |g| == |f|
  {
    f[p := f[p].(valid := true, sequence := sequence, end := None)]
  }

  function SetEnd(f: Image, p: nat, end: nat): (g: Image)
    requires p < |f|
    ensures |g| == |f|
  {
    f[p := f[p].(end := Some(end))]
  }

  function Invalidate(f: Image, p: nat): Image
    requires p < |f|
  {
    f[p := f[p].(valid := false)]
  }

  /** The page `next` formatted as the one that comes after page `cur`. */
  function Opened(f: Image, cur: nat, next: nat): (g: Image)
    requires cur < |f| && next < |f|
    ensures |g| == |f|
  {
    WriteHeader(Erase(f, next), next, (f[cur].sequence + 1) % 0x100)
  }

  /** Exactly the `words` were programmed from cell `c` of page `p` on, where all was erased; nothing
      else of the flash has changed. */
  ghost predicate Programmed(f: Image, f': Image, p: nat, c: nat, words: seq<Word>) {
    && |f'| == |f| && p < |f| && c + |words| <= |f[p].cells| == |f'[p].cells|
    && (forall q | 0 <= q < |f| && q != p :: f'[q] == f[q])
    && f'[p] == f[p].(cells := f'[p].cells)
    && (forall i | 0 <= i < |f[p].cells| && !(c <= i < c + |words|) :: f'[p].cells[i] == f[p].cells[i])
    && (forall i | c <= i < c + |words| :: f[p].cells[i] == ERASED && f'[p].cells[i] == words[i - c])
  }

  /** What the layer does to the device, one step at a time: two erased cells take a pair, or a page is
      erased, or one of its header fields is written. */
  datatype Operation =
    | PutPair(page: nat, cell: nat, data: Word, key: Word)
    | ErasePage(page: nat)
    | PutHeader(page: nat, sequence: Byte)
    | PutEnd(page: nat, end: nat)
    | ClearValid(page: nat)

  predicate Possible(f: Image, op: Operation) {
    && op.page < |f|
    && (op.PutPair? ==> op.cell + 1 < |f[op.page].cells| && f[op.page].cells[op.cell] == f[op.page].cells[op.cell + 1] == ERASED)
  }

  function Operated(f: Image, op: Operation): (g: Image)
    requires Possible(f, op)
    ensures |g| == |f|
  {
    match op
    case PutPair(p, c, data, key) => ProgramCell(ProgramCell(f, p, c, data), p, c + 1, key)
    case ErasePage(p) => Erase(f, p)
    case PutHeader(p, sequence) => WriteHeader(f, p, sequence)
    case PutEnd(p, end) => SetEnd(f, p, end)
    case ClearValid(p) => Invalidate(f, p)
  }

  /** Exactly one operation leads from `f` to `g`. */
  ghost predicate OneOperation(f: Image, g: Image) {
    exists op :: Possible(f, op) && g == Operated(f, op)
  }

  ghost predicate EntryFollows(images: seq<Image>, i: nat)
    requires 0 < i < |images|
  {
    OneOperation(images[i - 1], images[i])
  }

  /** A trace of the device in which no state is left out. */
  ghost predicate Traced(images: seq<Image>) {
    forall i | 0 < i < |images| :: EntryFollows(images, i)
  }

  lemma TracedMore(images: seq<Image>, op: Operation)
    requires images != [] && Traced(images) && Possible(images[|images| - 1], op)
    ensures Traced(images + [Operated(images[|images| - 1], op)])
  {
    hide Possible, Operated;
    var images' := images + [Operated(images[|images| - 1], op)];
    forall i | 0 < i < |images'| ensures EntryFollows(images', i) {
      if i < |images| { assert EntryFollows(images, i); }
    }
  }

  lemma PairPossible(f: Image, f': Image, p: nat, c: nat, data: Word, key: Word)
    requires Programmed(f, f', p, c, [data, key])
    ensures Possible(f, PutPair(p, c, data, key))
    ensures Operated(f, PutPair(p, c, data, key)) == ProgramCell(ProgramCell(f, p, c, data), p, c + 1, key)
  {
    hide And;
  }

  // ----- images that hold a log

  /** The data cells of a page: the pairs of `es`, data at even and key at odd index, then erased
      cells to the end. */
  ghost predicate Holds(n: nat, cells: seq<Word>, es: PageLog) {
    && |cells| == PAGE_CELLS && |es| <= PAGE_PAIRS
    && (forall w | 0 <= w < |es| :: ValidAddr(n, es[w].addr)
                                 && cells[2 + 2 * w] == es[w].data
                                 && cells[3 + 2 * w] == KeyOf(es[w].addr, es[w].data))
    && (forall c | 2 + 2 * |es| <= c < PAGE_CELLS :: cells[c] == ERASED)
  }

  /** Page `p` is not valid, or it has the next sequence number in turn and holds its entries... */
  ghost predicate PageHolds(n: nat, f: Image, v: View, p: nat)
    requires |f| == n && v.first < n && p < n
  {
    var r := Place(n, v.first, p);
    && |f[p].cells| == PAGE_CELLS
    && if r < |v.logs| then
         f[p].valid && f[p].sequence == (v.sequence + r) % 0x100 && Holds(n, f[p].cells, v.logs[r])
       else !f[p].valid
  }

  /** ... and an end position is recorded only when it is full. */
  ghost predicate PageFits(n: nat, f: Image, v: View, p: nat)
    requires |f| == n && v.first < n && p < n
  {
    var r := Place(n, v.first, p);
    && PageHolds(n, f, v, p)
    && (r < |v.logs| ==> f[p].end == None || (f[p].end == Some(PAGE_CELLS - 1) && |v.logs[r]| == PAGE_PAIRS))
  }

  /** The valid pages are a contiguous run of the ring with consecutive sequence numbers, all but
      the newest are full, and they hold exactly the log `v`. */
  ghost predicate Encodes(n: nat, f: Image, v: View) {
    && |f| == n && v.first < n && |v.logs| <= n
    && (forall r | 0 <= r < |v.logs| - 1 :: |v.logs[r]| == PAGE_PAIRS)
    && (forall p | 0 <= p < n :: PageFits(n, f, v, p))
  }

  /** The same, whatever the end positions are. */
  ghost predicate Held(n: nat, f: Image, v: View) {
    && |f| == n && v.first < n && |v.logs| <= n
    && (forall r | 0 <= r < |v.logs| - 1 :: |v.logs[r]| == PAGE_PAIRS)
    && (forall p | 0 <= p < n :: PageHolds(n, f, v, p))
  }

  /** The last operation was the erase of the oldest page of `v`, when the flash held `v`... */
  ghost predicate ErasedLast(n: nat, images: seq<Image>, v: View) {
    && |images| >= 2 && Encodes(n, images[|images| - 2], v)
    && v.first < |images[|images| - 2]| && images[|images| - 1] == Erase(images[|images| - 2], v.first)
  }

  /** ... or its invalidation. */
  ghost predicate ClearedLast(n: nat, images: seq<Image>, v: View) {
    && |images| >= 2 && Encodes(n, images[|images| - 2], v)
    && v.first < |images[|images| - 2]| && images[|images| - 1] == Invalidate(images[|images| - 2], v.first)
  }

  lemma EncodesHeld(n: nat, f: Image, v: View)
    requires Encodes(n, f, v)
    ensures Held(n, f, v)
  {
    forall p | 0 <= p < n ensures PageHolds(n, f, v, p) { assert PageFits(n, f, v, p); }
  }

  // ----- operations on views

  function AppendTo(v: View, es: PageLog): (r: View)
    requires v.logs != []
  {
    v.(logs := Append(v.logs, es))
  }

  function AddPage(v: View): View {
    v.(logs := v.logs + [[]])
  }

  function DropOldest(n: nat, v: View): View
    requires v.logs != []
  {
    View(At(n, v.first, 1), (v.sequence + 1) % 0x100, v.logs[1..])
  }

  /** The newest page, its sequence number, and its entries. */
  function Current(n: nat, v: View): nat
    requires v.logs != []
  {
    At(n, v.first, |v.logs| - 1)
  }

  function Sequence(v: View): Byte
    requires v.logs != []
  {
    (v.sequence + (|v.logs| - 1)) % 0x100
  }

  function Newest(v: View): PageLog
    requires v.logs != []
  {
    v.logs[|v.logs| - 1]
  }

  /** The view with only `m` entries on its newest page. */
  function Truncate(v: View, m: nat): View
    requires v.logs != [] && m <= |Newest(v)|
  {
    v.(logs := v.logs[..|v.logs| - 1] + [Newest(v)[..m]])
  }

  lemma TruncateCurrent(n: nat, v: View, m: nat)
    requires v.logs != [] && m <= |Newest(v)|
    ensures Truncate(v, m).logs != [] && Current(n, Truncate(v, m)) == Current(n, v)
    ensures Sequence(Truncate(v, m)) == Sequence(v)
  {
  }

  lemma DropKeepsCurrent(n: nat, v: View)
    requires v.first < n && 2 <= |v.logs| <= n
    ensures Current(n, DropOldest(n, v)) == Current(n, v) && Newest(DropOldest(n, v)) == Newest(v)
    ensures Sequence(DropOldest(n, v)) == Sequence(v)
  {
    NextSequence(v.sequence, |v.logs| - 1);
  }

  lemma AppendFacts(v: View, e: Entry)
    requires v.logs != []
    ensures var v' := AppendTo(v, [e]);
      && |v'.logs| == |v.logs| && Newest(v') == Newest(v) + [e] && v'.first == v.first && v'.sequence == v.sequence
      && (forall n :: Current(n, v') == Current(n, v))
  {
  }

  lemma AddPageFacts(v: View)
    ensures AddPage(v).logs == v.logs + [[]] && |AddPage(v).logs| == |v.logs| + 1 && Newest(AddPage(v)) == []
  {
  }

  // ----- the order of formats

  /** A completed ftl_page_format: the page, and the sequence number in its new header. */
  datatype Format = Format(page: nat, sequence: Byte)

  /** Every format after the first is of the next page of the ring, with the next sequence number. */
  ghost predicate InTurn(n: nat, fs: seq<Format>)
    requires n > 0
  {
    forall i | 0 < i < |fs| :: fs[i] == Format(Next(n, fs[i - 1].page), (fs[i - 1].sequence + 1) % 0x100)
  }

  /** The formats `fs` have led to the log `v`: they went round the ring, and the last of them was
      of the current page. */
  ghost predicate Rotated(n: nat, fs: seq<Format>, v: View) {
    && n > 0 && InTurn(n, fs)
    && if v.logs == [] then fs == [] else fs != [] && fs[|fs| - 1] == Format(Current(n, v), Sequence(v))
  }

  /** Whatever leaves current page and sequence number leaves the formats in order. */
  lemma RotatedSame(n: nat, fs: seq<Format>, v: View, v': View)
    requires Rotated(n, fs, v) && v.logs != [] && v'.logs != []
    requires Current(n, v') == Current(n, v) && Sequence(v') == Sequence(v)
    ensures Rotated(n, fs, v')
  {
  }

  lemma NoFormats(n: nat, fs: seq<Format>, v: View)
    requires Rotated(n, fs, v) && v.logs == []
    ensures fs == []
  {
  }

  lemma RotatedAppend(n: nat, fs: seq<Format>, v: View, e: Entry)
    requires Rotated(n, fs, v) && v.logs != []
    ensures Rotated(n, fs, AppendTo(v, [e]))
  {
    hide InTurn;
  }

  lemma RotatedTruncate(n: nat, fs: seq<Format>, v: View, m: nat)
    requires Rotated(n, fs, v) && v.logs != [] && m <= |Newest(v)|
    ensures Rotated(n, fs, Truncate(v, m))
  {
    hide InTurn;
  }

  lemma RotatedDrop(n: nat, fs: seq<Format>, v: View)
    requires Rotated(n, fs, v) && v.first < n && 2 <= |v.logs| <= n
    ensures Rotated(n, fs, DropOldest(n, v))
  {
    DropKeepsCurrent(n, v);
    RotatedSame(n, fs, v, DropOldest(n, v));
  }

  lemma RotatedNext(n: nat, fs: seq<Format>, v: View, f: Format)
    requires Rotated(n, fs, v) && v.logs != []
    requires f == Format(Next(n, Current(n, v)), (Sequence(v) + 1) % 0x100)
    requires f == Format(Current(n, AddPage(v)), Sequence(AddPage(v)))
    ensures Rotated(n, fs + [f], AddPage(v))
  {
    hide Current, Sequence, Next;
  }

  // ----- what each device operation does to the log

  lemma {:induction false} AndErased(n: nat, y: nat)
    requires y < Crc.Pow2(n)
    ensures And(Crc.Pow2(n) - 1, y) == y
    decreases n
  {
    if n > 0 && y > 0 {
      AndErased(n - 1, y / 2);
      var x := Crc.Pow2(n) - 1;
      assert x % 2 == 1 && x / 2 == Crc.Pow2(n - 1) - 1;
    }
  }

  lemma ProgramErased(w: Word)
    ensures And(ERASED, w) == w
  {
    Crc.Pow2Values();
    AndErased(32, w);
  }

  lemma PlaceAt(n: nat, first: nat, r: nat)
    requires first < n && r < n
    ensures At(n, first, r) < n && Place(n, first, At(n, first, r)) == r
  {
  }

  /** What the newest page looks like at the place of its next pair. */
  lemma NextPairErased(n: nat, f: Image, v: View)
    requires Encodes(n, f, v) && v.logs != [] && |Newest(v)| < PAGE_PAIRS
    ensures var p, c := Current(n, v), 2 + 2 * |Newest(v)|;
      && p < n == |f| && Holds(n, f[p].cells, Newest(v)) && c + 1 < |f[p].cells| == PAGE_CELLS
      && f[p].cells[c] == ERASED && f[p].cells[c + 1] == ERASED && f[p].end == None
  {
    PlaceAt(n, v.first, |v.logs| - 1);
    assert PageFits(n, f, v, Current(n, v));
  }

  /** Programming the next two cells of the newest page appends one pair. */
  lemma ProgramAppends(n: nat, f: Image, v: View, e: Entry)
    requires Encodes(n, f, v) && v.logs != [] && |Newest(v)| < PAGE_PAIRS && ValidAddr(n, e.addr)
    ensures var p, c := Current(n, v), 2 + 2 * |Newest(v)|;
      && p < n == |f| && |f[p].cells| == PAGE_CELLS && f[p].end == None
      && var f' := ProgramCell(ProgramCell(f, p, c, e.data), p, c + 1, KeyOf(e.addr, e.data));
      Encodes(n, f', AppendTo(v, [e])) && Programmed(f, f', p, c, [e.data, KeyOf(e.addr, e.data)])
  {
    hide Encodes, Holds, And, KeyOf, ValidAddr, Current, Programmed;
    NextPairErased(n, f, v);
    var p, c := Current(n, v), 2 + 2 * |Newest(v)|;
    var key := KeyOf(e.addr, e.data);
    HoldsAppended(n, f[p].cells, Newest(v), e);
    NewestReplaced(n, f, v, f[p].cells[c := e.data][c + 1 := key], Newest(v) + [e]);
    TwoCells(f, p, c, e.data, key);
  }

  lemma NothingProgrammed(n: nat, f: Image, v: View, m: nat)
    requires v.logs != [] && m <= |Newest(v)| && Encodes(n, f, Truncate(v, m))
    ensures Programmed(f, f, Current(n, v), INFO_SIZE + 2 * m, [])
  {
    PlaceAt(n, v.first, |v.logs| - 1);
    assert PageFits(n, f, Truncate(v, m), Current(n, v));
  }

  /** Programming goes on where it stopped. */
  lemma ProgrammedPair(f0: Image, f: Image, f': Image, p: nat, c: nat, words: seq<Word>, x: Word, y: Word)
    requires Programmed(f0, f, p, c, words) && Programmed(f, f', p, c + |words|, [x, y])
    ensures Programmed(f0, f', p, c, words + [x, y])
  {
  }

  /** Two erased cells programmed. */
  lemma TwoCells(f: Image, p: nat, c: nat, x: Word, y: Word)
    requires p < |f| && c + 1 < |f[p].cells| && f[p].cells[c] == ERASED && f[p].cells[c + 1] == ERASED
    ensures ProgramCell(ProgramCell(f, p, c, x), p, c + 1, y) == f[p := f[p].(cells := f[p].cells[c := x][c + 1 := y])]
    ensures Programmed(f, ProgramCell(ProgramCell(f, p, c, x), p, c + 1, y), p, c, [x, y])
  {
    hide And;
    ProgramErased(x);
    ProgramErased(y);
    var f1 := ProgramCell(f, p, c, x);
    assert f1[p].cells == f[p].cells[c := x];
  }

  /** New cells for the newest page. */
  lemma NewestReplaced(n: nat, f: Image, v: View, cells: seq<Word>, es: PageLog)
    requires Encodes(n, f, v) && v.logs != [] && |Newest(v)| < PAGE_PAIRS && Holds(n, cells, es)
    ensures var p := Current(n, v);
      p < n && Encodes(n, f[p := f[p].(cells := cells)], v.(logs := v.logs[..|v.logs| - 1] + [es]))
  {
    var p, k := Current(n, v), |v.logs| - 1;
    PlaceAt(n, v.first, k);
    var f' := f[p := f[p].(cells := cells)];
    var v' := v.(logs := v.logs[..k] + [es]);
    forall q | 0 <= q < n ensures PageFits(n, f', v', q) {
      assert PageFits(n, f, v, q);
      if q != p { assert Place(n, v.first, q) != k; }
    }
  }

  lemma HoldsAppended(n: nat, cells: seq<Word>, es: PageLog, e: Entry)
    requires Holds(n, cells, es) && |es| < PAGE_PAIRS && ValidAddr(n, e.addr)
    ensures var c := 2 + 2 * |es|; Holds(n, cells[c := e.data][c + 1 := KeyOf(e.addr, e.data)], es + [e])
  {
    hide KeyOf, ValidAddr;
  }

  lemma EraseFree(n: nat, f: Image, v: View, p: nat)
    requires Encodes(n, f, v) && p < n && Place(n, v.first, p) >= |v.logs|
    ensures Encodes(n, Erase(f, p), v)
  {
    var f' := Erase(f, p);
    forall q | 0 <= q < n ensures PageFits(n, f', v, q) {
      assert PageFits(n, f, v, q);
    }
  }

  /** Writing the header of an erased page next to a full one adds an empty page. */
  lemma HeaderAddsPage(n: nat, f: Image, v: View, p: nat, sequence: Byte)
    requires Encodes(n, f, v) && |v.logs| < n && p == At(n, v.first, |v.logs|)
    requires v.logs != [] ==> |Newest(v)| == PAGE_PAIRS
    requires sequence == (v.sequence + |v.logs|) % 0x100
    requires f[p].cells == seq(PAGE_CELLS, _ => ERASED)
    ensures Encodes(n, WriteHeader(f, p, sequence), AddPage(v))
  {
    var f', v', k := WriteHeader(f, p, sequence), AddPage(v), |v.logs|;
    PlaceAt(n, v.first, k);
    forall q | 0 <= q < n ensures PageFits(n, f', v', q) {
      assert PageFits(n, f, v, q);
      if q != p { assert Place(n, v.first, q) != k; }
    }
  }

  lemma SetEndKeeps(n: nat, f: Image, v: View, p: nat)
    requires Encodes(n, f, v) && v.logs != [] && p == Current(n, v) && |Newest(v)| == PAGE_PAIRS
    ensures p < n && Encodes(n, SetEnd(f, p, PAGE_CELLS - 1), v)
  {
    PlaceAt(n, v.first, |v.logs| - 1);
    var f' := SetEnd(f, p, PAGE_CELLS - 1);
    forall q | 0 <= q < n ensures PageFits(n, f', v, q) {
      assert PageFits(n, f, v, q);
    }
  }

  /** Once the oldest page is no longer valid, by erasure or by its header, it has left the log. */
  lemma OldestGone(n: nat, f: Image, v: View, gone: Page)
    requires Encodes(n, f, v) && |v.logs| >= 2 && !gone.valid && |gone.cells| == PAGE_CELLS
    ensures Encodes(n, f[v.first := gone], DropOldest(n, v))
  {
    var f', v' := f[v.first := gone], DropOldest(n, v);
    forall q | 0 <= q < n ensures PageFits(n, f', v', q) {
      assert PageFits(n, f, v, q);
      var r := Place(n, v.first, q);
      assert r > 0 ==> Place(n, v'.first, q) == r - 1;
      assert r == 0 ==> Place(n, v'.first, q) == n - 1;
      if 0 < r < |v.logs| { NextSequence(v.sequence, r); }
    }
  }

  lemma NextSequence(s: Byte, r: nat)
    requires r > 0
    ensures ((s + 1) % 0x100 + (r - 1)) % 0x100 == (s + r) % 0x100
  {
  }

  // ----- reading an image

  /** The pair `w` of the page at place `r`. */
  lemma PageReads(n: nat, f: Image, v: View, r: nat, w: nat)
    requires Encodes(n, f, v) && r < |v.logs| && w < |v.logs[r]|
    ensures var p, e := At(n, v.first, r), v.logs[r][w];
      && p < n == |f| && |f[p].cells| == PAGE_CELLS && w < PAGE_PAIRS && ValidAddr(n, e.addr)
      && f[p].cells[2 + 2 * w] == e.data && f[p].cells[3 + 2 * w] == KeyOf(e.addr, e.data)
  {
    PlaceAt(n, v.first, r);
    assert PageFits(n, f, v, At(n, v.first, r));
  }

  /** Stepping a sequence number back. */
  lemma SequenceBack(x: nat)
    ensures (x % 0x100 + 0xff) % 0x100 == (x + 0xff) % 0x100
  {
    var q, m := x / 0x100, x % 0x100;
    assert x == 0x100 * q + m;
  }

  /** Fewer than 255 pages further on, the sequence number is not the one before. */
  lemma SequenceAhead(s: nat, k: nat)
    requires k < 0xff
    ensures (s + k) % 0x100 != (s + 0xff) % 0x100
  {
    var q, q' := (s + k) / 0x100, (s + 0xff) / 0x100;
    assert s + 0xff - (s + k) == 0xff - k;
  }

  /** ftl_get_prev_page succeeds exactly down to the oldest page: with at most 255 pages the
      newest page is never taken for the predecessor of the oldest. */
  lemma PrevPageExists(n: nat, f: Image, v: View, r: nat)
    requires 2 <= n <= 255 && Held(n, f, v) && r < |v.logs|
    ensures var p := At(n, v.first, r);
      var q := if p == 0 then n - 1 else p - 1;
      && p < n == |f| && q < n
      && (f[q].valid && f[q].sequence == (f[p].sequence + 0xff) % 0x100 <==> r > 0)
      && (r > 0 ==> q == At(n, v.first, r - 1))
  {
    hide Holds;
    var p := At(n, v.first, r);
    var q := if p == 0 then n - 1 else p - 1;
    PlaceAt(n, v.first, r);
    assert PageHolds(n, f, v, p) && PageHolds(n, f, v, q);
    hide Held;
    assert Place(n, v.first, q) == if r == 0 then n - 1 else r - 1;
    SequenceBack(v.sequence + r);
    SequenceAhead(v.sequence, n - 1);
    assert r > 0 ==> (v.sequence + r + 0xff) % 0x100 == (v.sequence + (r - 1)) % 0x100;
  }

  lemma PageEnd(n: nat, f: Image, v: View, r: nat)
    requires Encodes(n, f, v) && r < |v.logs|
    ensures var p := At(n, v.first, r);
      p < n == |f| && |f[p].cells| == PAGE_CELLS && f[p].end in {None, Some(PAGE_CELLS - 1)} && f[p].valid
    ensures r < |v.logs| - 1 ==> |v.logs[r]| == PAGE_PAIRS
    ensures |v.logs[r]| <= PAGE_PAIRS
  {
    hide Holds;
    PlaceAt(n, v.first, r);
    assert PageFits(n, f, v, At(n, v.first, r));
    assert |v.logs[r]| <= PAGE_PAIRS by { PageLength(n, f, v, r); }
  }

  lemma PageLength(n: nat, f: Image, v: View, r: nat)
    requires Encodes(n, f, v) && r < |v.logs|
    ensures |v.logs[r]| <= PAGE_PAIRS
  {
    PlaceAt(n, v.first, r);
    assert PageFits(n, f, v, At(n, v.first, r));
  }

  lemma FirstBound(n: nat, f: Image, v: View)
    requires Encodes(n, f, v)
    ensures v.first < n && |v.logs| <= n && At(n, v.first, 0) == v.first
  {
  }

  lemma HeldBound(n: nat, f: Image, v: View)
    requires Held(n, f, v)
    ensures v.first < n && |v.logs| <= n && At(n, v.first, 0) == v.first
  {
  }

  lemma PageCells(n: nat, f: Image, v: View, p: nat)
    requires Encodes(n, f, v) && p < n
    ensures |f| == n && |f[p].cells| == PAGE_CELLS
  {
    hide Holds;
    assert PageFits(n, f, v, p);
  }

  // ----- finding the newest page and its first free cell

  /** What the one-pass scan of ftl_init_app_cb has found after `i` pages: the last page of the
      part of the run that starts at its first valid page. */
  ghost predicate NewestSoFar(n: nat, v: View, i: nat, valid: bool, page: nat) {
    var k, end := |v.logs|, v.first + |v.logs|;
    if k == 0 then !valid
    else if end <= n then
      (valid <==> i > v.first) && (valid ==> page == (if i < end then i else end) - 1)
    else
      (valid <==> i > 0) && (valid ==> page == (if i < end - n then i else end - n) - 1)
  }

  /** Sequence numbers of a run of at most 255 pages: only the immediate successor follows. */
  lemma SequencesDiffer(s: Byte, x: nat, y: nat)
    requires x < 0x100 && y < 0x100
    ensures (s + y) % 0x100 == ((s + x) % 0x100 + 1) % 0x100 <==> y == x + 1 || (y == 0 && x == 0xff)
  {
    LowByte(s + x);
    LowByte(s + y);
    LowByte((s + x) % 0x100 + 1);
  }

  lemma LowByte(x: nat)
    requires x < 0x200
    ensures x % 0x100 == if x < 0x100 then x else x - 0x100
  {
  }

  lemma NewestStep(n: nat, f: Image, v: View, i: nat, valid: bool, page: nat)
    requires 2 <= n <= 255 && Encodes(n, f, v) && i < n
    requires NewestSoFar(n, v, i, valid, page)
    ensures valid ==> page < n == |f|
    ensures i < |f|
    ensures var update := f[i].valid && (!valid || f[i].sequence == (f[page].sequence + 1) % 0x100);
      NewestSoFar(n, v, i + 1, valid || update, if update then i else page)
  {
    hide Holds;
    assert PageFits(n, f, v, i);
    var y := Place(n, v.first, i);
    if valid {
      assert PageFits(n, f, v, page);
      var x := Place(n, v.first, page);
      if y < |v.logs| {
        SequencesDiffer(v.sequence, x, y);
      }
    }
  }

  /** Erased cells end where the keys of valid addresses begin. */
  lemma LastKey(n: nat, f: Image, v: View, c: nat)
    requires Encodes(n, f, v) && v.logs != [] && c < PAGE_CELLS
    ensures Current(n, v) < n == |f| && |f[Current(n, v)].cells| == PAGE_CELLS && |Newest(v)| <= PAGE_PAIRS
    ensures c >= 2 + 2 * |Newest(v)| ==> f[Current(n, v)].cells[c] == ERASED
    ensures c == 1 + 2 * |Newest(v)| > 1 ==> f[Current(n, v)].cells[c] != ERASED
  {
    PlaceAt(n, v.first, |v.logs| - 1);
    assert PageFits(n, f, v, Current(n, v));
    HeldKeys(n, f[Current(n, v)].cells, Newest(v), c);
  }

  lemma HeldKeys(n: nat, cells: seq<Word>, es: PageLog, c: nat)
    requires Holds(n, cells, es) && c < PAGE_CELLS
    ensures c >= 2 + 2 * |es| ==> cells[c] == ERASED
    ensures c == 1 + 2 * |es| > 1 ==> cells[c] != ERASED
  {
    hide KeyOf;
    if |es| > 0 {
      var e := es[|es| - 1];
      KeyNotErased(n, e.addr, e.data);
    }
  }

  /** An image without valid pages becomes an empty log when page 0 is formatted. */
  lemma FirstFormat(n: nat, f: Image, v: View)
    requires n >= 2 && Encodes(n, f, v) && v.logs == []
    ensures |f| == n && |Erase(f, 0)| == n && Encodes(n, Erase(f, 0), v)
    ensures Encodes(n, WriteHeader(Erase(f, 0), 0, 0), View(0, 0, [[]]))
  {
    EraseFree(n, f, v, 0);
    var f', v' := Erase(f, 0), View(0, 0, []);
    assert Encodes(n, f', v') by {
      forall p | 0 <= p < n ensures PageFits(n, f', v', p) { assert PageFits(n, f', v, p); }
    }
    HeaderAddsPage(n, f', v', 0, 0);
    assert AddPage(v') == View(0, 0, [[]]);
  }

  lemma NewestStart(n: nat, v: View)
    ensures NewestSoFar(n, v, 0, false, 0)
  {
  }

  /** After all pages it has found the newest page. */
  lemma NewestEnd(n: nat, f: Image, v: View, valid: bool, page: nat)
    requires n >= 2 && Encodes(n, f, v) && NewestSoFar(n, v, n, valid, page)
    ensures valid <==> v.logs != []
    ensures valid ==> page == Current(n, v)
  {
  }
}
