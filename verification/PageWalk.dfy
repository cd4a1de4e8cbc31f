/** Walking page ranges (`page-types.c`): which pages of a requested range are visited in a
    process, and how visited pages are printed as ranges. */
module PageWalk {
  import opened Arithmetic


  const ULONG_MAX: nat := 0xFFFF_FFFF_FFFF_FFFF

  /* ---------- requested ranges ---------- */

  predicate Within(p: int, offset: nat, size: nat) { offset <= p < offset + size }

  /** `add_addr_range`: the size is cut so that the end of the range still fits an
      `unsigned long`.  The very last page number therefore cannot be asked for. */
  function ClippedSize(offset: nat, size: nat): (r: nat)
    requires offset <= ULONG_MAX
    ensures offset + r <= ULONG_MAX
    ensures forall p :: Within(p, offset, r) <==> Within(p, offset, size) && p < ULONG_MAX
  {
    if size < ULONG_MAX - offset then size else ULONG_MAX - offset
  }

  /* ---------- intersecting a range with the mapped areas ---------- */

  /** Pages `start` to `end - 1`. */
  datatype Range = Range(start: nat, end: nat) {
    predicate Has(p: int) { start <= p < end }
  }

  ghost predicate Covers(ranges: seq<Range>, p: int) {
    exists i :: 0 <= i < |ranges| && ranges[i].Has(p)
  }

  /** Non-empty ranges in increasing order that do not overlap. */
  ghost predicate Increasing(ranges: seq<Range>) {
    && (forall i :: 0 <= i < |ranges| ==> ranges[i].start < ranges[i].end)
    && forall i, j :: 0 <= i < j < |ranges| ==> ranges[i].end <= ranges[j].start
  }

  /** What has been walked so far is exactly the mapped part of `from .. to - 1`. */
  ghost predicate WalkedTo(vmas: seq<Range>, walked: seq<Range>, from: nat, to: nat) {
    && Increasing(walked)
    && (forall w :: 0 <= w < |walked| ==> walked[w].end <= to)
    && forall p :: Covers(walked, p) <==> from <= p < to && Covers(vmas, p)
  }

  /** Nothing is mapped from `at` up to `to`. */
  lemma Skip(vmas: seq<Range>, walked: seq<Range>, from: nat, at: nat, to: nat, i: nat)
    requires Increasing(vmas) && WalkedTo(vmas, walked, from, at) && at <= to && i <= |vmas|
    requires forall v :: 0 <= v < i ==> vmas[v].end <= at
    requires i < |vmas| ==> vmas[i].start >= to
    ensures WalkedTo(vmas, walked, from, to)
  {
    forall p | at <= p < to ensures !Covers(vmas, p) {
      forall v | 0 <= v < |vmas| ensures !vmas[v].Has(p) {
        if i < v { assert vmas[i].end <= vmas[v].start; }
      }
    }
  }

  /** Between `at` and `to` exactly the part from `start` on is mapped, by area `i`. */
  lemma Emit(vmas: seq<Range>, walked: seq<Range>, from: nat, at: nat, i: nat, start: nat, to: nat)
    requires Increasing(vmas) && WalkedTo(vmas, walked, from, at) && i < |vmas| && from <= at
    requires forall v :: 0 <= v < i ==> vmas[v].end <= at
    requires start == (if vmas[i].start > at then vmas[i].start else at) && start < to <= vmas[i].end
    ensures WalkedTo(vmas, walked + [Range(start, to)], from, to)
  {
    if at < start { Skip(vmas, walked, from, at, start, i); }
    assert WalkedTo(vmas, walked, from, start);
    var walked' := walked + [Range(start, to)];
    forall p ensures Covers(walked', p) <==> from <= p < to && Covers(vmas, p) {
      if Covers(walked', p) {
        var w :| 0 <= w < |walked'| && walked'[w].Has(p);
        if w < |walked| {
          assert walked[w].Has(p) && Covers(walked, p);
        } else {
          assert vmas[i].Has(p) && Covers(vmas, p);
        }
      }
      if from <= p < to && Covers(vmas, p) {
        if p < start {
          assert Covers(walked, p);
          var w :| 0 <= w < |walked| && walked[w].Has(p);
          assert walked'[w].Has(p);
        } else {
          assert walked'[|walked|].Has(p);
        }
      }
    }
  }

  /** `walk_task`: the mapped areas cut down to the requested range.  The original's assertion
      holds at every emission, and the walk ends. */
  method WalkTask(vmas: seq<Range>, index: nat, count: nat) returns (walked: seq<Range>)
    requires Increasing(vmas) && index + count <= ULONG_MAX
    ensures Increasing(walked)
    ensures forall p :: Covers(walked, p) <==> index <= p < index + count && Covers(vmas, p)
  {
    walked := [];
    var end, at, i := index + count, index, 0;
    if |vmas| == 0 {
      return;  // the static table then starts with the empty area 0..0, which the inner loop passes over
    }
    while at < end
      invariant 0 <= i < |vmas| && index <= at <= end
      invariant forall v :: 0 <= v < i ==> vmas[v].end <= at
      invariant WalkedTo(vmas, walked, index, at)
      decreases end - at
    {
      while vmas[i].end <= at
        invariant 0 <= i < |vmas|
        invariant forall v :: 0 <= v < i ==> vmas[v].end <= at
        decreases |vmas| - i
      {
        i := i + 1;
        if i >= |vmas| {
          Skip(vmas, walked, index, at, end, i);
          return;
        }
      }
      if vmas[i].start >= end {
        Skip(vmas, walked, index, at, end, i);
        return;
      }
      var start := if vmas[i].start > at then vmas[i].start else at;
      var next := if vmas[i].end < end then vmas[i].end else end;
      Emit(vmas, walked, index, at, i, start, next);
      at := next;
      assert start < at;
      walked := walked + [Range(start, at)];
    }
  }

  /* ---------- printing visited pages as ranges ---------- */

  /** Page numbers are `unsigned long`. */
  const WRAP: nat := ULONG_MAX + 1

  datatype Page = Page(voffset: nat, offset: nat, flags: bv64)

  /** A printed line: the first page of a run and the number of pages in it.  Virtual offsets are
      printed in pid mode only; without it the line carries 0 there. */
  datatype Line = Line(first: Page, count: nat)

  /** What the listing shows of a page. */
  function Shown(pid: bool, p: Page): Page { if pid then p else p.(voffset := 0) }

  /** What it shows of the page `k` places into a run. */
  function PageAt(pid: bool, first: Page, k: nat): Page {
    Shown(pid, Page((first.voffset + k) % WRAP, (first.offset + k) % WRAP, first.flags))
  }

  ghost function Expand(pid: bool, line: Line): (pages: seq<Page>)
    ensures |pages| == line.count
  {
    seq(line.count, k requires 0 <= k < line.count => PageAt(pid, line.first, k))
  }

  ghost function ExpandAll(pid: bool, lines: seq<Line>): seq<Page> {
    if lines == [] then [] else ExpandAll(pid, lines[..|lines| - 1]) + Expand(pid, lines[|lines| - 1])
  }

  /** Would `p` be the next page of this run? */
  predicate Continues(pid: bool, run: Line, p: Page) {
    && p.flags == run.first.flags && p.offset == (run.first.offset + run.count) % WRAP
    && (pid ==> p.voffset == (run.first.voffset + run.count) % WRAP)
  }

  lemma ExpandAppend(pid: bool, lines: seq<Line>, line: Line)
    ensures ExpandAll(pid, lines + [line]) == ExpandAll(pid, lines) + Expand(pid, line)
  {
    assert (lines + [line])[..|lines|] == lines;
  }

  lemma Lengthen(pid: bool, run: Line, p: Page)
    requires Continues(pid, run, p)
    ensures Expand(pid, run.(count := run.count + 1)) == Expand(pid, run) + [Shown(pid, p)]
  {
  }

  /** The pages shown by the printed lines and the run still open; no line could be merged with the
      one after it. */
  ghost predicate Listing(pid: bool, printed: seq<Line>, run: Line, fed: seq<Page>) {
    && fed == ExpandAll(pid, printed) + Expand(pid, run)
    && (run.count == 0 ==> printed == [])
    && (forall i :: 0 <= i < |printed| ==> printed[i].count > 0)
    && Coarse(pid, printed)
    && (printed != [] ==> !Continues(pid, printed[|printed| - 1], run.first))
  }

  ghost predicate Coarse(pid: bool, lines: seq<Line>) {
    forall i, j :: 0 <= i && j == i + 1 && j < |lines| ==> !Continues(pid, lines[i], lines[j].first)
  }

  lemma ListingContinued(pid: bool, printed: seq<Line>, run: Line, fed: seq<Page>, p: Page)
    requires Listing(pid, printed, run, fed) && Continues(pid, run, p)
    ensures Listing(pid, printed, run.(count := run.count + 1), fed + [Shown(pid, p)])
  {
    Lengthen(pid, run, p);
    assert ExpandAll(pid, printed) + (Expand(pid, run) + [Shown(pid, p)]) == fed + [Shown(pid, p)];
  }

  lemma ListingBroken(pid: bool, printed: seq<Line>, run: Line, fed: seq<Page>, p: Page)
    requires Listing(pid, printed, run, fed) && !Continues(pid, run, p)
    requires p.voffset < WRAP && p.offset < WRAP
    ensures Listing(pid, if run.count != 0 then printed + [run] else printed, Line(p, 1), fed + [Shown(pid, p)])
  {
    SinglePage(pid, p);
    if run.count != 0 {
      ExpandAppend(pid, printed, run);
      CoarseAppend(pid, printed, run);
    } else {
      assert fed == [];
    }
  }

  lemma CoarseAppend(pid: bool, printed: seq<Line>, run: Line)
    requires Coarse(pid, printed) && (printed != [] ==> !Continues(pid, printed[|printed| - 1], run.first))
    ensures Coarse(pid, printed + [run])
  {
  }

  lemma SinglePage(pid: bool, p: Page)
    requires p.voffset < WRAP && p.offset < WRAP
    ensures Expand(pid, Line(p, 1)) == [Shown(pid, p)]
  {
  }

  /** The static variables of `show_page_range`, and what has been printed. */
  class RangePrinter {
    const pid: bool
    var run: Line              // voff, index, flags0 and count
    var printed: seq<Line>
    ghost var fed: seq<Page>   // what the listing should show: all pages fed so far, in order

    ghost predicate Valid()
      reads this
    {
      run.first.voffset < WRAP && run.first.offset < WRAP && Listing(pid, printed, run, fed)
    }

    constructor (pid: bool)
      ensures Valid() && fed == [] && printed == [] && this.pid == pid
    {
      this.pid := pid;
      run, printed, fed := Line(Page(0, 0, 0), 0), [], [];
    }

    /** Feed one page: it lengthens the current run or ends it. */
    method ShowPageRange(voffset: nat, offset: nat, flags: bv64)
      requires Valid() && voffset < WRAP && offset < WRAP
      modifies this
      ensures Valid() && fed == old(fed) + [Shown(pid, Page(voffset, offset, flags))] && run.count > 0
      ensures printed == if old(Continues(pid, run, Page(voffset, offset, flags)) || run.count == 0) then old(printed) else old(printed) + [old(run)]
    {
      ghost var p := Page(voffset, offset, flags);
      if flags == run.first.flags && offset == (run.first.offset + run.count) % WRAP
         && (!pid || voffset == (run.first.voffset + run.count) % WRAP) {
        ListingContinued(pid, printed, run, fed, p);
        fed := fed + [Shown(pid, p)];
        run := run.(count := run.count + 1);
        return;
      }
      ListingBroken(pid, printed, run, fed, p);
      if run.count != 0 {
        printed := printed + [run];
      }
      run := Line(Page(voffset, offset, flags), 1);
      fed := fed + [Shown(pid, p)];
    }

    /** The drain call of `main`, a page (0, 0, 0).  Afterwards the printed lines expand to exactly
        the pages fed, with one exception: if the last page fed has no flags and the highest page
        number (and in pid mode virtual offset), the drain call continues its run, which is then never printed. */
    method Drain()
      requires Valid()
      modifies this
      ensures ExpandAll(pid, printed) == old(fed) <==> !LosesLast(pid, old(fed))
      ensures printed == if old(run.count == 0 || Continues(pid, run, Page(0, 0, 0))) then old(printed) else old(printed) + [old(run)]
      ensures Coarse(pid, printed)
    {
      if run.count > 0 {
        DrainOutcome(pid, printed, run, fed);
      } else {
        assert fed == [] && printed == [];
      }
      ShowPageRange(0, 0, 0);
    }
  }

  /** `show_page_range` taken by itself: fed the highest page without flags and then drained, it prints
      nothing. */
  method HighestPageIsLost() returns (printed: seq<Line>)
    ensures printed == []
    ensures ExpandAll(false, printed) != [Page(0, ULONG_MAX, 0)]
  {
    var printer := new RangePrinter(false);
    printer.ShowPageRange(ULONG_MAX, ULONG_MAX, 0);
    printer.Drain();
    printed := printer.printed;
  }

  ghost function AllShown(pid: bool, pages: seq<Page>): (shown: seq<Page>)
    ensures |shown| == |pages|
  {
    seq(|pages|, i requires 0 <= i < |pages| => Shown(pid, pages[i]))
  }

  lemma ShownConcat(pid: bool, a: seq<Page>, b: seq<Page>)
    ensures AllShown(pid, a + b) == AllShown(pid, a) + AllShown(pid, b)
  {
  }

  /** Offsets are machine words. */
  ghost predicate Words(pages: seq<Page>) {
    forall i :: 0 <= i < |pages| ==> pages[i].voffset < WRAP && pages[i].offset < WRAP
  }

  /** What a walk feeds: offsets are machine words, and no frame number is the highest. */
  ghost predicate Walked(pages: seq<Page>) {
    forall i :: 0 <= i < |pages| ==> pages[i].voffset < WRAP && pages[i].offset < ULONG_MAX
  }

  lemma WalkedConcat(a: seq<Page>, b: seq<Page>)
    requires Walked(a) && Walked(b)
    ensures Walked(a + b)
  {
  }

  lemma ShownNext(pid: bool, pages: seq<Page>, i: nat)
    requires i < |pages|
    ensures AllShown(pid, pages[..i + 1]) == AllShown(pid, pages[..i]) + [Shown(pid, Page(pages[i].voffset, pages[i].offset, pages[i].flags))]
  {
    assert pages[..i + 1] == pages[..i] + [pages[i]];
    ShownConcat(pid, pages[..i], [pages[i]]);
  }

  /** Feed pages one after the other. */
  method Feed(printer: RangePrinter, pages: seq<Page>)
    requires printer.Valid() && Words(pages)
    modifies printer
    ensures printer.Valid() && printer.fed == old(printer.fed) + AllShown(printer.pid, pages)
  {
    for i := 0 to |pages|
      invariant printer.Valid() && printer.fed == old(printer.fed) + AllShown(printer.pid, pages[..i])
    {
      ShownNext(printer.pid, pages, i);
      printer.ShowPageRange(pages[i].voffset, pages[i].offset, pages[i].flags);
    }
    assert pages[..|pages|] == pages;
  }

  /** Is the last page of a listing lost to the drain call? */
  predicate LosesLast(pid: bool, pages: seq<Page>) {
    pages != [] && Absorbed(pid, pages[|pages| - 1])
  }

  lemma LastShown(pid: bool, pages: seq<Page>)
    ensures LosesLast(pid, AllShown(pid, pages)) == LosesLast(pid, pages)
    ensures Walked(pages) ==> !LosesLast(pid, pages)
  {
  }

  /** The same frames with the same flags, in the same order. */
  ghost predicate SameFrames(a: seq<Page>, b: seq<Page>) {
    |a| == |b| && forall i :: 0 <= i < |a| ==> a[i].offset == b[i].offset && a[i].flags == b[i].flags
  }

  /** The listing shows the frames, and in pid mode the pages themselves. */
  ghost predicate ShowsPages(pid: bool, shown: seq<Page>, pages: seq<Page>) {
    SameFrames(shown, pages) && (pid ==> shown == pages)
  }

  lemma ShownAll(pid: bool, pages: seq<Page>)
    ensures ShowsPages(pid, AllShown(pid, pages), pages)
  {
  }

  /** A whole listing.  Printing loses a page exactly when the last one is absorbed by the drain call, and
      nothing when all offsets are below the highest. */
  method PrintAll(pid: bool, pages: seq<Page>) returns (printed: seq<Line>)
    requires Words(pages)
    ensures ExpandAll(pid, printed) == AllShown(pid, pages) <==> !LosesLast(pid, pages)
    ensures Walked(pages) ==> ExpandAll(pid, printed) == AllShown(pid, pages)
    ensures Walked(pages) ==> ShowsPages(pid, ExpandAll(pid, printed), pages)
    ensures Coarse(pid, printed)
  {
    var printer := new RangePrinter(pid);
    Feed(printer, pages);
    assert [] + AllShown(pid, pages) == AllShown(pid, pages);
    LastShown(pid, pages);
    ShownAll(pid, pages);
    printer.Drain();
    printed := printer.printed;
  }

  lemma DrainOutcome(pid: bool, printed: seq<Line>, run: Line, fed: seq<Page>)
    requires Listing(pid, printed, run, fed) && run.count > 0
    requires run.first.voffset < WRAP && run.first.offset < WRAP
    ensures fed != [] && (Absorbed(pid, fed[|fed| - 1]) <==> Continues(pid, run, Page(0, 0, 0)))
    ensures ExpandAll(pid, printed + [run]) == fed && |ExpandAll(pid, printed)| < |fed|
  {
    ExpandAppend(pid, printed, run);
    LastOfRun(pid, run);
    assert fed[|fed| - 1] == Expand(pid, run)[run.count - 1];
  }

  /** The drain call would pass for the page after this one. */
  predicate Absorbed(pid: bool, last: Page) {
    last.flags == 0 && last.offset == ULONG_MAX && (pid ==> last.voffset == ULONG_MAX)
  }

  lemma LastOfRun(pid: bool, run: Line)
    requires run.count > 0 && run.first.voffset < WRAP && run.first.offset < WRAP
    ensures Absorbed(pid, PageAt(pid, run.first, run.count - 1)) <==> Continues(pid, run, Page(0, 0, 0))
  {
    WrapsToZero(run.first.offset + run.count);
    WrapsToZero(run.first.voffset + run.count);
  }

  lemma WrapsToZero(n: nat)
    requires n > 0
    ensures n % WRAP == 0 <==> (n - 1) % WRAP == ULONG_MAX
  {
  }

  /* ---------- walking frames ---------- */

  /** `KPAGEFLAGS_BATCH` and `PAGEMAP_BATCH` */
  const BATCH: nat := 0x1_0000

  /** What the kernel shows: the mapped areas of the process, its page table entries by virtual page, and
      the flags of every frame. */
  datatype Kernel = Kernel(vmas: seq<Range>, entries: seq<bv64>, frames: seq<bv64>)

  /** How many words one read returns: at most what is asked for and what is left of the file, possibly
      fewer, but none at the end of the file only. */
  function WordsRead(asked: nat, rest: nat, short: nat): (n: nat)
    ensures n <= asked && n <= rest && (asked > 0 && rest > 0 ==> n > 0)
  {
    var most := if asked < rest then asked else rest;
    if 0 < short < most then short else most
  }

  function Rest(length: nat, at: nat): nat { if at < length then length - at else 0 }

  /** The highest word of a file that can be asked for. */
  const LAST_WORD: nat := ULONG_MAX / 8

  /** The frames `index .. index + count - 1` as far as there are any, without virtual offsets. */
  ghost function FrameRun(frames: seq<bv64>, index: nat, count: nat): seq<Page> {
    var n := if count <= Rest(|frames|, index) then count else Rest(|frames|, index);
    seq(n, i requires 0 <= i < n => Page(0, index + i, frames[index + i]))
  }

  /** `fed` are the first frames from `index` on. */
  ghost predicate FramesFed(fed: seq<Page>, frames: seq<bv64>, index: nat) {
    |fed| <= Rest(|frames|, index) && AllShown(false, fed) == FrameRun(frames, index, |fed|)
  }

  lemma FeedFrame(fed: seq<Page>, frames: seq<bv64>, index: nat, page: Page)
    requires FramesFed(fed, frames, index) && index + |fed| < |frames|
    requires page.offset == index + |fed| && page.flags == frames[index + |fed|]
    ensures FramesFed(fed + [page], frames, index)
  {
    ShownConcat(false, fed, [page]);
  }

  /** At the end of the count or of the file all frames asked for have been fed. */
  lemma FramesComplete(fed: seq<Page>, frames: seq<bv64>, index: nat, count: nat)
    requires FramesFed(fed, frames, index) && |fed| <= count && (|fed| == count || index + |fed| >= |frames|)
    ensures AllShown(false, fed) == FrameRun(frames, index, count)
  {
  }

  /** What has been fed so far on behalf of a walk. */
  ghost predicate Feeding(fed: seq<Page>, frames: seq<bv64>, index: nat, voffset: nat) {
    Walked(fed) && FramesFed(fed, frames, index) && (fed != [] ==> fed[0].voffset == voffset)
  }

  /** The inner loop of `walk_pfn`: the pages of one batch. */
  method FeedBatch(voffset: nat, at: nat, pages: nat, frames: seq<bv64>, fed: seq<Page>, ghost index: nat)
    returns (fed': seq<Page>)
    requires voffset < WRAP && at == index + |fed| && at + pages <= |frames| && at + pages <= ULONG_MAX
    requires Feeding(fed, frames, index, voffset)
    ensures Feeding(fed', frames, index, voffset) && |fed'| == |fed| + pages
  {
    fed' := fed;
    for i := 0 to pages
      invariant Feeding(fed', frames, index, voffset) && |fed'| == |fed| + i
    {
      var page := Page((voffset + i) % WRAP, at + i, frames[at + i]);
      FeedFrame(fed', frames, index, page);
      fed' := fed' + [page];
    }
  }

  /** `walk_pfn`: frames read in batches, the read at position `p` cut short to `short(p)` words.  However
      short the reads are, no frame is lost or walked twice; the walk ends with the count or the file, or ends
      the program behind the last word that can be asked for. */
  method WalkPfn(voffset: nat, index: nat, count: nat, frames: seq<bv64>, short: nat -> nat)
    returns (ok: bool, fed: seq<Page>)
    requires voffset < WRAP && index + count <= ULONG_MAX
    ensures Feeding(fed, frames, index, voffset) && |fed| <= count
    ensures ok ==> AllShown(false, fed) == FrameRun(frames, index, count)
    ensures !ok ==> |fed| < count && index + |fed| > 0x1FFF_FFFF_FFFF_FFFF
    ensures ok && count > 0 ==> index <= 0x1FFF_FFFF_FFFF_FFFF
  {
    fed := [];
    var at, left: nat := index, count;
    while left > 0
      invariant |fed| + left == count && at == index + |fed| && Feeding(fed, frames, index, voffset)
      invariant fed != [] ==> index <= LAST_WORD
      decreases left
    {
      if at > LAST_WORD {
        return false, fed;
      }
      var batch := if left < BATCH then left else BATCH;
      var pages := WordsRead(batch, Rest(|frames|, at), short(at));
      if pages == 0 {
        FramesComplete(fed, frames, index, count);
        return true, fed;
      }
      fed := FeedBatch(voffset, at, pages, frames, fed, index);
      at, left := at + pages, left - pages;
    }
    FramesComplete(fed, frames, index, count);
    ok := true;
  }

  /* ---------- walking the pages of a process ---------- */

  /** `pagemap_pfn`: the frame number in a page table entry, or 0 if the page is not present. */
  function PagemapPfn(entry: bv64): (pfn: nat)
    ensures pfn < 0x80_0000_0000_0000
  {
    if TopBit(entry) then ((entry & 0x7F_FFFF_FFFF_FFFF) as bv55) as nat else 0
  }

  function Number(entry: bv64): nat { entry as nat }

  lemma HighPart(entry: bv64)
    ensures Number(entry) == ((entry >> 55) as nat) * 0x80_0000_0000_0000 + ((entry & 0x7F_FFFF_FFFF_FFFF) as nat)
  {
  }

  predicate TopBit(entry: bv64) { entry & (4 << 61) != 0 }

  predicate InTopHalf(entry: bv64) { entry >= 0x8000_0000_0000_0000 }

  lemma TopBitMeans(entry: bv64)
    ensures TopBit(entry) == InTopHalf(entry)
  {
  }

  lemma TopHalfMeans(entry: bv64)
    ensures InTopHalf(entry) == (Number(entry) >= 0x8000_0000_0000_0000)
  {
  }

  lemma LowPart(entry: bv64)
    ensures ((entry & 0x7F_FFFF_FFFF_FFFF) as bv55) as nat == (entry & 0x7F_FFFF_FFFF_FFFF) as nat < 0x80_0000_0000_0000
  {
  }

  /** In numbers: an entry of at least 2^63 is present, and its frame is the remainder by 2^55. */
  lemma PfnIs(entry: bv64)
    ensures PagemapPfn(entry)
            == if Number(entry) >= 0x8000_0000_0000_0000 then Number(entry) % 0x80_0000_0000_0000 else 0
  {
    TopBitMeans(entry);
    TopHalfMeans(entry);
    LowPart(entry);
    HighPart(entry);
    DivModUnique(Number(entry), 0x80_0000_0000_0000, (entry >> 55) as nat, (entry & 0x7F_FFFF_FFFF_FFFF) as nat);
  }

  /** `p` is what the kernel shows of the virtual page `p.voffset` with page table entry `entry`: the entry
      says present and names a frame that is not 0, and the frame has flags. */
  ghost predicate ShowsEntry(k: Kernel, entry: nat, p: Page) {
    && entry >= 0x8000_0000_0000_0000 && p.offset == entry % 0x80_0000_0000_0000
    && 0 < p.offset < |k.frames| && p.flags == k.frames[p.offset]
  }

  ghost predicate Shows(k: Kernel, p: Page) {
    p.voffset < |k.entries| && ShowsEntry(k, Number(k.entries[p.voffset]), p)
  }

  /** The pages the kernel shows, or those among them that are mapped. */
  ghost function PagesShown(k: Kernel, mapped: bool): iset<Page> {
    iset p: Page | Shows(k, p) && (mapped ==> Covers(k.vmas, p.voffset))
  }

  /** `fed` lists the pages with virtual offsets `from .. to - 1`: nothing else, nothing left out, nothing
      twice, in increasing order. */
  ghost predicate Lists(fed: seq<Page>, pages: iset<Page>, from: nat, to: nat) {
    && (forall i :: 0 <= i < |fed| ==> from <= fed[i].voffset < to && fed[i] in pages)
    && (forall i, j :: 0 <= i < j < |fed| ==> fed[i].voffset < fed[j].voffset)
    && (forall p :: p in pages && from <= p.voffset < to ==> p in fed)
  }

  /** One page at most, and exactly the one with virtual offset `vp`. */
  ghost predicate ListsOne(one: seq<Page>, pages: iset<Page>, vp: nat) {
    |one| <= 1 && forall p :: p in one <==> p in pages && p.voffset == vp
  }

  lemma ListsNext(fed: seq<Page>, one: seq<Page>, pages: iset<Page>, from: nat, vp: nat)
    requires Lists(fed, pages, from, vp) && from <= vp && ListsOne(one, pages, vp)
    ensures Lists(fed + one, pages, from, vp + 1)
  {
    if one != [] { assert one[0] in one; }
  }

  lemma AtFrameShown(k: Kernel, vp: nat, entry: nat, pfn: nat, p: Page)
    requires pfn == if entry >= 0x8000_0000_0000_0000 then entry % 0x80_0000_0000_0000 else 0
    ensures p in AtFrame(k, vp, pfn) <==> ShowsEntry(k, entry, p) && p.voffset == vp
  {
  }

  lemma PageOfShown(k: Kernel, vp: nat, p: Page)
    ensures p in PageOf(k, vp) <==> Shows(k, p) && p.voffset == vp
  {
    if vp < |k.entries| {
      PfnIs(k.entries[vp]);
      AtFrameShown(k, vp, Number(k.entries[vp]), PagemapPfn(k.entries[vp]), p);
    }
  }

  lemma PageOfListed(k: Kernel, vp: nat)
    ensures ListsOne(PageOfAny(k)(vp), PagesShown(k, false), vp)
  {
    forall p ensures p in PageOf(k, vp) <==> Shows(k, p) && p.voffset == vp {
      PageOfShown(k, vp, p);
    }
  }

  lemma MappedPageListed(k: Kernel, vp: nat)
    ensures ListsOne(PageOfMapped(k)(vp), PagesShown(k, true), vp)
  {
    forall p ensures p in PageOf(k, vp) <==> Shows(k, p) && p.voffset == vp {
      PageOfShown(k, vp, p);
    }
  }

  lemma {:induction false} CollectLists(one: nat -> seq<Page>, pages: iset<Page>, from: nat, to: nat)
    requires from <= to && forall vp: nat :: ListsOne(one(vp), pages, vp)
    ensures Lists(Collect(one, from, to), pages, from, to)
  {
    if from < to {
      CollectLists(one, pages, from, to - 1);
      ListsNext(Collect(one, from, to - 1), one(to - 1), pages, from, to - 1);
    }
  }

  lemma PresentLists(k: Kernel, from: nat, to: nat)
    requires from <= to
    ensures Lists(Present(k, from, to), PagesShown(k, false), from, to)
  {
    forall vp: nat ensures ListsOne(PageOfAny(k)(vp), PagesShown(k, false), vp) { PageOfListed(k, vp); }
    CollectLists(PageOfAny(k), PagesShown(k, false), from, to);
  }

  lemma MappedLists(k: Kernel, from: nat, to: nat)
    requires from <= to
    ensures Lists(MappedPages(k, from, to), PagesShown(k, true), from, to)
  {
    forall vp: nat ensures ListsOne(PageOfMapped(k)(vp), PagesShown(k, true), vp) { MappedPageListed(k, vp); }
    CollectLists(PageOfMapped(k), PagesShown(k, true), from, to);
  }

  /** What walking one virtual page feeds: its frame, if it has one. */
  ghost function PageOf(k: Kernel, vp: nat): (pages: seq<Page>)
    ensures |pages| <= 1
  {
    AtFrame(k, vp, if vp < |k.entries| then PagemapPfn(k.entries[vp]) else 0)
  }

  ghost function AtFrame(k: Kernel, vp: nat, pfn: nat): (pages: seq<Page>)
    ensures |pages| <= 1
  {
    if pfn != 0 && pfn < |k.frames| then [Page(vp, pfn, k.frames[pfn])] else []
  }

  ghost function PageOfAny(k: Kernel): nat -> seq<Page> { (vp: nat) => PageOf(k, vp) }

  ghost function PageOfMapped(k: Kernel): nat -> seq<Page> { (vp: nat) => if Covers(k.vmas, vp) then PageOf(k, vp) else [] }

  /** What walking the virtual pages `from .. to - 1` one by one feeds. */
  ghost function Collect(one: nat -> seq<Page>, from: nat, to: nat): seq<Page> {
    if to <= from then [] else Collect(one, from, to - 1) + one(to - 1)
  }

  lemma {:induction false} CollectGap(one: nat -> seq<Page>, from: nat, mid: nat, to: nat)
    requires from <= mid <= to && forall p :: mid <= p < to ==> one(p) == []
    ensures Collect(one, from, to) == Collect(one, from, mid)
  {
    if mid < to { CollectGap(one, from, mid, to - 1); }
  }

  lemma {:induction false} CollectRun(one: nat -> seq<Page>, other: nat -> seq<Page>, from: nat, mid: nat, to: nat)
    requires from <= mid <= to && forall p :: mid <= p < to ==> one(p) == other(p)
    ensures Collect(one, from, to) == Collect(one, from, mid) + Collect(other, mid, to)
  {
    if mid < to { CollectRun(one, other, from, mid, to - 1); }
  }

  /** The present pages among the virtual pages `from .. to - 1`, in order. */
  ghost function Present(k: Kernel, from: nat, to: nat): seq<Page> { Collect(PageOfAny(k), from, to) }

  lemma PresentBeyond(k: Kernel, from: nat, at: nat, to: nat)
    requires from <= at <= to && at >= |k.entries|
    ensures Present(k, from, to) == Present(k, from, at)
  {
    CollectGap(PageOfAny(k), from, at, to);
  }

  lemma SingleFrame(frames: seq<bv64>, vp: nat, pfn: nat, fed: seq<Page>)
    requires AllShown(false, fed) == FrameRun(frames, pfn, 1) && (fed != [] ==> fed[0].voffset == vp)
    ensures fed == if pfn < |frames| then [Page(vp, pfn, frames[pfn])] else []
  {
    if fed != [] {
      assert AllShown(false, fed)[0] == fed[0].(voffset := 0);
    }
  }

  /** One virtual page of `walk_vma`. */
  method WalkOne(k: Kernel, vp: nat) returns (fed: seq<Page>)
    requires vp < |k.entries| && vp < WRAP
    ensures fed == PageOf(k, vp) && Walked(fed)
  {
    fed := [];
    var pfn := PagemapPfn(k.entries[vp]);
    if pfn != 0 {
      var ok;
      ok, fed := WalkPfn(vp, pfn, 1, k.frames, p => 0);
      SingleFrame(k.frames, vp, pfn, fed);
    }
  }

  /** What has been fed on behalf of the virtual pages `from .. at - 1`. */
  ghost predicate PresentFed(k: Kernel, from: nat, at: nat, fed: seq<Page>) {
    from <= at && Walked(fed) && fed == Present(k, from, at)
  }

  lemma PresentStep(k: Kernel, from: nat, at: nat, fed: seq<Page>, one: seq<Page>)
    requires PresentFed(k, from, at, fed) && one == PageOf(k, at) && Walked(one)
    ensures PresentFed(k, from, at + 1, fed + one)
  {
    WalkedConcat(fed, one);
  }

  lemma PresentAll(k: Kernel, from: nat, at: nat, to: nat, fed: seq<Page>)
    requires PresentFed(k, from, at, fed) && at <= to && at >= |k.entries|
    ensures PresentFed(k, from, to, fed)
  {
    PresentBeyond(k, from, at, to);
  }

  /** The inner loop of `walk_vma`: the pages of one batch. */
  method WalkBatch(k: Kernel, at: nat, pages: nat, fed: seq<Page>, ghost index: nat) returns (fed': seq<Page>)
    requires at + pages <= |k.entries| && at + pages <= ULONG_MAX && PresentFed(k, index, at, fed)
    ensures PresentFed(k, index, at + pages, fed')
  {
    fed' := fed;
    for i := 0 to pages
      invariant PresentFed(k, index, at + i, fed')
    {
      var one := WalkOne(k, at + i);
      PresentStep(k, index, at + i, fed', one);
      fed' := fed' + one;
    }
  }

  /** They are the pages the kernel shows there. */
  ghost predicate PresentShown(k: Kernel, from: nat, to: nat, fed: seq<Page>) {
    PresentFed(k, from, to, fed) && Lists(fed, PagesShown(k, false), from, to)
  }

  lemma PresentDone(k: Kernel, from: nat, at: nat, to: nat, fed: seq<Page>)
    requires PresentFed(k, from, at, fed) && at <= to && (at == to || at >= |k.entries|)
    ensures PresentShown(k, from, to, fed)
  {
    if at < to { PresentAll(k, from, at, to, fed); }
    PresentLists(k, from, to);
  }

  /** `walk_vma`: the present pages of a mapped range. */
  method WalkVma(k: Kernel, index: nat, count: nat, short: nat -> nat) returns (ok: bool, fed: seq<Page>)
    requires index + count <= ULONG_MAX
    ensures ok ==> PresentShown(k, index, index + count, fed)
    ensures !ok ==> index > 0x1FFF_FFFF_FFFF_FFFF || |k.entries| > 0x1FFF_FFFF_FFFF_FFFF
    ensures ok && count > 0 ==> index <= 0x1FFF_FFFF_FFFF_FFFF
  {
    ghost var at;
    ok, fed, at := ReadBatches(k, index, count, short);
    if ok {
      PresentDone(k, index, at, index + count, fed);
    }
  }

  /** Its loop; `at` is where the reads end. */
  method ReadBatches(k: Kernel, index: nat, count: nat, short: nat -> nat)
    returns (ok: bool, fed: seq<Page>, ghost at: nat)
    requires index + count <= ULONG_MAX
    ensures PresentFed(k, index, at, fed) && at <= index + count
    ensures ok ==> at == index + count || at >= |k.entries|
    ensures !ok ==> index > LAST_WORD || |k.entries| > LAST_WORD
    ensures ok && count > 0 ==> index <= LAST_WORD
  {
    fed := [];
    var next, left: nat := index, count;
    at := index;
    while left > 0
      invariant at == next && next + left == index + count && (next == index || next <= |k.entries|)
      invariant PresentFed(k, index, at, fed)
      invariant next > index ==> index <= LAST_WORD
      decreases left
    {
      if next > LAST_WORD {
        return false, fed, at;
      }
      var batch := if left < BATCH then left else BATCH;
      var pages := WordsRead(batch, Rest(|k.entries|, next), short(next));
      if pages == 0 {
        break;
      }
      fed := WalkBatch(k, next, pages, fed, index);
      next, left := next + pages, left - pages;
      at := next;
    }
    ok := true;
  }

  /** The present pages among the mapped virtual pages `from .. to - 1`, in order. */
  ghost function MappedPages(k: Kernel, from: nat, to: nat): seq<Page> { Collect(PageOfMapped(k), from, to) }

  /** The ranges are the mapped part of `from .. to - 1`. */
  ghost predicate RangesOf(vmas: seq<Range>, walked: seq<Range>, from: nat, to: nat) {
    Increasing(walked) && forall p :: Covers(walked, p) <==> from <= p < to && Covers(vmas, p)
  }

  ghost function EndOf(walked: seq<Range>, i: nat, from: nat): nat
    requires i <= |walked|
  {
    if i == 0 then from else walked[i - 1].end
  }

  lemma RangeInside(vmas: seq<Range>, walked: seq<Range>, from: nat, to: nat, i: nat)
    requires RangesOf(vmas, walked, from, to) && i < |walked|
    ensures EndOf(walked, i, from) <= walked[i].start < walked[i].end <= to
    ensures forall p :: walked[i].start <= p < walked[i].end ==> Covers(vmas, p)
  {
    forall p | walked[i].start <= p < walked[i].end ensures Covers(walked, p) {
      assert walked[i].Has(p);
    }
    assert Covers(walked, walked[i].start) && Covers(walked, walked[i].end - 1);
  }

  lemma BetweenRanges(vmas: seq<Range>, walked: seq<Range>, from: nat, to: nat, i: nat)
    requires RangesOf(vmas, walked, from, to) && i <= |walked| && from <= to
    ensures var next := if i < |walked| then walked[i].start else to;
            from <= EndOf(walked, i, from) <= next <= to
            && forall p :: EndOf(walked, i, from) <= p < next ==> !Covers(vmas, p)
  {
    if i < |walked| { RangeInside(vmas, walked, from, to, i); }
    if i > 0 { RangeInside(vmas, walked, from, to, i - 1); EndsGrow(vmas, walked, from, to, i - 1); }
    var next := if i < |walked| then walked[i].start else to;
    forall p | EndOf(walked, i, from) <= p < next ensures !Covers(walked, p) {
      forall w | 0 <= w < |walked| ensures !walked[w].Has(p) {
        if w < i - 1 { assert walked[w].end <= walked[i - 1].start; }
        if i < w { assert walked[i].end <= walked[w].start; }
      }
    }
  }

  lemma EndsGrow(vmas: seq<Range>, walked: seq<Range>, from: nat, to: nat, i: nat)
    requires RangesOf(vmas, walked, from, to) && i < |walked|
    ensures from <= walked[i].start
  {
    assert walked[i].Has(walked[i].start);
    assert Covers(walked, walked[i].start);
  }

  lemma RangeStep(k: Kernel, walked: seq<Range>, from: nat, to: nat, i: nat)
    requires RangesOf(k.vmas, walked, from, to) && i < |walked| && from <= to
    ensures MappedPages(k, from, walked[i].end)
            == MappedPages(k, from, EndOf(walked, i, from)) + Present(k, walked[i].start, walked[i].end)
  {
    RangeInside(k.vmas, walked, from, to, i);
    BetweenRanges(k.vmas, walked, from, to, i);
    CollectGap(PageOfMapped(k), from, EndOf(walked, i, from), walked[i].start);
    CollectRun(PageOfMapped(k), PageOfAny(k), from, walked[i].start, walked[i].end);
  }

  lemma RangesDone(k: Kernel, walked: seq<Range>, from: nat, to: nat)
    requires RangesOf(k.vmas, walked, from, to) && from <= to
    ensures MappedPages(k, from, to) == MappedPages(k, from, EndOf(walked, |walked|, from))
  {
    BetweenRanges(k.vmas, walked, from, to, |walked|);
    CollectGap(PageOfMapped(k), from, EndOf(walked, |walked|, from), to);
  }

  /** Nothing in the process or in the files lies behind the last word that can be read. */
  ghost predicate ReadableTask(k: Kernel) {
    |k.entries| <= LAST_WORD && forall v :: 0 <= v < |k.vmas| ==> k.vmas[v].end <= LAST_WORD
  }

  lemma StartReadable(k: Kernel, walked: seq<Range>, from: nat, to: nat, i: nat)
    requires RangesOf(k.vmas, walked, from, to) && i < |walked|
    ensures walked[i].start > LAST_WORD || |k.entries| > LAST_WORD ==> !ReadableTask(k)
  {
    RangeInside(k.vmas, walked, from, to, i);
    assert Covers(k.vmas, walked[i].start);
    var v :| 0 <= v < |k.vmas| && k.vmas[v].Has(walked[i].start);
  }

  /** What has been fed on behalf of the first `i` ranges. */
  ghost predicate TaskFed(k: Kernel, walked: seq<Range>, from: nat, to: nat, i: nat, fed: seq<Page>) {
    && RangesOf(k.vmas, walked, from, to) && from <= to && i <= |walked|
    && Walked(fed) && fed == MappedPages(k, from, EndOf(walked, i, from))
  }

  lemma TaskStep(k: Kernel, walked: seq<Range>, from: nat, to: nat, i: nat, fed: seq<Page>, part: seq<Page>)
    requires TaskFed(k, walked, from, to, i, fed) && i < |walked|
    requires PresentFed(k, walked[i].start, walked[i].end, part)
    ensures TaskFed(k, walked, from, to, i + 1, fed + part)
  {
    RangeStep(k, walked, from, to, i);
    WalkedConcat(fed, part);
  }

  /** All ranges walked. */
  ghost predicate MappedFed(k: Kernel, from: nat, to: nat, fed: seq<Page>) {
    Walked(fed) && fed == MappedPages(k, from, to)
  }

  lemma TaskDone(k: Kernel, walked: seq<Range>, from: nat, to: nat, fed: seq<Page>)
    requires TaskFed(k, walked, from, to, |walked|, fed)
    ensures MappedFed(k, from, to, fed)
  {
    RangesDone(k, walked, from, to);
  }

  /** They are the mapped pages the kernel shows there. */
  ghost predicate MappedShown(k: Kernel, from: nat, to: nat, fed: seq<Page>) {
    MappedFed(k, from, to, fed) && Lists(fed, PagesShown(k, true), from, to)
  }

  lemma MappedDone(k: Kernel, from: nat, to: nat, fed: seq<Page>)
    requires MappedFed(k, from, to, fed) && from <= to
    ensures MappedShown(k, from, to, fed)
  {
    MappedLists(k, from, to);
  }

  /** `walk_task`, with what it feeds: the present pages of the mapped part of the range, in order. */
  method WalkTaskPages(k: Kernel, index: nat, count: nat, short: nat -> nat) returns (ok: bool, fed: seq<Page>)
    requires Increasing(k.vmas) && index + count <= ULONG_MAX
    ensures ok ==> MappedShown(k, index, index + count, fed)
    ensures ReadableTask(k) ==> ok
  {
    var walked := WalkTask(k.vmas, index, count);
    ok, fed := WalkRanges(k, walked, index, index + count, short);
    if ok {
      MappedDone(k, index, index + count, fed);
    }
  }

  method WalkRanges(k: Kernel, walked: seq<Range>, ghost from: nat, ghost to: nat, short: nat -> nat)
    returns (ok: bool, fed: seq<Page>)
    requires TaskFed(k, walked, from, to, 0, []) && to <= ULONG_MAX
    ensures ok ==> MappedFed(k, from, to, fed)
    ensures ReadableTask(k) ==> ok
  {
    fed := [];
    for i := 0 to |walked|
      invariant TaskFed(k, walked, from, to, i, fed)
    {
      ok, fed := WalkNext(k, walked, from, to, i, fed, short);
      if !ok {
        return;
      }
    }
    TaskDone(k, walked, from, to, fed);
    ok := true;
  }

  method WalkNext(k: Kernel, walked: seq<Range>, ghost from: nat, ghost to: nat, i: nat, fed: seq<Page>, short: nat -> nat)
    returns (ok: bool, fed': seq<Page>)
    requires TaskFed(k, walked, from, to, i, fed) && i < |walked| && to <= ULONG_MAX
    ensures ok ==> TaskFed(k, walked, from, to, i + 1, fed')
    ensures ReadableTask(k) ==> ok
  {
    RangeInside(k.vmas, walked, from, to, i);
    StartReadable(k, walked, from, to, i);
    ok, fed' := WalkVma(k, walked[i].start, walked[i].end - walked[i].start, short);
    if ok {
      TaskStep(k, walked, from, to, i, fed, fed');
      fed' := fed + fed';
    }
  }

  /* ---------- the requested ranges ---------- */

  datatype Request = Request(offset: nat, size: nat)

  /** `main` asks for everything if no range is given. */
  function Requests(given: seq<Request>): seq<Request> { if given == [] then [Request(0, ULONG_MAX)] else given }

  /** What a request asks for, as the listing shows it. */
  ghost function OfRequest(pid: bool, k: Kernel, q: Request): seq<Page>
    requires q.offset <= ULONG_MAX
  {
    if pid then MappedPages(k, q.offset, q.offset + ClippedSize(q.offset, q.size))
    else FrameRun(k.frames, q.offset, ClippedSize(q.offset, q.size))
  }

  /** Offsets are machine words. */
  ghost predicate RequestsOk(qs: seq<Request>) {
    forall r :: 0 <= r < |qs| ==> qs[r].offset <= ULONG_MAX
  }

  lemma OnlyRequest(pid: bool, k: Kernel)
    ensures RequestsOk(Requests([]))
    ensures OfRequests(pid, k, Requests([])) == OfRequest(pid, k, Request(0, 0xFFFF_FFFF_FFFF_FFFF))
  {
    var q := Request(0, ULONG_MAX);
    assert Requests([]) == [q] && [q][..0] == [];
    assert OfRequests(pid, k, []) == [];
  }

  /** Without a requested range everything is walked: all frames there are, */
  lemma AllFrames(k: Kernel)
    requires |k.frames| <= ULONG_MAX
    ensures RequestsOk(Requests([]))
    ensures var all := OfRequests(false, k, Requests([]));
            |all| == |k.frames| && forall i :: 0 <= i < |all| ==> all[i] == Page(0, i, k.frames[i])
  {
    OnlyRequest(false, k);
  }

  /** or all mapped pages present. */
  lemma AllMapped(k: Kernel)
    ensures RequestsOk(Requests([]))
    ensures Lists(OfRequests(true, k, Requests([])), PagesShown(k, true), 0, 0xFFFF_FFFF_FFFF_FFFF)
  {
    OnlyRequest(true, k);
    MappedLists(k, 0, ULONG_MAX);
  }

  ghost function OfRequests(pid: bool, k: Kernel, qs: seq<Request>): seq<Page>
    requires RequestsOk(qs)
  {
    if qs == [] then [] else OfRequests(pid, k, qs[..|qs| - 1]) + OfRequest(pid, k, qs[|qs| - 1])
  }

  /** Nothing asked for lies behind the last word of a file that can be read. */
  ghost predicate Readable(k: Kernel, q: Request) {
    q.offset <= LAST_WORD && |k.frames| <= LAST_WORD && ReadableTask(k)
  }

  /** The listing shows what the request asks for. */
  ghost predicate Answers(pid: bool, k: Kernel, q: Request, fed: seq<Page>)
    requires q.offset <= ULONG_MAX
  {
    Walked(fed) && AllShown(pid, fed) == OfRequest(pid, k, q)
  }

  lemma TaskAnswers(k: Kernel, q: Request, count: nat, fed: seq<Page>)
    requires q.offset <= ULONG_MAX && count == ClippedSize(q.offset, q.size)
    requires MappedFed(k, q.offset, q.offset + count, fed)
    ensures Answers(true, k, q, fed)
  {
    assert AllShown(true, fed) == fed;
  }

  /** One request of `walk_addr_ranges`. */
  method WalkRequest(pid: bool, k: Kernel, q: Request, short: nat -> nat) returns (ok: bool, fed: seq<Page>)
    requires Increasing(k.vmas) && q.offset <= ULONG_MAX
    ensures ok ==> Answers(pid, k, q, fed)
    ensures Readable(k, q) ==> ok
  {
    var count := ClippedSize(q.offset, q.size);
    if pid {
      ok, fed := WalkTaskPages(k, q.offset, count, short);
      if ok {
        TaskAnswers(k, q, count, fed);
      }
    } else {
      ok, fed := WalkPfn(0, q.offset, count, k.frames, short);
    }
  }
}
