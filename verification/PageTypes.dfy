/** A run of `page-types`: the frames of the requested ranges, or the mapped pages of a process, are walked;
    every page is normalised, filtered, listed and counted; and at the end the listing is drained and the
    summary shown. */
module PageTypes {
  import opened PageTable
  import opened PageWalk

  /** What becomes of the walked pages: their flags are normalised, and those the filters reject are
      dropped. */
  ghost function Passed(pages: seq<Page>, raw: bool, filters: seq<Filter>): seq<Page> {
    if pages == [] then []
    else
      Passed(pages[..|pages| - 1], raw, filters) + PassedOne(pages[|pages| - 1], raw, filters)
  }

  ghost function PassedOne(p: Page, raw: bool, filters: seq<Filter>): seq<Page> {
    var flags := Normalised(p.flags, raw);
    if Wanted(filters, flags) then [p.(flags := flags)] else []
  }

  ghost function FlagsOf(pages: seq<Page>): seq<bv64> {
    seq(|pages|, i requires 0 <= i < |pages| => pages[i].flags)
  }

  lemma {:induction false} PassedConcat(a: seq<Page>, b: seq<Page>, raw: bool, filters: seq<Filter>)
    ensures Passed(a + b, raw, filters) == Passed(a, raw, filters) + Passed(b, raw, filters)
  {
    if b == [] {
      assert a + b == a;
    } else {
      var front, last := b[..|b| - 1], b[|b| - 1];
      PassedConcat(a, front, raw, filters);
      assert (a + b)[..|a + b| - 1] == a + front && (a + b)[|a + b| - 1] == last;
      var x, y, z := Passed(a, raw, filters), Passed(front, raw, filters), PassedOne(last, raw, filters);
      assert (x + y) + z == x + (y + z);
    }
  }

  /** Hiding virtual offsets and passing pages on do not interfere. */
  lemma {:induction false} PassedShown(pid: bool, pages: seq<Page>, raw: bool, filters: seq<Filter>)
    ensures AllShown(pid, Passed(pages, raw, filters)) == Passed(AllShown(pid, pages), raw, filters)
  {
    if pages != [] {
      var front, last := pages[..|pages| - 1], pages[|pages| - 1];
      PassedShown(pid, front, raw, filters);
      assert AllShown(pid, pages)[..|pages| - 1] == AllShown(pid, front);
      ShownConcat(pid, Passed(front, raw, filters), PassedOne(last, raw, filters));
      ShownOne(pid, last, raw, filters);
    }
  }

  lemma ShownOne(pid: bool, p: Page, raw: bool, filters: seq<Filter>)
    ensures AllShown(pid, PassedOne(p, raw, filters)) == PassedOne(Shown(pid, p), raw, filters)
  {
  }

  lemma FlagsConcat(a: seq<Page>, b: seq<Page>)
    ensures FlagsOf(a + b) == FlagsOf(a) + FlagsOf(b)
  {
  }

  lemma FlagsShown(pid: bool, pages: seq<Page>)
    ensures FlagsOf(AllShown(pid, pages)) == FlagsOf(pages)
  {
  }

  lemma {:induction false} PassedWalked(pages: seq<Page>, raw: bool, filters: seq<Filter>)
    requires Walked(pages)
    ensures Walked(Passed(pages, raw, filters))
  {
    if pages != [] {
      PassedWalked(pages[..|pages| - 1], raw, filters);
      WalkedConcat(Passed(pages[..|pages| - 1], raw, filters), PassedOne(pages[|pages| - 1], raw, filters));
    }
  }

  /* ---------- room in the table ---------- */

  /** The flag values, other than 0, of the pages passed on. */
  ghost function ValuesOf(pages: seq<Page>, raw: bool, filters: seq<Filter>): set<bv64> {
    Values(FlagsOf(Passed(pages, raw, filters)))
  }

  lemma MorePagesMoreValues(a: seq<Page>, b: seq<Page>, raw: bool, filters: seq<Filter>)
    ensures |ValuesOf(a, raw, filters)| <= |ValuesOf(a + b, raw, filters)|
  {
    PassedConcat(a, b, raw, filters);
    FlagsConcat(Passed(a, raw, filters), Passed(b, raw, filters));
    PrefixHasFewer(FlagsOf(Passed(a, raw, filters)), FlagsOf(Passed(a + b, raw, filters)));
  }

  lemma PassedNext(pages: seq<Page>, p: Page, raw: bool, filters: seq<Filter>)
    ensures Passed(pages + [p], raw, filters) == Passed(pages, raw, filters) + PassedOne(p, raw, filters)
    ensures FlagsOf(Passed(pages + [p], raw, filters))
            == FlagsOf(Passed(pages, raw, filters)) + FlagsOf(PassedOne(p, raw, filters))
  {
    assert (pages + [p])[..|pages|] == pages;
    FlagsConcat(Passed(pages, raw, filters), PassedOne(p, raw, filters));
  }

  /** A page that finds no room has one value too many. */
  lemma NoRoom(pages: seq<Page>, p: Page, raw: bool, filters: seq<Filter>)
    requires Wanted(filters, Normalised(p.flags, raw))
    requires !HasRoom(FlagsOf(Passed(pages, raw, filters)), Normalised(p.flags, raw))
    ensures |ValuesOf(pages + [p], raw, filters)| >= SIZE
  {
    PassedNext(pages, p, raw, filters);
    assert FlagsOf(PassedOne(p, raw, filters)) == [Normalised(p.flags, raw)];
    AnotherValue(FlagsOf(Passed(pages, raw, filters)), Normalised(p.flags, raw));
  }

  /* ---------- adding pages ---------- */

  /** Listing and count so far account for exactly these walked pages. */
  ghost predicate Accounted(printer: RangePrinter, table: PageTable, pages: seq<Page>)
    reads printer, table, table.nrPages, table.pageFlags
  {
    && printer.Valid() && table.Valid()
    && printer.fed == AllShown(printer.pid, Passed(pages, table.raw, table.filters))
    && table.pages == FlagsOf(Passed(pages, table.raw, table.filters))
  }

  /** What one more walked page adds to the listing and to the count. */
  lemma OnePageMore(pid: bool, pages: seq<Page>, p: Page, raw: bool, filters: seq<Filter>)
    ensures var flags := Normalised(p.flags, raw);
            if Wanted(filters, flags) then
              && AllShown(pid, Passed(pages + [p], raw, filters))
                 == AllShown(pid, Passed(pages, raw, filters)) + [Shown(pid, Page(p.voffset, p.offset, flags))]
              && FlagsOf(Passed(pages + [p], raw, filters)) == FlagsOf(Passed(pages, raw, filters)) + [flags]
            else
              Passed(pages + [p], raw, filters) == Passed(pages, raw, filters)
  {
    PassedNext(pages, p, raw, filters);
    ShownConcat(pid, Passed(pages, raw, filters), PassedOne(p, raw, filters));
  }

  /** `add_page`: normalise, filter, list, count.  False, which ends the original, exactly when the page is
      wanted and there is no room for its value. */
  method AddPage(printer: RangePrinter, table: PageTable, page: Page, ghost pages: seq<Page>) returns (ok: bool)
    requires Accounted(printer, table, pages) && page.voffset < WRAP && page.offset < WRAP
    modifies printer, table, table.nrPages, table.pageFlags
    ensures ok ==> Accounted(printer, table, pages + [page])
    ensures ok <==> !Wanted(table.filters, Normalised(page.flags, table.raw))
                    || HasRoom(FlagsOf(Passed(pages, table.raw, table.filters)), Normalised(page.flags, table.raw))
  {
    OnePageMore(printer.pid, pages, page, table.raw, table.filters);
    var flags := Normalised(page.flags, table.raw);
    ok := BitMaskOk(table.filters, flags);
    if !ok {
      return true;
    }
    printer.ShowPageRange(page.voffset, page.offset, flags);
    ok := table.CountPage(flags);
  }

  lemma Splits(before: seq<Page>, pages: seq<Page>, i: nat)
    requires i < |pages|
    ensures before + pages[..i] + [pages[i]] == before + pages[..i + 1]
    ensures before + pages[..i + 1] + pages[i + 1..] == before + pages
  {
  }

  lemma NoRoomInAll(before: seq<Page>, pages: seq<Page>, i: nat, raw: bool, filters: seq<Filter>)
    requires i < |pages| && Wanted(filters, Normalised(pages[i].flags, raw))
    requires !HasRoom(FlagsOf(Passed(before + pages[..i], raw, filters)), Normalised(pages[i].flags, raw))
    ensures |ValuesOf(before + pages, raw, filters)| >= SIZE
  {
    Splits(before, pages, i);
    NoRoom(before + pages[..i], pages[i], raw, filters);
    MorePagesMoreValues(before + pages[..i + 1], pages[i + 1..], raw, filters);
  }

  /** The first `i` of these pages have been added. */
  ghost predicate Added(printer: RangePrinter, table: PageTable, before: seq<Page>, pages: seq<Page>, i: nat)
    requires i <= |pages|
    reads printer, table, table.nrPages, table.pageFlags
  {
    Accounted(printer, table, before + pages[..i])
  }

  method AddNext(printer: RangePrinter, table: PageTable, ghost before: seq<Page>, pages: seq<Page>, i: nat) returns (ok: bool)
    requires i < |pages| && Words(pages) && Added(printer, table, before, pages, i)
    modifies printer, table, table.nrPages, table.pageFlags
    ensures ok ==> Added(printer, table, before, pages, i + 1)
    ensures !ok ==> |ValuesOf(before + pages, table.raw, table.filters)| >= SIZE
  {
    Splits(before, pages, i);
    ok := AddPage(printer, table, pages[i], before + pages[..i]);
    if !ok {
      NoRoomInAll(before, pages, i, table.raw, table.filters);
    }
  }

  /** The pages of one walk, one by one. */
  method AddAll(printer: RangePrinter, table: PageTable, pages: seq<Page>, ghost before: seq<Page>) returns (ok: bool)
    requires Accounted(printer, table, before) && Words(pages)
    modifies printer, table, table.nrPages, table.pageFlags
    ensures ok ==> Accounted(printer, table, before + pages)
    ensures !ok ==> |ValuesOf(before + pages, table.raw, table.filters)| >= SIZE
  {
    assert before + pages[..0] == before && pages[..|pages|] == pages;
    for i := 0 to |pages|
      invariant Added(printer, table, before, pages, i)
    {
      ok := AddNext(printer, table, before, pages, i);
      if !ok {
        return;
      }
    }
    ok := true;
  }

  /* ---------- a whole run ---------- */

  /** What is listed and counted: a function of the requests and of what the kernel shows. */
  ghost function Result(pid: bool, k: Kernel, qs: seq<Request>, raw: bool, filters: seq<Filter>): seq<Page>
    requires RequestsOk(qs)
  {
    Passed(OfRequests(pid, k, qs), raw, filters)
  }

  lemma WalkedResult(pid: bool, k: Kernel, qs: seq<Request>, raw: bool, filters: seq<Filter>, walked: seq<Page>)
    requires RequestsOk(qs) && AllShown(pid, walked) == OfRequests(pid, k, qs)
    ensures AllShown(pid, Passed(walked, raw, filters)) == Result(pid, k, qs, raw, filters)
    ensures FlagsOf(Passed(walked, raw, filters)) == FlagsOf(Result(pid, k, qs, raw, filters))
  {
    PassedShown(pid, walked, raw, filters);
    FlagsShown(pid, Passed(walked, raw, filters));
  }

  lemma {:induction false} ResultGrows(pid: bool, k: Kernel, qs: seq<Request>, n: nat, raw: bool, filters: seq<Filter>)
    requires RequestsOk(qs) && n <= |qs|
    ensures |Values(FlagsOf(Result(pid, k, qs[..n], raw, filters)))| <= |Values(FlagsOf(Result(pid, k, qs, raw, filters)))|
    decreases |qs|
  {
    if n < |qs| {
      var front := qs[..|qs| - 1];
      ResultGrows(pid, k, front, n, raw, filters);
      assert front[..n] == qs[..n];
      MorePagesMoreValues(OfRequests(pid, k, front), OfRequest(pid, k, qs[|qs| - 1]), raw, filters);
    } else {
      assert qs[..n] == qs;
    }
  }

  /** After the first `r` requests. */
  ghost predicate Progress(printer: RangePrinter, table: PageTable, k: Kernel, qs: seq<Request>, r: nat, walked: seq<Page>)
    requires RequestsOk(qs) && r <= |qs|
    reads printer, table, table.nrPages, table.pageFlags
  {
    && Accounted(printer, table, walked) && Walked(walked)
    && AllShown(printer.pid, walked) == OfRequests(printer.pid, k, qs[..r])
  }

  lemma NextRequest(pid: bool, k: Kernel, qs: seq<Request>, r: nat, walked: seq<Page>, fed: seq<Page>)
    requires RequestsOk(qs) && r < |qs| && Walked(walked) && Walked(fed)
    requires AllShown(pid, walked) == OfRequests(pid, k, qs[..r]) && AllShown(pid, fed) == OfRequest(pid, k, qs[r])
    ensures Walked(walked + fed) && AllShown(pid, walked + fed) == OfRequests(pid, k, qs[..r + 1])
  {
    WalkedConcat(walked, fed);
    ShownConcat(pid, walked, fed);
    assert qs[..r + 1][..r] == qs[..r];
  }

  /** One request: walk it and add its pages. */
  method DoRequest(printer: RangePrinter, table: PageTable, k: Kernel, qs: seq<Request>, r: nat, short: nat -> nat,
                   ghost walked: seq<Page>)
    returns (ok: bool, ghost walked': seq<Page>)
    requires RequestsOk(qs) && r < |qs| && Increasing(k.vmas) && Progress(printer, table, k, qs, r, walked)
    modifies printer, table, table.nrPages, table.pageFlags
    ensures ok ==> Progress(printer, table, k, qs, r + 1, walked')
    ensures !ok && Readable(k, qs[r]) ==>
              |Values(FlagsOf(Result(printer.pid, k, qs, table.raw, table.filters)))| >= SIZE
  {
    var fed;
    ok, fed := WalkRequest(printer.pid, k, qs[r], short);
    walked' := walked + fed;
    if ok {
      NextRequest(printer.pid, k, qs, r, walked, fed);
      ok := AddAll(printer, table, fed, walked);
      if !ok {
        WalkedResult(printer.pid, k, qs[..r + 1], table.raw, table.filters, walked');
        ResultGrows(printer.pid, k, qs, r + 1, table.raw, table.filters);
      }
    }
  }

  ghost predicate AllReadable(k: Kernel, qs: seq<Request>) {
    forall r :: 0 <= r < |qs| ==> Readable(k, qs[r])
  }

  /** The rows list every value among the flags once, with the number of times it occurs. */
  ghost predicate Summarises(rows: seq<Row>, flags: seq<bv64>) {
    && (forall r :: 0 <= r < |rows| ==> rows[r].count == Count(flags, rows[r].flags) > 0)
    && (forall r, q :: 0 <= r < q < |rows| ==> rows[r].flags != rows[q].flags)
    && (forall i :: 0 <= i < |flags| ==> exists r :: 0 <= r < |rows| && rows[r].flags == flags[i])
    && RowTotal(rows) == |flags|
  }

  /** All requests, in order. */
  method DoRequests(printer: RangePrinter, table: PageTable, k: Kernel, qs: seq<Request>, short: (nat, nat) -> nat)
    returns (ok: bool, ghost walked: seq<Page>)
    requires RequestsOk(qs) && Increasing(k.vmas) && Accounted(printer, table, [])
    modifies printer, table, table.nrPages, table.pageFlags
    ensures ok ==> Progress(printer, table, k, qs, |qs|, walked)
    ensures !ok && AllReadable(k, qs) ==>
              |Values(FlagsOf(Result(printer.pid, k, qs, table.raw, table.filters)))| >= SIZE
  {
    walked := [];
    for r := 0 to |qs|
      invariant Progress(printer, table, k, qs, r, walked)
    {
      ok, walked := DoRequest(printer, table, k, qs, r, p => short(r, p), walked);
      if !ok {
        return;
      }
    }
    ok := true;
  }

  /** After all requests nothing of the listing will be lost. */
  lemma WalkedRun(pid: bool, k: Kernel, qs: seq<Request>, raw: bool, filters: seq<Filter>, walked: seq<Page>)
    requires RequestsOk(qs) && Walked(walked) && AllShown(pid, walked) == OfRequests(pid, k, qs[..|qs|])
    ensures AllShown(pid, Passed(walked, raw, filters)) == Result(pid, k, qs, raw, filters)
    ensures FlagsOf(Passed(walked, raw, filters)) == FlagsOf(Result(pid, k, qs, raw, filters))
    ensures !LosesLast(pid, AllShown(pid, Passed(walked, raw, filters)))
  {
    assert qs[..|qs|] == qs;
    WalkedResult(pid, k, qs, raw, filters, walked);
    PassedWalked(walked, raw, filters);
    LastShown(pid, Passed(walked, raw, filters));
  }

  /** The summary at the end. */
  method Summary(table: PageTable) returns (rows: seq<Row>, total: nat)
    requires table.Valid()
    ensures Summarises(rows, table.pages) && total == RowTotal(rows) && |Values(table.pages)| <= 8191
  {
    FullMeansAllValues(table.pageFlags[..], table.nrPages[..], table.pages);
    rows, total := table.ShowSummary();
  }

  /** `main` after the walk: drain the listing and show the summary. */
  method Finish(printer: RangePrinter, table: PageTable, ghost k: Kernel, ghost qs: seq<Request>, ghost walked: seq<Page>)
    returns (printed: seq<Line>, rows: seq<Row>, total: nat)
    requires RequestsOk(qs) && Progress(printer, table, k, qs, |qs|, walked)
    modifies printer
    ensures var result := Result(printer.pid, k, qs, table.raw, table.filters);
            && ExpandAll(printer.pid, printed) == result && Coarse(printer.pid, printed)
            && Summarises(rows, FlagsOf(result)) && total == RowTotal(rows)
            && |Values(FlagsOf(result))| <= 8191
  {
    WalkedRun(printer.pid, k, qs, table.raw, table.filters, walked);
    rows, total := Summary(table);
    printer.Drain();
    printed := printer.printed;
  }

  /** A run from start to end.  If it ends regularly, the lines printed expand to exactly the pages asked for
      that the filters let through, in the order walked and with normalised flags, no two neighbouring lines
      could be merged, and the summary counts exactly the pages listed.  As long as everything asked for can
      be read it does end regularly, unless the listed pages have more than 8191 different values other
      than 0. */
  method Run(pid: bool, raw: bool, filters: seq<Filter>, given: seq<Request>, k: Kernel, short: (nat, nat) -> nat)
    returns (ok: bool, printed: seq<Line>, rows: seq<Row>, total: nat)
    requires RequestsOk(given) && Increasing(k.vmas)
    ensures ok ==> ExpandAll(pid, printed) == Result(pid, k, Requests(given), raw, filters) && Coarse(pid, printed)
    ensures ok ==> Summarises(rows, FlagsOf(Result(pid, k, Requests(given), raw, filters))) && total == RowTotal(rows)
    ensures AllReadable(k, Requests(given)) ==>
              (ok <==> |Values(FlagsOf(Result(pid, k, Requests(given), raw, filters)))| <= 8191)
  {
    printed, rows, total := [], [], 0;
    var printer := new RangePrinter(pid);
    var table := new PageTable(raw, filters);
    ghost var walked;
    ok, walked := DoRequests(printer, table, k, Requests(given), short);
    if ok {
      printed, rows, total := Finish(printer, table, k, Requests(given), walked);
    }
  }
}
