/** First-fit filling of cache lines, shared by the uniform and the Zipf builder.

    Each draw names a line; the next path slot is the first unused element of that line.  Zero
    marks an unused element, and the very values that link the path are what mark elements as
    used. */
module FirstFit {
  import opened Arithmetic
  import opened Paths

  const ELEMENT_SIZE: nat := 4

  datatype Slot = Slot(line: nat, element: nat)

  /* ---------- what the fill computes, independently of memory ---------- */

  ghost function Used(path: seq<Slot>, line: nat): nat {
    if path == [] then 0
    else Used(path[..|path| - 1], line) + (if path[|path| - 1].line == line then 1 else 0)
  }

  /** The path after the draws: each draw takes its line's next element, until a drawn line
      has already given `limit` elements. */
  ghost function Fill(path: seq<Slot>, limit: nat, draws: seq<nat>): seq<Slot>
    decreases |draws|
  {
    if draws == [] || Used(path, draws[0]) >= limit then path
    else Fill(path + [Slot(draws[0], Used(path, draws[0]))], limit, draws[1..])
  }

  /** The used elements of every line are a prefix of it, each on the path once. */
  ghost predicate Packed(path: seq<Slot>) {
    && Distinct(path)
    && forall s :: s in path <==> s.element < Used(path, s.line)
  }

  lemma UsedAppend(path: seq<Slot>, s: Slot, line: nat)
    ensures Used(path + [s], line) == Used(path, line) + (if s.line == line then 1 else 0)
  {
    assert (path + [s])[..|path|] == path;
  }

  lemma PackedAppend(path: seq<Slot>, line: nat)
    requires Packed(path)
    ensures Packed(path + [Slot(line, Used(path, line))])
  {
    var s := Slot(line, Used(path, line));
    var r := path + [s];
    assert s !in path;
    assert Distinct(r);
    forall t: Slot ensures t in r <==> t.element < Used(r, t.line) {
      UsedAppend(path, s, t.line);
      assert t in r <==> t in path || t == s;
      assert t in path <==> t.element < Used(path, t.line);
    }
  }

  lemma PackedStart()
    ensures Packed([Slot(0, 0)])
  {
    PackedAppend([], 0);
    assert [] + [Slot(0, 0)] == [Slot(0, 0)];
  }

  lemma {:induction false} FillPacked(path: seq<Slot>, limit: nat, draws: seq<nat>)
    requires Packed(path)
    ensures Packed(Fill(path, limit, draws)) && path <= Fill(path, limit, draws)
    decreases |draws|
  {
    if draws != [] && Used(path, draws[0]) < limit {
      PackedAppend(path, draws[0]);
      FillPacked(path + [Slot(draws[0], Used(path, draws[0]))], limit, draws[1..]);
    }
  }

  /** The fill places the draws one by one, in order, below the limit. */
  lemma {:induction false} FillPlaces(path: seq<Slot>, limit: nat, draws: seq<nat>, r: seq<Slot>, i: nat)
    requires Packed(path) && r == Fill(path, limit, draws) && |path| <= i < |r|
    ensures i - |path| < |draws| && r[i].line == draws[i - |path|]
    ensures r[i].element < limit && r[i].element == Used(r[..i], r[i].line)
    decreases |draws|
  {
    var s := Slot(draws[0], Used(path, draws[0]));
    PackedAppend(path, draws[0]);
    FillPacked(path + [s], limit, draws[1..]);
    assert r[|path|] == s;
    if i == |path| {
      assert r[..i] == path;
    } else {
      FillPlaces(path + [s], limit, draws[1..], r, i);
    }
  }

  /** The fill stops early exactly when a drawn line has no allowed free element left. */
  lemma {:induction false} FillStops(path: seq<Slot>, limit: nat, draws: seq<nat>, r: seq<Slot>)
    requires Packed(path) && r == Fill(path, limit, draws)
    ensures |path| <= |r| <= |path| + |draws|
    ensures |r| < |path| + |draws| ==> Used(r, draws[|r| - |path|]) >= limit
    decreases |draws|
  {
    FillPacked(path, limit, draws);
    if draws != [] && Used(path, draws[0]) < limit {
      var s := Slot(draws[0], Used(path, draws[0]));
      PackedAppend(path, draws[0]);
      FillStops(path + [s], limit, draws[1..], r);
    }
  }

  /** What a first-fit path of the draws is, without saying how it is computed: it starts at the
      first slot, each further slot is the next unused element of its draw's line and below the
      limit, no element is skipped, and if draws are left over the next one names a full line. */
  ghost predicate IsFirstFit(r: seq<Slot>, limit: nat, draws: seq<nat>) {
    && 1 <= |r| <= |draws| + 1 && r[0] == Slot(0, 0)
    && (forall k :: 0 < k < |r| ==> r[k].line == draws[k - 1])
    && (forall k :: 0 < k < |r| ==> r[k].element == Used(r[..k], r[k].line) && r[k].element < limit)
    && (|r| <= |draws| ==> Used(r, draws[|r| - 1]) >= limit)
  }

  lemma FillBegins(limit: nat, draws: seq<nat>)
    ensures var f := Fill([Slot(0, 0)], limit, draws);
            && 1 <= |f| <= |draws| + 1 && f[0] == Slot(0, 0)
            && (|f| <= |draws| ==> Used(f, draws[|f| - 1]) >= limit)
  {
    var start := [Slot(0, 0)];
    PackedStart();
    FillPacked(start, limit, draws);
    FillStops(start, limit, draws, Fill(start, limit, draws));
    assert start[0] == Fill(start, limit, draws)[0];
  }

  lemma FillGoesOn(limit: nat, draws: seq<nat>, f: seq<Slot>, k: nat)
    requires f == Fill([Slot(0, 0)], limit, draws) && 0 < k < |f|
    ensures k - 1 < |draws| && f[k].line == draws[k - 1]
    ensures f[k].element == Used(f[..k], f[k].line) && f[k].element < limit
  {
    PackedStart();
    FillPlaces([Slot(0, 0)], limit, draws, f, k);
  }

  lemma FillFits(limit: nat, draws: seq<nat>, f: seq<Slot>)
    requires f == Fill([Slot(0, 0)], limit, draws)
    ensures IsFirstFit(f, limit, draws)
  {
    FillBegins(limit, draws);
    forall k | 0 < k < |f|
      ensures f[k].line == draws[k - 1] && f[k].element == Used(f[..k], f[k].line) && f[k].element < limit
    {
      FillGoesOn(limit, draws, f, k);
    }
  }

  lemma OneFirstFit(r: seq<Slot>, f: seq<Slot>, limit: nat, draws: seq<nat>)
    requires IsFirstFit(r, limit, draws) && IsFirstFit(f, limit, draws)
    ensures r == f
  {
    if |r| <= |f| {
      FirstFitAgree(r, f, limit, draws, |r|);
      FirstFitEnds(r, f, limit, draws);
    } else {
      FirstFitAgree(f, r, limit, draws, |f|);
      FirstFitEnds(f, r, limit, draws);
    }
  }

  /** The fill computes the first-fit path, and there is only one. */
  lemma FillIsFirstFit(r: seq<Slot>, limit: nat, draws: seq<nat>)
    ensures r == Fill([Slot(0, 0)], limit, draws) <==> IsFirstFit(r, limit, draws)
  {
    var f := Fill([Slot(0, 0)], limit, draws);
    FillFits(limit, draws, f);
    if IsFirstFit(r, limit, draws) {
      OneFirstFit(r, f, limit, draws);
    }
  }

  lemma {:induction false} FirstFitAgree(r: seq<Slot>, f: seq<Slot>, limit: nat, draws: seq<nat>, k: nat)
    requires IsFirstFit(r, limit, draws) && IsFirstFit(f, limit, draws) && 0 < k <= |r| && k <= |f|
    ensures r[..k] == f[..k]
  {
    if k > 1 {
      FirstFitAgree(r, f, limit, draws, k - 1);
      assert r[k - 1] == f[k - 1];
    }
    assert r[..k] == f[..k];
  }

  lemma FirstFitEnds(r: seq<Slot>, f: seq<Slot>, limit: nat, draws: seq<nat>)
    requires IsFirstFit(r, limit, draws) && IsFirstFit(f, limit, draws) && |r| <= |f| && r == f[..|r|]
    ensures r == f
  {
    var n := |r|;
    assert f[..n] == r;
    assert f == f[..|f|];
  }

  ghost function LinesOf(path: seq<Slot>): seq<nat> {
    seq(|path|, i requires 0 <= i < |path| => path[i].line)
  }

  lemma LinesAppend(path: seq<Slot>, s: Slot)
    requires path != []
    ensures LinesOf((path + [s])[1..]) == LinesOf(path[1..]) + [s.line]
  {
    assert (path + [s])[1..] == path[1..] + [s];
  }

  /* ---------- where slots live in memory ---------- */

  datatype Layout = Layout(base: nat, cacheline: nat, lines: nat) {
    function Elements(): nat { cacheline / ELEMENT_SIZE }

    function Addr(s: Slot): nat { base + s.line * cacheline + s.element * ELEMENT_SIZE }

    predicate OnGrid(s: Slot) { s.line < lines && s.element < Elements() }

    function End(): nat { base + lines * cacheline }
  }

  lemma AddrInside(l: Layout, s: Slot)
    requires l.OnGrid(s)
    ensures l.base <= l.Addr(s) && l.Addr(s) + ELEMENT_SIZE <= l.End()
    ensures l.base + s.line * l.cacheline <= l.Addr(s)
            && l.Addr(s) + ELEMENT_SIZE <= l.base + s.line * l.cacheline + l.cacheline
  {
    MulStep(l.lines - s.line, l.cacheline);
    assert (l.lines - s.line) * l.cacheline == l.lines * l.cacheline - s.line * l.cacheline;
  }

  /** Different slots never share a byte. */
  lemma AddrApart(l: Layout, s: Slot, t: Slot)
    requires l.OnGrid(s) && l.OnGrid(t) && s != t
    ensures l.Addr(s) + ELEMENT_SIZE <= l.Addr(t) || l.Addr(t) + ELEMENT_SIZE <= l.Addr(s)
  {
    AddrInside(l, s);
    AddrInside(l, t);
    MulStep(t.line - s.line, l.cacheline);
    assert (t.line - s.line) * l.cacheline == t.line * l.cacheline - s.line * l.cacheline;
  }

  ghost function Addrs(l: Layout, path: seq<Slot>): seq<nat> {
    seq(|path|, i requires 0 <= i < |path| => l.Addr(path[i]))
  }

  /** Memory holds the path so far: its slots are linked in order, all other slots of the grid
      are zero, and the value in the tail slot does not matter. */
  ghost predicate Holds(mem: seq<nat>, l: Layout, path: seq<Slot>) {
    && l.End() <= |mem|
    && path != [] && path[0] == Slot(0, 0)
    && Packed(path)
    && (forall s :: s in path ==> l.OnGrid(s))
    && OpenChain(mem, Addrs(l, path))
    && (forall s :: l.OnGrid(s) && s !in path ==> l.Addr(s) < |mem| && mem[l.Addr(s)] == 0)
  }

  lemma LinkIsPositive(mem: seq<nat>, l: Layout, path: seq<Slot>, i: nat)
    requires Holds(mem, l, path) && i < |path| - 1
    ensures l.Addr(path[i]) < |mem| && mem[l.Addr(path[i])] > 0
  {
    var a, t := Addrs(l, path), path[i + 1];
    assert a[i] == l.Addr(path[i]) && a[i + 1] == l.Addr(t);
    assert t in path && path[0] in path && t != path[0];
    AddrInside(l, path[0]);
    AddrApart(l, path[0], t);
    AddrInside(l, t);
  }

  /** Apart from the tail, a slot is zero exactly when it is unused, even when the buffer
      starts at offset 0: no link leads to the first slot while the fill is going on. */
  lemma ZeroMeansFree(mem: seq<nat>, l: Layout, path: seq<Slot>, s: Slot)
    requires Holds(mem, l, path) && l.OnGrid(s) && s != path[|path| - 1]
    ensures l.Addr(s) < |mem|
    ensures mem[l.Addr(s)] == 0 <==> s !in path
  {
    if s in path {
      var i :| 0 <= i < |path| && path[i] == s;
      LinkIsPositive(mem, l, path, i);
    } else {
      AddrInside(l, s);
    }
  }

  /** Linking one more slot keeps the invariant. */
  lemma Extend(mem: seq<nat>, l: Layout, path: seq<Slot>, s: Slot, mem': seq<nat>)
    requires Holds(mem, l, path)
    requires l.OnGrid(s) && s.element == Used(path, s.line)
    requires l.Addr(path[|path| - 1]) < |mem| && mem' == mem[l.Addr(path[|path| - 1]) := l.Addr(s)]
    ensures Holds(mem', l, path + [s])
  {
    var last := path[|path| - 1];
    PackedAppend(path, s.line);
    NewAddress(l, path, s);
    AddrInside(l, s);
    Append(mem, Addrs(l, path), l.Addr(s), mem');
    assert Addrs(l, path + [s]) == Addrs(l, path) + [l.Addr(s)];
    forall t | l.OnGrid(t) && t !in path + [s] ensures l.Addr(t) < |mem'| && mem'[l.Addr(t)] == 0 {
      assert t !in path && last in path;
      AddrApart(l, t, last);
    }
  }

  /** The value in the tail slot does not matter. */
  lemma Retail(mem: seq<nat>, l: Layout, path: seq<Slot>, v: nat)
    requires Holds(mem, l, path)
    ensures l.Addr(path[|path| - 1]) < |mem| && Holds(mem[l.Addr(path[|path| - 1]) := v], l, path)
  {
    var last := path[|path| - 1];
    AddrInside(l, last);
    var mem' := mem[l.Addr(last) := v];
    assert Addrs(l, path)[|path| - 1] == l.Addr(last);
    Rewrite(mem, Addrs(l, path), v, mem');
    forall t | l.OnGrid(t) && t !in path ensures l.Addr(t) < |mem'| && mem'[l.Addr(t)] == 0 {
      assert last in path;
      AddrApart(l, t, last);
    }
  }

  lemma NewAddress(l: Layout, path: seq<Slot>, s: Slot)
    requires (forall t :: t in path ==> l.OnGrid(t)) && l.OnGrid(s) && s !in path
    ensures l.Addr(s) !in Addrs(l, path)
  {
    forall i | 0 <= i < |path| ensures l.Addr(path[i]) != l.Addr(s) {
      AddrApart(l, path[i], s);
    }
  }

  lemma TailInside(mem: seq<nat>, l: Layout, path: seq<Slot>)
    requires Holds(mem, l, path)
    ensures var tail := l.Addr(path[|path| - 1]);
            tail == Addrs(l, path)[|path| - 1] && l.base <= tail < l.End() <= |mem|
  {
    AddrInside(l, path[|path| - 1]);
  }

  /** A zeroed region holds the path that consists of its first slot only. */
  lemma HoldsStart(mem: seq<nat>, l: Layout)
    requires l.lines > 0 && l.Elements() > 0 && l.End() <= |mem|
    requires forall a :: l.base <= a < l.End() ==> mem[a] == 0
    ensures Holds(mem, l, [Slot(0, 0)])
  {
    PackedStart();
    forall s | l.OnGrid(s) ensures l.Addr(s) < |mem| && mem[l.Addr(s)] == 0 {
      AddrInside(l, s);
    }
  }

  /** In bytes: `a` is the lowest of the first `limit` elements from byte `first` on whose cell is zero; */
  ghost predicate LowestZero(mem: seq<nat>, a: nat, first: nat, limit: nat) {
    exists e: nat :: e < limit && a == first + 4 * e && a < |mem| && mem[a] == 0 && NoZero(mem, first, e)
  }

  /** none of them is zero. */
  ghost predicate NoZero(mem: seq<nat>, first: nat, limit: nat) {
    forall e: nat :: e < limit ==> first + 4 * e < |mem| && mem[first + 4 * e] != 0
  }

  lemma ScanInBytes(mem: seq<nat>, l: Layout, line: nat, limit: nat, offset: nat)
    requires offset <= limit <= l.Elements()
    requires forall e :: 0 <= e < l.Elements() ==> l.Addr(Slot(line, e)) < |mem|
    requires forall e :: 0 <= e < offset ==> mem[l.Addr(Slot(line, e))] != 0
    requires offset < limit ==> mem[l.Addr(Slot(line, offset))] == 0
    ensures offset == limit ==> NoZero(mem, l.base + line * l.cacheline, limit)
    ensures offset < limit ==> LowestZero(mem, l.Addr(Slot(line, offset)), l.base + line * l.cacheline, limit)
  {
    var first := l.base + line * l.cacheline;
    forall e: nat | e < offset ensures first + 4 * e < |mem| && mem[first + 4 * e] != 0 {
      assert first + 4 * e == l.Addr(Slot(line, e));
    }
    if offset < limit {
      assert first + 4 * offset == l.Addr(Slot(line, offset)) && NoZero(mem, first, offset);
    }
  }

  /** The inner scan of both builders: the first element of a line that holds zero, unless
      `limit` elements in a row are non-zero. */
  method FirstFree(mem: array<nat>, l: Layout, line: nat, limit: nat)
    returns (offset: nat, element: nat, done: bool)
    requires l.End() <= mem.Length && line < l.lines && 0 < limit <= l.Elements()
    ensures offset <= limit && (done <==> offset == limit)
    ensures forall e :: 0 <= e < l.Elements() ==> l.Addr(Slot(line, e)) < mem.Length
    ensures forall e :: 0 <= e < offset ==> mem[l.Addr(Slot(line, e))] != 0
    ensures !done ==> element == l.Addr(Slot(line, offset)) && mem[element] == 0
    ensures if done then NoZero(mem[..], l.base + line * l.cacheline, limit)
            else LowestZero(mem[..], element, l.base + line * l.cacheline, limit)
  {
    forall e: nat | e < l.Elements() ensures l.Addr(Slot(line, e)) < mem.Length {
      AddrInside(l, Slot(line, e));
    }
    offset, done := 0, false;
    while true
      invariant offset < limit
      invariant forall e :: 0 <= e < offset ==> mem[l.Addr(Slot(line, e))] != 0
      decreases limit - offset
    {
      element := l.base + line * l.cacheline + offset * ELEMENT_SIZE;
      assert element == l.Addr(Slot(line, offset));
      if 0 != mem[element] {
        offset := offset + 1;
      } else {
        break;
      }
      if offset == limit {
        done := true;
        break;
      }
    }
    ScanInBytes(mem[..], l, line, limit, offset);
  }

  /** Once the tail is marked, the scan finds the line's first unused element, or reports the
      line full, according to the path alone. */
  lemma ScanAgrees(mem: seq<nat>, l: Layout, path: seq<Slot>, line: nat, limit: nat, offset: nat)
    requires Holds(mem, l, path) && line < l.lines && 0 < limit <= l.Elements()
    requires l.Addr(path[|path| - 1]) < |mem| && mem[l.Addr(path[|path| - 1])] != 0
    requires offset <= limit
    requires forall e :: 0 <= e < limit ==> l.Addr(Slot(line, e)) < |mem|
    requires forall e :: 0 <= e < offset ==> mem[l.Addr(Slot(line, e))] != 0
    requires offset < limit ==> mem[l.Addr(Slot(line, offset))] == 0
    ensures offset == limit ==> Used(path, line) >= limit
    ensures offset < limit ==> Used(path, line) == offset
  {
    forall e: nat | e < limit ensures mem[l.Addr(Slot(line, e))] != 0 <==> Slot(line, e) in path {
      if Slot(line, e) != path[|path| - 1] { ZeroMeansFree(mem, l, path, Slot(line, e)); }
    }
    if offset < limit {
      assert Slot(line, offset) !in path;
      if offset > 0 { assert Slot(line, offset - 1) in path; }
    } else {
      assert Slot(line, limit - 1) in path;
    }
  }

  /** One step of either builder, from the marked memory in which it scans: the scan reports a
      full line exactly when the fill ends here, and otherwise linking the element it found
      yields the path with the fill's next slot. */
  lemma Place(mem: seq<nat>, l: Layout, path: seq<Slot>, limit: nat, draws: seq<nat>, offset: nat)
    requires Holds(mem, l, path) && draws != [] && draws[0] < l.lines && 0 < limit <= l.Elements()
    requires l.Addr(path[|path| - 1]) < |mem| && mem[l.Addr(path[|path| - 1])] != 0
    requires offset <= limit
    requires forall e :: 0 <= e < l.Elements() ==> l.Addr(Slot(draws[0], e)) < |mem|
    requires forall e :: 0 <= e < offset ==> mem[l.Addr(Slot(draws[0], e))] != 0
    requires offset < limit ==> mem[l.Addr(Slot(draws[0], offset))] == 0
    ensures offset == limit ==> Fill(path, limit, draws) == path
    ensures offset < limit ==>
              var s := Slot(draws[0], offset);
              && Fill(path, limit, draws) == Fill(path + [s], limit, draws[1..])
              && Holds(mem[l.Addr(path[|path| - 1]) := l.Addr(s)], l, path + [s])
  {
    ScanAgrees(mem, l, path, draws[0], limit, offset);
    if offset < limit {
      var s := Slot(draws[0], offset);
      Extend(mem, l, path, s, mem[l.Addr(path[|path| - 1]) := l.Addr(s)]);
    }
  }

  /** The loop body the two builders share: mark the tail so that it reads as used, scan the
      drawn line, and link the element found. */
  method LinkNext(mem: array<nat>, l: Layout, previdx: nat, idx: nat, limit: nat, ghost path: seq<Slot>,
                  ghost draws: seq<nat>)
    returns (element: nat, done: bool, ghost path': seq<Slot>)
    requires Holds(mem[..], l, path) && previdx == l.Addr(path[|path| - 1])
    requires draws != [] && draws[0] == idx < l.lines && 0 < limit <= l.Elements()
    modifies mem
    ensures Holds(mem[..], l, path')
    ensures done ==> path' == path && Fill(path, limit, draws) == path
    ensures !done ==> path' == path + [Slot(idx, Used(path, idx))] && element == l.Addr(path'[|path|])
    ensures !done ==> Fill(path, limit, draws) == Fill(path', limit, draws[1..])
    ensures forall a :: 0 <= a < mem.Length && a != previdx ==> mem[a] == old(mem[a])
  {
    TailInside(mem[..], l, path);
    Retail(mem[..], l, path, 1);
    mem[previdx] := 1;
    var offset;
    offset, element, done := FirstFree(mem, l, idx, limit);
    Place(mem[..], l, path, limit, draws, offset);
    path' := path;
    if !done {
      ScanAgrees(mem[..], l, path, idx, limit, offset);
      path' := path + [Slot(idx, offset)];
      mem[previdx] := element;
    }
  }

  /** The loop of both builders: place one slot per draw until a drawn line is full.  `placed`
      lists the lines of the slots after the first; the caller closes the path at `previdx`. */
  method FillLines(mem: array<nat>, l: Layout, limit: nat, draws: seq<nat>)
    returns (placed: seq<nat>, previdx: nat, ghost path: seq<Slot>)
    requires l.End() <= mem.Length && l.lines > 0 && 0 < limit <= l.Elements()
    requires forall a :: l.base <= a < l.End() ==> mem[a] == 0
    requires forall i :: 0 <= i < |draws| ==> draws[i] < l.lines
    modifies mem
    ensures path == Fill([Slot(0, 0)], limit, draws) && Holds(mem[..], l, path)
    ensures previdx == l.Addr(path[|path| - 1]) == Addrs(l, path)[|path| - 1]
    ensures placed == LinesOf(path[1..])
    ensures forall a :: 0 <= a < mem.Length && !(l.base <= a < l.End()) ==> mem[a] == old(mem[a])
  {
    HoldsStart(mem[..], l);
    placed, previdx, path := [], l.base, [Slot(0, 0)];
    var i := 0;
    assert draws[0..] == draws;
    while i < |draws|
      invariant 0 <= i <= |draws|
      invariant Holds(mem[..], l, path) && previdx == l.Addr(path[|path| - 1])
      invariant Fill(path, limit, draws[i..]) == Fill([Slot(0, 0)], limit, draws)
      invariant placed == LinesOf(path[1..])
      invariant forall a :: 0 <= a < mem.Length && !(l.base <= a < l.End()) ==> mem[a] == old(mem[a])
    {
      TailInside(mem[..], l, path);
      var element, done, path' := LinkNext(mem, l, previdx, draws[i], limit, path, draws[i..]);
      if done {
        break;
      }
      assert draws[i..][1..] == draws[i + 1..];
      LinesAppend(path, path'[|path|]);
      placed := placed + [draws[i]];
      previdx := element;
      path := path';
      i := i + 1;
    }
    TailInside(mem[..], l, path);
  }
}
