/** First-fit paths in bytes: where in the buffer the slots of a path lie, stated without the grid. */
module SlotBytes {
  import opened Paths
  import opened FirstFit

  /** The first byte of element `e` of a line. */
  ghost function ByteOf(base: nat, cacheline: nat, line: nat, e: nat): nat { base + line * cacheline + 4 * e }

  /** `a` is the lowest of the first `limit` elements of the line that is not taken. */
  ghost predicate LowestFree(a: nat, base: nat, cacheline: nat, line: nat, limit: nat, taken: seq<nat>) {
    exists e: nat :: e < limit && a == ByteOf(base, cacheline, line, e) && a !in taken
                     && forall f: nat :: f < e ==> ByteOf(base, cacheline, line, f) in taken
  }

  /** A first-fit path in bytes: it starts at `base`; every further slot is the lowest element of the next
      line asked for that is not on the path yet; and if lines are left over, the next one has none. */
  ghost predicate FirstFitBytes(path: seq<nat>, base: nat, cacheline: nat, limit: nat, lines: seq<nat>) {
    && 1 <= |path| <= |lines| + 1 && path[0] == base
    && (forall k :: 0 < k < |path| ==> LowestFree(path[k], base, cacheline, lines[k - 1], limit, path[..k]))
    && (|path| <= |lines| ==> LineFull(path, base, cacheline, lines[|path| - 1], limit))
  }

  ghost predicate LineFull(path: seq<nat>, base: nat, cacheline: nat, line: nat, limit: nat) {
    forall e: nat :: e < limit ==> ByteOf(base, cacheline, line, e) in path
  }

  /** Element `e` of no line is on the path. */
  ghost predicate NeverGiven(path: seq<nat>, base: nat, cacheline: nat, e: nat) {
    forall line: nat :: ByteOf(base, cacheline, line, e) !in path
  }

  lemma SlotAt(r: seq<Slot>, limit: nat, lines: seq<nat>, k: nat)
    requires IsFirstFit(r, limit, lines) && 0 < k < |r|
    ensures r[k] == Slot(lines[k - 1], Used(r[..k], lines[k - 1])) && r[k].element < limit
  {
  }

  lemma PackedNext(r: seq<Slot>, k: nat, line: nat)
    requires k < |r| && Packed(r[..k]) && r[k] == Slot(line, Used(r[..k], line))
    ensures Packed(r[..k + 1])
  {
    PackedAppend(r[..k], line);
    assert r[..k + 1] == r[..k] + [r[k]];
  }

  lemma PackedFirst(r: seq<Slot>)
    requires r != [] && r[0] == Slot(0, 0)
    ensures Packed(r[..1])
  {
    PackedStart();
    assert r[..1] == [Slot(0, 0)];
  }

  lemma {:induction false} FirstFitPacked(r: seq<Slot>, limit: nat, lines: seq<nat>, k: nat)
    requires IsFirstFit(r, limit, lines) && 0 < k <= |r|
    ensures Packed(r[..k])
  {
    if k == 1 {
      PackedFirst(r);
    } else {
      FirstFitPacked(r, limit, lines, k - 1);
      SlotAt(r, limit, lines, k - 1);
      PackedNext(r, k - 1, lines[k - 2]);
    }
  }

  lemma AddrIsByte(l: Layout, s: Slot)
    ensures l.Addr(s) == ByteOf(l.base, l.cacheline, s.line, s.element)
  {
  }

  /** An element of a line is on the path, as bytes, exactly when it is among the line's used ones. */
  lemma ByteOnPath(l: Layout, path: seq<Slot>, line: nat, e: nat)
    requires Packed(path) && (forall s :: s in path ==> l.OnGrid(s)) && l.OnGrid(Slot(line, e))
    ensures ByteOf(l.base, l.cacheline, line, e) in Addrs(l, path) <==> e < Used(path, line)
  {
    var s := Slot(line, e);
    AddrIsByte(l, s);
    if s in path {
      var i :| 0 <= i < |path| && path[i] == s;
      assert Addrs(l, path)[i] == l.Addr(s);
    } else {
      NewAddress(l, path, s);
    }
  }

  lemma PrefixAddrs(l: Layout, path: seq<Slot>, k: nat)
    requires k <= |path|
    ensures Addrs(l, path)[..k] == Addrs(l, path[..k])
  {
  }

  lemma SlotIsLowest(l: Layout, r: seq<Slot>, limit: nat, lines: seq<nat>, k: nat)
    requires IsFirstFit(r, limit, lines) && 0 < k < |r| && limit <= l.Elements() && lines[k - 1] < l.lines
    requires forall s :: s in r ==> l.OnGrid(s)
    ensures LowestFree(Addrs(l, r)[k], l.base, l.cacheline, lines[k - 1], limit, Addrs(l, r)[..k])
  {
    var s := r[k];
    SlotAt(r, limit, lines, k);
    FirstFitPacked(r, limit, lines, k);
    PrefixAddrs(l, r, k);
    AddrIsByte(l, s);
    ByteOnPath(l, r[..k], s.line, s.element);
    forall f: nat | f < s.element ensures ByteOf(l.base, l.cacheline, s.line, f) in Addrs(l, r)[..k] {
      ByteOnPath(l, r[..k], s.line, f);
    }
  }

  /** What the end of a path says, in bytes. */
  lemma EndInBytes(l: Layout, r: seq<Slot>, limit: nat, lines: seq<nat>)
    requires IsFirstFit(r, limit, lines) && limit <= l.Elements() && |r| <= |lines| && lines[|r| - 1] < l.lines
    requires forall s :: s in r ==> l.OnGrid(s)
    ensures LineFull(Addrs(l, r), l.base, l.cacheline, lines[|r| - 1], limit)
  {
    FirstFitPacked(r, limit, lines, |r|);
    assert r[..|r|] == r;
    FullInBytes(l, r, lines[|r| - 1], limit);
  }

  /** The first-fit path of slots is the first-fit path of bytes. */
  lemma FirstFitInBytes(l: Layout, r: seq<Slot>, limit: nat, lines: seq<nat>)
    requires IsFirstFit(r, limit, lines) && limit <= l.Elements()
    requires (forall s :: s in r ==> l.OnGrid(s)) && forall i :: 0 <= i < |lines| ==> lines[i] < l.lines
    ensures FirstFitBytes(Addrs(l, r), l.base, l.cacheline, limit, lines)
  {
    AddrIsByte(l, r[0]);
    forall k | 0 < k < |r|
      ensures LowestFree(Addrs(l, r)[k], l.base, l.cacheline, lines[k - 1], limit, Addrs(l, r)[..k])
    {
      SlotIsLowest(l, r, limit, lines, k);
    }
    if |r| <= |lines| {
      EndInBytes(l, r, limit, lines);
    }
  }

  lemma FullInBytes(l: Layout, r: seq<Slot>, line: nat, limit: nat)
    requires Packed(r) && (forall s :: s in r ==> l.OnGrid(s)) && line < l.lines && limit <= l.Elements()
    requires Used(r, line) >= limit
    ensures LineFull(Addrs(l, r), l.base, l.cacheline, line, limit)
  {
    forall e: nat | e < limit ensures ByteOf(l.base, l.cacheline, line, e) in Addrs(l, r) {
      ByteOnPath(l, r, line, e);
    }
  }

  /** An element that is given out on no line is not on the path, on this line or any other. */
  lemma LastNeverOnPath(l: Layout, r: seq<Slot>, limit: nat, line: nat)
    requires Packed(r) && (forall s :: s in r ==> l.OnGrid(s)) && limit < l.Elements()
    requires forall s :: s in r ==> s.element < limit
    ensures ByteOf(l.base, l.cacheline, line, limit) !in Addrs(l, r)
  {
    forall i | 0 <= i < |r| ensures Addrs(l, r)[i] != ByteOf(l.base, l.cacheline, line, limit) {
      var s := r[i];
      assert s in r;
      var big := Layout(l.base, l.cacheline, if line < l.lines then l.lines else line + 1);
      AddrIsByte(big, Slot(line, limit));
      AddrApart(big, s, Slot(line, limit));
    }
  }

  lemma NeverOnPath(l: Layout, r: seq<Slot>, limit: nat)
    requires Packed(r) && (forall s :: s in r ==> l.OnGrid(s)) && limit < l.Elements()
    requires forall s :: s in r ==> s.element < limit
    ensures NeverGiven(Addrs(l, r), l.base, l.cacheline, limit)
  {
    forall line: nat ensures ByteOf(l.base, l.cacheline, line, limit) !in Addrs(l, r) {
      LastNeverOnPath(l, r, limit, line);
    }
  }

  /** Slots of a first-fit path lie on the grid, below the limit. */
  lemma FirstFitOnGrid(l: Layout, r: seq<Slot>, limit: nat, lines: seq<nat>)
    requires IsFirstFit(r, limit, lines) && 0 < limit <= l.Elements() && l.lines > 0
    requires forall i :: 0 <= i < |lines| ==> lines[i] < l.lines
    ensures forall s :: s in r ==> l.OnGrid(s) && s.element < limit
  {
    forall i | 0 <= i < |r| ensures l.OnGrid(r[i]) && r[i].element < limit {
      assert i > 0 ==> r[i].line == lines[i - 1];
    }
  }

  /** The recorded lines are those of the draws used. */
  lemma RecordIs(r: seq<Slot>, limit: nat, lines: seq<nat>)
    requires IsFirstFit(r, limit, lines)
    ensures LinesOf(r[1..]) == lines[..|r| - 1]
  {
    forall i | 0 <= i < |r| - 1 ensures LinesOf(r[1..])[i] == lines[i] {
      assert r[1..][i] == r[i + 1];
    }
  }

  /** A cycle through the whole buffer, on which the last element of a line is never given out. */
  ghost predicate BuiltAlong(path: seq<nat>, mem: seq<nat>, start: nat, cacheline: nat, lines: seq<nat>, sequence: seq<nat>)
    requires cacheline >= 8
  {
    && Cycle(mem, path) && FirstFitBytes(path, start, cacheline, cacheline / 4 - 1, lines)
    && sequence == lines[..|path| - 1] && NeverGiven(path, start, cacheline, cacheline / 4 - 1)
  }

  lemma CycleInBytes(l: Layout, r: seq<Slot>, lines: seq<nat>, mem: seq<nat>, sequence: seq<nat>)
    requires l.Elements() >= 2 && l.lines > 0 && forall i :: 0 <= i < |lines| ==> lines[i] < l.lines
    requires IsFirstFit(r, l.Elements() - 1, lines) && Cycle(mem, Addrs(l, r)) && sequence == LinesOf(r[1..])
    ensures BuiltAlong(Addrs(l, r), mem, l.base, l.cacheline, lines, sequence)
  {
    var limit: nat := l.Elements() - 1;
    FirstFitOnGrid(l, r, limit, lines);
    FirstFitInBytes(l, r, limit, lines);
    FirstFitPacked(r, limit, lines, |r|);
    assert r[..|r|] == r;
    NeverOnPath(l, r, limit);
    RecordIs(r, limit, lines);
  }

  lemma PathInBytes(l: Layout, r: seq<Slot>, limit: nat, lines: seq<nat>)
    requires 0 < limit <= l.Elements() && l.lines > 0 && forall i :: 0 <= i < |lines| ==> lines[i] < l.lines
    requires IsFirstFit(r, limit, lines)
    ensures FirstFitBytes(Addrs(l, r), l.base, l.cacheline, limit, lines)
    ensures LinesOf(r[1..]) == lines[..|r| - 1]
  {
    FirstFitOnGrid(l, r, limit, lines);
    FirstFitInBytes(l, r, limit, lines);
    RecordIs(r, limit, lines);
  }
}
