/** Pointer-chasing paths stored in a buffer.

    Memory is a sequence of cells indexed by byte offset from the buffer pointer: cell `b` is the
    32-bit element whose first byte lies at offset `b`.  A cell that belongs to a path holds the
    offset of the next cell. */
module Paths {
  import opened Arithmetic

  /** `(element_size_t)-1`: the value that breaks a path. */
  const INVALID: nat := 0xFFFF_FFFF

  ghost predicate Distinct<T>(s: seq<T>) {
    forall i, j :: 0 <= i < j < |s| ==> s[i] != s[j]
  }

  /** Every cell of `path` but the last holds the offset of its successor. */
  ghost predicate OpenChain(mem: seq<nat>, path: seq<nat>) {
    && path != []
    && Distinct(path)
    && (forall i :: 0 <= i < |path| ==> path[i] < |mem|)
    && (forall i, j :: 0 <= i && j == i + 1 && j < |path| ==> mem[path[i]] == path[j])
  }

  lemma Append(mem: seq<nat>, path: seq<nat>, a: nat, mem': seq<nat>)
    requires OpenChain(mem, path) && a < |mem| && a !in path
    requires mem' == mem[path[|path| - 1] := a]
    ensures OpenChain(mem', path + [a])
  {
  }

  lemma Rewrite(mem: seq<nat>, path: seq<nat>, v: nat, mem': seq<nat>)
    requires OpenChain(mem, path) && mem' == mem[path[|path| - 1] := v]
    ensures OpenChain(mem', path)
  {
  }

  /** An open chain whose last cell holds `exit`. */
  ghost predicate Chain(mem: seq<nat>, path: seq<nat>, exit: nat) {
    OpenChain(mem, path) && mem[path[|path| - 1]] == exit
  }

  lemma Close(mem: seq<nat>, path: seq<nat>, exit: nat, mem': seq<nat>)
    requires OpenChain(mem, path) && mem' == mem[path[|path| - 1] := exit]
    ensures Chain(mem', path, exit)
  {
  }

  /** A chain depends on its own cells only. */
  lemma ChainFrame(mem: seq<nat>, path: seq<nat>, exit: nat, mem': seq<nat>)
    requires Chain(mem, path, exit) && |mem'| == |mem|
    requires forall a :: 0 <= a < |mem| && a in path ==> mem'[a] == mem[a]
    ensures Chain(mem', path, exit)
  {
  }

  /** A simple cycle: no cell twice, and the last leads back to the first. */
  ghost predicate Cycle(mem: seq<nat>, path: seq<nat>) {
    path != [] && Chain(mem, path, path[0])
  }

  /** Where a reader that starts at `at` stands after `steps` loads. */
  ghost function Chase(mem: seq<nat>, at: nat, steps: nat): nat {
    if steps == 0 then at
    else
      var prev := Chase(mem, at, steps - 1);
      if prev < |mem| then mem[prev] else prev
  }

  lemma {:induction false} ChaseByClock(mem: seq<nat>, path: seq<nat>, k: nat)
    requires Cycle(mem, path)
    ensures Chase(mem, path[0], k) == path[Clock(k, |path|)]
  {
    if k > 0 {
      ChaseByClock(mem, path, k - 1);
      var i := Clock(k - 1, |path|);
      assert i + 1 < |path| ==> mem[path[i]] == path[i + 1];
    }
  }

  /** Chasing a cycle from its first cell goes round it for ever. */
  lemma ChaseCycle(mem: seq<nat>, path: seq<nat>, k: nat)
    requires Cycle(mem, path)
    ensures Chase(mem, path[0], k) == path[k % |path|]
  {
    ChaseByClock(mem, path, k);
    ClockIsModulo(k, |path|);
  }

  lemma ClockBelow(k: nat, n: nat)
    requires k < n
    ensures Clock(k, n) == k && Clock(n, n) == 0
  {
    ClockIsModulo(k, n);
    DivModUnique(k, n, 0, k);
    ClockIsModulo(n, n);
    DivModUnique(n, n, 1, 0);
  }

  /** Exactly one of the first `n` positions of a reader that starts at `start` is `a`. */
  ghost predicate VisitedOnce(mem: seq<nat>, start: nat, n: nat, a: nat) {
    exists k :: 0 <= k < n && Chase(mem, start, k) == a && forall j :: 0 <= j < n && Chase(mem, start, j) == a ==> j == k
  }

  /** A cycle is visited completely and without repetition before the start comes round again. */
  lemma CycleVisitsEachOnce(mem: seq<nat>, path: seq<nat>, a: nat)
    requires Cycle(mem, path) && a in path
    ensures VisitedOnce(mem, path[0], |path|, a)
    ensures Chase(mem, path[0], |path|) == path[0]
  {
    var k :| 0 <= k < |path| && path[k] == a;
    forall j | 0 <= j < |path| ensures Chase(mem, path[0], j) == path[j] {
      ChaseByClock(mem, path, j);
      ClockBelow(j, |path|);
    }
    assert Chase(mem, path[0], k) == a;
    ChaseByClock(mem, path, |path|);
    ClockBelow(0, |path|);
  }

  /** The slots of a path split into subpaths, one per slice of the buffer.  `Ring` is the
      layout the builder leaves: each subpath leads on to the next.  `Loops` is the layout
      after splitting: each subpath leads back to its own start. */
  datatype Topology = Ring | Loops

  function Next(t: Topology, n: nat, c: nat): (d: nat)
    requires c < n
    ensures d < n
  {
    if t.Loops? then c else if c + 1 == n then 0 else c + 1
  }

  lemma RingIsModular(n: nat, c: nat)
    requires c < n
    ensures Next(Ring, n, c) == (c + 1) % n
  {
    DivModUnique(c + 1, n, if c + 1 == n then 1 else 0, Next(Ring, n, c));
  }

  /** No slot lies in two subpaths. */
  ghost predicate Disjoint(chunks: seq<seq<nat>>) {
    forall c, d, a :: 0 <= c < d < |chunks| && a in chunks[c] ==> a !in chunks[d]
  }

  ghost predicate Linked(mem: seq<nat>, chunks: seq<seq<nat>>, t: Topology) {
    && chunks != []
    && (forall c :: 0 <= c < |chunks| ==> chunks[c] != [])
    && Disjoint(chunks)
    && forall c :: 0 <= c < |chunks| ==> Chain(mem, chunks[c], chunks[Next(t, |chunks|, c)][0])
  }

  /** The first `k` subpaths of a ring are built. */
  ghost predicate LinkedTo(mem: seq<nat>, chunks: seq<seq<nat>>, k: nat)
    requires k <= |chunks| && forall c :: 0 <= c < |chunks| ==> chunks[c] != []
  {
    k > 0 ==> Chain(mem, chunks[k - 1], chunks[Next(Ring, |chunks|, k - 1)][0]) && LinkedTo(mem, chunks, k - 1)
  }

  lemma {:induction false} LinkedToFrame(mem: seq<nat>, chunks: seq<seq<nat>>, k: nat, mem': seq<nat>)
    requires k <= |chunks| && forall c :: 0 <= c < |chunks| ==> chunks[c] != []
    requires LinkedTo(mem, chunks, k) && |mem'| == |mem|
    requires forall j, a :: 0 <= j < k && 0 <= a < |mem| && a in chunks[j] ==> mem'[a] == mem[a]
    ensures LinkedTo(mem', chunks, k)
  {
    if k > 0 {
      LinkedToFrame(mem, chunks, k - 1, mem');
      ChainFrame(mem, chunks[k - 1], chunks[Next(Ring, |chunks|, k - 1)][0], mem');
    }
  }

  lemma {:induction false} LinkedToAt(mem: seq<nat>, chunks: seq<seq<nat>>, k: nat, c: nat)
    requires c < k <= |chunks| && forall c :: 0 <= c < |chunks| ==> chunks[c] != []
    requires LinkedTo(mem, chunks, k)
    ensures Chain(mem, chunks[c], chunks[Next(Ring, |chunks|, c)][0])
  {
    if c < k - 1 { LinkedToAt(mem, chunks, k - 1, c); }
  }

  lemma LinkedToAll(mem: seq<nat>, chunks: seq<seq<nat>>)
    requires chunks != [] && (forall c :: 0 <= c < |chunks| ==> chunks[c] != []) && Disjoint(chunks)
    requires LinkedTo(mem, chunks, |chunks|)
    ensures Linked(mem, chunks, Ring)
  {
    forall c | 0 <= c < |chunks| ensures Chain(mem, chunks[c], chunks[Next(Ring, |chunks|, c)][0]) {
      LinkedToAt(mem, chunks, |chunks|, c);
    }
  }

  ghost function Flat<T>(chunks: seq<seq<T>>): (path: seq<T>) {
    if chunks == [] then [] else Flat(chunks[..|chunks| - 1]) + chunks[|chunks| - 1]
  }

  lemma FlatStep<T>(chunks: seq<seq<T>>, c: nat)
    requires c < |chunks|
    ensures Flat(chunks[..c + 1]) == Flat(chunks[..c]) + chunks[c]
  {
    assert chunks[..c + 1][..c] == chunks[..c];
  }

  lemma {:induction false} FlatMember<T>(chunks: seq<seq<T>>, a: T)
    ensures a in Flat(chunks) <==> exists c :: 0 <= c < |chunks| && a in chunks[c]
  {
    if chunks != [] {
      var front := chunks[..|chunks| - 1];
      FlatMember(front, a);
      if a in Flat(front) {
        var c :| 0 <= c < |front| && a in front[c];
        assert a in chunks[c];
      }
      if c :| 0 <= c < |chunks| && a in chunks[c] && c < |front| {
        assert a in front[c];
      }
    }
  }

  lemma DistinctConcat<T>(a: seq<T>, b: seq<T>)
    requires Distinct(a) && Distinct(b) && forall i :: 0 <= i < |a| ==> a[i] !in b
    ensures Distinct(a + b)
  {
    forall i, j | 0 <= i < j < |a + b| ensures (a + b)[i] != (a + b)[j] {
      if i < |a| <= j {
        assert b[j - |a|] in b;
      }
    }
  }

  /** The first `k` subpaths of a ring form one open chain that leads to subpath `k`. */
  lemma {:induction false} RingPrefix(mem: seq<nat>, chunks: seq<seq<nat>>, k: nat)
    requires Linked(mem, chunks, Ring) && 0 < k <= |chunks|
    ensures Flat(chunks[..k]) != [] && Flat(chunks[..k])[0] == chunks[0][0]
    ensures Chain(mem, Flat(chunks[..k]), chunks[Next(Ring, |chunks|, k - 1)][0])
  {
    var front, last := chunks[..k][..k - 1], chunks[k - 1];
    assert front == chunks[..k - 1];
    if k == 1 {
      assert Flat(chunks[..k]) == last;
    } else {
      RingPrefix(mem, chunks, k - 1);
      var head := Flat(front);
      forall i | 0 <= i < |head| ensures head[i] !in last {
        FlatMember(front, head[i]);
        var c :| 0 <= c < |front| && head[i] in front[c];
        assert head[i] in chunks[c];
      }
      assert Chain(mem, last, chunks[Next(Ring, |chunks|, k - 1)][0]);
      DistinctConcat(head, last);
    }
  }

  /** The builder's layout is one simple cycle through all subpaths, in order. */
  lemma RingIsCycle(mem: seq<nat>, chunks: seq<seq<nat>>)
    requires Linked(mem, chunks, Ring)
    ensures Cycle(mem, Flat(chunks)) && Flat(chunks)[0] == chunks[0][0]
  {
    assert chunks[..|chunks|] == chunks;
    RingPrefix(mem, chunks, |chunks|);
  }

  /** Splitting changes no slot's membership: what the ring visits is exactly what the separate
      loops visit between them. */
  lemma LoopsCoverRing(ring: seq<nat>, loops: seq<nat>, chunks: seq<seq<nat>>, a: nat)
    requires Linked(ring, chunks, Ring) && Linked(loops, chunks, Loops)
    ensures (exists k :: 0 <= k && Chase(ring, chunks[0][0], k) == a)
            <==> (exists c, k :: 0 <= c < |chunks| && 0 <= k && Chase(loops, chunks[c][0], k) == a)
  {
    RingIsCycle(ring, chunks);
    var path := Flat(chunks);
    FlatMember(chunks, a);
    if k :| 0 <= k && Chase(ring, chunks[0][0], k) == a {
      ChaseByClock(ring, path, k);
      var c :| 0 <= c < |chunks| && a in chunks[c];
      assert Next(Loops, |chunks|, c) == c;
      CycleVisitsEachOnce(loops, chunks[c], a);
    }
    if c, k :| 0 <= c < |chunks| && 0 <= k && Chase(loops, chunks[c][0], k) == a {
      assert Next(Loops, |chunks|, c) == c;
      ChaseByClock(loops, chunks[c], k);
      CycleVisitsEachOnce(ring, path, a);
    }
  }
}
