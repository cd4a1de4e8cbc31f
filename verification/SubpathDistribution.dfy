/** The subpath builder (`SubpathDistribution`): one path per slice of the buffer, and the
    slices linked into one ring. */
module SubpathDistribution {
  import opened Arithmetic
  import opened Paths
  import opened FirstFit
  import opened SlotBytes
  import opened Wrappers
  import ZipfSampler

  /** What the generator contributes to one subpath: the outcome of `std::shuffle`, and for the
      Zipf variant the ranks drawn (1 up to the number of lines). */
  datatype Draws = Draws(shuffle: seq<nat>, ranks: seq<nat>)

  ghost predicate IsShuffle(s: seq<nat>, n: nat) {
    |s| == n && Distinct(s) && forall i :: 0 <= i < |s| ==> s[i] < n
  }

  function Shift(offset: nat, lines: seq<nat>): seq<nat> {
    seq(|lines|, i requires 0 <= i < |lines| => offset + lines[i])
  }

  /* ---------- uniform subpaths: 64-byte lines whose first two elements are in use ---------- */

  const LINE: nat := 64

  /** `cachelineArray[k].pathIndex` */
  function PathIndex(base: nat, k: nat): nat { base + LINE * k }

  /** `cachelineArray[k].indexToShuffle` */
  function ShuffleIndex(base: nat, k: nat): nat { base + LINE * k + ELEMENT_SIZE }

  /** Lines in visiting order: line 0, then the shuffled others. */
  ghost function VisitOrder(shuffle: seq<nat>): (lines: seq<nat>)
    ensures |lines| == |shuffle| + 1 && lines[0] == 0
  {
    seq(|shuffle| + 1, i requires 0 <= i <= |shuffle| => if i == 0 then 0 else shuffle[i - 1] + 1)
  }

  ghost function UniformPath(base: nat, shuffle: seq<nat>): (path: seq<nat>)
    ensures |path| == |shuffle| + 1 && path[0] == base
  {
    seq(|shuffle| + 1, i requires 0 <= i <= |shuffle| => PathIndex(base, VisitOrder(shuffle)[i]))
  }

  lemma VisitOrderShape(shuffle: seq<nat>, n: nat)
    requires IsShuffle(shuffle, n)
    ensures IsShuffle(VisitOrder(shuffle), n + 1)
  {
  }

  /** An element whose first three bytes are overwritten with ones (little-endian). */
  function LowBytesSet(v: nat): (w: nat)
    ensures w / 16777216 == v / 16777216 && w % 16777216 == 16777215
  {
    v / 0x100_0000 * 0x100_0000 + 0xFF_FFFF
  }

  /** Nothing outside `base .. end - 1` has changed, except that the element at `end` has lost its first
      three bytes. */
  ghost predicate Overrun(before: seq<nat>, mem: seq<nat>, base: nat, end: nat) {
    && |mem| == |before|
    && (forall a :: 0 <= a < |mem| && !(base <= a <= end) ==> mem[a] == before[a])
    && (end < |mem| ==> mem[end] == LowBytesSet(before[end]))
  }

  lemma OverrunThenKept(before: seq<nat>, filled: seq<nat>, mem: seq<nat>, base: nat, end: nat)
    requires Overrun(before, filled, base, end) && |mem| == |filled|
    requires forall a :: 0 <= a < |mem| && !(base <= a < end) ==> mem[a] == filled[a]
    ensures Overrun(before, mem, base, end)
  {
  }

  /** The fill stores an element at every byte offset, so the last store reaches three bytes into the
      element behind the slice. */
  method FillInvalid(mem: array<nat>, base: nat, bytes: nat)
    requires bytes > 0 && base + bytes <= mem.Length
    modifies mem
    ensures forall a :: base <= a < base + bytes ==> mem[a] == INVALID
    ensures Overrun(old(mem[..]), mem[..], base, base + bytes)
  {
    for i := 0 to bytes
      invariant forall a :: base <= a < base + i ==> mem[a] == INVALID
      invariant forall a :: 0 <= a < mem.Length && !(base <= a < base + i) ==> mem[a] == old(mem[a])
    {
      mem[base + i] := INVALID;
    }
    if base + bytes < mem.Length {
      mem[base + bytes] := LowBytesSet(mem[base + bytes]);
    }
  }

  method WriteIndices(mem: array<nat>, base: nat, size: nat)
    requires size > 0 && base + LINE * size <= mem.Length
    requires forall a :: base <= a < base + LINE * size ==> mem[a] == INVALID
    modifies mem
    ensures forall k :: 0 <= k < size ==> PathIndex(base, k) < mem.Length && mem[PathIndex(base, k)] == INVALID
    ensures forall k :: 0 <= k < size - 1 ==> ShuffleIndex(base, k) < mem.Length && mem[ShuffleIndex(base, k)] == k + 1
    ensures forall a :: 0 <= a < mem.Length && !(base <= a < base + LINE * size) ==> mem[a] == old(mem[a])
  {
    for i := 0 to size - 1
      invariant forall k :: 0 <= k < size ==> mem[PathIndex(base, k)] == INVALID
      invariant forall k :: 0 <= k < i ==> mem[ShuffleIndex(base, k)] == k + 1
      invariant forall a :: 0 <= a < mem.Length && !(base <= a < base + LINE * size) ==> mem[a] == old(mem[a])
    {
      mem[ShuffleIndex(base, i)] := i + 1;
    }
  }

  /** The first `i` lines hold what the permutation moves into them. */
  ghost predicate Moved(before: seq<nat>, mem: seq<nat>, base: nat, shuffle: seq<nat>, i: nat) {
    && base + LINE * |shuffle| <= |mem| == |before| && i <= |shuffle| && IsShuffle(shuffle, |shuffle|)
    && (forall k :: 0 <= k < i ==> mem[PathIndex(base, k)] == before[PathIndex(base, shuffle[k])])
    && (forall k :: 0 <= k < i ==> mem[ShuffleIndex(base, k)] == before[ShuffleIndex(base, shuffle[k])])
  }

  lemma MoveStep(before: seq<nat>, mem: seq<nat>, base: nat, shuffle: seq<nat>, i: nat, p: nat, q: nat)
    requires Moved(before, mem, base, shuffle, i) && i < |shuffle|
    requires p == before[PathIndex(base, shuffle[i])] && q == before[ShuffleIndex(base, shuffle[i])]
    ensures Moved(before, mem[PathIndex(base, i) := p][ShuffleIndex(base, i) := q], base, shuffle, i + 1)
  {
  }

  /** `std::shuffle` over the lines, with the permutation it happens to apply. */
  method Shuffle(mem: array<nat>, base: nat, shuffle: seq<nat>)
    requires base + LINE * |shuffle| <= mem.Length && IsShuffle(shuffle, |shuffle|)
    modifies mem
    ensures Moved(old(mem[..]), mem[..], base, shuffle, |shuffle|)
    ensures forall a :: 0 <= a < mem.Length && !(base <= a < base + LINE * |shuffle|) ==> mem[a] == old(mem[a])
  {
    var before := mem[..];
    for i := 0 to |shuffle|
      invariant Moved(before, mem[..], base, shuffle, i)
      invariant forall a :: 0 <= a < mem.Length && !(base <= a < base + LINE * |shuffle|) ==> mem[a] == old(mem[a])
    {
      var p, q := before[PathIndex(base, shuffle[i])], before[ShuffleIndex(base, shuffle[i])];
      MoveStep(before, mem[..], base, shuffle, i, p, q);
      mem[PathIndex(base, i)] := p;
      mem[ShuffleIndex(base, i)] := q;
    }
  }

  /** After `i` links: the first `i` lines of the visiting order are linked, the remaining path
      cells are still invalid, and the indices not yet consumed are in place. */
  ghost predicate Linking(mem: seq<nat>, base: nat, lines: seq<nat>, i: nat) {
    && base + LINE * |lines| <= |mem|
    && i < |lines| && IsShuffle(lines, |lines|)
    && (forall j, k :: 0 <= j && k == j + 1 && k <= i ==> mem[PathIndex(base, lines[j])] == PathIndex(base, lines[k]))
    && (forall j :: i <= j < |lines| ==> mem[PathIndex(base, lines[j])] == INVALID)
    && (forall k :: i <= k < |lines| - 1 ==> mem[ShuffleIndex(base, k)] == lines[k + 1])
  }

  lemma LinkingStart(mem: seq<nat>, base: nat, shuffle: seq<nat>, n: nat)
    requires base + LINE * (n + 1) <= |mem| && IsShuffle(shuffle, n)
    requires forall k :: 0 <= k <= n ==> mem[PathIndex(base, k)] == INVALID
    requires forall k :: 0 <= k < n ==> mem[ShuffleIndex(base, k)] == shuffle[k] + 1
    ensures Linking(mem, base, VisitOrder(shuffle), 0)
  {
    VisitOrderShape(shuffle, n);
  }

  lemma LinkStep(mem: seq<nat>, base: nat, lines: seq<nat>, i: nat, mem': seq<nat>)
    requires Linking(mem, base, lines, i) && i < |lines| - 1
    requires mem' == mem[ShuffleIndex(base, i) := INVALID][PathIndex(base, lines[i]) := PathIndex(base, lines[i + 1])]
    ensures Linking(mem', base, lines, i + 1)
  {
    forall j | 0 <= j < |lines| && j != i ensures mem'[PathIndex(base, lines[j])] == mem[PathIndex(base, lines[j])] {
      assert lines[j] != lines[i];
    }
    forall k | i < k < |lines| - 1 ensures mem'[ShuffleIndex(base, k)] == mem[ShuffleIndex(base, k)] {
    }
  }

  lemma LinkingDone(mem: seq<nat>, base: nat, shuffle: seq<nat>)
    requires Linking(mem, base, VisitOrder(shuffle), |shuffle|)
    ensures OpenChain(mem, UniformPath(base, shuffle))
  {
    var lines, path := VisitOrder(shuffle), UniformPath(base, shuffle);
    forall i | 0 <= i < |path| ensures path[i] == PathIndex(base, lines[i]) < |mem| {
    }
  }

  /** One link.  Both assertions of the original hold: the index is a line other than the first, and
      the path cell written is still invalid. */
  method LinkOne(mem: array<nat>, base: nat, i: nat, prevIdx: nat, ghost lines: seq<nat>) returns (nextIdx: nat)
    requires Linking(mem[..], base, lines, i) && i < |lines| - 1 && lines[0] == 0 && prevIdx == lines[i]
    modifies mem
    ensures Linking(mem[..], base, lines, i + 1) && nextIdx == lines[i + 1]
    ensures forall a :: 0 <= a < mem.Length && !(base <= a < base + LINE * |lines|) ==> mem[a] == old(mem[a])
  {
    LinkStep(mem[..], base, lines, i,
             mem[..][ShuffleIndex(base, i) := INVALID][PathIndex(base, lines[i]) := PathIndex(base, lines[i + 1])]);
    nextIdx := mem[ShuffleIndex(base, i)];
    assert 0 < nextIdx < |lines|;
    mem[ShuffleIndex(base, i)] := INVALID;
    assert INVALID == mem[PathIndex(base, prevIdx)];
    mem[PathIndex(base, prevIdx)] := base + nextIdx * LINE;
  }

  /** Link the lines in shuffled order.  The indices live in the lines being linked. */
  method LinkShuffled(mem: array<nat>, base: nat, size: nat, ghost shuffle: seq<nat>)
    returns (prevIdx: nat, visited: seq<nat>)
    requires size > 0 && base + LINE * size <= mem.Length < INVALID && IsShuffle(shuffle, size - 1)
    requires forall k :: 0 <= k < size ==> mem[PathIndex(base, k)] == INVALID
    requires forall k :: 0 <= k < size - 1 ==> mem[ShuffleIndex(base, k)] == shuffle[k] + 1
    modifies mem
    ensures OpenChain(mem[..], UniformPath(base, shuffle))
    ensures visited == VisitOrder(shuffle) && prevIdx == visited[size - 1] < size
    ensures forall a :: 0 <= a < mem.Length && !(base <= a < base + LINE * size) ==> mem[a] == old(mem[a])
  {
    ghost var lines := VisitOrder(shuffle);
    LinkingStart(mem[..], base, shuffle, size - 1);
    prevIdx := 0;
    visited := [prevIdx];
    for i := 0 to size - 1
      invariant prevIdx == lines[i] && visited == lines[..i + 1]
      invariant Linking(mem[..], base, lines, i)
      invariant forall a :: 0 <= a < mem.Length && !(base <= a < base + LINE * size) ==> mem[a] == old(mem[a])
    {
      prevIdx := LinkOne(mem, base, i, prevIdx, lines);
      visited := visited + [prevIdx];
    }
    LinkingDone(mem[..], base, shuffle);
  }

  /** The path of one uniform subpath in a slice filled with the invalid value. */
  method BuildInFilled(mem: array<nat>, base: nat, size: nat, shuffle: seq<nat>)
    returns (prevIdx: nat, visited: seq<nat>)
    requires size > 0 && base + LINE * size <= mem.Length < INVALID && IsShuffle(shuffle, size - 1)
    requires forall a :: base <= a < base + LINE * size ==> mem[a] == INVALID
    modifies mem
    ensures OpenChain(mem[..], UniformPath(base, shuffle))
    ensures visited == VisitOrder(shuffle) && PathIndex(base, prevIdx) == UniformPath(base, shuffle)[size - 1]
    ensures forall a :: 0 <= a < mem.Length && !(base <= a < base + LINE * size) ==> mem[a] == old(mem[a])
  {
    WriteIndices(mem, base, size);
    Shuffle(mem, base, shuffle);
    prevIdx, visited := LinkShuffled(mem, base, size, shuffle);
  }

  /** The path of one uniform subpath, from whatever the slice held before. */
  method BuildUniform(mem: array<nat>, base: nat, size: nat, shuffle: seq<nat>)
    returns (prevIdx: nat, visited: seq<nat>)
    requires size > 0 && base + LINE * size <= mem.Length < INVALID && IsShuffle(shuffle, size - 1)
    modifies mem
    ensures OpenChain(mem[..], UniformPath(base, shuffle))
    ensures visited == VisitOrder(shuffle) && PathIndex(base, prevIdx) == UniformPath(base, shuffle)[size - 1]
    ensures Overrun(old(mem[..]), mem[..], base, base + LINE * size)
  {
    ghost var before := mem[..];
    FillInvalid(mem, base, LINE * size);
    ghost var filled := mem[..];
    prevIdx, visited := BuildInFilled(mem, base, size, shuffle);
    OverrunThenKept(before, filled, mem[..], base, base + LINE * size);
  }

  /* ---------- one slice of the buffer ---------- */

  /** The quantities `doDistribute` fixes before it starts: where the data begin, the line size,
      the lines and bytes of a slice, the number of slices, the number of elements in the whole
      buffer, and which kind of subpath is built. */
  datatype PlanFields = PlanFields(start: nat, cacheline: nat, per: nat, sliceBytes: nat, subpaths: nat,
                                   elements: nat, zipf: bool) {
    ghost predicate Valid() {
      && cacheline >= ELEMENT_SIZE && per > 0 && subpaths > 0 && elements > 0
      && sliceBytes == per * cacheline
      && (zipf || cacheline == LINE)
    }

    /** Offset of the first slot of slice `c`: slices follow each other without gaps. */
    function Start(c: nat): nat {
      if c == 0 then start else Start(c - 1) + sliceBytes
    }

    lemma {:induction false} StartIs(c: nat)
      ensures Start(c) == start + c * sliceBytes
    {
      if c > 0 { StartIs(c - 1); }
    }

    lemma {:induction false} StartsApart(c: nat, d: nat)
      requires c < d
      ensures Start(c + 1) <= Start(d)
    {
      if c + 1 < d { StartsApart(c, d - 1); }
    }

    function Grid(c: nat): Layout { Layout(Start(c), cacheline, per) }
  }

  type Plan = p: PlanFields | p.Valid() witness PlanFields(0, LINE, 1, LINE, 1, 16, false)

  /** `std::shuffle` permutes all lines (Zipf) or all but one (uniform), and every rank drawn
      is a rank. */
  ghost predicate Suits(plan: Plan, d: Draws) {
    if plan.zipf then
      && IsShuffle(d.shuffle, plan.per)
      && |d.ranks| >= plan.elements - 1
      && forall i :: 0 <= i < |d.ranks| ==> 1 <= d.ranks[i] <= plan.per
    else
      IsShuffle(d.shuffle, plan.per - 1)
  }

  /** The lines the ranks select. */
  function RankedLines(plan: Plan, d: Draws): (lines: seq<nat>)
    requires plan.zipf && Suits(plan, d)
    ensures |lines| == |d.ranks| && forall i :: 0 <= i < |lines| ==> lines[i] < plan.per
  {
    seq(|d.ranks|, i requires 0 <= i < |d.ranks| => d.shuffle[d.ranks[i] - 1])
  }

  /** The slots of a Zipf subpath: every element of a line may be given out. */
  ghost function ZipfSlots(plan: Plan, d: Draws): (slots: seq<Slot>)
    requires plan.zipf && Suits(plan, d)
    ensures slots != [] && slots[0] == Slot(0, 0)
  {
    PackedStart();
    FillPacked([Slot(0, 0)], plan.cacheline / ELEMENT_SIZE, RankedLines(plan, d)[..plan.elements - 1]);
    Fill([Slot(0, 0)], plan.cacheline / ELEMENT_SIZE, RankedLines(plan, d)[..plan.elements - 1])
  }

  /** What the builder puts into slice `c`, as a function of the draws. */
  ghost function SubpathOf(plan: Plan, c: nat, d: Draws): seq<nat>
    requires Suits(plan, d)
  {
    if plan.zipf then Addrs(plan.Grid(c), ZipfSlots(plan, d)) else UniformPath(plan.Start(c), d.shuffle)
  }

  /** The line numbers recorded in `sequence` for slice `c`; the Zipf builder does not record
      the first. */
  ghost function RecordOf(plan: Plan, c: nat, d: Draws): seq<nat>
    requires Suits(plan, d)
  {
    Shift(c * plan.per, if plan.zipf then LinesOf(ZipfSlots(plan, d)[1..]) else VisitOrder(d.shuffle))
  }

  /** A subpath's slots lie in its slice with all their bytes. */
  lemma SubpathInside(plan: Plan, c: nat, d: Draws)
    requires Suits(plan, d)
    ensures forall a :: a in SubpathOf(plan, c, d) ==> plan.Start(c) <= a && a + ELEMENT_SIZE <= plan.Start(c + 1)
  {
    if plan.zipf {
      var l, slots := plan.Grid(c), ZipfSlots(plan, d);
      ZipfSlotsOnGrid(plan, c, d);
      forall i | 0 <= i < |slots| ensures l.base <= l.Addr(slots[i]) && l.Addr(slots[i]) + ELEMENT_SIZE <= l.End() {
        AddrInside(l, slots[i]);
      }
    } else {
      VisitOrderShape(d.shuffle, plan.per - 1);
    }
  }

  lemma ZipfSlotsOnGrid(plan: Plan, c: nat, d: Draws)
    requires Suits(plan, d) && plan.zipf
    ensures forall i :: 0 <= i < |ZipfSlots(plan, d)| ==> plan.Grid(c).OnGrid(ZipfSlots(plan, d)[i])
  {
    var start, limit, lines := [Slot(0, 0)], plan.cacheline / ELEMENT_SIZE, RankedLines(plan, d)[..plan.elements - 1];
    PackedStart();
    forall i | 0 < i < |ZipfSlots(plan, d)| ensures plan.Grid(c).OnGrid(ZipfSlots(plan, d)[i]) {
      FillPlaces(start, limit, lines, ZipfSlots(plan, d), i);
    }
  }

  /** What one Zipf subpath takes from the generators: it seeds the sampler and draws a rank per element,
      with as many weights as the slice has lines.  The ranks it gets are ones the shuffled table has, so
      the lookup never leaves it.  `None` stands for a first draw whose rejection loop never ends: of the
      seeds the builder's assertion admits, that is the modulus. */
  method DrawZipf(plan: Plan, sampler: ZipfSampler.ZipfSampler, weights: seq<real>, seed: nat, shuffle: seq<nat>)
    returns (d: Option<Draws>)
    requires plan.zipf && IsShuffle(shuffle, plan.per)
    requires |weights| == plan.per && ZipfSampler.Positive(weights)
    requires sampler.Valid() && sampler.NormalisedFor(weights) && 1 <= seed <= ZipfSampler.MODULUS
    modifies sampler
    ensures d == None <==> seed == ZipfSampler.MODULUS && plan.elements > 1
    ensures d == None ==> ZipfSampler.NeverEnds(seed)
    ensures d.Some? ==> Suits(plan, d.value) && d.value.shuffle == shuffle
    ensures d.Some? ==> ZipfSampler.RanksFrom(weights, sampler.c, seed, d.value.ranks)
    ensures sampler.Valid() && sampler.NormalisedFor(weights)
  {
    var r := sampler.InitZipf(seed);
    if plan.elements == 1 {
      d := Some(Draws(shuffle, []));
    } else if seed == ZipfSampler.MODULUS {
      ZipfSampler.ModulusNeverEnds();
      d := None;
    } else {
      var ranks := sampler.Ranks(weights, plan.elements - 1);
      d := Some(Draws(shuffle, ranks));
    }
  }

  /* The whole buffer. */

  ghost predicate AllSuit(plan: Plan, draws: seq<Draws>) {
    |draws| == plan.subpaths && forall c :: 0 <= c < plan.subpaths ==> Suits(plan, draws[c])
  }

  /** The subpaths of the buffer, in ring order. */
  ghost function Subpaths(plan: Plan, draws: seq<Draws>): (chunks: seq<seq<nat>>)
    requires AllSuit(plan, draws)
    ensures |chunks| == plan.subpaths
    ensures forall c :: 0 <= c < plan.subpaths ==>
              chunks[c] == SubpathOf(plan, c, draws[c]) && chunks[c] != [] && chunks[c][0] == plan.Start(c)
  {
    seq(plan.subpaths, c requires 0 <= c < plan.subpaths => SubpathOf(plan, c, draws[c]))
  }

  ghost function Records(plan: Plan, draws: seq<Draws>): (records: seq<seq<nat>>)
    requires AllSuit(plan, draws)
    ensures |records| == plan.subpaths
    ensures forall c :: 0 <= c < plan.subpaths ==> records[c] == RecordOf(plan, c, draws[c])
  {
    seq(plan.subpaths, c requires 0 <= c < plan.subpaths => RecordOf(plan, c, draws[c]))
  }

  lemma SubpathsDisjoint(plan: Plan, draws: seq<Draws>)
    requires AllSuit(plan, draws)
    ensures Disjoint(Subpaths(plan, draws))
  {
    var chunks := Subpaths(plan, draws);
    forall c, d, a | 0 <= c < d < |chunks| && a in chunks[c] ensures a !in chunks[d] {
      SubpathInside(plan, c, draws[c]);
      SubpathInside(plan, d, draws[d]);
      plan.StartsApart(c, d);
    }
  }

  /** The two fields in use of the 64-byte lines never share a byte, of one line or of two. */
  lemma FieldsApart(base: nat, j: nat, k: nat)
    ensures PathIndex(base, j) + ELEMENT_SIZE <= ShuffleIndex(base, k) || ShuffleIndex(base, k) + ELEMENT_SIZE <= PathIndex(base, j)
    ensures j < k ==> PathIndex(base, j) + ELEMENT_SIZE <= PathIndex(base, k)
    ensures j < k ==> ShuffleIndex(base, j) + ELEMENT_SIZE <= ShuffleIndex(base, k)
  {
  }

  /** No two slots of the buffer's subpaths share a byte. */
  lemma SlotsApart(plan: Plan, draws: seq<Draws>, c: nat, e: nat, a: nat, b: nat)
    requires AllSuit(plan, draws) && c <= e < plan.subpaths && a != b
    requires a in Subpaths(plan, draws)[c] && b in Subpaths(plan, draws)[e]
    ensures a + ELEMENT_SIZE <= b || b + ELEMENT_SIZE <= a
  {
    if c < e {
      SubpathInside(plan, c, draws[c]);
      SubpathInside(plan, e, draws[e]);
      plan.StartsApart(c, e);
    } else {
      SlotsOfOneApart(plan, c, draws[c], a, b);
    }
  }

  lemma SlotsOfOneApart(plan: Plan, c: nat, d: Draws, a: nat, b: nat)
    requires Suits(plan, d) && a in SubpathOf(plan, c, d) && b in SubpathOf(plan, c, d) && a != b
    ensures a + ELEMENT_SIZE <= b || b + ELEMENT_SIZE <= a
  {
    if plan.zipf {
      var l, slots := plan.Grid(c), ZipfSlots(plan, d);
      ZipfSlotsOnGrid(plan, c, d);
      var i :| 0 <= i < |slots| && l.Addr(slots[i]) == a;
      var j :| 0 <= j < |slots| && l.Addr(slots[j]) == b;
      AddrApart(l, slots[i], slots[j]);
    } else {
      var lines := VisitOrder(d.shuffle);
      var i :| 0 <= i < |lines| && PathIndex(plan.Start(c), lines[i]) == a;
      var j :| 0 <= j < |lines| && PathIndex(plan.Start(c), lines[j]) == b;
      FieldsApart(plan.Start(c), lines[i], lines[j]);
      FieldsApart(plan.Start(c), lines[j], lines[i]);
    }
  }

  /* What the paths cover. */

  lemma {:induction false} DistinctFits(s: seq<nat>, values: set<nat>)
    requires Distinct(s) && forall i :: 0 <= i < |s| ==> s[i] in values
    ensures |s| <= |values|
  {
    if s != [] {
      var front, last := s[..|s| - 1], s[|s| - 1];
      DistinctFits(front, values - {last});
    }
  }

  ghost function Below(n: nat): (values: set<nat>)
    ensures |values| == n && forall x: nat :: x in values <==> x < n
  {
    if n == 0 then {} else Below(n - 1) + {n - 1}
  }

  /** A shuffle of `n` values leaves none out. */
  lemma ShuffleIsOnto(s: seq<nat>, n: nat, x: nat)
    requires IsShuffle(s, n) && x < n
    ensures x in s
  {
    if x !in s {
      DistinctFits(s, Below(n) - {x});
    }
  }

  /** A uniform subpath takes the first slot of every line of its slice. */
  lemma UniformCovers(plan: Plan, c: nat, d: Draws, line: nat)
    requires Suits(plan, d) && !plan.zipf && line < plan.per
    ensures PathIndex(plan.Start(c), line) in SubpathOf(plan, c, d)
  {
    VisitOrderShape(d.shuffle, plan.per - 1);
    ShuffleIsOnto(VisitOrder(d.shuffle), plan.per, line);
    var i :| 0 <= i < plan.per && VisitOrder(d.shuffle)[i] == line;
    assert SubpathOf(plan, c, d)[i] == PathIndex(plan.Start(c), line);
  }

  lemma {:induction false} UniformSize(plan: Plan, draws: seq<Draws>, k: nat)
    requires AllSuit(plan, draws) && !plan.zipf && k <= plan.subpaths
    ensures |Flat(Subpaths(plan, draws)[..k])| == k * plan.per
  {
    if k > 0 {
      UniformSize(plan, draws, k - 1);
      FlatStep(Subpaths(plan, draws), k - 1);
      assert k * plan.per == (k - 1) * plan.per + plan.per;
      assert Suits(plan, draws[k - 1]);
    }
  }

  /** With uniform subpaths, following the pointers from the start of the data visits the first
      slot of every data line exactly once and is then back at the start. */
  lemma UniformVisitsEveryLineOnce(plan: Plan, draws: seq<Draws>, mem: seq<nat>, line: nat)
    requires AllSuit(plan, draws) && !plan.zipf && Linked(mem, Subpaths(plan, draws), Ring)
    requires line < plan.subpaths * plan.per
    ensures VisitedOnce(mem, plan.start, plan.subpaths * plan.per, plan.start + LINE * line)
    ensures Chase(mem, plan.start, plan.subpaths * plan.per) == plan.start
  {
    var path := Flat(Subpaths(plan, draws));
    LineAddress(plan, line);
    LineOnPath(plan, draws, line / plan.per, line % plan.per);
    UniformSize(plan, draws, plan.subpaths);
    assert Subpaths(plan, draws)[..plan.subpaths] == Subpaths(plan, draws);
    RingIsCycle(mem, Subpaths(plan, draws));
    assert path[0] == plan.start;
    CycleVisitsEachOnce(mem, path, plan.start + LINE * line);
  }

  lemma LineOnPath(plan: Plan, draws: seq<Draws>, c: nat, l: nat)
    requires AllSuit(plan, draws) && !plan.zipf && c < plan.subpaths && l < plan.per
    ensures PathIndex(plan.Start(c), l) in Flat(Subpaths(plan, draws))
  {
    UniformCovers(plan, c, draws[c], l);
    assert Subpaths(plan, draws)[c] == SubpathOf(plan, c, draws[c]);
    FlatMember(Subpaths(plan, draws), PathIndex(plan.Start(c), l));
  }

  lemma LineInSlice(line: nat, per: nat, subpaths: nat)
    requires per > 0 && line < subpaths * per
    ensures line / per < subpaths && line == line / per * per + line % per
  {
    var c := line / per;
    assert (c - subpaths) * per == c * per - subpaths * per;
    MulStep(c - subpaths, per);
  }

  lemma LineOffset(c: nat, per: nat, l: nat)
    ensures c * (per * LINE) + LINE * l == LINE * (c * per + l)
  {
    assert c * (per * LINE) == c * per * LINE;
  }

  lemma LineAddress(plan: Plan, line: nat)
    requires !plan.zipf && line < plan.subpaths * plan.per
    ensures line / plan.per < plan.subpaths
    ensures PathIndex(plan.Start(line / plan.per), line % plan.per) == plan.start + LINE * line
  {
    LineInSlice(line, plan.per, plan.subpaths);
    plan.StartIs(line / plan.per);
    LineOffset(line / plan.per, plan.per, line % plan.per);
  }

  /** A Zipf subpath is the first-fit path of the lines its ranks select, and on every line the
      used elements are a prefix. */
  lemma ZipfShape(plan: Plan, d: Draws)
    requires Suits(plan, d) && plan.zipf
    ensures IsFirstFit(ZipfSlots(plan, d), plan.cacheline / ELEMENT_SIZE, RankedLines(plan, d)[..plan.elements - 1])
    ensures forall s :: s in ZipfSlots(plan, d) <==> s.element < Used(ZipfSlots(plan, d), s.line)
  {
    var lines, limit := RankedLines(plan, d)[..plan.elements - 1], plan.cacheline / ELEMENT_SIZE;
    FillIsFirstFit(ZipfSlots(plan, d), limit, lines);
    PackedStart();
    FillPacked([Slot(0, 0)], limit, lines);
  }

  /** The state after `c` rounds of the outer loop. */
  ghost predicate Progress(plan: Plan, draws: seq<Draws>, c: nat, mem: seq<nat>, entries: nat, sequence: seq<nat>)
    requires AllSuit(plan, draws) && c <= plan.subpaths
  {
    && plan.Start(plan.subpaths) <= |mem|
    && LinkedTo(mem, Subpaths(plan, draws), c)
    && (plan.zipf ==> forall a :: plan.Start(c) <= a < plan.Start(plan.subpaths) ==> mem[a] == 0)
    && entries == |Flat(Subpaths(plan, draws)[..c])|
    && sequence == Flat(Records(plan, draws)[..c])
  }

  /** From `mem` to `mem'` slice `c` is rebuilt and everything else stays as it was, but for the bytes
      the uniform fill overruns. */
  ghost predicate SliceBuilt(plan: Plan, c: nat, d: Draws, mem: seq<nat>, mem': seq<nat>)
    requires Suits(plan, d) && c < plan.subpaths
  {
    && |mem| == |mem'|
    && Chain(mem', SubpathOf(plan, c, d), plan.Start(Next(Ring, plan.subpaths, c)))
    && (if plan.zipf then forall a :: 0 <= a < |mem| && !(plan.Start(c) <= a < plan.Start(c + 1)) ==> mem'[a] == mem[a]
        else Overrun(mem, mem', plan.Start(c), plan.Start(c + 1)))
  }

  lemma OneMoreLinked(plan: Plan, draws: seq<Draws>, c: nat, mem: seq<nat>, mem': seq<nat>)
    requires AllSuit(plan, draws) && c < plan.subpaths && LinkedTo(mem, Subpaths(plan, draws), c)
    requires SliceBuilt(plan, c, draws[c], mem, mem')
    ensures LinkedTo(mem', Subpaths(plan, draws), c + 1)
  {
    forall j, a | 0 <= j < c && 0 <= a < |mem| && a in Subpaths(plan, draws)[j] ensures mem'[a] == mem[a] {
      SubpathInside(plan, j, draws[j]);
      plan.StartsApart(j, c);
    }
    LinkedToFrame(mem, Subpaths(plan, draws), c, mem');
  }

  /** Building slice `c` leaves the earlier subpaths as they were and adds its own. */
  lemma OneMore(plan: Plan, draws: seq<Draws>, c: nat, mem: seq<nat>, entries: nat, sequence: seq<nat>, mem': seq<nat>)
    requires AllSuit(plan, draws) && c < plan.subpaths && Progress(plan, draws, c, mem, entries, sequence)
    requires SliceBuilt(plan, c, draws[c], mem, mem')
    ensures Progress(plan, draws, c + 1, mem', entries + |SubpathOf(plan, c, draws[c])|,
                     sequence + RecordOf(plan, c, draws[c]))
  {
    plan.StartsApart(c, plan.subpaths);
    OneMoreLinked(plan, draws, c, mem, mem');
    FlatStep(Subpaths(plan, draws), c);
    FlatStep(Records(plan, draws), c);
  }

  /** Before round `c` its slice lies in the buffer and, for the first-fit variant, is all zero. */
  lemma SliceIsFree(plan: Plan, draws: seq<Draws>, c: nat, mem: seq<nat>, entries: nat, sequence: seq<nat>)
    requires AllSuit(plan, draws) && c < plan.subpaths && Progress(plan, draws, c, mem, entries, sequence)
    ensures plan.Start(c + 1) <= plan.Start(plan.subpaths) <= |mem|
    ensures plan.zipf ==> forall a :: plan.Start(c) <= a < plan.Start(c + 1) ==> mem[a] == 0
  {
    plan.StartsApart(c, plan.subpaths);
  }

  lemma AllDone(plan: Plan, draws: seq<Draws>, mem: seq<nat>, entries: nat, sequence: seq<nat>)
    requires AllSuit(plan, draws) && Progress(plan, draws, plan.subpaths, mem, entries, sequence)
    ensures Linked(mem, Subpaths(plan, draws), Ring)
    ensures entries == |Flat(Subpaths(plan, draws))| && sequence == Flat(Records(plan, draws))
  {
    SubpathsDisjoint(plan, draws);
    LinkedToAll(mem, Subpaths(plan, draws));
    assert Subpaths(plan, draws)[..plan.subpaths] == Subpaths(plan, draws);
    assert Records(plan, draws)[..plan.subpaths] == Records(plan, draws);
  }

  /* ---------- what is built, in the object's own terms ---------- */

  /** The draws are ones the generators can make for slices of `per` lines: `std::shuffle` permutes all lines
      (Zipf) or all but one (uniform), and there is a rank for every element of the buffer but one. */
  ghost predicate DrawsOk(zipf: bool, per: nat, size: nat, n: nat, draws: seq<Draws>) {
    && |draws| == n && per > 0 && size >= 4
    && forall c :: 0 <= c < n ==>
         if zipf then
           && IsShuffle(draws[c].shuffle, per) && |draws[c].ranks| >= size / 4 - 1
           && forall i :: 0 <= i < |draws[c].ranks| ==> 1 <= draws[c].ranks[i] <= per
         else IsShuffle(draws[c].shuffle, per - 1)
  }

  /** The line each rank stands for, one per element of the buffer but one. */
  ghost function LinesDrawn(d: Draws, size: nat, per: nat): (lines: seq<nat>)
    requires size >= 4 && |d.ranks| >= size / 4 - 1 && |d.shuffle| == per
    requires forall i :: 0 <= i < |d.ranks| ==> 1 <= d.ranks[i] <= per
    ensures |lines| == size / 4 - 1
  {
    seq(size / 4 - 1, i requires 0 <= i < size / 4 - 1 => d.shuffle[d.ranks[i] - 1])
  }

  /** A Zipf slice that starts at byte `base`, where line number `first` of the buffer begins: the first-fit
      path over all elements of the lines its ranks stand for, and the record of the lines given out. */
  ghost predicate ZipfSlice(path: seq<nat>, record: seq<nat>, base: nat, cacheline: nat, first: nat, lines: seq<nat>)
    requires cacheline > 0
  {
    && FirstFitBytes(path, base, cacheline, cacheline / 4, lines)
    && |record| + 1 == |path| && forall k :: 0 <= k < |record| ==> record[k] == first + lines[k]
  }

  ghost predicate ZipfBuilt(mem: seq<nat>, start: nat, size: nat, cacheline: nat, n: nat, per: nat, draws: seq<Draws>,
                            entries: nat, sequence: seq<nat>)
    requires cacheline > 0 && DrawsOk(true, per, size, n, draws)
  {
    exists chunks: seq<seq<nat>>, records: seq<seq<nat>> ::
      Rung(mem, chunks, records, entries, sequence) && ZipfSlices(chunks, records, start, size, cacheline, n, per, draws)
  }

  /** Memory holds the ring of these subpaths, and their slots and records are accounted for. */
  ghost predicate Rung(mem: seq<nat>, chunks: seq<seq<nat>>, records: seq<seq<nat>>, entries: nat, sequence: seq<nat>) {
    Linked(mem, chunks, Ring) && entries == |Flat(chunks)| && sequence == Flat(records)
  }

  ghost predicate ZipfSlices(chunks: seq<seq<nat>>, records: seq<seq<nat>>, start: nat, size: nat, cacheline: nat, n: nat,
                             per: nat, draws: seq<Draws>)
    requires cacheline > 0 && DrawsOk(true, per, size, n, draws)
  {
    && |chunks| == |records| == n
    && forall c :: 0 <= c < n ==>
         ZipfSlice(chunks[c], records[c], SliceStart(start, per, cacheline, c), cacheline, FirstLine(per, c),
                   LinesDrawn(draws[c], size, per))
  }

  /** Where slice `c` starts, and the number of its first line. */
  ghost function SliceStart(start: nat, per: nat, cacheline: nat, c: nat): nat { start + c * (per * cacheline) }

  ghost function FirstLine(per: nat, c: nat): nat { c * per }

  /** A uniform slice: from its first line, number `first` of the buffer, through the others as shuffled; a
      slot is the first element of its 64-byte line. */
  ghost predicate UniformSlice(path: seq<nat>, record: seq<nat>, start: nat, first: nat, shuffle: seq<nat>) {
    && |path| == |record| == |shuffle| + 1
    && (forall i :: 0 <= i < |record| ==> record[i] == first + if i == 0 then 0 else shuffle[i - 1] + 1)
    && (forall i :: 0 <= i < |path| ==> path[i] == start + 64 * record[i])
  }

  ghost predicate UniformBuilt(mem: seq<nat>, start: nat, n: nat, per: nat, draws: seq<Draws>, entries: nat,
                               sequence: seq<nat>)
    requires |draws| == n
  {
    && entries == n * per && EveryLineVisited(mem, start, n * per)
    && exists chunks: seq<seq<nat>>, records: seq<seq<nat>> ::
         Rung(mem, chunks, records, entries, sequence) && UniformSlices(chunks, records, start, n, per, draws)
  }

  /** A chase from `start` is back there after as many loads as there are lines, and in between has been at
      the start of every line exactly once. */
  ghost predicate EveryLineVisited(mem: seq<nat>, start: nat, lines: nat) {
    && Chase(mem, start, lines) == start
    && forall line: nat :: line < lines ==> VisitedOnce(mem, start, lines, LineStart(start, line))
  }

  ghost predicate UniformSlices(chunks: seq<seq<nat>>, records: seq<seq<nat>>, start: nat, n: nat, per: nat, draws: seq<Draws>)
    requires |draws| == n
  {
    && |chunks| == |records| == n
    && forall c :: 0 <= c < n ==> UniformSlice(chunks[c], records[c], start, c * per, draws[c].shuffle)
  }

  ghost function LineStart(start: nat, line: nat): nat { start + 64 * line }

  lemma ZipfSliceOf(l: Layout, r: seq<Slot>, lines: seq<nat>, first: nat)
    requires l.cacheline > 0 && l.Elements() > 0 && l.lines > 0 && forall i :: 0 <= i < |lines| ==> lines[i] < l.lines
    requires IsFirstFit(r, l.Elements(), lines)
    ensures ZipfSlice(Addrs(l, r), Shift(first, LinesOf(r[1..])), l.base, l.cacheline, first, lines)
  {
    PathInBytes(l, r, l.Elements(), lines);
  }

  lemma ZipfSliceBuilt(plan: Plan, d: Draws, c: nat, lines: seq<nat>, first: nat, path: seq<nat>, record: seq<nat>)
    requires Suits(plan, d) && plan.zipf && lines == RankedLines(plan, d)[..plan.elements - 1]
    requires path == Addrs(plan.Grid(c), ZipfSlots(plan, d)) && record == Shift(first, LinesOf(ZipfSlots(plan, d)[1..]))
    ensures ZipfSlice(path, record, plan.Start(c), plan.cacheline, first, lines)
  {
    ZipfShape(plan, d);
    ZipfSliceOf(plan.Grid(c), ZipfSlots(plan, d), lines, first);
  }

  lemma UniformSliceOf(base: nat, start: nat, first: nat, shuffle: seq<nat>)
    requires base == start + 64 * first
    ensures UniformSlice(UniformPath(base, shuffle), Shift(first, VisitOrder(shuffle)), start, first, shuffle)
  {
  }

  lemma UniformSliceBuilt(plan: Plan, d: Draws, c: nat)
    requires Suits(plan, d) && !plan.zipf
    ensures UniformSlice(SubpathOf(plan, c, d), RecordOf(plan, c, d), plan.start, c * plan.per, d.shuffle)
  {
    plan.StartIs(c);
    LineOffset(c, plan.per, 0);
    UniformSliceOf(plan.Start(c), plan.start, c * plan.per, d.shuffle);
  }

  lemma ZipfSliceNumber(plan: Plan, draws: seq<Draws>, size: nat, c: nat)
    requires AllSuit(plan, draws) && plan.zipf && c < plan.subpaths && size >= 4 && plan.elements == size / 4
    ensures ZipfSlice(SubpathOf(plan, c, draws[c]), RecordOf(plan, c, draws[c]), SliceStart(plan.start, plan.per, plan.cacheline, c),
                      plan.cacheline, FirstLine(plan.per, c), LinesDrawn(draws[c], size, plan.per))
  {
    var d := draws[c];
    assert RankedLines(plan, d)[..plan.elements - 1] == LinesDrawn(d, size, plan.per);
    plan.StartIs(c);
    ZipfSliceBuilt(plan, d, c, LinesDrawn(d, size, plan.per), FirstLine(plan.per, c), SubpathOf(plan, c, d), RecordOf(plan, c, d));
  }

  lemma ZipfSlicesBuilt(plan: Plan, draws: seq<Draws>, size: nat)
    requires AllSuit(plan, draws) && plan.zipf && DrawsOk(true, plan.per, size, plan.subpaths, draws)
    requires plan.elements == size / 4
    ensures ZipfSlices(Subpaths(plan, draws), Records(plan, draws), plan.start, size, plan.cacheline, plan.subpaths, plan.per, draws)
  {
    forall c | 0 <= c < plan.subpaths
      ensures ZipfSlice(Subpaths(plan, draws)[c], Records(plan, draws)[c], SliceStart(plan.start, plan.per, plan.cacheline, c),
                        plan.cacheline, FirstLine(plan.per, c), LinesDrawn(draws[c], size, plan.per))
    {
      ZipfSliceNumber(plan, draws, size, c);
    }
  }

  lemma ZipfIsBuilt(plan: Plan, draws: seq<Draws>, size: nat, mem: seq<nat>, entries: nat, sequence: seq<nat>)
    requires AllSuit(plan, draws) && plan.zipf && DrawsOk(true, plan.per, size, plan.subpaths, draws)
    requires plan.elements == size / 4 && Linked(mem, Subpaths(plan, draws), Ring)
    requires entries == |Flat(Subpaths(plan, draws))| && sequence == Flat(Records(plan, draws))
    ensures ZipfBuilt(mem, plan.start, size, plan.cacheline, plan.subpaths, plan.per, draws, entries, sequence)
  {
    ZipfSlicesBuilt(plan, draws, size);
    assert Rung(mem, Subpaths(plan, draws), Records(plan, draws), entries, sequence);
  }

  lemma UniformSlicesBuilt(plan: Plan, draws: seq<Draws>)
    requires AllSuit(plan, draws) && !plan.zipf
    ensures UniformSlices(Subpaths(plan, draws), Records(plan, draws), plan.start, plan.subpaths, plan.per, draws)
  {
    forall c | 0 <= c < plan.subpaths
      ensures UniformSlice(Subpaths(plan, draws)[c], Records(plan, draws)[c], plan.start, c * plan.per, draws[c].shuffle)
    {
      UniformSliceBuilt(plan, draws[c], c);
    }
  }

  lemma LineOnce(plan: Plan, draws: seq<Draws>, mem: seq<nat>, lines: nat, line: nat)
    requires AllSuit(plan, draws) && !plan.zipf && Linked(mem, Subpaths(plan, draws), Ring)
    requires lines == plan.subpaths * plan.per && line < lines
    ensures VisitedOnce(mem, plan.start, lines, LineStart(plan.start, line)) && Chase(mem, plan.start, lines) == plan.start
  {
    UniformVisitsEveryLineOnce(plan, draws, mem, line);
  }

  lemma EveryLineOnce(plan: Plan, draws: seq<Draws>, mem: seq<nat>, lines: nat)
    requires AllSuit(plan, draws) && !plan.zipf && Linked(mem, Subpaths(plan, draws), Ring)
    requires lines == plan.subpaths * plan.per && lines > 0
    ensures EveryLineVisited(mem, plan.start, lines)
  {
    forall line: nat | line < lines ensures VisitedOnce(mem, plan.start, lines, LineStart(plan.start, line)) {
      LineOnce(plan, draws, mem, lines, line);
    }
    LineOnce(plan, draws, mem, lines, 0);
  }

  lemma AllSlots(plan: Plan, draws: seq<Draws>)
    requires AllSuit(plan, draws) && !plan.zipf
    ensures |Flat(Subpaths(plan, draws))| == plan.subpaths * plan.per
  {
    UniformSize(plan, draws, plan.subpaths);
    assert Subpaths(plan, draws)[..plan.subpaths] == Subpaths(plan, draws);
  }

  lemma UniformIsBuilt(plan: Plan, draws: seq<Draws>, mem: seq<nat>, entries: nat, sequence: seq<nat>)
    requires AllSuit(plan, draws) && !plan.zipf && Linked(mem, Subpaths(plan, draws), Ring)
    requires entries == |Flat(Subpaths(plan, draws))| && sequence == Flat(Records(plan, draws))
    ensures UniformBuilt(mem, plan.start, plan.subpaths, plan.per, draws, entries, sequence)
  {
    MulStep(plan.subpaths, plan.per);
    EveryLineOnce(plan, draws, mem, plan.subpaths * plan.per);
    AllSlots(plan, draws);
    UniformSlicesBuilt(plan, draws);
    assert Rung(mem, Subpaths(plan, draws), Records(plan, draws), entries, sequence);
  }

  /* ---------- the distribution object ---------- */

  lemma WholeLines(size: nat, cacheline: nat, numSubpaths: nat)
    requires size >= cacheline > 0 && numSubpaths > 0 && size / cacheline % numSubpaths == 0
    ensures var per := size / cacheline / numSubpaths; per > 0 && numSubpaths * per * cacheline <= size
  {
    var lines, per := size / cacheline, size / cacheline / numSubpaths;
    assert size == lines * cacheline + size % cacheline;
    MulStep(lines, cacheline);
    assert lines == numSubpaths * per;
  }

  class SubpathDistribution {
    const mem: array<nat>     // the buffer, from Get_buffer_pointer() on
    const startOffset: nat    // Get_start_address() - Get_buffer_pointer()
    const size: nat           // Get_size()
    const cacheline: nat
    const numSubpaths: nat
    const zipf: bool          // zipfAlpha > 0
    const hugeSlabs: bool     // a large buffer that has slabs
    var entries: nat
    var sequence: seq<nat>

    constructor (mem: array<nat>, startOffset: nat, size: nat, cacheline: nat, numSubpaths: nat, zipf: bool,
                 hugeSlabs: bool)
      ensures this.mem == mem && this.startOffset == startOffset && this.size == size
      ensures this.cacheline == cacheline && this.numSubpaths == numSubpaths && this.zipf == zipf
      ensures this.hugeSlabs == hugeSlabs
    {
      this.mem, this.startOffset, this.size, this.cacheline := mem, startOffset, size, cacheline;
      this.numSubpaths, this.zipf, this.hugeSlabs := numSubpaths, zipf, hugeSlabs;
      entries, sequence := 0, [];
    }

    method UniformSubpath(plan: Plan, c: nat, d: Draws) returns (last: nat)
      requires !plan.zipf && Suits(plan, d) && plan.Start(c + 1) <= mem.Length < INVALID
      modifies this, mem
      ensures OpenChain(mem[..], SubpathOf(plan, c, d)) && last == SubpathOf(plan, c, d)[|SubpathOf(plan, c, d)| - 1]
      ensures Overrun(old(mem[..]), mem[..], plan.Start(c), plan.Start(c + 1))
      ensures entries == old(entries) + |SubpathOf(plan, c, d)| && sequence == old(sequence) + RecordOf(plan, c, d)
    {
      var base := plan.Start(c);
      var prevIdx, visited := BuildUniform(mem, base, plan.per, d.shuffle);
      sequence := sequence + Shift(c * plan.per, visited);
      entries := entries + |visited|;
      last := base + prevIdx * LINE;
    }

    method ZipfSubpath(plan: Plan, c: nat, d: Draws) returns (last: nat)
      requires plan.zipf && Suits(plan, d) && plan.Start(c + 1) <= mem.Length
      requires forall a :: plan.Start(c) <= a < plan.Start(c + 1) ==> mem[a] == 0
      modifies this, mem
      ensures OpenChain(mem[..], SubpathOf(plan, c, d)) && last == SubpathOf(plan, c, d)[|SubpathOf(plan, c, d)| - 1]
      ensures forall a :: 0 <= a < mem.Length && !(plan.Start(c) <= a < plan.Start(c + 1)) ==> mem[a] == old(mem[a])
      ensures entries == old(entries) + |SubpathOf(plan, c, d)| && sequence == old(sequence) + RecordOf(plan, c, d)
    {
      var l, draws := plan.Grid(c), RankedLines(plan, d)[..plan.elements - 1];
      var placed;
      ghost var path;
      placed, last, path := FillLines(mem, l, l.Elements(), draws);
      assert path == ZipfSlots(plan, d);
      sequence := sequence + Shift(c * l.lines, placed);
      entries := entries + 1 + |placed|;
    }

    /** One round of the outer loop: build a subpath and lead it to the start of the next. */
    method BuildSubpath(plan: Plan, c: nat, draws: seq<Draws>)
      requires AllSuit(plan, draws) && c < plan.subpaths && plan.Start(c + 1) <= mem.Length < INVALID
      requires plan.zipf ==> forall a :: plan.Start(c) <= a < plan.Start(c + 1) ==> mem[a] == 0
      modifies this, mem
      ensures SliceBuilt(plan, c, draws[c], old(mem[..]), mem[..])
      ensures entries == old(entries) + |SubpathOf(plan, c, draws[c])|
      ensures sequence == old(sequence) + RecordOf(plan, c, draws[c])
    {
      var d := draws[c];
      var lastEntryIndex;
      if plan.zipf {
        lastEntryIndex := ZipfSubpath(plan, c, d);
      } else {
        lastEntryIndex := UniformSubpath(plan, c, d);
      }
      SubpathInside(plan, c, d);
      assert lastEntryIndex in SubpathOf(plan, c, d);
      RingIsModular(plan.subpaths, c);
      var next := plan.Start((c + 1) % plan.subpaths);
      Close(mem[..], SubpathOf(plan, c, d), next, mem[..][lastEntryIndex := next]);
      mem[lastEntryIndex] := next;
    }

    function PlanOf(): PlanFields
      requires cacheline > 0 && numSubpaths > 0
    {
      var per := size / cacheline / numSubpaths;
      PlanFields(startOffset, cacheline, per, per * cacheline, numSubpaths, size / ELEMENT_SIZE, zipf)
    }

    /** The three checks that stop the original: large buffers with slabs are not implemented, the lines
        must divide evenly, and uniform subpaths exist for 64-byte lines only. */
    predicate Supported()
      requires cacheline > 0 && numSubpaths > 0
    {
      !hugeSlabs && size / cacheline % numSubpaths == 0 && (zipf || cacheline == LINE)
    }

    lemma PlanFits()
      requires size >= cacheline >= ELEMENT_SIZE && numSubpaths > 0 && Supported()
      ensures PlanOf().Valid() && PlanOf().Start(numSubpaths) <= startOffset + size
    {
      var per := size / cacheline / numSubpaths;
      WholeLines(size, cacheline, numSubpaths);
      PlanOf().StartIs(numSubpaths);
      assert numSubpaths * (per * cacheline) == numSubpaths * per * cacheline;
    }

    /** Lines per subpath, if they divide evenly. */
    ghost function LinesPer(): nat
      requires cacheline > 0 && numSubpaths > 0
    {
      size / cacheline / numSubpaths
    }

    lemma DrawsFit(draws: seq<Draws>)
      requires size >= cacheline >= ELEMENT_SIZE && numSubpaths > 0 && Supported()
      requires DrawsOk(zipf, LinesPer(), size, numSubpaths, draws)
      ensures PlanOf().Valid() && PlanOf().zipf == zipf && PlanOf().start == startOffset && PlanOf().cacheline == cacheline
      ensures PlanOf().per == LinesPer() && PlanOf().subpaths == numSubpaths && PlanOf().elements == size / 4
      ensures AllSuit(PlanOf(), draws)
    {
      PlanFits();
    }

    /** For every shuffle and every run of rank draws, the builder leaves the subpaths the draws determine
        linked into one ring: Zipf subpaths exactly if the alpha is positive.  It gives up exactly when the
        buffer is large and has slabs, the lines do not divide evenly, or a uniform subpath is asked for with
        a line size other than 64. */
    method DoDistribute(draws: seq<Draws>) returns (ok: bool)
      requires size >= cacheline >= ELEMENT_SIZE && numSubpaths > 0
      requires startOffset + size <= mem.Length < INVALID
      requires zipf ==> forall a :: startOffset <= a < startOffset + size ==> mem[a] == 0
      requires size / cacheline % numSubpaths == 0 ==> DrawsOk(zipf, LinesPer(), size, numSubpaths, draws)
      modifies this, mem
      ensures ok <==> !hugeSlabs && size / cacheline % numSubpaths == 0 && (zipf || cacheline == 64)
      ensures ok && zipf ==>
                ZipfBuilt(mem[..], startOffset, size, cacheline, numSubpaths, LinesPer(), draws, entries, sequence)
      ensures ok && !zipf ==> UniformBuilt(mem[..], startOffset, numSubpaths, LinesPer(), draws, entries, sequence)
      ensures ok ==> PlanOf().Valid() && AllSuit(PlanOf(), draws) && Linked(mem[..], Subpaths(PlanOf(), draws), Ring)
      ensures ok ==> entries == |Flat(Subpaths(PlanOf(), draws))| && sequence == Flat(Records(PlanOf(), draws))
    {
      sequence, entries := [], 0;
      ok := Supported();
      if !ok { return; }
      PlanFits();
      DrawsFit(draws);
      var plan: Plan := PlanOf();
      BuildAll(plan, draws);
      AllDone(plan, draws, mem[..], entries, sequence);
      if zipf {
        ZipfIsBuilt(plan, draws, size, mem[..], entries, sequence);
      } else {
        UniformIsBuilt(plan, draws, mem[..], entries, sequence);
      }
    }

    method BuildAll(plan: Plan, draws: seq<Draws>)
      requires AllSuit(plan, draws) && Progress(plan, draws, 0, mem[..], entries, sequence)
      requires mem.Length < INVALID
      modifies this, mem
      ensures Progress(plan, draws, plan.subpaths, mem[..], entries, sequence)
    {
      for c := 0 to plan.subpaths
        invariant Progress(plan, draws, c, mem[..], entries, sequence)
      {
        BuildNext(plan, c, draws);
      }
    }

    method BuildNext(plan: Plan, c: nat, draws: seq<Draws>)
      requires AllSuit(plan, draws) && c < plan.subpaths && Progress(plan, draws, c, mem[..], entries, sequence)
      requires mem.Length < INVALID
      modifies this, mem
      ensures Progress(plan, draws, c + 1, mem[..], entries, sequence)
    {
      ghost var before, e, s := mem[..], entries, sequence;
      SliceIsFree(plan, draws, c, before, e, s);
      BuildSubpath(plan, c, draws);
      OneMore(plan, draws, c, before, e, s, mem[..]);
    }
  }
}
