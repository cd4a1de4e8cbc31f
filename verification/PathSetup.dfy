/** What the driver does with the built path before the threads start: read off the subpaths
    (`collectPointerChasingSubpathInfo`) and cut the ring into separate loops
    (`splitPointerChasingPath`). */
module PathSetup {
  import opened Arithmetic
  import opened Paths
  import opened SubpathDistribution
  import opened FirstFit

  datatype SubpathInfo = SubpathInfo(startIdx: nat, endIdx: nat, length: nat)

  /** What the records say about the subpaths `chunks`. */
  ghost predicate Describes(infos: seq<SubpathInfo>, chunks: seq<seq<nat>>) {
    && |infos| == |chunks|
    && forall c :: 0 <= c < |chunks| ==>
         chunks[c] != [] && infos[c] == SubpathInfo(chunks[c][0], chunks[c][|chunks[c]| - 1], |chunks[c]|)
  }

  ghost function TotalLength(infos: seq<SubpathInfo>): nat {
    if infos == [] then 0 else TotalLength(infos[..|infos| - 1]) + infos[|infos| - 1].length
  }

  lemma {:induction false} LengthsSum(infos: seq<SubpathInfo>, chunks: seq<seq<nat>>)
    requires Describes(infos, chunks)
    ensures TotalLength(infos) == |Flat(chunks)|
  {
    if infos != [] {
      LengthsSum(infos[..|infos| - 1], chunks[..|chunks| - 1]);
    }
  }

  /* ---------- when builder and reader agree on where the subpaths start ---------- */

  /** Bytes of a slice as the builder cuts it. */
  function BuilderSlice(dataset: nat, bufferfactor: nat, cacheline: nat, n: nat): nat
    requires cacheline > 0 && n > 0
  {
    dataset * bufferfactor / cacheline / n * cacheline
  }

  /** Bytes of a slice as the reader cuts it. */
  function ReaderSlice(dataset: nat, n: nat): nat
    requires n > 0
  {
    dataset / n
  }

  /** Configurations the builder accepts, with at least one line per subpath. */
  predicate Accepts(dataset: nat, bufferfactor: nat, cacheline: nat, n: nat) {
    && dataset > 0 && bufferfactor > 0 && cacheline > 0 && n > 0
    && dataset * bufferfactor >= cacheline && dataset * bufferfactor / cacheline % n == 0
  }

  /** The builder divides the whole buffer, the reader the data set. */
  lemma SlicesAgree(dataset: nat, bufferfactor: nat, cacheline: nat, n: nat)
    requires Accepts(dataset, bufferfactor, cacheline, n)
    ensures BuilderSlice(dataset, bufferfactor, cacheline, n) == ReaderSlice(dataset, n)
            <==> bufferfactor == 1 && dataset % cacheline < n
  {
    BuilderCovers(dataset * bufferfactor, cacheline, n);
    var slice := BuilderSlice(dataset, bufferfactor, cacheline, n);
    if bufferfactor == 1 {
      SliceQuotient(dataset, n, slice, dataset % cacheline);
    } else {
      SliceTooLarge(dataset, bufferfactor, n, slice, dataset * bufferfactor % cacheline);
    }
  }

  lemma SliceTooLarge(dataset: nat, bufferfactor: nat, n: nat, slice: nat, rest: nat)
    requires dataset > 0 && bufferfactor >= 2 && n > 0
    requires dataset * bufferfactor == n * slice + rest && rest < n * slice
    ensures slice != dataset / n
  {
    MulStep(bufferfactor - 1, dataset);
    assert dataset * bufferfactor == (bufferfactor - 1) * dataset + dataset;
    assert n * (dataset / n) <= dataset;
  }

  /** A check of the configuration: a single subpath starts where the data start whatever the slice sizes;
      several need a buffer no larger than the data set and a data set that ends fewer bytes after its
      last full line than there are subpaths. */
  predicate StartsKnown(dataset: nat, bufferfactor: nat, cacheline: nat, n: nat)
    requires cacheline > 0
  {
    n == 1 || (bufferfactor == 1 && dataset % cacheline < n)
  }

  /** The reader looks for every subpath where the builder starts it exactly when that check passes. */
  lemma StartsAgree(dataset: nat, bufferfactor: nat, cacheline: nat, n: nat)
    requires Accepts(dataset, bufferfactor, cacheline, n)
    ensures (forall c :: 0 <= c < n ==> StartAgrees(dataset, bufferfactor, cacheline, n, c))
            <==> StartsKnown(dataset, bufferfactor, cacheline, n)
    ensures n > 1 ==> (StartAgrees(dataset, bufferfactor, cacheline, n, 1) <==> StartsKnown(dataset, bufferfactor, cacheline, n))
  {
    SlicesAgree(dataset, bufferfactor, cacheline, n);
    assert StartAgrees(dataset, bufferfactor, cacheline, n, 0);
    if n > 1 {
      assert StartAgrees(dataset, bufferfactor, cacheline, n, 1)
             <==> BuilderSlice(dataset, bufferfactor, cacheline, n) == ReaderSlice(dataset, n);
    }
  }

  predicate StartAgrees(dataset: nat, bufferfactor: nat, cacheline: nat, n: nat, c: nat)
    requires cacheline > 0 && n > 0
  {
    c * BuilderSlice(dataset, bufferfactor, cacheline, n) == c * ReaderSlice(dataset, n)
  }

  /** Where the collector starts its walks, whatever it then finds. */
  ghost predicate StartedBy(infos: seq<SubpathInfo>, bufferOffset: nat, dataset: nat) {
    infos != [] && forall c :: 0 <= c < |infos| ==> infos[c].startIdx == bufferOffset + c * ReaderSlice(dataset, |infos|)
  }

  /** The builder's subpaths start slice after slice. */
  ghost predicate BuiltAt(chunks: seq<seq<nat>>, bufferOffset: nat, slice: nat) {
    chunks != [] && forall c :: 0 <= c < |chunks| ==> chunks[c] != [] && chunks[c][0] == bufferOffset + c * slice
  }

  /** Records that start where the collector starts can describe the builder's subpaths exactly when the
      configuration passes the check: otherwise the second record names a slot where no second subpath
      starts, however the walks go. */
  lemma DescribesOnlyIfStartsKnown(dataset: nat, bufferfactor: nat, cacheline: nat, bufferOffset: nat, chunks: seq<seq<nat>>)
    requires Accepts(dataset, bufferfactor, cacheline, |chunks|)
    requires BuiltAt(chunks, bufferOffset, BuilderSlice(dataset, bufferfactor, cacheline, |chunks|))
    ensures (exists infos :: StartedBy(infos, bufferOffset, dataset) && Describes(infos, chunks))
            <==> StartsKnown(dataset, bufferfactor, cacheline, |chunks|)
  {
    var n := |chunks|;
    StartsAgree(dataset, bufferfactor, cacheline, n);
    if infos :| StartedBy(infos, bufferOffset, dataset) && Describes(infos, chunks) && n > 1 {
      SecondStart(bufferOffset, dataset, chunks, infos);
      assert StartAgrees(dataset, bufferfactor, cacheline, n, 1);
    }
    if StartsKnown(dataset, bufferfactor, cacheline, n) {
      forall c | 0 <= c < n ensures chunks[c][0] == bufferOffset + c * ReaderSlice(dataset, n) {
        assert StartAgrees(dataset, bufferfactor, cacheline, n, c);
      }
      var infos := RecordsOf(bufferOffset, dataset, chunks);
    }
  }

  lemma RecordsOf(bufferOffset: nat, dataset: nat, chunks: seq<seq<nat>>) returns (infos: seq<SubpathInfo>)
    requires chunks != [] && BuiltAt(chunks, bufferOffset, ReaderSlice(dataset, |chunks|))
    ensures StartedBy(infos, bufferOffset, dataset) && Describes(infos, chunks)
  {
    infos := seq(|chunks|, c requires 0 <= c < |chunks| =>
      SubpathInfo(chunks[c][0], chunks[c][|chunks[c]| - 1], |chunks[c]|));
  }

  lemma SecondStart(bufferOffset: nat, dataset: nat, chunks: seq<seq<nat>>, infos: seq<SubpathInfo>)
    requires StartedBy(infos, bufferOffset, dataset) && Describes(infos, chunks) && |chunks| > 1
    ensures chunks[1][0] == bufferOffset + ReaderSlice(dataset, |chunks|)
  {
    assert infos[1].startIdx == bufferOffset + 1 * ReaderSlice(dataset, |infos|);
  }

  /** Two subpaths, a data set of 1 KB: in a buffer twice as large the reader looks for the second one at
      byte 512 and the builder starts it at 1024; with 96-byte lines it is 512 against 480. */
  lemma StartsDiffer()
    ensures Accepts(1024, 2, 64, 2) && BuilderSlice(1024, 2, 64, 2) == 1024 && ReaderSlice(1024, 2) == 512
    ensures Accepts(1024, 1, 96, 2) && BuilderSlice(1024, 1, 96, 2) == 480
    ensures !StartAgrees(1024, 2, 64, 2, 1) && !StartAgrees(1024, 1, 96, 2, 1)
  {
  }

  lemma BuilderCovers(size: nat, cacheline: nat, n: nat)
    requires cacheline > 0 && n > 0 && size >= cacheline && size / cacheline % n == 0
    ensures var slice := size / cacheline / n * cacheline;
            size == n * slice + size % cacheline && size % cacheline < cacheline <= n * slice
  {
    var lines := size / cacheline;
    var per := lines / n;
    assert size == lines * cacheline + size % cacheline;
    assert lines == n * per;
    assert n * (per * cacheline) == n * per * cacheline;
    MulStep(lines, cacheline);
  }

  lemma SliceQuotient(dataset: nat, n: nat, slice: nat, rest: nat)
    requires n > 0 && dataset == n * slice + rest
    ensures slice == dataset / n <==> rest < n
  {
    if rest < n {
      DivModUnique(dataset, n, slice, rest);
    }
  }

  /* ---------- collecting and splitting ---------- */

  /** The walk of one subpath, from its start to the slot that leads to the next subpath. */
  method CollectOne(mem: array<nat>, startIdx: nat, startIdxNextSubpath: nat, ghost path: seq<nat>)
    returns (info: SubpathInfo)
    requires Chain(mem[..], path, startIdxNextSubpath) && path[0] == startIdx
    requires forall k :: 1 <= k < |path| ==> path[k] != startIdxNextSubpath
    ensures info == SubpathInfo(startIdx, path[|path| - 1], |path|)
  {
    var idx, length := startIdx, 1;
    while startIdxNextSubpath != mem[idx]
      invariant 1 <= length <= |path| && idx == path[length - 1]
      invariant length < |path| ==> mem[idx] == path[length]
      decreases |path| - length
    {
      idx := mem[idx];
      length := length + 1;
    }
    info := SubpathInfo(startIdx, idx, length);
  }

  /** On every ring whose subpaths start where the reader looks for them, the walks end and find each
      subpath's first slot, last slot and length. */
  method CollectPointerChasingSubpathInfo(mem: array<nat>, bufferOffset: nat, dataset: nat, numSubpaths: nat,
                                          ghost chunks: seq<seq<nat>>)
    returns (infos: seq<SubpathInfo>)
    requires numSubpaths == |chunks| > 0 && Linked(mem[..], chunks, Ring)
    requires forall c :: 0 <= c < numSubpaths ==> chunks[c][0] == bufferOffset + c * ReaderSlice(dataset, numSubpaths)
    ensures Describes(infos, chunks) && StartedBy(infos, bufferOffset, dataset)
    ensures TotalLength(infos) == |Flat(chunks)|
  {
    infos := [];
    var subpathBufferLength := dataset / numSubpaths;
    for i := 0 to numSubpaths
      invariant Describes(infos, chunks[..i])
    {
      RingIsModular(numSubpaths, i);
      var next := (i + 1) % numSubpaths;
      StartNotInside(mem[..], chunks, i);
      var info := CollectOne(mem, bufferOffset + i * subpathBufferLength, bufferOffset + next * subpathBufferLength,
                             chunks[i]);
      infos := infos + [info];
    }
    assert chunks[..numSubpaths] == chunks;
    LengthsSum(infos, chunks);
  }

  /** The slot a walk looks for lies on the walked subpath only if it is its start. */
  lemma StartNotInside(mem: seq<nat>, chunks: seq<seq<nat>>, c: nat)
    requires Linked(mem, chunks, Ring) && c < |chunks|
    ensures forall k :: 1 <= k < |chunks[c]| ==> chunks[c][k] != chunks[Next(Ring, |chunks|, c)][0]
  {
    var d := Next(Ring, |chunks|, c);
    assert chunks[d][0] in chunks[d];
  }

  /** Make the last slot of each subpath lead back to its first: afterwards the buffer holds one
      simple cycle per subpath, over exactly the subpath's slots. */
  method SplitPointerChasingPath(mem: array<nat>, infos: seq<SubpathInfo>, ghost chunks: seq<seq<nat>>)
    requires Linked(mem[..], chunks, Ring) && Describes(infos, chunks)
    modifies mem
    ensures Linked(mem[..], chunks, Loops)
    ensures forall a :: 0 <= a < mem.Length && (forall c :: 0 <= c < |infos| ==> a != infos[c].endIdx) ==> mem[a] == old(mem[a])
  {
    for i := 0 to |infos|
      invariant forall c :: 0 <= c < i ==> Chain(mem[..], chunks[c], chunks[c][0])
      invariant forall c :: i <= c < |infos| ==> Chain(mem[..], chunks[c], chunks[Next(Ring, |infos|, c)][0])
      invariant forall a :: 0 <= a < mem.Length && (forall c :: 0 <= c < |infos| ==> a != infos[c].endIdx) ==> mem[a] == old(mem[a])
    {
      CutStep(mem[..], chunks, i);
      mem[infos[i].endIdx] := infos[i].startIdx;
    }
  }

  lemma CutStep(mem: seq<nat>, chunks: seq<seq<nat>>, i: nat)
    requires i < |chunks| && Disjoint(chunks) && forall c :: 0 <= c < |chunks| ==> chunks[c] != []
    requires forall c :: 0 <= c < i ==> Chain(mem, chunks[c], chunks[c][0])
    requires forall c :: i <= c < |chunks| ==> Chain(mem, chunks[c], chunks[Next(Ring, |chunks|, c)][0])
    ensures var end := chunks[i][|chunks[i]| - 1];
            && end < |mem|
            && (forall c :: 0 <= c <= i ==> Chain(mem[end := chunks[i][0]], chunks[c], chunks[c][0]))
            && (forall c :: i < c < |chunks| ==> Chain(mem[end := chunks[i][0]], chunks[c], chunks[Next(Ring, |chunks|, c)][0]))
  {
    var end := chunks[i][|chunks[i]| - 1];
    assert Chain(mem, chunks[i], chunks[Next(Ring, |chunks|, i)][0]);
    var mem' := mem[end := chunks[i][0]];
    Close(mem, chunks[i], chunks[i][0], mem');
    forall c, exit | 0 <= c < |chunks| && c != i && Chain(mem, chunks[c], exit) ensures Chain(mem', chunks[c], exit) {
      assert end in chunks[i];
      ChainFrame(mem, chunks[c], exit, mem');
    }
  }

  lemma SubpathsBuiltAt(plan: Plan, draws: seq<Draws>)
    requires AllSuit(plan, draws)
    ensures BuiltAt(Subpaths(plan, draws), plan.start, plan.sliceBytes)
  {
    forall c | 0 <= c < plan.subpaths
      ensures Subpaths(plan, draws)[c] != [] && Subpaths(plan, draws)[c][0] == plan.start + c * plan.sliceBytes
    {
      plan.StartIs(c);
    }
  }

  /** For everything the builder builds: the collector can come back with a description of its subpaths
      exactly in the configurations in which the reader knows where they start. */
  lemma CollectionCanSucceed(distr: SubpathDistribution, dataset: nat, bufferfactor: nat, draws: seq<Draws>)
    requires distr.numSubpaths > 0 && distr.size == dataset * bufferfactor >= distr.cacheline >= ELEMENT_SIZE
    requires distr.Supported() && distr.PlanOf().Valid() && AllSuit(distr.PlanOf(), draws)
    ensures (exists infos ::
               StartedBy(infos, distr.startOffset, dataset) && Describes(infos, Subpaths(distr.PlanOf(), draws)))
            <==> StartsKnown(dataset, bufferfactor, distr.cacheline, distr.numSubpaths)
  {
    FactorsPositive(dataset, bufferfactor);
    SubpathsBuiltAt(distr.PlanOf(), draws);
    DescribesOnlyIfStartsKnown(dataset, bufferfactor, distr.cacheline, distr.startOffset, Subpaths(distr.PlanOf(), draws));
  }

  /** From an empty buffer to the description the tests start from, in every configuration in which the
      reader knows where the subpaths start. */
  method SetupDistribution(distr: SubpathDistribution, dataset: nat, bufferfactor: nat, draws: seq<Draws>)
    returns (ok: bool, infos: seq<SubpathInfo>)
    requires distr.numSubpaths > 0 && distr.size == dataset * bufferfactor >= distr.cacheline >= ELEMENT_SIZE
    requires StartsKnown(dataset, bufferfactor, distr.cacheline, distr.numSubpaths)
    requires distr.startOffset + distr.size <= distr.mem.Length < INVALID
    requires distr.zipf ==> forall a :: distr.startOffset <= a < distr.startOffset + distr.size ==> distr.mem[a] == 0
    requires distr.size / distr.cacheline % distr.numSubpaths == 0 ==>
               DrawsOk(distr.zipf, distr.LinesPer(), distr.size, distr.numSubpaths, draws)
    modifies distr, distr.mem
    ensures ok <==> distr.Supported()
    ensures ok ==> distr.PlanOf().Valid() && AllSuit(distr.PlanOf(), draws) && Linked(distr.mem[..], Subpaths(distr.PlanOf(), draws), Ring)
    ensures ok ==> Describes(infos, Subpaths(distr.PlanOf(), draws)) && TotalLength(infos) == distr.entries
  {
    infos := [];
    ok := distr.DoDistribute(draws);
    if ok {
      ghost var plan: Plan := distr.PlanOf();
      var n := distr.numSubpaths;
      FactorsPositive(dataset, bufferfactor);
      StartsAgree(dataset, bufferfactor, distr.cacheline, n);
      forall c | 0 <= c < n
        ensures Subpaths(plan, draws)[c][0] == distr.startOffset + c * ReaderSlice(dataset, n)
      {
        plan.StartIs(c);
        assert StartAgrees(dataset, bufferfactor, distr.cacheline, n, c);
      }
      infos := CollectPointerChasingSubpathInfo(distr.mem, distr.startOffset, dataset, n, Subpaths(plan, draws));
    }
  }

  lemma FactorsPositive(a: nat, b: nat)
    requires a * b > 0
    ensures a > 0 && b > 0
  {
  }
}
