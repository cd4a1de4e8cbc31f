/** The uniform builder (`UniformDistribution::doDistribute`): one first-fit path through the
    whole buffer. */
module UniformDistribution {
  import opened Arithmetic
  import opened Paths
  import opened FirstFit
  import opened SlotBytes

  /** What the buffer holds afterwards, in bytes: one simple cycle of `entries` slots from `start`, on which
      each 32-bit draw, taken modulo the number of lines, is given the lowest element of its line not on the
      cycle yet, except that the last element of a line is never given out; the cycle is complete when the
      draws are used up, one per further element of the buffer, or when a drawn line has no element left. */
  ghost predicate Built(mem: seq<nat>, start: nat, size: nat, cacheline: nat, draws: seq<nat>, entries: nat,
                        sequence: seq<nat>)
    requires size >= cacheline >= 8 && |draws| >= size / 4 - 1
  {
    exists path :: |path| == entries && BuiltAlong(path, mem, start, cacheline, DrawnOf(size, cacheline, draws), sequence)
  }

  ghost function DrawnOf(size: nat, cacheline: nat, draws: seq<nat>): (lines: seq<nat>)
    requires size >= cacheline >= 8 && |draws| >= size / 4 - 1
    ensures |lines| == size / 4 - 1
  {
    seq(size / 4 - 1, i requires 0 <= i < size / 4 - 1 => draws[i] % (size / cacheline))
  }

  class UniformDistribution {
    const mem: array<nat>     // the buffer, from Get_buffer_pointer() on
    const startOffset: nat    // Get_start_address() - Get_buffer_pointer()
    const size: nat           // Get_size()
    const cacheline: nat
    var entries: nat
    var sequence: seq<nat>

    constructor (mem: array<nat>, startOffset: nat, size: nat, cacheline: nat)
      ensures this.mem == mem && this.startOffset == startOffset
      ensures this.size == size && this.cacheline == cacheline && entries == 0
    {
      this.mem, this.startOffset, this.size, this.cacheline := mem, startOffset, size, cacheline;
      entries, sequence := 0, [];
    }

    function Lines(): nat requires cacheline > 0 { size / cacheline }

    function NumElements(): nat { size / ELEMENT_SIZE }

    function Grid(): Layout requires cacheline > 0 { Layout(startOffset, cacheline, Lines()) }

    lemma GridInside()
      requires size >= cacheline >= 2 * ELEMENT_SIZE
      ensures Lines() > 0 && startOffset <= Grid().End() <= startOffset + size
      ensures Grid().Elements() >= 2 && NumElements() >= 1
      ensures Grid().Addr(Slot(0, 0)) == startOffset
    {
      assert size / cacheline * cacheline + size % cacheline == size;
      MulStep(Lines(), cacheline);
    }

    /** The line a 32-bit draw selects. */
    function DrawnLines(draws: seq<nat>): (lines: seq<nat>)
      requires cacheline > 0 && Lines() > 0
      ensures |lines| == |draws| && forall i :: 0 <= i < |lines| ==> lines[i] < Lines()
    {
      seq(|draws|, i requires 0 <= i < |draws| => draws[i] % Lines())
    }

    /** The slots visited, in order: what the draws alone determine.  The last element of a
        line is never given out. */
    ghost function Path(draws: seq<nat>): seq<Slot>
      requires size >= cacheline >= 2 * ELEMENT_SIZE && |draws| >= NumElements() - 1
    {
      Fill([Slot(0, 0)], Grid().Elements() - 1, DrawnLines(draws[..NumElements() - 1]))
    }

    /** For every sequence of draws the buffer ends up holding one simple cycle of `entries`
        slots from the start offset, and that cycle is the first-fit path of the draws. */
    method DoDistribute(draws: seq<nat>)
      requires size >= cacheline >= 2 * ELEMENT_SIZE
      requires startOffset + size <= mem.Length <= 0x8000_0000
      requires forall a :: startOffset <= a < startOffset + size ==> mem[a] == 0
      requires |draws| >= NumElements() - 1
      modifies this, mem
      ensures Cycle(mem[..], Addrs(Grid(), Path(draws)))
      ensures Path(draws) != [] && Path(draws)[0] == Slot(0, 0) && Grid().Addr(Slot(0, 0)) == startOffset
      ensures entries == |Path(draws)| && sequence == LinesOf(Path(draws)[1..])
      ensures Built(mem[..], startOffset, size, cacheline, draws, entries, sequence)
      ensures forall a :: 0 <= a < mem.Length && !(Grid().base <= a < Grid().End()) ==> mem[a] == old(mem[a])
    {
      GridInside();
      var l := Grid();
      var numLineElements := cacheline / ELEMENT_SIZE;
      var previdx;
      ghost var path;
      sequence, previdx, path := FillLines(mem, l, numLineElements - 1, DrawnLines(draws[..NumElements() - 1]));
      entries := 1 + |sequence|;
      TailInside(mem[..], l, path);
      Close(mem[..], Addrs(l, path), startOffset, mem[..][previdx := startOffset]);
      mem[previdx] := startOffset;
      assert Addrs(l, path)[0] == l.Addr(path[0]) == startOffset;
      BuiltInBytes(mem[..], draws, sequence);
    }

    lemma BuiltInBytes(now: seq<nat>, draws: seq<nat>, record: seq<nat>)
      requires size >= cacheline >= 2 * ELEMENT_SIZE && |draws| >= NumElements() - 1
      requires Cycle(now, Addrs(Grid(), Path(draws))) && record == LinesOf(Path(draws)[1..])
      ensures Built(now, startOffset, size, cacheline, draws, |Path(draws)|, record)
    {
      GridInside();
      PathShape(draws);
      assert DrawnLines(draws[..NumElements() - 1]) == DrawnOf(size, cacheline, draws);
      CycleInBytes(Grid(), Path(draws), DrawnOf(size, cacheline, draws), now, record);
    }

    /** What the path of a run of draws looks like: it is the first-fit path of the drawn lines,
        and on every line the used elements are a prefix that never includes the last one. */
    lemma PathShape(draws: seq<nat>)
      requires size >= cacheline >= 2 * ELEMENT_SIZE && |draws| >= NumElements() - 1
      ensures IsFirstFit(Path(draws), Grid().Elements() - 1, DrawnLines(draws[..NumElements() - 1]))
      ensures forall s :: s in Path(draws) <==> s.element < Used(Path(draws), s.line)
      ensures forall line :: Used(Path(draws), line) <= Grid().Elements() - 1
    {
      GridInside();
      var limit: nat := Grid().Elements() - 1;
      var lines := DrawnLines(draws[..NumElements() - 1]);
      var r := Path(draws);
      FillIsFirstFit(r, limit, lines);
      PackedStart();
      FillPacked([Slot(0, 0)], limit, lines);
      forall line ensures Used(r, line) <= limit {
        var beyond := Slot(line, limit);
        assert beyond in r <==> limit < Used(r, line);
      }
    }
  }
}
