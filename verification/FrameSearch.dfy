/** The search for physically contiguous pages (`Buffer::Find_contiguous_range`). */
module FrameSearch {
  import opened Arithmetic

  /* ---------- rounding ---------- */

  /* `Round_to_alignment` masks the low bits of a sum.  For the alignments of the three kinds of page
     that is, short of overflow, the multiple of the alignment at or above the address and less than
     one alignment away. */

  lemma RoundedTo4KB(address: bv64)
    requires address <= address + 0xFFF
    ensures ((address + 0xFFF) & !0xFFF) & 0xFFF == 0
    ensures address <= (address + 0xFFF) & !0xFFF <= address + 0xFFF
  {
  }

  lemma RoundedTo2MB(address: bv64)
    requires address <= address + 0x1F_FFFF
    ensures ((address + 0x1F_FFFF) & !0x1F_FFFF) & 0x1F_FFFF == 0
    ensures address <= (address + 0x1F_FFFF) & !0x1F_FFFF <= address + 0x1F_FFFF
  {
  }

  lemma RoundedTo1GB(address: bv64)
    requires address <= address + 0x3FFF_FFFF
    ensures ((address + 0x3FFF_FFFF) & !0x3FFF_FFFF) & 0x3FFF_FFFF == 0
    ensures address <= (address + 0x3FFF_FFFF) & !0x3FFF_FFFF <= address + 0x3FFF_FFFF
  {
  }

  /** The same as a number. */
  function Round(size: nat, alignment: nat): nat
    requires alignment > 0
  {
    (size + alignment - 1) / alignment * alignment
  }

  /** Pages needed for a buffer: enough, and no page too many. */
  function PagesFor(size: nat, page: nat): nat
    requires page > 0
  {
    Round(size, page) / page
  }

  lemma PagesSuffice(size: nat, page: nat)
    requires page > 0
    ensures PagesFor(size, page) * page == Round(size, page) >= size
    ensures size > 0 ==> (PagesFor(size, page) - 1) * page < size && PagesFor(size, page) >= 1
  {
    var q, r := (size + page - 1) / page, (size + page - 1) % page;
    assert size + page - 1 == q * page + r;
    DivModUnique(q * page, page, q, 0);
    assert (q - 1) * page == q * page - page;
    if q == 0 {
      assert q * page == 0;
    }
  }

  /* ---------- the scan ---------- */

  /** An entry of the frame map: a physical frame number and the page mapped to it. */
  datatype Frame = Frame(pfn: nat, page: nat)

  /** The map iterates in strictly increasing frame order. */
  ghost predicate Ordered(frames: seq<Frame>) {
    forall i, j :: 0 <= i < j < |frames| ==> frames[i].pfn < frames[j].pfn
  }

  ghost predicate RunAt(frames: seq<Frame>, s: nat, n: nat) {
    s + n <= |frames| && forall k :: s <= k < s + n ==> frames[k].pfn == frames[s].pfn + (k - s)
  }

  ghost function Pages(frames: seq<Frame>): seq<nat> {
    seq(|frames|, i requires 0 <= i < |frames| => frames[i].page)
  }

  /** What the search is for: `n` consecutive frames if there are any, and then the pages of the
      lowest such run, in order. */
  ghost predicate Answers(frames: seq<Frame>, n: nat, ok: bool, slabs: seq<nat>) {
    && (ok <==> exists s: nat :: RunAt(frames, s, n))
    && (ok ==> exists s: nat :: RunAt(frames, s, n) && slabs == Pages(frames[s..s + n]) && forall r :: 0 <= r < s ==> !RunAt(frames, r, n))
  }

  /** The scan starts with 0 as the last frame number, so a lowest frame number 1 looks like the
      continuation of a run, and one frame too few passes for enough. */
  predicate Misread(frames: seq<Frame>, n: nat) {
    n >= 2 && n - 1 <= |frames| && frames[0].pfn == 1 && frames[n - 2].pfn == n - 1
  }

  lemma MisreadIsRun(frames: seq<Frame>, n: nat)
    requires Ordered(frames) && n >= 2 && n - 1 <= |frames| && frames[0].pfn == 1
    ensures Misread(frames, n) <==> RunAt(frames, 0, n - 1)
  {
    if Misread(frames, n) {
      forall k | 0 <= k < n - 1 ensures frames[k].pfn == 1 + k {
        GapsAddUp(frames, 0, k);
        GapsAddUp(frames, k, n - 2);
      }
    }
  }

  lemma {:induction false} GapsAddUp(frames: seq<Frame>, i: nat, j: nat)
    requires Ordered(frames) && i <= j < |frames|
    ensures frames[j].pfn >= frames[i].pfn + (j - i)
  {
    if i < j { GapsAddUp(frames, i, j - 1); }
  }

  /** The state before frame `i` is looked at: `s` is where the current run starts, and all runs
      before it are too short. */
  ghost predicate Scanning(frames: seq<Frame>, n: nat, s: nat, i: nat) {
    && s <= i <= |frames| && RunAt(frames, s, i - s)
    && (forall r :: 0 <= r < s ==> !RunAt(frames, r, n))
  }

  lemma RunBreaks(frames: seq<Frame>, n: nat, s: nat, i: nat)
    requires Scanning(frames, n, s, i) && s < i < |frames| && i - s < n
    requires frames[i].pfn != frames[i - 1].pfn + 1
    ensures Scanning(frames, n, i, i + 1)
  {
    forall r | s <= r < i ensures !RunAt(frames, r, n) {
      assert r + n > i;
      assert !(frames[i - 1].pfn == frames[r].pfn + (i - 1 - r) && frames[i].pfn == frames[r].pfn + (i - r));
    }
  }

  lemma RunContinues(frames: seq<Frame>, n: nat, s: nat, i: nat)
    requires Scanning(frames, n, s, i) && s < i < |frames| && frames[i].pfn == frames[i - 1].pfn + 1
    ensures Scanning(frames, n, s, i + 1)
  {
    assert frames[i - 1].pfn == frames[s].pfn + (i - 1 - s);
  }

  /** The buffer object's part in the search: its size, its page size and the slabs it ends up
      with. */
  class Buffer {
    const bufferSize: nat
    const logicalPageSize: nat
    var slabs: seq<nat>

    constructor (bufferSize: nat, logicalPageSize: nat)
      ensures this.bufferSize == bufferSize && this.logicalPageSize == logicalPageSize && slabs == []
    {
      this.bufferSize, this.logicalPageSize, slabs := bufferSize, logicalPageSize, [];
    }

    /** One pass over the frame map.  It answers the question unless the lowest frame is number 1
        and is misread; then it reports success with the first page listed twice. */
    method FindContiguousRange(frames: seq<Frame>) returns (ok: bool)
      requires bufferSize > 0 && logicalPageSize > 0
      requires frames != [] && Ordered(frames) && slabs == []
      modifies this
      ensures var n := PagesFor(bufferSize, logicalPageSize);
              && n >= 1
              && (!Misread(frames, n) ==> Answers(frames, n, ok, slabs))
              && (Misread(frames, n) ==> ok && slabs == [frames[0].page] + Pages(frames[..n - 1]))
    {
      ghost var n := PagesFor(bufferSize, logicalPageSize);
      PagesSuffice(bufferSize, logicalPageSize);
      var required := PagesFor(bufferSize, logicalPageSize) - 1;
      var lastPFN := 0;
      slabs := slabs + [frames[0].page];
      ghost var s := 0;
      for i := 0 to |frames|
        invariant Tracks(frames, n, s, i, required, lastPFN, slabs)
      {
        var frame := frames[i];
        if required == 0 {
          Finished(frames, n, s, i, lastPFN, slabs);
          return true;
        }
        if frame.pfn == lastPFN + 1 {
          TrackContinues(frames, n, s, i, required, lastPFN, slabs);
          required := required - 1;
          slabs := slabs + [frame.page];
        } else {
          TrackBreaks(frames, n, s, i, required, lastPFN, slabs);
          required := PagesFor(bufferSize, logicalPageSize) - 1;
          slabs := [];
          slabs := slabs + [frame.page];
          s := i;
        }
        lastPFN := frame.pfn;
      }
      if required == 0 {
        Finished(frames, n, s, |frames|, lastPFN, slabs);
      } else {
        NoneFound(frames, n, s, required, lastPFN, slabs);
      }
      ok := required == 0;
    }
  }

  /** How the variables of the scan describe its state.  A run that starts with a misread frame 1
      has its first page listed twice and one required page too few. */
  ghost predicate Tracks(frames: seq<Frame>, n: nat, s: nat, i: nat, required: int, lastPFN: nat, slabs: seq<nat>) {
    && frames != [] && Ordered(frames) && n >= 1 && Scanning(frames, n, s, i) && required >= 0
    && (s > 0 ==> !Misread(frames, n))
    && if i == 0 then s == 0 && lastPFN == 0 && required == n - 1 && slabs == [frames[0].page]
       else
         && s < i && lastPFN == frames[i - 1].pfn
         && (if s == 0 && frames[0].pfn == 1
             then required == n - 1 - i && slabs == [frames[0].page] + Pages(frames[..i])
             else required == n - (i - s) && slabs == Pages(frames[s..i]))
  }

  lemma TrackContinues(frames: seq<Frame>, n: nat, s: nat, i: nat, required: nat, lastPFN: nat, slabs: seq<nat>)
    requires i < |frames| && Tracks(frames, n, s, i, required, lastPFN, slabs) && required > 0
    requires frames[i].pfn == lastPFN + 1
    ensures Tracks(frames, n, s, i + 1, required - 1, frames[i].pfn, slabs + [frames[i].page])
  {
    if i > 0 {
      RunContinues(frames, n, s, i);
      assert frames[s..i + 1] == frames[s..i] + [frames[i]];
    }
  }

  lemma TrackBreaks(frames: seq<Frame>, n: nat, s: nat, i: nat, required: nat, lastPFN: nat, slabs: seq<nat>)
    requires i < |frames| && Tracks(frames, n, s, i, required, lastPFN, slabs) && required > 0
    requires frames[i].pfn != lastPFN + 1
    ensures Tracks(frames, n, i, i + 1, n - 1, frames[i].pfn, [frames[i].page])
  {
    if i > 0 {
      RunBreaks(frames, n, s, i);
      if s == 0 && n >= 2 && n - 1 <= |frames| && frames[0].pfn == 1 {
        MisreadIsRun(frames, n);
        assert frames[i - 1].pfn == 1 + (i - 1);
      }
    }
  }

  lemma Finished(frames: seq<Frame>, n: nat, s: nat, i: nat, lastPFN: nat, slabs: seq<nat>)
    requires i <= |frames| && Tracks(frames, n, s, i, 0, lastPFN, slabs)
    ensures !Misread(frames, n) ==> Answers(frames, n, true, slabs)
    ensures Misread(frames, n) ==> slabs == [frames[0].page] + Pages(frames[..n - 1])
  {
    if i == 0 {
      assert RunAt(frames, 0, 1) && frames[0..1] == [frames[0]];
      assert Answers(frames, 1, true, slabs);
    } else if s == 0 && frames[0].pfn == 1 {
      MisreadIsRun(frames, n);
      assert n >= 2;
    } else {
      assert RunAt(frames, s, n);
      assert Answers(frames, n, true, slabs);
    }
  }

  lemma NoneFound(frames: seq<Frame>, n: nat, s: nat, required: nat, lastPFN: nat, slabs: seq<nat>)
    requires Tracks(frames, n, s, |frames|, required, lastPFN, slabs) && required > 0
    ensures !Misread(frames, n) && Answers(frames, n, false, slabs)
  {
  }

  /** With distinct pages a misread result is wrong: it lists one page twice. */
  lemma MisreadIsWrong(frames: seq<Frame>, n: nat)
    requires Ordered(frames) && Misread(frames, n)
    requires forall i, j :: 0 <= i < j < |frames| ==> frames[i].page != frames[j].page
    ensures !Answers(frames, n, true, [frames[0].page] + Pages(frames[..n - 1]))
  {
    var slabs := [frames[0].page] + Pages(frames[..n - 1]);
    assert slabs[0] == slabs[1] == frames[0].page;
    forall s: nat | RunAt(frames, s, n) ensures slabs != Pages(frames[s..s + n]) {
      assert Pages(frames[s..s + n])[0] == frames[s].page && Pages(frames[s..s + n])[1] == frames[s + 1].page;
    }
  }
}
