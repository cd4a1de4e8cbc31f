/** Page accounting (`page-types.c`): the kernel flags of each page are normalised and filtered,
    and pages are counted per flag value in a table with linear probing. */
module PageTable {
  import opened Wrappers

  /* ---------- flags ---------- */

  const SLAB: bv64 := 1 << 7
  const ERROR: bv64 := 1 << 1
  const ACTIVE: bv64 := 1 << 6
  const WRITEBACK: bv64 := 1 << 8
  const RECLAIM: bv64 := 1 << 9
  const COMPOUND: bv64 := 0x1_8000  // bits 15 and 16
  const HUGE: bv64 := 1 << 17
  const PRIVATE: bv64 := 1 << 35
  const READAHEAD: bv64 := 1 << 48
  const SLOB_FREE: bv64 := 1 << 49
  const SLUB_FROZEN: bv64 := 1 << 50
  const SLUB_DEBUG: bv64 := 1 << 51
  const HACKERS_BITS: bv64 := 0xFFFF_0000_0000
  const OVERLOADED_BITS: bv64 := 0xFFFF_0000_0000_0000
  const ALL_BITS: bv64 := 0xFFFF_FFFF_FFFF_FFFF

  /** Move one overloaded bit to the free bit that tells its second meaning apart. */
  function Move(flags: bv64, bit: bv64, to: bv64): bv64 {
    if flags & bit != 0 then flags ^ (bit | to) else flags
  }

  function ExpandSlab(flags: bv64): bv64 {
    if flags & SLAB != 0
    then Move(Move(Move(flags, PRIVATE, SLOB_FREE), ACTIVE, SLUB_FROZEN), ERROR, SLUB_DEBUG)
    else flags
  }

  function ExpandReclaim(flags: bv64): bv64 {
    if flags & (RECLAIM | WRITEBACK) == RECLAIM then flags ^ (RECLAIM | READAHEAD) else flags
  }

  function ExpandOverloaded(flags: bv64): bv64 { ExpandReclaim(ExpandSlab(flags)) }

  function HideHackers(flags: bv64): bv64 { flags & !HACKERS_BITS }

  function HideCompound(flags: bv64): bv64 {
    if flags & COMPOUND != 0 && flags & HUGE == 0 then flags & !COMPOUND else flags
  }

  function WellKnown(flags: bv64): bv64 { HideCompound(HideHackers(flags)) }

  function Normalised(flags: bv64, raw: bool): bv64 {
    if raw then ExpandOverloaded(flags) else WellKnown(ExpandOverloaded(flags))
  }

  /** The reverse of the expansion. */
  function Collapse(flags: bv64): bv64 {
    Move(Move(Move(Move(flags, READAHEAD, RECLAIM), SLUB_DEBUG, ERROR), SLUB_FROZEN, ACTIVE), SLOB_FREE, PRIVATE)
  }

  lemma PrivateBack(f: bv64)
    requires f & SLOB_FREE == 0
    ensures Move(Move(f, PRIVATE, SLOB_FREE), SLOB_FREE, PRIVATE) == f
  {
  }

  lemma ActiveBack(f: bv64)
    requires f & SLUB_FROZEN == 0
    ensures Move(Move(f, ACTIVE, SLUB_FROZEN), SLUB_FROZEN, ACTIVE) == f
  {
  }

  lemma ErrorBack(f: bv64)
    requires f & SLUB_DEBUG == 0
    ensures Move(Move(f, ERROR, SLUB_DEBUG), SLUB_DEBUG, ERROR) == f
  {
  }

  lemma MoveKeepsClear(f: bv64, bit: bv64, to: bv64, other: bv64)
    requires f & other == 0 && (bit | to) & other == 0
    ensures Move(f, bit, to) & other == 0
  {
  }

  lemma ReclaimBack(f: bv64)
    requires f & READAHEAD == 0
    ensures Move(ExpandReclaim(f), READAHEAD, RECLAIM) == f
  {
  }

  lemma OverloadedClear(f: bv64)
    requires f & OVERLOADED_BITS == 0
    ensures f & SLOB_FREE == 0 && f & SLUB_FROZEN == 0 && f & SLUB_DEBUG == 0 && f & READAHEAD == 0
  {
  }

  /** The kernel leaves the bits above 47 clear; on such flags the expansion loses nothing. */
  lemma ExpansionIsLossless(flags: bv64)
    requires flags & OVERLOADED_BITS == 0
    ensures Collapse(ExpandOverloaded(flags)) == flags
  {
    OverloadedClear(flags);
    if flags & SLAB != 0 {
      var f1 := Move(flags, PRIVATE, SLOB_FREE);
      var f2 := Move(f1, ACTIVE, SLUB_FROZEN);
      var f3 := Move(f2, ERROR, SLUB_DEBUG);
      MoveKeepsClear(flags, PRIVATE, SLOB_FREE, SLUB_FROZEN);
      MoveKeepsClear(flags, PRIVATE, SLOB_FREE, SLUB_DEBUG);
      MoveKeepsClear(flags, PRIVATE, SLOB_FREE, READAHEAD);
      MoveKeepsClear(f1, ACTIVE, SLUB_FROZEN, SLUB_DEBUG);
      MoveKeepsClear(f1, ACTIVE, SLUB_FROZEN, READAHEAD);
      MoveKeepsClear(f2, ERROR, SLUB_DEBUG, READAHEAD);
      ReclaimBack(f3);
      ErrorBack(f2);
      ActiveBack(f1);
      PrivateBack(flags);
    } else {
      ReclaimBack(flags);
    }
  }

  /* What becomes of the single bits, by their positions. */

  predicate Has(flags: bv64, bit: bv64) { flags & bit != 0 }

  /** Slab pages have bit 7. */
  predicate IsSlab(f: bv64) { Has(f, 0x80) }

  /** A reclaimed page that is not being written back has bit 9 and not bit 8. */
  predicate IsReclaimed(f: bv64) { Has(f, 0x200) && !Has(f, 0x100) }

  /** From `f` to `e` a bit has moved, toggling the one it has moved to. */
  predicate HasMoved(f: bv64, e: bv64, from: bv64, to: bv64) {
    !Has(e, from) && Has(e, to) == (Has(f, to) != Has(f, from))
  }

  /** On slab pages bit 35 moves to bit 49, */
  lemma SlabBit35(f: bv64)
    requires IsSlab(f)
    ensures HasMoved(f, ExpandOverloaded(f), 0x8_0000_0000, 0x2_0000_0000_0000)
  {
  }

  /** bit 6 to bit 50, */
  lemma SlabBit6(f: bv64)
    requires IsSlab(f)
    ensures HasMoved(f, ExpandOverloaded(f), 0x40, 0x4_0000_0000_0000)
  {
  }

  /** and bit 1 to bit 51; */
  lemma SlabBit1(f: bv64)
    requires IsSlab(f)
    ensures HasMoved(f, ExpandOverloaded(f), 0x2, 0x8_0000_0000_0000)
  {
  }

  /** on other pages these bits stay. */
  lemma NotSlabBits(f: bv64)
    requires !IsSlab(f)
    ensures ExpandOverloaded(f) & 0xE_0008_0000_0042 == f & 0xE_0008_0000_0042
  {
  }

  /** On reclaimed pages bit 9 moves to bit 48; */
  lemma ReclaimBit9(f: bv64)
    requires IsReclaimed(f)
    ensures HasMoved(f, ExpandOverloaded(f), 0x200, 0x1_0000_0000_0000)
  {
  }

  /** on other pages both stay. */
  lemma NotReclaimedBits(f: bv64)
    requires !IsReclaimed(f)
    ensures ExpandOverloaded(f) & 0x1_0000_0000_0200 == f & 0x1_0000_0000_0200
  {
  }

  /** The bits the expansion never touches. */
  function Untouched(f: bv64): bv64 { f & 0xFFF0_FFF7_FFFF_FDBD }

  lemma MoveKeeps(f: bv64, bit: bv64, to: bv64)
    requires (bit | to) & 0xFFF0_FFF7_FFFF_FDBD == 0
    ensures Untouched(Move(f, bit, to)) == Untouched(f)
  {
  }

  lemma SlabKeeps(f: bv64)
    ensures Untouched(ExpandSlab(f)) == Untouched(f)
  {
    if f & SLAB != 0 {
      MoveKeeps(f, PRIVATE, SLOB_FREE);
      MoveKeeps(Move(f, PRIVATE, SLOB_FREE), ACTIVE, SLUB_FROZEN);
      MoveKeeps(Move(Move(f, PRIVATE, SLOB_FREE), ACTIVE, SLUB_FROZEN), ERROR, SLUB_DEBUG);
    }
  }

  lemma ReclaimKeeps(f: bv64)
    ensures Untouched(ExpandReclaim(f)) == Untouched(f)
  {
  }

  /** All bits but 1, 6, 9, 35 and 48 to 51 stay on every page. */
  lemma OtherBits(f: bv64)
    ensures Untouched(ExpandOverloaded(f)) == Untouched(f)
  {
    SlabKeeps(f);
    ReclaimKeeps(ExpandSlab(f));
  }

  /** Raw flags hide nothing; otherwise what follows is hidden. */
  lemma NormalisedIs(f: bv64)
    ensures Normalised(f, true) == ExpandOverloaded(f) && Normalised(f, false) == WellKnown(ExpandOverloaded(f))
  {
  }

  /** Bits 32 to 47 are hidden; */
  lemma HackersHidden(f: bv64)
    ensures WellKnown(f) & 0xFFFF_0000_0000 == 0
  {
  }

  /** bit 15 is, unless bit 17 is set; */
  lemma CompoundHead(f: bv64)
    ensures Has(WellKnown(f), 0x8000) == (Has(f, 0x8000) && Has(f, 0x2_0000))
  {
  }

  /** so is bit 16; */
  lemma CompoundTail(f: bv64)
    ensures Has(WellKnown(f), 0x1_0000) == (Has(f, 0x1_0000) && Has(f, 0x2_0000))
  {
  }

  /** The bits that are never hidden. */
  function Unhidden(f: bv64): bv64 { f & 0xFFFF_0000_FFFE_7FFF }

  lemma HideHackersKeeps(f: bv64)
    ensures Unhidden(HideHackers(f)) == Unhidden(f)
  {
  }

  lemma HideCompoundKeeps(f: bv64)
    ensures Unhidden(HideCompound(f)) == Unhidden(f)
  {
  }

  /** and no other bit is. */
  lemma NothingElseHidden(f: bv64)
    ensures Unhidden(WellKnown(f)) == Unhidden(f)
  {
    HideHackersKeeps(f);
    HideCompoundKeeps(HideHackers(f));
  }

  predicate IsBit(b: bv64) { b != 0 && b & (b - 1) == 0 }

  function LowestBit(x: bv64): bv64 { x & (0 - x) }

  lemma LowestBitIsOne(x: bv64)
    requires x != 0
    ensures IsBit(LowestBit(x)) && Has(x, LowestBit(x))
  {
  }

  predicate Meet(x: bv64, y: bv64) { x & y != 0 }

  /** One `-b` filter: with all bits asked for, any common bit passes; otherwise the masked bits
      must be exactly the given ones. */
  datatype Filter = Filter(mask: bv64, bits: bv64) {
    predicate Passes(flags: bv64) {
      if bits == ALL_BITS then Meet(flags, mask) else flags & mask == bits
    }
  }

  /** `x` and `y` have a bit in common. */
  ghost predicate ShareBit(x: bv64, y: bv64) { exists b :: IsBit(b) && Has(x, b) && Has(y, b) }

  /** `x` and `y` have the same bits. */
  ghost predicate AgreeOnBits(x: bv64, y: bv64) { forall b :: IsBit(b) ==> Has(x, b) == Has(y, b) }

  lemma CommonBit(x: bv64, y: bv64)
    ensures Meet(x, y) <==> ShareBit(x, y)
  {
    if x & y != 0 {
      var b := LowestBit(x & y);
      LowestBitIsOne(x & y);
      OfBoth(x, y, b);
      assert IsBit(b) && Has(x, b) && Has(y, b);
    }
    if b :| IsBit(b) && Has(x, b) && Has(y, b) {
      SharedBit(x, y, b);
    }
  }

  lemma OfBoth(x: bv64, y: bv64, b: bv64)
    requires IsBit(b) && Has(x & y, b)
    ensures Has(x, b) && Has(y, b)
  {
  }

  lemma SharedBit(x: bv64, y: bv64, b: bv64)
    requires IsBit(b) && Has(x, b) && Has(y, b)
    ensures x & y != 0
  {
  }

  lemma SameBits(x: bv64, y: bv64)
    ensures x == y <==> AgreeOnBits(x, y)
  {
    if x != y {
      var b := LowestBit(x ^ y);
      LowestBitIsOne(x ^ y);
      DifferentBit(x, y, b);
      DisagreeAt(x, y, b);
    }
  }

  lemma DisagreeAt(x: bv64, y: bv64, b: bv64)
    requires IsBit(b) && Has(x, b) != Has(y, b)
    ensures !AgreeOnBits(x, y)
  {
  }

  lemma DifferentBit(x: bv64, y: bv64, b: bv64)
    requires IsBit(b) && Has(x ^ y, b)
    ensures Has(x, b) != Has(y, b)
  {
  }

  lemma PassesSome(f: Filter, flags: bv64)
    requires f.bits == 0xFFFF_FFFF_FFFF_FFFF
    ensures f.Passes(flags) == Meet(flags, f.mask)
  {
  }

  /** What a filter means for single bits.  Asked for all 64 bits, it lets a page pass that has one of the
      masked bits; */
  lemma FilterForSome(f: Filter, flags: bv64)
    requires f.bits == 0xFFFF_FFFF_FFFF_FFFF
    ensures f.Passes(flags) <==> ShareBit(flags, f.mask)
  {
    PassesSome(f, flags);
    CommonBit(flags, f.mask);
  }

  /** otherwise the page must have exactly those of the masked bits that are asked for. */
  lemma FilterForExactly(f: Filter, flags: bv64)
    requires f.bits != 0xFFFF_FFFF_FFFF_FFFF
    ensures f.Passes(flags) <==> AgreeOnBits(flags & f.mask, f.bits)
  {
    SameBits(flags & f.mask, f.bits);
  }

  ghost predicate Wanted(filters: seq<Filter>, flags: bv64) {
    forall i :: 0 <= i < |filters| ==> filters[i].Passes(flags)
  }

  method BitMaskOk(filters: seq<Filter>, flags: bv64) returns (ok: bool)
    ensures ok <==> Wanted(filters, flags)
  {
    for i := 0 to |filters|
      invariant forall j :: 0 <= j < i ==> filters[j].Passes(flags)
    {
      if !filters[i].Passes(flags) {
        return false;
      }
    }
    ok := true;
  }

  /* ---------- the table as a sequence of flag values ---------- */

  const SIZE: nat := 8192

  /** `HASH_KEY` */
  function Home(flags: bv64): (k: nat)
    ensures k < SIZE
  {
    ((flags & 0x1FFF) as bv13) as nat
  }

  lemma HomeIsRemainder(flags: bv64)
    ensures Home(flags) == ((flags % 8192) as bv13) as nat
  {
  }

  /** Slot 0 belongs to the value 0, so the probe for any other value starts at its home slot or,
      if that is 0, at slot 1. */
  function Start(flags: bv64): (k: nat)
    ensures 1 <= k < SIZE
  {
    if Home(flags) == 0 then 1 else Home(flags)
  }

  /** Steps from slot `h` forward to slot `k`, wrapping from the last slot to slot 1. */
  function Distance(h: nat, k: nat): int {
    if k >= h then k - h else k - h + SIZE - 1
  }

  /** No value owns two slots, and no free slot lies between a value's start and its slot. */
  ghost predicate TableOk(t: seq<bv64>) {
    && |t| == SIZE && t[0] == 0
    && (forall j, k :: 1 <= j < k < SIZE && t[j] != 0 ==> t[j] != t[k])
    && (forall j, k :: 1 <= j < SIZE && 1 <= k < SIZE && t[k] != 0 && Distance(Start(t[k]), j) < Distance(Start(t[k]), k) ==> t[j] != 0)
  }

  /** A probe for `flags` that starts at slot `h` has passed over the first `d` slots without finding
      the value or a free slot. */
  ghost predicate ProbedFrom(t: seq<bv64>, flags: bv64, h: nat, d: int) {
    |t| == SIZE && forall j :: 1 <= j < SIZE && Distance(h, j) < d ==> t[j] != 0 && t[j] != flags
  }

  ghost predicate Probed(t: seq<bv64>, flags: bv64, d: int) { ProbedFrom(t, flags, Start(flags), d) }

  lemma ProbeStep(t: seq<bv64>, flags: bv64, h: nat, k: nat)
    requires 1 <= h < SIZE && 1 <= k < SIZE && ProbedFrom(t, flags, h, Distance(h, k)) && t[k] != 0 && t[k] != flags
    ensures ProbedFrom(t, flags, h, Distance(h, k) + 1)
  {
  }

  /** A free slot at the end of a probe proves that the value is not in the table. */
  lemma ProbeMissProvesAbsence(t: seq<bv64>, flags: bv64, k: nat)
    requires TableOk(t) && flags != 0 && 1 <= k < SIZE && t[k] == 0
    requires Probed(t, flags, Distance(Start(flags), k))
    ensures flags !in t
  {
    forall m | 0 <= m < SIZE ensures t[m] != flags {
      assert t[m] == flags ==> Distance(Start(t[m]), k) < Distance(Start(t[m]), m);
    }
  }

  lemma Insert(t: seq<bv64>, flags: bv64, k: nat)
    requires TableOk(t) && flags != 0 && 1 <= k < SIZE && t[k] == 0
    requires Probed(t, flags, Distance(Start(flags), k))
    ensures flags !in t && TableOk(t[k := flags])
  {
    ProbeMissProvesAbsence(t, flags, k);
  }

  lemma ProbedAll(t: seq<bv64>, flags: bv64)
    requires TableOk(t) && flags != 0 && Probed(t, flags, SIZE - 1)
    ensures flags !in t && Full(t)
  {
    forall j | 1 <= j < SIZE ensures t[j] != 0 && t[j] != flags {
      assert Distance(Start(flags), j) < SIZE - 1;
    }
  }

  ghost predicate Full(t: seq<bv64>) {
    forall j :: 1 <= j < |t| ==> t[j] != 0
  }

  /* ---------- the counts ---------- */

  /** How many pages have exactly these flags. */
  ghost function Count(pages: seq<bv64>, f: bv64): nat {
    if pages == [] then 0 else Count(pages[..|pages| - 1], f) + (if pages[|pages| - 1] == f then 1 else 0)
  }

  lemma {:induction false} CountPositive(pages: seq<bv64>, f: bv64)
    ensures Count(pages, f) > 0 <==> f in pages
  {
    if pages != [] {
      CountPositive(pages[..|pages| - 1], f);
      assert pages == pages[..|pages| - 1] + [pages[|pages| - 1]];
    }
  }

  ghost function Sum(s: seq<nat>): nat {
    if s == [] then 0 else Sum(s[..|s| - 1]) + s[|s| - 1]
  }

  lemma {:induction false} SumIncrement(s: seq<nat>, k: nat)
    requires k < |s|
    ensures Sum(s[k := s[k] + 1]) == Sum(s) + 1
  {
    var n := |s| - 1;
    if k < n {
      SumIncrement(s[..n], k);
      assert s[k := s[k] + 1][..n] == s[..n][k := s[k] + 1];
    } else {
      assert s[k := s[k] + 1][..n] == s[..n];
    }
  }

  /** Every slot in use, and slot 0, holds the number of pages counted with its value; free slots
      hold 0. */
  ghost predicate SlotCounts(t: seq<bv64>, counts: seq<nat>, pages: seq<bv64>) {
    && |t| == |counts| == SIZE
    && forall k :: 0 <= k < SIZE ==> counts[k] == if k == 0 || t[k] != 0 then Count(pages, t[k]) else 0
  }

  /** The table holds the values of the pages counted and no others. */
  ghost predicate SameValues(t: seq<bv64>, pages: seq<bv64>) {
    && (forall i :: 0 <= i < |pages| ==> pages[i] in t)
    && (forall k :: 0 <= k < |t| && t[k] != 0 ==> t[k] in pages)
  }

  ghost predicate CountsOk(t: seq<bv64>, counts: seq<nat>, pages: seq<bv64>) {
    SlotCounts(t, counts, pages) && SameValues(t, pages) && Sum(counts) == |pages|
  }

  /** Slot `k` serves the value, and was free if the value is new. */
  ghost predicate Claimed(t: seq<bv64>, t': seq<bv64>, k: nat, flags: bv64) {
    && |t| == |t'| == SIZE && k < SIZE && t'[k] == flags && (flags == 0 ==> k == 0)
    && (t' == t || (t[k] == 0 && flags !in t && t' == t[k := flags]))
  }

  /** Counting one more page at its value's slot, which may be new to the table. */
  lemma CountOneMore(t: seq<bv64>, counts: seq<nat>, pages: seq<bv64>, t': seq<bv64>, k: nat, flags: bv64)
    requires TableOk(t) && TableOk(t') && CountsOk(t, counts, pages) && Claimed(t, t', k, flags)
    ensures CountsOk(t', counts[k := counts[k] + 1], pages + [flags])
  {
    SumIncrement(counts, k);
    SlotCountsStep(t, counts, pages, t', k, flags);
    SameValuesStep(t, pages, t', k, flags);
  }

  lemma SlotCountsStep(t: seq<bv64>, counts: seq<nat>, pages: seq<bv64>, t': seq<bv64>, k: nat, flags: bv64)
    requires TableOk(t') && SlotCounts(t, counts, pages) && SameValues(t, pages) && Claimed(t, t', k, flags)
    ensures SlotCounts(t', counts[k := counts[k] + 1], pages + [flags])
  {
    forall j | 0 <= j < SIZE
      ensures counts[k := counts[k] + 1][j] == if j == 0 || t'[j] != 0 then Count(pages + [flags], t'[j]) else 0
    {
      if j == k {
        OwnSlotStep(t, counts, pages, t', k, flags);
      } else {
        OtherSlotStep(t, counts, pages, t', k, flags, j);
      }
    }
  }

  lemma OwnSlotStep(t: seq<bv64>, counts: seq<nat>, pages: seq<bv64>, t': seq<bv64>, k: nat, flags: bv64)
    requires SlotCounts(t, counts, pages) && SameValues(t, pages) && Claimed(t, t', k, flags) && t'[0] == 0
    ensures counts[k] + 1 == Count(pages + [flags], flags) && (k == 0 || flags != 0)
  {
    OneMore(pages, flags, flags);
    NewMeansUncounted(t, pages, flags);
    assert t[k] in t;
  }

  lemma OtherSlotStep(t: seq<bv64>, counts: seq<nat>, pages: seq<bv64>, t': seq<bv64>, k: nat, flags: bv64, j: nat)
    requires TableOk(t') && SlotCounts(t, counts, pages) && Claimed(t, t', k, flags) && j < SIZE && j != k
    ensures t'[j] == t[j]
    ensures j == 0 || t'[j] != 0 ==> counts[j] == Count(pages + [flags], t'[j])
    ensures !(j == 0 || t'[j] != 0) ==> counts[j] == 0
  {
    if j == 0 || t'[j] != 0 {
      OneMore(pages, flags, t'[j]);
      assert t'[j] != flags;
    }
  }

  lemma SameValuesStep(t: seq<bv64>, pages: seq<bv64>, t': seq<bv64>, k: nat, flags: bv64)
    requires SameValues(t, pages) && Claimed(t, t', k, flags) && t'[0] == 0
    ensures SameValues(t', pages + [flags])
  {
    forall i | 0 <= i < |pages + [flags]| ensures (pages + [flags])[i] in t' {
      if i < |pages| {
        var j :| 0 <= j < SIZE && t[j] == pages[i];
        assert t'[if j == k then 0 else j] == pages[i] || t'[j] == pages[i];
      } else {
        assert t'[k] == flags;
      }
    }
    forall j | 0 <= j < SIZE && t'[j] != 0 ensures t'[j] in pages + [flags] {
      assert t'[j] == t[j] || t'[j] == flags;
    }
  }

  /** A value that is new to the table has not been counted before. */
  lemma NewMeansUncounted(t: seq<bv64>, pages: seq<bv64>, flags: bv64)
    requires SameValues(t, pages)
    ensures flags !in t ==> Count(pages, flags) == 0
  {
    CountPositive(pages, flags);
    if flags in pages {
      var i :| 0 <= i < |pages| && pages[i] == flags;
      assert pages[i] in t;
    }
  }

  lemma OneMore(pages: seq<bv64>, flags: bv64, f: bv64)
    ensures Count(pages + [flags], f) == Count(pages, f) + (if f == flags then 1 else 0)
  {
    assert (pages + [flags])[..|pages|] == pages;
  }

  /* ---------- when the table is full ---------- */

  /** The values that need a slot of their own: all but 0. */
  ghost function Values(pages: seq<bv64>): set<bv64> {
    set i | 0 <= i < |pages| && pages[i] != 0 :: pages[i]
  }

  ghost function InUse(slots: seq<bv64>): nat {
    if slots == [] then 0 else InUse(slots[..|slots| - 1]) + if slots[|slots| - 1] == 0 then 0 else 1
  }

  lemma {:induction false} InUseBound(slots: seq<bv64>)
    ensures InUse(slots) <= |slots|
    ensures InUse(slots) == |slots| <==> forall j :: 0 <= j < |slots| ==> slots[j] != 0
  {
    if slots != [] {
      InUseBound(slots[..|slots| - 1]);
    }
  }

  lemma {:induction false} InUseValues(slots: seq<bv64>)
    requires forall j, k :: 0 <= j < k < |slots| && slots[j] != 0 ==> slots[j] != slots[k]
    ensures |Values(slots)| == InUse(slots)
  {
    if slots != [] {
      var front, last := slots[..|slots| - 1], slots[|slots| - 1];
      assert slots == front + [last] && slots[|front|] == last;
      forall j, k | 0 <= j < k < |front| && front[j] != 0 ensures front[j] != front[k] {
        assert front[j] == slots[j] && front[k] == slots[k];
      }
      InUseValues(front);
      AnotherValue(front, last);
      if last != 0 {
        assert last !in Values(front) by { NotAmong(slots, |front|); }
      }
    }
  }

  lemma NotAmong(slots: seq<bv64>, n: nat)
    requires n < |slots| && forall j :: 0 <= j < n && slots[j] != 0 ==> slots[j] != slots[n]
    ensures slots[n] !in Values(slots[..n])
  {
  }

  lemma AnotherValue(pages: seq<bv64>, v: bv64)
    ensures Values(pages + [v]) == Values(pages) + if v == 0 then {} else {v}
  {
    var all := pages + [v];
    forall x ensures x in Values(all) <==> x in Values(pages) + if v == 0 then {} else {v} {
      if x in Values(pages) {
        var i :| 0 <= i < |pages| && pages[i] == x;
        assert all[i] == x;
      }
      if x == v {
        assert all[|pages|] == x;
      }
    }
  }

  lemma TableValues(t: seq<bv64>, pages: seq<bv64>)
    requires |t| == SIZE && t[0] == 0 && SameValues(t, pages)
    ensures Values(t[1..]) == Values(pages)
  {
    var slots := t[1..];
    forall v | v in Values(pages) ensures v in Values(slots) {
      var i :| 0 <= i < |pages| && pages[i] == v;
      var k :| 0 <= k < SIZE && t[k] == pages[i];
      assert slots[k - 1] == v;
    }
  }

  lemma FullMeansInUse(t: seq<bv64>)
    requires TableOk(t)
    ensures |Values(t[1..])| < SIZE
    ensures Full(t) <==> |Values(t[1..])| == SIZE - 1
  {
    InUseBound(t[1..]);
    InUseValues(t[1..]);
  }

  /** The table is full exactly when 8191 different values other than 0 have been counted. */
  lemma FullMeansAllValues(t: seq<bv64>, counts: seq<nat>, pages: seq<bv64>)
    requires TableOk(t) && CountsOk(t, counts, pages)
    ensures |Values(pages)| < SIZE
    ensures Full(t) <==> |Values(pages)| == SIZE - 1
    ensures forall v :: v in t <==> v == 0 || v in pages
  {
    FullMeansInUse(t);
    TableValues(t, pages);
  }

  /** What the walk counts: the normalised flags of the pages that pass the filters. */
  ghost function Accepted(kernelFlags: seq<bv64>, raw: bool, filters: seq<Filter>): seq<bv64> {
    if kernelFlags == [] then []
    else
      var flags := Normalised(kernelFlags[|kernelFlags| - 1], raw);
      Accepted(kernelFlags[..|kernelFlags| - 1], raw, filters) + if Wanted(filters, flags) then [flags] else []
  }

  /** A value can be counted if it is 0 or counted already, or if a slot is left. */
  ghost predicate HasRoom(pages: seq<bv64>, flags: bv64) {
    flags == 0 || flags in pages || |Values(pages)| < SIZE - 1
  }

  lemma {:induction false} AcceptedGrows(kernelFlags: seq<bv64>, raw: bool, filters: seq<Filter>, i: nat)
    requires i <= |kernelFlags|
    ensures Accepted(kernelFlags[..i], raw, filters) <= Accepted(kernelFlags, raw, filters)
    decreases |kernelFlags|
  {
    if i < |kernelFlags| {
      var n := |kernelFlags| - 1;
      AcceptedGrows(kernelFlags[..n], raw, filters, i);
      assert kernelFlags[..n][..i] == kernelFlags[..i];
    } else {
      assert kernelFlags[..i] == kernelFlags;
    }
  }

  lemma PrefixHasFewer(a: seq<bv64>, b: seq<bv64>)
    requires a <= b
    ensures |Values(a)| <= |Values(b)|
  {
    forall v | v in Values(a) ensures v in Values(b) {
      var i :| 0 <= i < |a| && a[i] == v;
      assert b[i] == v;
    }
    SubsetSize(Values(a), Values(b));
  }

  lemma {:induction false} SubsetSize<T>(a: set<T>, b: set<T>)
    requires a <= b
    ensures |a| <= |b|
  {
    if |a| > 0 {
      var v :| v in a;
      SubsetSize(a - {v}, b - {v});
    }
  }

  /** A page that finds no room brings the accepted values above the table's size. */
  lemma NoRoomLater(pages: seq<bv64>, flags: bv64, kernelFlags: seq<bv64>, raw: bool, filters: seq<Filter>, i: nat)
    requires i < |kernelFlags| && pages == Accepted(kernelFlags[..i], raw, filters)
    requires flags == Normalised(kernelFlags[i], raw) && Wanted(filters, flags) && !HasRoom(pages, flags)
    ensures |Values(Accepted(kernelFlags, raw, filters))| >= SIZE
  {
    assert kernelFlags[..i + 1][..i] == kernelFlags[..i];
    AnotherValue(pages, flags);
    AcceptedGrows(kernelFlags, raw, filters, i + 1);
    PrefixHasFewer(pages + [flags], Accepted(kernelFlags, raw, filters));
  }

  class PageTable {
    const raw: bool
    const filters: seq<Filter>
    const nrPages: array<nat>
    const pageFlags: array<bv64>
    var totalPages: nat
    ghost var pages: seq<bv64>  // the normalised flags of all pages counted so far, in order

    ghost predicate Valid()
      reads this, nrPages, pageFlags
    {
      && nrPages.Length == pageFlags.Length == SIZE && nrPages as object != pageFlags
      && TableOk(pageFlags[..]) && CountsOk(pageFlags[..], nrPages[..], pages)
      && totalPages == |pages|
    }

    constructor (raw: bool, filters: seq<Filter>)
      ensures Valid() && pages == [] && this.raw == raw && this.filters == filters
      ensures fresh(nrPages) && fresh(pageFlags)
    {
      this.raw, this.filters := raw, filters;
      nrPages := new nat[SIZE](_ => 0);
      pageFlags := new bv64[SIZE](_ => 0);
      totalPages, pages := 0, [];
      new;
      AllZeroSum(nrPages[..]);
    }

    /** The probe: the first slot from the value's start on that is free or holds the value. */
    method Probe(flags: bv64) returns (slot: Option<nat>)
      requires pageFlags.Length == SIZE
      ensures slot == None ==> Probed(pageFlags[..], flags, SIZE - 1)
      ensures slot.Some? ==> 1 <= slot.value < SIZE && (pageFlags[slot.value] == 0 || pageFlags[slot.value] == flags)
                             && Probed(pageFlags[..], flags, Distance(Start(flags), slot.value))
    {
      slot := Search(Home(flags), flags);
    }

    method Search(home: nat, flags: bv64) returns (slot: Option<nat>)
      requires pageFlags.Length == SIZE && home < SIZE
      ensures var h := if home == 0 then 1 else home;
              match slot
              case None => ProbedFrom(pageFlags[..], flags, h, SIZE - 1)
              case Some(k) => 1 <= k < SIZE && (pageFlags[k] == 0 || pageFlags[k] == flags)
                              && ProbedFrom(pageFlags[..], flags, h, Distance(h, k))
    {
      ghost var h: nat := if home == 0 then 1 else home;
      var k: nat := home;
      for i := 1 to SIZE
        invariant k <= SIZE && (i < SIZE ==> Distance(h, if k == 0 || k == SIZE then 1 else k) == i - 1)
        invariant ProbedFrom(pageFlags[..], flags, h, i - 1)
      {
        if k == 0 || k >= SIZE {
          k := 1;
        }
        if pageFlags[k] == 0 {
          return Some(k);
        }
        if pageFlags[k] == flags {
          return Some(k);
        }
        ProbeStep(pageFlags[..], flags, h, k);
        k := k + 1;
      }
      slot := None;
    }

    /** The slot that counts pages with these flags, claimed if the value is new.  There is none
        exactly when the value is new and the table is full, which ends the original. */
    method HashSlot(flags: bv64) returns (slot: Option<nat>)
      requires pageFlags.Length == SIZE && TableOk(pageFlags[..])
      modifies pageFlags
      ensures TableOk(pageFlags[..])
      ensures slot == None <==> flags !in old(pageFlags[..]) && Full(old(pageFlags[..]))
      ensures slot == None ==> pageFlags[..] == old(pageFlags[..])
      ensures slot.Some? ==> Claimed(old(pageFlags[..]), pageFlags[..], slot.value, flags)
    {
      ghost var t := pageFlags[..];
      if flags == 0 {
        assert t[0] == 0;
        return Some(0);
      }
      slot := Probe(flags);
      if slot == None {
        ProbedAll(t, flags);
      } else if pageFlags[slot.value] == 0 {
        Insert(t, flags, slot.value);
        pageFlags[slot.value] := flags;
      } else {
        assert t[slot.value] == flags;
      }
    }

    /** `nr_pages[hash_slot(flags)]++; total_pages++`, or false when there is no slot. */
    method CountPage(flags: bv64) returns (ok: bool)
      requires Valid()
      modifies this, nrPages, pageFlags
      ensures ok <==> HasRoom(old(pages), flags)
      ensures ok ==> Valid() && pages == old(pages) + [flags]
    {
      ghost var t, counts := pageFlags[..], nrPages[..];
      FullMeansAllValues(t, counts, pages);
      var slot := HashSlot(flags);
      if slot == None {
        return false;
      }
      CountOneMore(t, counts, pages, pageFlags[..], slot.value, flags);
      Increment(slot.value, flags);
      ok := true;
    }

    method Increment(slot: nat, ghost flags: bv64)
      requires pageFlags.Length == nrPages.Length == SIZE && nrPages as object != pageFlags && slot < SIZE
      requires TableOk(pageFlags[..]) && totalPages == |pages|
      requires CountsOk(pageFlags[..], nrPages[..][slot := nrPages[slot] + 1], pages + [flags])
      modifies this, nrPages
      ensures Valid() && pages == old(pages) + [flags]
    {
      nrPages[slot] := nrPages[slot] + 1;
      totalPages := totalPages + 1;
      pages := pages + [flags];
    }

    /** Normalise, filter, count.  Returns false exactly when the page is wanted and there is no
        room for its value, which ends the original. */
    method AddPage(kernelFlags: bv64) returns (ok: bool)
      requires Valid()
      modifies this, nrPages, pageFlags
      ensures ok <==> !Wanted(filters, Normalised(kernelFlags, raw)) || HasRoom(old(pages), Normalised(kernelFlags, raw))
      ensures ok ==> Valid()
      ensures ok ==> pages == old(pages) + (if Wanted(filters, Normalised(kernelFlags, raw)) then [Normalised(kernelFlags, raw)] else [])
    {
      var flags := Normalised(kernelFlags, raw);
      ok := BitMaskOk(filters, flags);
      if !ok {
        return true;
      }
      ok := CountPage(flags);
    }

    /** Any run of pages, from an empty table: it is counted to the end exactly when the accepted
        pages have at most 8191 different values other than 0. */
    method AddPages(kernelFlags: seq<bv64>) returns (ok: bool)
      requires Valid() && pages == []
      modifies this, nrPages, pageFlags
      ensures ok <==> |Values(Accepted(kernelFlags, raw, filters))| <= 8191
      ensures ok ==> Valid() && pages == Accepted(kernelFlags, raw, filters)
    {
      for i := 0 to |kernelFlags|
        invariant Valid() && pages == Accepted(kernelFlags[..i], raw, filters)
      {
        assert kernelFlags[..i + 1][..i] == kernelFlags[..i];
        ghost var before := pages;
        ok := AddPage(kernelFlags[i]);
        if !ok {
          NoRoomLater(before, Normalised(kernelFlags[i], raw), kernelFlags, raw, filters, i);
          return;
        }
      }
      assert kernelFlags[..|kernelFlags|] == kernelFlags;
      FullMeansAllValues(pageFlags[..], nrPages[..], pages);
      ok := true;
    }

    /** One pass of the summary's loop: a row for the slot, if it counts anything. */
    method NextRow(k: nat, rows: seq<Row>, ghost at: seq<nat>) returns (rows': seq<Row>, ghost at': seq<nat>)
      requires pageFlags.Length == nrPages.Length == SIZE && k < SIZE
      requires ListedTo(pageFlags[..], nrPages[..], rows, at, k)
      ensures ListedTo(pageFlags[..], nrPages[..], rows', at', k + 1)
      ensures rows <= rows' && (nrPages[k] == 0 <==> rows' == rows)
      ensures nrPages[k] > 0 ==> rows' == rows + [Row(pageFlags[k], nrPages[k])]
    {
      ListStep(pageFlags[..], nrPages[..], rows, at, k);
      TotalStep(nrPages[..], rows, k, pageFlags[k]);
      rows', at' := rows, at;
      if nrPages[k] > 0 {
        rows' := rows + [Row(pageFlags[k], nrPages[k])];
        at' := at + [k];
      }
    }

    /** The summary lists every flag value counted exactly once, with its exact number of pages;
        the numbers add up to the total printed under them. */
    method ShowSummary() returns (rows: seq<Row>, total: nat)
      requires Valid()
      ensures forall r :: 0 <= r < |rows| ==> rows[r].count == Count(pages, rows[r].flags) > 0
      ensures forall r, q :: 0 <= r < q < |rows| ==> rows[r].flags != rows[q].flags
      ensures forall i :: 0 <= i < |pages| ==> exists r :: 0 <= r < |rows| && rows[r].flags == pages[i]
      ensures total == |pages| == RowTotal(rows)
    {
      rows := [];
      ghost var at: seq<nat> := [];
      for k := 0 to SIZE
        invariant ListedTo(pageFlags[..], nrPages[..], rows, at, k)
      {
        rows, at := NextRow(k, rows, at);
      }
      RowsComplete(pageFlags[..], nrPages[..], pages, rows, at);
      TotalDone(nrPages[..], rows);
      total := totalPages;
    }
  }

  datatype Row = Row(flags: bv64, count: nat)

  /** `rows` are the slots `at`, in order: all slots below `k` with a positive count. */
  ghost predicate Listed(t: seq<bv64>, counts: seq<nat>, rows: seq<Row>, at: seq<nat>, k: nat) {
    && |t| == |counts| == SIZE && |at| == |rows|
    && (forall r :: 0 <= r < |at| ==> at[r] < k && at[r] < SIZE && rows[r] == Row(t[at[r]], counts[at[r]]) && counts[at[r]] > 0)
    && (forall r, q :: 0 <= r < q < |at| ==> at[r] < at[q])
    && (forall j :: 0 <= j < k && j < SIZE && counts[j] > 0 ==> j in at)
  }

  ghost function RowTotal(rows: seq<Row>): nat {
    if rows == [] then 0 else RowTotal(rows[..|rows| - 1]) + rows[|rows| - 1].count
  }

  /** The counts listed so far add up to those of the slots below `k`. */
  ghost predicate Totalled(counts: seq<nat>, rows: seq<Row>, k: nat) {
    k <= |counts| == SIZE && RowTotal(rows) == Sum(counts[..k])
  }

  ghost predicate ListedTo(t: seq<bv64>, counts: seq<nat>, rows: seq<Row>, at: seq<nat>, k: nat) {
    Listed(t, counts, rows, at, k) && Totalled(counts, rows, k)
  }

  lemma TotalStep(counts: seq<nat>, rows: seq<Row>, k: nat, flags: bv64)
    requires Totalled(counts, rows, k) && k < SIZE
    ensures Totalled(counts, if counts[k] > 0 then rows + [Row(flags, counts[k])] else rows, k + 1)
  {
    assert counts[..k + 1][..k] == counts[..k];
    assert (rows + [Row(flags, counts[k])])[..|rows|] == rows;
  }

  lemma TotalDone(counts: seq<nat>, rows: seq<Row>)
    requires Totalled(counts, rows, SIZE)
    ensures RowTotal(rows) == Sum(counts)
  {
    assert counts[..SIZE] == counts;
  }

  lemma ListStep(t: seq<bv64>, counts: seq<nat>, rows: seq<Row>, at: seq<nat>, k: nat)
    requires k < SIZE && Listed(t, counts, rows, at, k)
    ensures if counts[k] > 0 then Listed(t, counts, rows + [Row(t[k], counts[k])], at + [k], k + 1)
            else Listed(t, counts, rows, at, k + 1)
  {
  }

  lemma {:induction false} AllZeroSum(s: seq<nat>)
    requires forall i :: 0 <= i < |s| ==> s[i] == 0
    ensures Sum(s) == 0
  {
    if s != [] { AllZeroSum(s[..|s| - 1]); }
  }

  lemma RowsComplete(t: seq<bv64>, counts: seq<nat>, pages: seq<bv64>, rows: seq<Row>, at: seq<nat>)
    requires TableOk(t) && CountsOk(t, counts, pages) && Listed(t, counts, rows, at, SIZE)
    ensures forall r :: 0 <= r < |rows| ==> rows[r].count == Count(pages, rows[r].flags) > 0
    ensures forall r, q :: 0 <= r < q < |rows| ==> rows[r].flags != rows[q].flags
    ensures forall i :: 0 <= i < |pages| ==> exists r :: 0 <= r < |rows| && rows[r].flags == pages[i]
  {
    forall i | 0 <= i < |pages| ensures exists r :: 0 <= r < |rows| && rows[r].flags == pages[i] {
      var slot := SlotOf(t, counts, pages, i);
      var r :| 0 <= r < |at| && at[r] == slot;
      assert rows[r].flags == pages[i];
    }
    forall r | 0 <= r < |rows| ensures rows[r].count == Count(pages, rows[r].flags) {
      CountAt(t, counts, pages, at[r]);
    }
    forall r, q | 0 <= r < q < |rows| ensures rows[r].flags != rows[q].flags {
      ValuesDiffer(t, counts, pages, at[r], at[q]);
    }
  }

  lemma CountAt(t: seq<bv64>, counts: seq<nat>, pages: seq<bv64>, k: nat)
    requires CountsOk(t, counts, pages) && k < SIZE && counts[k] > 0
    ensures counts[k] == Count(pages, t[k]) && (k == 0 || t[k] != 0)
  {
  }

  lemma ValuesDiffer(t: seq<bv64>, counts: seq<nat>, pages: seq<bv64>, j: nat, k: nat)
    requires TableOk(t) && CountsOk(t, counts, pages) && j < k < SIZE && counts[j] > 0 && counts[k] > 0
    ensures t[j] != t[k]
  {
    CountAt(t, counts, pages, j);
    CountAt(t, counts, pages, k);
  }

  /** The slot that counts page `i`. */
  lemma SlotOf(t: seq<bv64>, counts: seq<nat>, pages: seq<bv64>, i: nat) returns (slot: nat)
    requires TableOk(t) && CountsOk(t, counts, pages) && i < |pages|
    ensures slot < SIZE && t[slot] == pages[i] && counts[slot] > 0
  {
    var j :| 0 <= j < SIZE && t[j] == pages[i];
    slot := if pages[i] == 0 then 0 else j;
    CountPositive(pages, pages[i]);
  }
}
