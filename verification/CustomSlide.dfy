/**
 KASLR slide analysis. A slide is usable when the kernel range it selects lies in free memory. The
 analysis decides this by adding up lengths; the lemmas here show when a sum of lengths really means
 that every byte of the range is free.
 */
module CustomSlide {
  import opened Machine
  import opened MemoryMap

  const KERNEL_BASE_PADDR: nat := 0x100000
  const SLIDE_GRANULARITY: nat := 0x200000
  const TOTAL_SLIDE_NUM: nat := 0x100
  const SLIDE_ERRATA_NUM: nat := 0x80
  const SLIDE_ERRATA_SKIP_RANGE: nat := 0x10200000
  const ESTIMATED_KERNEL_SIZE: nat := 200 * 0x100000

  function SlideStart(hasSandyOrIvy: bool, slide: nat): nat {
    slide * SLIDE_GRANULARITY + KERNEL_BASE_PADDR
    + (if slide >= SLIDE_ERRATA_NUM && hasSandyOrIvy then SLIDE_ERRATA_SKIP_RANGE else 0)
  }

  function KernelArea(mm: seq<Descriptor>): nat {
    RuntimePages(mm) * PAGE_SIZE + ESTIMATED_KERNEL_SIZE
  }

  /** No descriptor end and no kernel range end leaves the 64-bit address space. */
  predicate Fits(mm: seq<Descriptor>) {
    && (forall i :: 0 <= i < |mm| ==> mm[i].End() < U64)
    && SlideStart(true, TOTAL_SLIDE_NUM) + KernelArea(mm) < U64
  }

  // ----- One range against the map -----

  predicate Overlaps(d: Descriptor, lo: nat, hi: nat) {
    d.start < hi && d.End() > lo
  }

  predicate Blocks(d: Descriptor, lo: nat, hi: nat) {
    Overlaps(d, lo, hi) && !d.kind.ConventionalMemory?
  }

  /** Number of bytes shared by the descriptor and the range. */
  function Shared(d: Descriptor, lo: nat, hi: nat): nat {
    if Overlaps(d, lo, hi) && lo < hi && d.pages > 0
    then (if d.End() < hi then d.End() else hi) - (if d.start > lo then d.start else lo)
    else 0
  }

  /** The inner loop never steps past a descriptor without pages, so it sees this prefix only. */
  function Reached(mm: seq<Descriptor>): (r: seq<Descriptor>)
    ensures r <= mm
  {
    if mm == [] || mm[0].pages == 0 then [] else [mm[0]] + Reached(mm[1..])
  }

  predicate Usable(mm: seq<Descriptor>, lo: nat, hi: nat) {
    mm == [] || mm[0].pages == 0 || (!Blocks(mm[0], lo, hi) && Usable(mm[1..], lo, hi))
  }

  function Available(mm: seq<Descriptor>, lo: nat, hi: nat): nat {
    if mm == [] || mm[0].pages == 0 || Blocks(mm[0], lo, hi) then 0
    else Shared(mm[0], lo, hi) + Available(mm[1..], lo, hi)
  }

  /** The verdict on one range: no blocking descriptor, and the lengths add up. */
  predicate Accepts(mm: seq<Descriptor>, lo: nat, hi: nat) {
    Usable(mm, lo, hi) && (lo + Available(mm, lo, hi) % U64) % U64 == hi
  }

  /** The accumulator update for an overlapping descriptor, in 64-bit arithmetic. */
  method AddShared(available: nat, d: Descriptor, lo: nat, hi: nat) returns (sum: nat)
    requires lo < hi && d.pages > 0 && Overlaps(d, lo, hi)
    ensures sum == (available + Shared(d, lo, hi)) % U64
  {
    sum := (available + d.Size()) % U64;
    ghost var exact: int := available + d.Size();
    if d.start < lo {
      ModAdd(exact, -(lo - d.start), U64);
      exact := exact - (lo - d.start);
      sum := (sum - (lo - d.start)) % U64;
    }
    if d.End() > hi {
      ModAdd(exact, -(d.End() - hi), U64);
      exact := exact - (d.End() - hi);
      sum := (sum - (d.End() - hi)) % U64;
    }
    assert exact == available + Shared(d, lo, hi);
  }

  /** The inner loop, with its separate index and descriptor cursor and its 64-bit accumulator. */
  method ScanRange(mm: seq<Descriptor>, lo: nat, hi: nat) returns (supported: bool, available: nat)
    requires lo < hi < U64
    ensures supported == Usable(mm, lo, hi)
    ensures available == Available(mm, lo, hi) % U64
  {
    supported, available := true, 0;
    var desc := 0;
    ghost var exact := 0;
    for index := 0 to |mm|
      invariant 0 <= desc <= index
      invariant desc < index ==> mm[desc].pages == 0
      invariant supported && available == exact % U64
      invariant Usable(mm[desc..], lo, hi) == Usable(mm, lo, hi)
      invariant exact + Available(mm[desc..], lo, hi) == Available(mm, lo, hi)
    {
      var d := mm[desc];
      assert mm[desc..][0] == d && mm[desc..][1..] == mm[desc + 1..];
      if d.pages == 0 {
        continue;
      }
      if d.start < hi && d.End() > lo {
        if !d.kind.ConventionalMemory? {
          supported := false;
          break;
        }
        available := AddShared(available, d, lo, hi);
        ModAdd(exact, Shared(d, lo, hi), U64);
        exact := exact + Shared(d, lo, hi);
      }
      desc := desc + 1;
    }
  }

  // ----- What acceptance means -----

  /** Non-empty descriptors do not share memory. */
  ghost predicate Disjoint(mm: seq<Descriptor>) {
    forall i, j :: 0 <= i < j < |mm| && mm[i].pages > 0 && mm[j].pages > 0 ==>
      mm[i].End() <= mm[j].start || mm[j].End() <= mm[i].start
  }

  ghost predicate FreeAt(mm: seq<Descriptor>, address: int) {
    exists i :: 0 <= i < |mm| && mm[i].kind.ConventionalMemory? && mm[i].Contains(address)
  }

  /** Every byte of the range is conventional memory. */
  ghost predicate Covered(mm: seq<Descriptor>, lo: nat, hi: nat) {
    forall address :: lo <= address < hi ==> FreeAt(mm, address)
  }

  ghost function Interval(lo: int, hi: int): (s: set<int>)
    ensures forall a :: a in s <==> lo <= a < hi
    ensures lo <= hi ==> |s| == hi - lo
    decreases hi - lo
  {
    if lo >= hi then {} else Interval(lo, hi - 1) + {hi - 1}
  }

  ghost function FreeBytes(mm: seq<Descriptor>, lo: nat, hi: nat): set<int> {
    set a | a in Interval(lo, hi) && FreeAt(mm, a)
  }

  /** Bytes of the range that one descriptor provides. */
  ghost function FreeBytesOf(d: Descriptor, lo: nat, hi: nat): (bytes: set<int>)
    requires lo < hi && d.pages > 0 && !Blocks(d, lo, hi)
    ensures |bytes| == Shared(d, lo, hi)
    ensures forall a :: a in bytes <==> lo <= a < hi && d.kind.ConventionalMemory? && d.Contains(a)
  {
    if Overlaps(d, lo, hi)
    then Interval(if d.start > lo then d.start else lo, if d.End() < hi then d.End() else hi)
    else {}
  }

  lemma FreeAtSplit(d: Descriptor, rest: seq<Descriptor>, a: int)
    ensures FreeAt([d] + rest, a) <==> (d.kind.ConventionalMemory? && d.Contains(a)) || FreeAt(rest, a)
  {
    var mm := [d] + rest;
    if FreeAt(rest, a) {
      var i :| 0 <= i < |rest| && rest[i].kind.ConventionalMemory? && rest[i].Contains(a);
      assert mm[i + 1] == rest[i];
    }
    if FreeAt(mm, a) {
      var i :| 0 <= i < |mm| && mm[i].kind.ConventionalMemory? && mm[i].Contains(a);
      assert i > 0 ==> rest[i - 1] == mm[i];
    }
    if d.kind.ConventionalMemory? && d.Contains(a) {
      assert mm[0].Contains(a);
    }
  }

  lemma FreeBytesStep(d: Descriptor, rest: seq<Descriptor>, lo: nat, hi: nat)
    requires lo < hi && d.pages > 0 && !Blocks(d, lo, hi)
    requires forall i :: 0 <= i < |rest| ==> rest[i].End() <= d.start || d.End() <= rest[i].start
    ensures |FreeBytes([d] + rest, lo, hi)| == Shared(d, lo, hi) + |FreeBytes(rest, lo, hi)|
  {
    var own, other := FreeBytesOf(d, lo, hi), FreeBytes(rest, lo, hi);
    forall a ensures a in FreeBytes([d] + rest, lo, hi) <==> a in own || a in other {
      FreeAtSplit(d, rest, a);
    }
    assert FreeBytes([d] + rest, lo, hi) == own + other;
    assert own !! other;
  }

  /** Disjointness turns the sum of lengths into a count of free bytes. */
  lemma {:induction false} SumCountsFreeBytes(mm: seq<Descriptor>, lo: nat, hi: nat)
    requires lo < hi && Disjoint(mm) && Usable(mm, lo, hi)
    ensures |FreeBytes(Reached(mm), lo, hi)| == Available(mm, lo, hi)
  {
    if mm == [] || mm[0].pages == 0 {
      assert FreeBytes([], lo, hi) == {};
    } else {
      SumCountsFreeBytes(mm[1..], lo, hi);
      var rest := Reached(mm[1..]);
      ReachedIsPrefix(mm[1..]);
      forall i | 0 <= i < |rest| ensures rest[i].End() <= mm[0].start || mm[0].End() <= rest[i].start {
        assert rest[i] == mm[i + 1] && rest[i] in rest;
      }
      FreeBytesStep(mm[0], rest, lo, hi);
    }
  }

  lemma {:induction false} ReachedIsPrefix(mm: seq<Descriptor>)
    ensures forall d :: d in Reached(mm) ==> d.pages > 0
    ensures (forall i :: 0 <= i < |mm| ==> mm[i].pages > 0) ==> Reached(mm) == mm
  {
    if mm != [] && mm[0].pages > 0 {
      ReachedIsPrefix(mm[1..]);
      assert mm == [mm[0]] + mm[1..];
    }
  }

  lemma OneOwner(mm: seq<Descriptor>, i: nat, j: nat, a: int)
    requires Disjoint(mm) && i < |mm| && j < |mm| && i != j
    requires mm[i].pages > 0 && mm[j].pages > 0 && mm[j].Contains(a)
    ensures !mm[i].Contains(a)
  {
    if i < j {
      assert mm[i].End() <= mm[j].start || mm[j].End() <= mm[i].start;
    }
  }

  /** A descriptor that blocks the range owns a byte that nothing else can provide. */
  lemma BlockedByteIsNotFree(mm: seq<Descriptor>, lo: nat, hi: nat, k: nat)
    requires lo < hi && Disjoint(mm) && k < |Reached(mm)| && Blocks(mm[k], lo, hi)
    ensures !Covered(Reached(mm), lo, hi)
  {
    ReachedIsPrefix(mm);
    var reached := Reached(mm);
    var a := if mm[k].start > lo then mm[k].start else lo;
    assert reached[k] in reached && mm[k].Contains(a);
    forall i | 0 <= i < |reached| && reached[i].kind.ConventionalMemory? ensures !reached[i].Contains(a) {
      assert reached[i] == mm[i] && reached[i] in reached;
      OneOwner(mm, i, k, a);
    }
    assert !FreeAt(reached, a);
  }

  lemma {:induction false} CoveredIsUsable(mm: seq<Descriptor>, lo: nat, hi: nat, k: nat)
    requires lo < hi && Disjoint(mm) && k <= |Reached(mm)|
    requires Covered(Reached(mm), lo, hi)
    ensures Usable(mm[k..], lo, hi)
    decreases |mm| - k
  {
    if k < |Reached(mm)| {
      CoveredIsUsable(mm, lo, hi, k + 1);
      assert mm[k..][1..] == mm[k + 1..];
      if Blocks(mm[k], lo, hi) {
        BlockedByteIsNotFree(mm, lo, hi, k);
      }
    } else {
      ReachedStopsAtEmpty(mm);
    }
  }

  lemma {:induction false} ReachedStopsAtEmpty(mm: seq<Descriptor>)
    ensures |Reached(mm)| < |mm| ==> mm[|Reached(mm)|].pages == 0
  {
    if mm != [] && mm[0].pages > 0 {
      ReachedStopsAtEmpty(mm[1..]);
    }
  }

  /**
   The verdict is exact: over disjoint memory, lengths add up if and only if every byte of the range is
   free memory of the part of the map the loop can reach.
   */
  lemma AcceptsExactlyCovered(mm: seq<Descriptor>, lo: nat, hi: nat)
    requires lo < hi < U64 && Disjoint(mm)
    ensures Accepts(mm, lo, hi) <==> Covered(Reached(mm), lo, hi)
  {
    if Covered(Reached(mm), lo, hi) {
      CoveredIsUsable(mm, lo, hi, 0);
      assert mm[0..] == mm;
    }
    if Usable(mm, lo, hi) {
      SumDecidesCover(mm, lo, hi);
    }
  }

  lemma SumDecidesCover(mm: seq<Descriptor>, lo: nat, hi: nat)
    requires lo < hi < U64 && Disjoint(mm) && Usable(mm, lo, hi)
    ensures (lo + Available(mm, lo, hi) % U64) % U64 == hi <==> Covered(Reached(mm), lo, hi)
  {
    var sum := Available(mm, lo, hi);
    SumCountsFreeBytes(mm, lo, hi);
    CountDecidesCover(Reached(mm), lo, hi);
    assert sum <= hi - lo;
    DivModUnique(sum, 0, sum, U64);
    DivModUnique(lo + sum, 0, lo + sum, U64);
  }

  lemma CountDecidesCover(mm: seq<Descriptor>, lo: nat, hi: nat)
    requires lo < hi
    ensures |FreeBytes(mm, lo, hi)| <= hi - lo
    ensures |FreeBytes(mm, lo, hi)| == hi - lo <==> Covered(mm, lo, hi)
  {
    var free, all := FreeBytes(mm, lo, hi), Interval(lo, hi);
    assert all == free + (all - free);
    assert |all| == |free| + |all - free|;
    if free == all {
      forall a | lo <= a < hi ensures FreeAt(mm, a) {
        assert a in all;
      }
    } else {
      var a :| a in all - free;
      assert !FreeAt(mm, a);
    }
  }

  /** Without empty descriptors the whole map is reached, so nothing free is missed. */
  lemma AcceptsAllFreeRanges(mm: seq<Descriptor>, lo: nat, hi: nat)
    requires lo < hi < U64 && Disjoint(mm)
    requires forall i :: 0 <= i < |mm| ==> mm[i].pages > 0
    ensures Accepts(mm, lo, hi) <==> Covered(mm, lo, hi)
  {
    AcceptsExactlyCovered(mm, lo, hi);
    ReachedIsPrefix(mm);
  }

  /** Acceptance is sound whatever empty descriptors the map holds. */
  lemma AcceptedRangesAreFree(mm: seq<Descriptor>, lo: nat, hi: nat)
    requires lo < hi < U64 && Disjoint(mm) && Accepts(mm, lo, hi)
    ensures Covered(mm, lo, hi)
  {
    AcceptsExactlyCovered(mm, lo, hi);
    ReachedIsPrefix(mm);
    var reached := Reached(mm);
    forall a | lo <= a < hi ensures FreeAt(mm, a) {
      assert FreeAt(reached, a);
      var i :| 0 <= i < |reached| && reached[i].kind.ConventionalMemory? && reached[i].Contains(a);
      assert mm[i] == reached[i];
    }
  }

  // ----- All slides -----

  /** The parameters of one analysis. */
  datatype Analysis = Analysis(mm: seq<Descriptor>, hasSandyOrIvy: bool, provideMaxSlide: nat)
  {
    function Lo(slide: nat): nat {
      SlideStart(hasSandyOrIvy, slide)
    }

    function Hi(slide: nat): nat {
      Lo(slide) + KernelArea(mm)
    }

    predicate AcceptsSlide(slide: nat) {
      Accepts(mm, Lo(slide), Hi(slide))
    }

    function AvailableAt(slide: nat): nat {
      Available(mm, Lo(slide), Hi(slide)) % U64
    }

    /** Slides that may be recorded. */
    function Candidates(): nat {
      if provideMaxSlide > 0 && provideMaxSlide + 1 < TOTAL_SLIDE_NUM then provideMaxSlide + 1 else TOTAL_SLIDE_NUM
    }

    /** Slides whose size is measured: one more than can be recorded when the limit stops the loop. */
    function Measured(): nat {
      if Candidates() < TOTAL_SLIDE_NUM then Candidates() + 1 else TOTAL_SLIDE_NUM
    }

    function Recorded(n: nat): seq<nat> {
      if n == 0 then [] else Recorded(n - 1) + (if AcceptsSlide(n - 1) then [n - 1] else [])
    }

    /** Largest measured size among the first `n` slides and the slide that first reached it. */
    function Largest(n: nat): (nat, nat) {
      if n == 0 then (0, 0)
      else
        var best := Largest(n - 1);
        if AvailableAt(n - 1) > best.0 then (AvailableAt(n - 1), n - 1) else best
    }

    function Fallback(): nat {
      Largest(Measured()).1
    }

    /** What the analysis leaves in ValidSlides. */
    function Slides(): seq<nat> {
      var recorded := Recorded(Candidates());
      if recorded == [] then [Fallback()] else recorded
    }
  }

  method ScanSlide(a: Analysis, slide: nat) returns (accepted: bool, available: nat)
    requires Fits(a.mm) && slide < TOTAL_SLIDE_NUM
    ensures accepted == a.AcceptsSlide(slide)
    ensures available == a.AvailableAt(slide)
  {
    var lo := SlideStart(a.hasSandyOrIvy, slide);
    var hi := lo + KernelArea(a.mm);
    accepted, available := ScanRange(a.mm, lo, hi);
    if (lo + available) % U64 != hi {
      accepted := false;
    }
  }

  ghost predicate StrictlyIncreasing(s: seq<nat>) {
    forall i, j :: 0 <= i < j < |s| ==> s[i] < s[j]
  }

  /** A slide is recorded exactly when its whole kernel range is free memory the loop can reach. */
  lemma {:induction false} RecordedExactly(a: Analysis, n: nat, slide: nat)
    requires Fits(a.mm) && Disjoint(a.mm) && n <= TOTAL_SLIDE_NUM
    ensures slide in a.Recorded(n) <==>
              slide < n && Covered(Reached(a.mm), a.Lo(slide), a.Hi(slide))
  {
    if n > 0 {
      RecordedExactly(a, n - 1, slide);
      AcceptsExactlyCovered(a.mm, a.Lo(n - 1), a.Hi(n - 1));
    }
  }

  /** Every recorded slide is safe: the kernel range holds nothing but free memory. */
  lemma RecordedSlidesAreFree(a: Analysis, slide: nat)
    requires Fits(a.mm) && Disjoint(a.mm)
    requires slide in a.Recorded(a.Candidates())
    ensures slide < a.Candidates() && Covered(a.mm, a.Lo(slide), a.Hi(slide))
  {
    RecordedExactly(a, a.Candidates(), slide);
    AcceptsExactlyCovered(a.mm, a.Lo(slide), a.Hi(slide));
    AcceptedRangesAreFree(a.mm, a.Lo(slide), a.Hi(slide));
  }

  /** And without empty descriptors no free slide up to the limit is lost. */
  lemma FreeSlidesAreRecorded(a: Analysis, slide: nat)
    requires Fits(a.mm) && Disjoint(a.mm)
    requires forall i :: 0 <= i < |a.mm| ==> a.mm[i].pages > 0
    requires slide < a.Candidates() && Covered(a.mm, a.Lo(slide), a.Hi(slide))
    ensures slide in a.Recorded(a.Candidates())
  {
    RecordedExactly(a, a.Candidates(), slide);
    ReachedIsPrefix(a.mm);
  }

  lemma {:induction false} RecordedIncreasing(a: Analysis, n: nat)
    ensures StrictlyIncreasing(a.Recorded(n)) && |a.Recorded(n)| <= n
    ensures forall i :: 0 <= i < |a.Recorded(n)| ==> a.Recorded(n)[i] < n
    ensures a.Recorded(n) != [] ==> (a.Recorded(n)[0] == 0 <==> a.AcceptsSlide(0))
  {
    if n > 0 {
      RecordedIncreasing(a, n - 1);
      if n == 1 {
        assert a.Recorded(0) == [];
      }
      if n > 1 && a.AcceptsSlide(0) {
        FirstRecorded(a, n - 1);
      }
    }
  }

  lemma {:induction false} FirstRecorded(a: Analysis, n: nat)
    requires n > 0 && a.AcceptsSlide(0)
    ensures a.Recorded(n) != [] && a.Recorded(n)[0] == 0
  {
    if n > 1 {
      FirstRecorded(a, n - 1);
    } else {
      assert a.Recorded(0) == [];
    }
  }

  /** The fallback is the first slide of largest measured size, 0 when nothing is available. */
  lemma {:induction false} LargestIsMaximum(a: Analysis, n: nat, slide: nat)
    requires slide < n
    ensures var (size, best) := a.Largest(n);
            && best < n
            && a.AvailableAt(slide) <= size
            && (slide < best ==> a.AvailableAt(slide) < size)
            && (size > 0 ==> a.AvailableAt(best) == size)
  {
    if slide < n - 1 {
      LargestIsMaximum(a, n - 1, slide);
    } else if n > 1 {
      LargestIsMaximum(a, n - 1, 0);
    }
  }

  lemma KernelAreaAtLeast(mm: seq<Descriptor>)
    ensures KernelArea(mm) >= ESTIMATED_KERNEL_SIZE
  {
  }

  /** One empty descriptor in front hides the free range of slide 0, and of every other slide. */
  lemma EmptyDescriptorHidesFreeSlide(hasSandyOrIvy: bool, provideMaxSlide: nat)
    ensures
      var mm := [Descriptor(ReservedMemory, 0, 0, false, 0), Descriptor(ConventionalMemory, KERNEL_BASE_PADDR, 51200, false, 0)];
      var a := Analysis(mm, hasSandyOrIvy, provideMaxSlide);
      && Fits(mm) && Disjoint(mm) && Covered(mm, a.Lo(0), a.Hi(0))
      && a.Recorded(a.Candidates()) == []
  {
    var mm := [Descriptor(ReservedMemory, 0, 0, false, 0), Descriptor(ConventionalMemory, KERNEL_BASE_PADDR, 51200, false, 0)];
    var a := Analysis(mm, hasSandyOrIvy, provideMaxSlide);
    assert mm[1..] == [mm[1]] && [mm[1]][1..] == [];
    assert RuntimePages([]) == 0 && RuntimePages([mm[1]]) == 0;
    assert RuntimePages(mm) == 0 && KernelArea(mm) == 51200 * PAGE_SIZE;
    forall address | a.Lo(0) <= address < a.Hi(0) ensures FreeAt(mm, address) {
      assert mm[1].Contains(address);
    }
    NothingReachedNothingRecorded(a, a.Candidates());
  }

  /** An empty descriptor in front of the map makes every slide fail. */
  lemma {:induction false} NothingReachedNothingRecorded(a: Analysis, n: nat)
    requires Fits(a.mm) && Disjoint(a.mm) && n <= TOTAL_SLIDE_NUM && Reached(a.mm) == []
    ensures a.Recorded(n) == []
  {
    if n > 0 {
      NothingReachedNothingRecorded(a, n - 1);
      RecordedExactly(a, n, n - 1);
      KernelAreaAtLeast(a.mm);
      assert !FreeAt([], a.Lo(n - 1));
    }
  }

  /**
   When nothing was recorded under a limit, the fallback respects the limit exactly when the one slide
   beyond it, which is still measured, offers no more memory than the slides up to the limit.
   */
  lemma FallbackRespectsLimit(a: Analysis)
    requires 0 < a.provideMaxSlide && a.provideMaxSlide + 1 < TOTAL_SLIDE_NUM && a.Recorded(a.Candidates()) == []
    ensures a.Slides() == [a.Fallback()] && a.Fallback() <= a.provideMaxSlide + 1
    ensures a.Fallback() <= a.provideMaxSlide <==> a.AvailableAt(a.provideMaxSlide + 1) <= a.Largest(a.Candidates()).0
  {
    var limit := a.provideMaxSlide + 1;
    assert a.Candidates() == limit && a.Measured() == limit + 1;
    LargestIsMaximum(a, limit, 0);
    assert a.Largest(limit + 1) ==
           if a.AvailableAt(limit) > a.Largest(limit).0 then (a.AvailableAt(limit), limit) else a.Largest(limit);
  }

  /** A page of free memory that only the slide beyond the limit touches becomes the fallback. */
  lemma FallbackBeyondLimit()
    ensures
      var a := Analysis([Descriptor(ConventionalMemory, 0xCB0_0000, 1, false, 0)], false, 1);
      && Fits(a.mm) && Disjoint(a.mm) && a.Recorded(a.Candidates()) == []
      && a.Fallback() == a.provideMaxSlide + 1
  {
    var d := Descriptor(ConventionalMemory, 0xCB0_0000, 1, false, 0);
    var a := Analysis([d], false, 1);
    assert RuntimePages(a.mm) == 0 && a.Hi(1) == 0xCB0_0000;
    forall lo: nat, hi: nat ensures Available(a.mm, lo, hi) == Shared(d, lo, hi) {
      assert Available(a.mm[1..], lo, hi) == 0;
    }
    assert Shared(d, a.Lo(0), a.Hi(0)) == 0 && Shared(d, a.Lo(1), a.Hi(1)) == 0 && Shared(d, a.Lo(2), a.Hi(2)) == PAGE_SIZE;
    assert a.AvailableAt(0) == 0 && a.AvailableAt(1) == 0 && a.AvailableAt(2) == PAGE_SIZE;
    assert !a.AcceptsSlide(0) && !a.AcceptsSlide(1);
    assert a.Recorded(0) == [] && a.Recorded(1) == [] && a.Recorded(2) == [];
    assert a.Largest(0) == (0, 0) && a.Largest(1) == (0, 0);
    FallbackRespectsLimit(a);
  }

  lemma SlidesIncrease(a: Analysis)
    ensures a.Slides() != [] && StrictlyIncreasing(a.Slides())
    ensures |a.Slides()| <= TOTAL_SLIDE_NUM
    ensures forall i :: 0 <= i < |a.Slides()| ==> a.Slides()[i] < TOTAL_SLIDE_NUM
  {
    RecordedIncreasing(a, a.Candidates());
    LargestIsMaximum(a, a.Measured(), 0);
  }

  // ----- The slide support state -----

  class SlideSupport {
    var hasMemoryMapAnalysis: bool
    var hasSandyOrIvy: bool
    const provideMaxSlide: nat
    const validSlides: array<nat>
    var validSlideCount: nat
    var estimatedKernelArea: nat

    ghost predicate Valid()
      reads this, validSlides
    {
      && validSlides.Length == TOTAL_SLIDE_NUM
      && validSlideCount <= TOTAL_SLIDE_NUM
      && provideMaxSlide < U8
      && (hasMemoryMapAnalysis ==>
            && validSlideCount > 0
            && estimatedKernelArea > 0
            && StrictlyIncreasing(Slides())
            && forall i :: 0 <= i < validSlideCount ==> validSlides[i] < TOTAL_SLIDE_NUM)
    }

    ghost function Slides(): seq<nat>
      reads this, validSlides
      requires validSlideCount <= validSlides.Length
    {
      validSlides[..validSlideCount]
    }

    constructor (provideMaxSlide: nat)
      requires provideMaxSlide < U8
      ensures Valid() && !hasMemoryMapAnalysis && this.provideMaxSlide == provideMaxSlide
      ensures fresh(validSlides)
    {
      this.provideMaxSlide := provideMaxSlide;
      validSlides := new nat[TOTAL_SLIDE_NUM](_ => 0);
      hasMemoryMapAnalysis, hasSandyOrIvy, validSlideCount, estimatedKernelArea := false, false, 0, 0;
    }

    /** `map` is the filtered memory map, or None when it cannot be obtained. */
    method ShouldUseCustomSlideOffset(mm: Option<seq<Descriptor>>, sandyOrIvy: bool) returns (use: bool)
      requires Valid()
      requires mm.Some? ==> Fits(mm.value)
      modifies this, validSlides
      ensures Valid()
      ensures old(hasMemoryMapAnalysis) || mm.None? ==>
                && unchanged(this) && validSlides[..] == old(validSlides[..])
      ensures !old(hasMemoryMapAnalysis) && mm.Some? ==>
                var a := Analysis(mm.value, sandyOrIvy, provideMaxSlide);
                && hasMemoryMapAnalysis
                && hasSandyOrIvy == sandyOrIvy
                && estimatedKernelArea == KernelArea(mm.value)
                && Slides() == a.Slides()
      // The decision of the first call and every cached one are the same function of the slides.
      ensures use == (hasMemoryMapAnalysis && validSlideCount < TOTAL_SLIDE_NUM)
    {
      if hasMemoryMapAnalysis {
        return 0 < validSlideCount < TOTAL_SLIDE_NUM;
      }
      if mm.None? {
        return false;
      }
      var a := Analysis(mm.value, sandyOrIvy, provideMaxSlide);
      hasSandyOrIvy := sandyOrIvy;
      estimatedKernelArea := KernelArea(mm.value);
      var fallback := RecordSlides(a);
      hasMemoryMapAnalysis := true;
      use := Decide(fallback);
      SlidesIncrease(a);
      assert forall i :: 0 <= i < validSlideCount ==> validSlides[i] == Slides()[i];
    }

    /** The outer loop: fills ValidSlides and finds the fallback. */
    method RecordSlides(a: Analysis) returns (fallback: nat)
      requires validSlides.Length == TOTAL_SLIDE_NUM
      requires Fits(a.mm) && a.provideMaxSlide == provideMaxSlide
      modifies this`validSlideCount, validSlides
      ensures validSlideCount <= TOTAL_SLIDE_NUM
      ensures Slides() == a.Recorded(a.Candidates())
      ensures fallback == a.Fallback()
    {
      validSlideCount := 0;
      var maxAvailableSize := 0;
      fallback := 0;
      var slide := 0;
      while slide < TOTAL_SLIDE_NUM
        invariant slide <= a.Candidates() && validSlideCount <= slide
        invariant (maxAvailableSize, fallback) == a.Largest(slide)
        invariant Slides() == a.Recorded(slide)
      {
        var accepted, available := ScanSlide(a, slide);
        if available > maxAvailableSize {
          maxAvailableSize, fallback := available, slide;
        }
        if provideMaxSlide > 0 && slide > provideMaxSlide {
          assert slide + 1 == a.Measured();
          break;
        }
        if accepted {
          validSlides[validSlideCount] := slide;
          validSlideCount := validSlideCount + 1;
        }
        slide := slide + 1;
      }
    }

    /** ShouldUseCustomSlideOffsetDecision without its log output. */
    method Decide(fallback: nat) returns (use: bool)
      requires validSlides.Length == TOTAL_SLIDE_NUM && validSlideCount <= TOTAL_SLIDE_NUM
      modifies this`validSlideCount, validSlides
      ensures validSlideCount <= TOTAL_SLIDE_NUM
      ensures Slides() == if old(Slides()) == [] then [fallback] else old(Slides())
      ensures use == (validSlideCount < TOTAL_SLIDE_NUM)
    {
      if validSlideCount == TOTAL_SLIDE_NUM {
        return false;
      }
      if validSlideCount == 0 {
        validSlides[validSlideCount] := fallback;
        validSlideCount := validSlideCount + 1;
        return true;
      }
      return true;
    }

    /**
     `draws` are successive 64-bit random numbers; None means that all of them were rejected and the
     loop is still drawing.
     */
    method GenerateSlideValue(draws: seq<nat>) returns (slide: Option<nat>)
      requires Valid() && hasMemoryMapAnalysis
      ensures slide.Some? ==> slide.value in Slides()
      ensures slide.Some? && validSlideCount >= 2 ==> slide.value != 0
      // The first draw that does not select slide 0.
      ensures slide.Some? && validSlideCount >= 2 ==>
                exists i :: 0 <= i < |draws| && slide.value == Slides()[draws[i] % validSlideCount]
                            && forall k :: 0 <= k < i ==> Slides()[draws[k] % validSlideCount] == 0
      ensures slide.None? ==> validSlideCount >= 2 && forall i :: 0 <= i < |draws| ==> draws[i] % validSlideCount == 0
    {
      if validSlideCount == 1 {
        return Some(validSlides[0]);
      }
      for i := 0 to |draws|
        invariant forall k :: 0 <= k < i ==>
                    draws[k] % validSlideCount == 0 && Slides()[draws[k] % validSlideCount] == 0
      {
        var index := draws[i] % validSlideCount;
        assert index > 0 ==> Slides()[0] < Slides()[index];
        if validSlides[index] != 0 {
          return Some(validSlides[index]);
        }
      }
      return None;
    }

    /** AppleSlideGetRelocationSize. */
    function RelocationSize(): (size: nat)
      reads this, validSlides
      requires validSlides.Length == TOTAL_SLIDE_NUM && validSlideCount <= TOTAL_SLIDE_NUM
      ensures Valid() ==> (size != 0 <==> hasMemoryMapAnalysis && Slides()[0] != 0)
    {
      if !hasMemoryMapAnalysis then 0
      else if validSlideCount == 0 then estimatedKernelArea
      else if validSlides[0] != 0 then estimatedKernelArea
      else 0
    }
  }

  /**
   When the analysis recorded a slide, the first slide is non-zero exactly when slide 0 was rejected;
   when it recorded none, exactly when the fallback is another slide.
   */
  lemma FirstSlideTellsSlideZero(a: Analysis)
    requires Fits(a.mm) && Disjoint(a.mm)
    ensures a.Slides() != []
    ensures a.Recorded(a.Candidates()) != [] ==>
              (a.Slides()[0] != 0 <==> !Covered(Reached(a.mm), a.Lo(0), a.Hi(0)))
    ensures a.Recorded(a.Candidates()) == [] ==> (a.Slides()[0] != 0 <==> a.Fallback() != 0)
  {
    RecordedIncreasing(a, a.Candidates());
    AcceptsExactlyCovered(a.mm, a.Lo(0), a.Hi(0));
  }
}
