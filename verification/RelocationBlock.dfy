/**
 The relocation block: kernel allocations at low addresses are served from a block elsewhere below
 4 GB, and every address is translated back before the kernel starts.
 */
module RelocationBlock {
  import opened Machine
  import opened MemoryMap
  import opened CustomSlide

  const KERNEL_TEXT_PADDR: nat := 0x200000
  const KERNEL_TEXT_PADDR_LEGACY: nat := 0x111000
  const KERNEL_STATIC_VADDR: nat := 0xFFFF_FF80_0000_0000
  const BASE_1GB: nat := 0x4000_0000
  const BASE_4GB: nat := U32

  datatype Status = Success | Unsupported | InvalidParameter | OutOfResources

  /** Outcome of the page allocation below 4 GB; a failed one leaves 4 GB or a lower address in the block field. */
  datatype Allocation = Allocated(address: nat) | Failed(leftover: nat)

  /** One accepted allocation: what was asked for, and the address handed out. */
  datatype Grant = Grant(requested: nat, pages: nat, address: nat)
  {
    function Size(): nat {
      pages * PAGE_SIZE
    }
  }

  function Larger(a: nat, b: nat): nat {
    if a < b then b else a
  }

  class RelocationState {
    /** AppleSlideGetRelocationSize; the slide analysis does not change during a run. */
    const essentialSize: nat
    var block: nat
    var used: nat
    var legacy: bool
    ghost var granted: seq<Grant>

    ghost predicate Valid()
      reads this
    {
      && (block == 0 ==> granted == [])
      && block <= BASE_4GB && (block != 0 ==> SizeFits())
      && forall g :: g in granted ==> WellGranted(g)
    }

    /** No size of memory brings an address below 4 GB to wrap. */
    predicate SizeFits() {
      essentialSize <= U64 - BASE_4GB
    }

    /** The block was allocated: it lies below 4 GB, as do the addresses it stands for. */
    predicate Placed()
      reads this`block
    {
      block + essentialSize <= BASE_4GB && KERNEL_BASE_PADDR + essentialSize <= BASE_4GB
    }

    /** The low address that a request stands for. */
    function LowAddress(requested: nat): int
      reads this`block, this`legacy
    {
      if InsideLegacyBlock(requested) then requested - block + KERNEL_BASE_PADDR else requested
    }

    /** How much of the block a request occupies, counted from its start. */
    function Need(requested: nat, pages: nat): nat
      reads this`block, this`legacy
    {
      (LowAddress(requested) - KERNEL_BASE_PADDR + pages * PAGE_SIZE) % U64
    }

    predicate InsideLegacyBlock(requested: nat)
      reads this`block, this`legacy
    {
      block != 0 && legacy && block < requested < block + essentialSize
    }

    predicate Ours(requested: nat)
      reads this`block, this`legacy
    {
      block != 0 &&
      (InsideLegacyBlock(requested) || KERNEL_BASE_PADDR <= requested < KERNEL_BASE_PADDR + essentialSize)
    }

    /**
     What every allocation of a run keeps: the block translation of the request was handed out, and
     the whole allocation lies below the recorded high-water mark.
     */
    ghost predicate WellGranted(g: Grant)
      reads this
    {
      GrantedBelow(g, used)
    }

    ghost predicate GrantedBelow(g: Grant, mark: nat)
      reads this`block, this`legacy
    {
      && Ours(g.requested)
      && KERNEL_BASE_PADDR <= LowAddress(g.requested) < KERNEL_BASE_PADDR + essentialSize
      && g.address == LowAddress(g.requested) - KERNEL_BASE_PADDR + block
      && (g.address - block + g.Size() < U64 ==> g.address + g.Size() <= block + mark)
    }

    /** The address belongs to the granted allocation. */
    ghost predicate Holds(g: Grant, address: nat)
      reads this
    {
      && g.address - block + g.Size() < U64
      && g.address <= address < g.address + g.Size()
    }

    constructor (essentialSize: nat)
      ensures Valid() && block == 0 && used == 0 && !legacy && granted == []
      ensures this.essentialSize == essentialSize
    {
      this.essentialSize := essentialSize;
      block, used, legacy, granted := 0, 0, false, [];
    }

    predicate StartsRun(memory: nat)
      reads this
    {
      (memory == KERNEL_TEXT_PADDR || memory == KERNEL_TEXT_PADDR_LEGACY) && block == 0
    }

    /** `fromTop` is the outcome of the page allocation below 4 GB, consulted only on the first request. */
    method AllocatePages(fromTop: Allocation, pages: nat, memory: nat) returns (status: Status, address: nat)
      requires Valid()
      requires fromTop.Allocated? ==>
                 fromTop.address + essentialSize <= BASE_4GB && KERNEL_BASE_PADDR + essentialSize <= BASE_4GB
      requires fromTop.Failed? ==> fromTop.leftover <= BASE_4GB
      requires SizeFits() && memory < U64
      modifies this
      ensures Valid()
      ensures essentialSize != 0 && old(StartsRun(memory)) && fromTop.Allocated? ==> Placed()
      ensures status == Unsupported <==> essentialSize == 0
      ensures status == OutOfResources <==> essentialSize != 0 && old(StartsRun(memory)) && fromTop.Failed?
      // The block changes on the first request only; a failed allocation leaves its address behind, and
      // requests after it are served as if there were a block.
      ensures if essentialSize != 0 && old(StartsRun(memory))
              then
                && block == (match fromTop case Allocated(a) => a case Failed(left) => left)
                && legacy == (memory == KERNEL_TEXT_PADDR_LEGACY)
              else block == old(block) && legacy == old(legacy)
      ensures status == Success || status == InvalidParameter ==> (status == Success <==> Ours(memory))
      ensures status == Success ==>
                && granted == old(granted) + [Grant(memory, pages, address)]
                && address == LowAddress(memory) - KERNEL_BASE_PADDR + block
                && used == Larger(if old(block) == 0 then 0 else old(used), Need(memory, pages))
                && (InsideLegacyBlock(memory) ==> address == memory)
      ensures status != Success ==> address == memory && granted == old(granted)
      ensures status != Success ==> used == if status == InvalidParameter && old(StartsRun(memory)) then 0 else old(used)
    {
      address := memory;
      if essentialSize == 0 {
        return Unsupported, address;
      }
      if (memory == KERNEL_TEXT_PADDR || memory == KERNEL_TEXT_PADDR_LEGACY) && block == 0 {
        legacy := memory == KERNEL_TEXT_PADDR_LEGACY;
        if fromTop.Failed? {
          block := fromTop.leftover;
          return OutOfResources, address;
        }
        block := fromTop.address;
        used := 0;
      }
      if block != 0 && legacy && address > block && address < block + essentialSize {
        address := (address - (block - KERNEL_BASE_PADDR)) % U64;
        assert address == memory - block + KERNEL_BASE_PADDR;
      }
      if block == 0 || address < KERNEL_BASE_PADDR || address >= KERNEL_BASE_PADDR + essentialSize {
        return InvalidParameter, address;
      }
      address := Grow(memory, address, pages);
      status := Success;
    }

    /** Tracks the occupied memory and translates an accepted low address into the block. */
    method Grow(memory: nat, low: nat, pages: nat) returns (address: nat)
      requires Valid() && Ours(memory) && low == LowAddress(memory)
      requires KERNEL_BASE_PADDR <= low < KERNEL_BASE_PADDR + essentialSize
      modifies this`used, this`granted
      ensures Valid() && used == Larger(old(used), Need(memory, pages))
      ensures address == low - KERNEL_BASE_PADDR + block
      ensures granted == old(granted) + [Grant(memory, pages, address)]
    {
      var need := (low - KERNEL_BASE_PADDR + pages * PAGE_SIZE) % U64;
      ghost var before := used;
      if need > used {
        used := need;
      }
      address := low - KERNEL_BASE_PADDR + block;
      MarkCovers(memory, low, pages, address, before);
      MarkRises(before, used);
      granted := granted + [Grant(memory, pages, address)];
    }

    lemma MarkRises(before: nat, mark: nat)
      requires before <= mark && forall g :: g in granted ==> GrantedBelow(g, before)
      ensures forall g :: g in granted ==> GrantedBelow(g, mark)
    {
    }

    /** The new allocation lies below the new mark. */
    lemma MarkCovers(memory: nat, low: nat, pages: nat, address: nat, before: nat)
      requires Ours(memory) && low == LowAddress(memory) && used == Larger(before, Need(memory, pages))
      requires KERNEL_BASE_PADDR <= low < KERNEL_BASE_PADDR + essentialSize && address == low - KERNEL_BASE_PADDR + block
      ensures WellGranted(Grant(memory, pages, address)) && before <= used
    {
      var size := low - KERNEL_BASE_PADDR + pages * PAGE_SIZE;
      if size < U64 {
        DivModUnique(size, 0, size, U64);
      }
    }

    /** `freed` is the status of freeing the pages; the state is reset whatever it says. */
    method Release(freed: Status) returns (status: Status)
      modifies this
      ensures status == if essentialSize == 0 then Unsupported else if old(block) == 0 then InvalidParameter else freed
      ensures if essentialSize != 0 && old(block) != 0
              then Valid() && block == 0 && used == 0 && !legacy && granted == []
              else unchanged(this)
    {
      if essentialSize == 0 {
        return Unsupported;
      }
      if block == 0 {
        return InvalidParameter;
      }
      block, used, legacy := 0, 0, false;
      granted := [];
      status := freed;
    }

    function RelocDiff(): nat
      reads this
    {
      (block - KERNEL_BASE_PADDR) % U32
    }

    /** The address fix-up of the device tree memory map: 32-bit addresses, rewritten in place. */
    method Rebase(addresses: array<nat>)
      requires Valid() && block != 0
      requires forall i :: 0 <= i < addresses.Length ==> addresses[i] < U32
      modifies addresses
      ensures forall i :: 0 <= i < addresses.Length ==>
                addresses[i] == if block <= old(addresses[i]) < block + used
                                then (old(addresses[i]) - RelocDiff()) % U32
                                else old(addresses[i])
      // Every address inside an allocation of the run goes back to where the kernel wanted it, in 32 bits;
      // inside an allocated block the result is exact.
      ensures forall i, g :: 0 <= i < addresses.Length && g in granted && Holds(g, old(addresses[i])) ==>
                addresses[i] == (LowAddress(g.requested) + (old(addresses[i]) - g.address)) % U32
      ensures forall i, g :: 0 <= i < addresses.Length && g in granted && Holds(g, old(addresses[i])) ==>
                Placed() && old(addresses[i]) < block + essentialSize ==>
                addresses[i] == LowAddress(g.requested) + (old(addresses[i]) - g.address)
    {
      var diff := (block - KERNEL_BASE_PADDR) % U32;
      for i := 0 to addresses.Length
        invariant forall k :: i <= k < addresses.Length ==> addresses[k] == old(addresses[k])
        invariant forall k :: 0 <= k < i ==>
                    addresses[k] == if block <= old(addresses[k]) < block + used
                                    then (old(addresses[k]) - diff) % U32
                                    else old(addresses[k])
      {
        if addresses[i] < block || addresses[i] >= block + used {
          continue;
        }
        addresses[i] := (addresses[i] - diff) % U32;
      }
      forall i, g | 0 <= i < addresses.Length && g in granted && Holds(g, old(addresses[i]))
        ensures addresses[i] == (LowAddress(g.requested) + (old(addresses[i]) - g.address)) % U32
        ensures Placed() && old(addresses[i]) < block + essentialSize ==>
                  addresses[i] == LowAddress(g.requested) + (old(addresses[i]) - g.address)
      {
        GrantRebased(g, old(addresses[i]));
      }
    }

    /** What the fix-up makes of an address inside an allocation. */
    lemma GrantRebased(g: Grant, address: nat)
      requires Valid() && block != 0 && g in granted && Holds(g, address) && address < U32
      ensures block <= address < block + used
      ensures (address - RelocDiff()) % U32 == (LowAddress(g.requested) + (address - g.address)) % U32
      ensures Placed() && address < block + essentialSize ==>
                (address - RelocDiff()) % U32 == LowAddress(g.requested) + (address - g.address)
    {
      assert WellGranted(g);
      DiffUndoesModulo(address, block);
      if Placed() && address < block + essentialSize {
        DiffUndoes(address, block, essentialSize);
      }
    }
  }

  /** Subtracting the 32-bit difference undoes the translation for every address of the block. */
  lemma DiffUndoes(address: nat, block: nat, essentialSize: nat)
    requires block <= address < block + essentialSize
    requires block + essentialSize <= U32 && KERNEL_BASE_PADDR + essentialSize <= U32
    ensures (address - (block - KERNEL_BASE_PADDR) % U32) % U32 == address - block + KERNEL_BASE_PADDR
  {
    if block >= KERNEL_BASE_PADDR {
      assert (block - KERNEL_BASE_PADDR) % U32 == block - KERNEL_BASE_PADDR;
    } else {
      assert (block - KERNEL_BASE_PADDR) % U32 == block - KERNEL_BASE_PADDR + U32;
      assert address - (block - KERNEL_BASE_PADDR + U32) == address - block + KERNEL_BASE_PADDR - U32;
    }
  }

  /** Behind the block it undoes the translation in 32 bits. */
  lemma DiffUndoesModulo(address: nat, block: nat)
    ensures (address - (block - KERNEL_BASE_PADDR) % U32) % U32 == (address - block + KERNEL_BASE_PADDR) % U32
  {
    var k, r := (block - KERNEL_BASE_PADDR) / U32, (block - KERNEL_BASE_PADDR) % U32;
    assert block - KERNEL_BASE_PADDR == U32 * k + r;
    ModMultiple(-k, address - r, U32);
    assert U32 * -k == -(U32 * k);
  }

  /** Only the start of a request is tested. The grant lies inside the block exactly when its need does. */
  lemma GrantInsideBlock(s: RelocationState, g: Grant)
    requires s.Valid() && g in s.granted && g.address - s.block + g.Size() < U64
    ensures g.address + g.Size() <= s.block + s.essentialSize <==> s.Need(g.requested, g.pages) <= s.essentialSize
  {
    assert s.WellGranted(g);
  }

  /** A block of 0x101000 bytes, of which the last page is asked for together with the one behind it. */
  method GrantBeyondBlock() returns (s: RelocationState, address: nat)
    ensures s.Valid() && s.granted == [Grant(KERNEL_TEXT_PADDR, 2, address)]
    ensures address + PAGE_SIZE == s.block + s.essentialSize < address + 2 * PAGE_SIZE == s.block + s.used
  {
    s := new RelocationState(0x101000);
    var status;
    status, address := s.AllocatePages(Allocated(0x1000_0000), 2, KERNEL_TEXT_PADDR);
  }

  // ----- Virtual addresses of runtime blocks -----

  predicate Mapped(d: Descriptor) {
    d.runtime && !d.kind.ReservedMemory?
  }

  /** Bytes of mapped descriptors in front of index `i`. */
  function Offset(mm: seq<Descriptor>, i: nat): nat
    requires i <= |mm|
  {
    if i == 0 then 0 else Offset(mm, i - 1) + (if Mapped(mm[i - 1]) then mm[i - 1].Size() else 0)
  }

  /** The descriptor at `i` after virtual addresses were assigned from `base` on. */
  function Virtualized(mm: seq<Descriptor>, base: int, i: nat): Descriptor
    requires i < |mm|
  {
    if mm[i].kind.ReservedMemory? then mm[i].(runtime := false)
    else if mm[i].runtime then mm[i].(virtualStart := (base + Offset(mm, i) + KERNEL_STATIC_VADDR) % U64)
    else mm[i]
  }

  /** First loop of AppleRelocationVirtualize. */
  method AssignVirtualAddresses(mm: array<Descriptor>, runtimeServicesPage: nat, block: nat) returns (ghost base: int)
    modifies mm
    ensures base == runtimeServicesPage * PAGE_SIZE - (block - KERNEL_BASE_PADDR) % U32
    ensures forall i :: 0 <= i < mm.Length ==> mm[i] == Virtualized(old(mm[..]), base, i)
  {
    var address := (runtimeServicesPage * PAGE_SIZE - (block - KERNEL_BASE_PADDR) % U32) % U64;
    base := runtimeServicesPage * PAGE_SIZE - (block - KERNEL_BASE_PADDR) % U32;
    ghost var was := mm[..];
    for i := 0 to mm.Length
      invariant forall k :: i <= k < mm.Length ==> mm[k] == was[k]
      invariant forall k :: 0 <= k < i ==> mm[k] == Virtualized(was, base, k)
      invariant address == (base + Offset(was, i)) % U64
    {
      var size := mm[i].Size();
      if mm[i].kind.ReservedMemory? {
        mm[i] := mm[i].(runtime := false);
      } else if mm[i].runtime {
        ModAdd(base + Offset(was, i), KERNEL_STATIC_VADDR, U64);
        mm[i] := mm[i].(virtualStart := (address + KERNEL_STATIC_VADDR) % U64);
        ModAdd(base + Offset(was, i), size, U64);
        address := (address + size) % U64;
      }
    }
  }

  lemma {:induction false} OffsetGrows(mm: seq<Descriptor>, i: nat, j: nat)
    requires i < j <= |mm| && Mapped(mm[i])
    ensures Offset(mm, i) + mm[i].Size() <= Offset(mm, j)
  {
    if i + 1 < j {
      OffsetGrows(mm, i, j - 1);
    }
  }

  /**
   As long as the runtime area stays below 1 GB, distinct runtime blocks get disjoint virtual ranges,
   and stripping the static mapping and adding the block difference, as the defragmentation does,
   lands at consecutive places of the area that starts at the runtime services page. This holds for a
   block below the kernel base too, where the 32-bit difference wraps.
   */
  lemma VirtualBlocksAreSeparate(mm: seq<Descriptor>, page: nat, block: nat, base: int, i: nat, j: nat)
    requires i < j < |mm| && Mapped(mm[i]) && Mapped(mm[j])
    requires block < BASE_4GB
    requires base == page * PAGE_SIZE - (block - KERNEL_BASE_PADDR) % U32
    requires 0 <= page * PAGE_SIZE - (block - KERNEL_BASE_PADDR)
    requires page * PAGE_SIZE - (block - KERNEL_BASE_PADDR) + Offset(mm, |mm|) < BASE_1GB
    ensures var vi, vj := Virtualized(mm, base, i).virtualStart, Virtualized(mm, base, j).virtualStart;
            && vi + mm[i].Size() <= vj
            && (vi % BASE_1GB) + (block - KERNEL_BASE_PADDR) == page * PAGE_SIZE + Offset(mm, i)
  {
    OffsetGrows(mm, i, j);
    OffsetGrows(mm, j, |mm|);
    var p := page * PAGE_SIZE - (block - KERNEL_BASE_PADDR);
    var wrap := if block < KERNEL_BASE_PADDR then 1 else 0;
    assert (block - KERNEL_BASE_PADDR) % U32 == block - KERNEL_BASE_PADDR + wrap * U32;
    assert base == p - wrap * U32;
    StaticPlace(p + Offset(mm, i), wrap);
    StaticPlace(p + Offset(mm, j), wrap);
  }

  /** Adding the static mapping to an address of the first gigabyte keeps the place in the gigabyte. */
  lemma StaticPlace(x: nat, wrap: nat)
    requires x < BASE_1GB && wrap <= 1
    ensures var v := (x - wrap * U32 + KERNEL_STATIC_VADDR) % U64;
            v == x - wrap * U32 + KERNEL_STATIC_VADDR && v % BASE_1GB == x
  {
    var v := x - wrap * U32 + KERNEL_STATIC_VADDR;
    assert v == (0x3FFFFFE00 - 4 * wrap) * BASE_1GB + x;
    DivModUnique(v, 0x3FFFFFE00 - 4 * wrap, x, BASE_1GB);
    DivModUnique(v, 0, v, U64);
  }

  /**
   A legacy request inside the block comes back unchanged; one exactly at its start is granted unchanged
   only when the block starts at the kernel base.
   */
  lemma LegacyRequestUnchanged(s: RelocationState, memory: nat)
    requires s.Valid() && s.block != 0 && s.legacy && s.block <= memory < s.block + s.essentialSize
    ensures s.Ours(memory) && s.LowAddress(memory) - KERNEL_BASE_PADDR + s.block == memory <==>
            memory > s.block || s.block == KERNEL_BASE_PADDR
  {
  }

  /** A request at the start of a block one page above the kernel base is moved by one page. */
  lemma LegacyRequestAtStartMoves(s: RelocationState)
    requires s.Valid() && s.legacy && s.block == KERNEL_BASE_PADDR + PAGE_SIZE && s.essentialSize > PAGE_SIZE
    ensures s.Ours(s.block) && s.LowAddress(s.block) - KERNEL_BASE_PADDR + s.block == s.block + PAGE_SIZE
  {
  }
}
