/** The UEFI memory map as the after-boot compatibility code sees it. */
module MemoryMap {
  import opened Machine

  const PAGE_SIZE: nat := 4096

  datatype MemoryType =
    | ReservedMemory
    | RuntimeServicesCode
    | RuntimeServicesData
    | ConventionalMemory
    | MemoryMappedIO
    | OtherMemory(code: nat)

  /** `runtime` is the EFI_MEMORY_RUNTIME attribute bit. */
  datatype Descriptor = Descriptor(
    kind: MemoryType,
    start: nat,
    pages: nat,
    runtime: bool,
    virtualStart: nat)
  {
    function Size(): nat {
      pages * PAGE_SIZE
    }

    /** First address after the descriptor. */
    function End(): nat {
      start + Size()
    }

    predicate Contains(address: int) {
      start <= address < End()
    }

    /** LAST_DESCRIPTOR_ADDR in 64-bit arithmetic. */
    function Last(): nat {
      (start + Size() - 1) % U64
    }
  }

  /** Pages of all runtime descriptors that are not reserved. */
  function RuntimePages(mm: seq<Descriptor>): nat {
    if mm == [] then 0
    else
      (if mm[0].runtime && !mm[0].kind.ReservedMemory? then mm[0].pages else 0) + RuntimePages(mm[1..])
  }
}
