/** Fusion drives: pairing of partitions as they are registered, and the block translation of a pair. */
module Fusion {
  import opened Machine

  const TIER2_DEVICE_BYTE_ADDR: nat := 0x4000_0000_0000_0000

  /** A GUID; `last` is its last byte, whose lowest bit tells the two roles apart. */
  datatype Guid = Guid(head: nat, last: Byte)
  {
    predicate IsZero() {
      head == 0 && last == 0
    }

    function WithoutRole(): Guid {
      Guid(head, last / 2 * 2)
    }

    predicate SaysMaster() {
      last % 2 == 0
    }
  }

  // ----- The mask -----

  /** Largest power of two dividing `n`. */
  function TwoPart(n: nat): (p: nat)
    requires n > 0
    ensures 0 < p <= n
  {
    if n % 2 == 0 then 2 * TwoPart(n / 2) else 1
  }

  predicate PowerOfTwo(n: nat) {
    n == 1 || (n > 0 && n % 2 == 0 && PowerOfTwo(n / 2))
  }

  lemma {:induction false} TwoPartDivides(n: nat) returns (odd: nat)
    requires n > 0
    ensures n == odd * TwoPart(n) && odd % 2 == 1 && PowerOfTwo(TwoPart(n))
    ensures PowerOfTwo(n) ==> TwoPart(n) == n
  {
    if n % 2 == 0 {
      odd := TwoPartDivides(n / 2);
      assert odd * (2 * TwoPart(n / 2)) == 2 * (odd * TwoPart(n / 2));
      assert TwoPart(n) / 2 == TwoPart(n / 2);
    } else {
      odd := n;
    }
  }

  /** A power of two divides every larger one. */
  lemma {:induction false} PowerDivides(p: nat, q: nat) returns (r: nat)
    requires PowerOfTwo(p) && PowerOfTwo(q) && p <= q
    ensures r * p == q && PowerOfTwo(r)
  {
    if p == 1 {
      r := q;
    } else {
      r := PowerDivides(p / 2, q / 2);
      assert p == 2 * (p / 2) && q == 2 * (q / 2);
      assert r * (2 * (p / 2)) == 2 * (r * (p / 2));
    }
  }

  lemma PowerDouble(x: nat)
    requires PowerOfTwo(x)
    ensures PowerOfTwo(2 * x)
  {
    assert 2 * x / 2 == x;
  }

  lemma {:induction false} PowerMul(p: nat, q: nat)
    requires PowerOfTwo(p) && PowerOfTwo(q)
    ensures PowerOfTwo(p * q)
  {
    if p == 1 {
      assert p * q == q;
    } else {
      var half := p / 2;
      PowerMul(half, q);
      PowerDouble(half * q);
      assert p * q == 2 * (half * q) by {
        assert p == 2 * half;
      }
    }
  }

  lemma Tier2IsPower()
    ensures PowerOfTwo(TIER2_DEVICE_BYTE_ADDR)
  {
    assert PowerOfTwo(2) && PowerOfTwo(4);
    PowerMul(4, 4);
    PowerMul(16, 16);
    PowerMul(256, 256);
    PowerMul(65536, 65536);
    PowerMul(4, 16);
    PowerMul(64, 256);
    PowerMul(16384, 65536);
    PowerMul(16384 * 65536, 65536 * 65536);
  }

  /** The mask of a block size: the tier 2 byte address divided by the power of two in the size. */
  ghost predicate IsMask(mask: nat, blockSize: nat) {
    mask > 0 && blockSize > 0 && mask * TwoPart(blockSize) == TIER2_DEVICE_BYTE_ADDR
  }

  lemma MaskIsPower(mask: nat, blockSize: nat)
    requires IsMask(mask, blockSize)
    ensures PowerOfTwo(mask)
  {
    var part := TwoPart(blockSize);
    var odd := TwoPartDivides(blockSize);
    Tier2IsPower();
    MulAtLeast(mask, part);
    var r := PowerDivides(part, TIER2_DEVICE_BYTE_ADDR);
    if r != mask {
      MulDiffers(r, mask, part);
    }
  }

  /** Testing one bit is dividing by it and looking at the parity. */
  lemma {:induction false} AndPower(x: nat, p: nat)
    requires PowerOfTwo(p)
    ensures And(x, p) == if (x / p) % 2 == 1 then p else 0
    decreases p
  {
    if x == 0 {
      DivModUnique(x, 0, 0, p);
    } else if p == 1 {
      assert And(x / 2, 0) == 0;
    } else {
      AndPower(x / 2, p / 2);
      HalvesDivide(x, p / 2);
    }
  }

  lemma HalvesDivide(x: nat, h: nat)
    requires h > 0
    ensures x / (2 * h) == x / 2 / h
  {
    var q, r := x / 2 / h, x / 2 % h;
    assert x / 2 == q * h + r;
    assert q * (2 * h) == 2 * (q * h);
    DivModUnique(x, q, 2 * r + x % 2, 2 * h);
  }

  /** The shifting loop. For a power of two block size the mask is the tier 2 address in blocks. */
  method ComputeMask(blockSize: nat) returns (mask: nat)
    requires 0 < blockSize < U32
    ensures IsMask(mask, blockSize)
    ensures PowerOfTwo(blockSize) ==> mask * blockSize == TIER2_DEVICE_BYTE_ADDR
  {
    ghost var unit := MaskUnit(blockSize);
    mask := TIER2_DEVICE_BYTE_ADDR;
    var size := blockSize;
    while size % 2 == 0
      invariant size > 0 && mask == unit * TwoPart(size)
      decreases size
    {
      MaskHalves(unit, size);
      mask := mask / 2;
      size := size / 2;
    }
    assert mask == unit;
  }

  lemma MaskUnit(blockSize: nat) returns (unit: nat)
    requires 0 < blockSize < U32
    ensures unit > 0 && unit * TwoPart(blockSize) == TIER2_DEVICE_BYTE_ADDR
    ensures PowerOfTwo(blockSize) ==> TwoPart(blockSize) == blockSize
  {
    var odd := TwoPartDivides(blockSize);
    Tier2IsPower();
    unit := PowerDivides(TwoPart(blockSize), TIER2_DEVICE_BYTE_ADDR);
  }

  lemma MaskHalves(unit: nat, size: nat)
    requires size > 0 && size % 2 == 0
    ensures unit * TwoPart(size) / 2 == unit * TwoPart(size / 2)
  {
    TwiceHalves(unit, TwoPart(size / 2));
  }

  lemma TwiceHalves(x: nat, y: nat)
    ensures x * (2 * y) / 2 == x * y
  {
    DivModUnique(x * (2 * y), x * y, 0, 2);
  }

  // ----- Block translation -----

  /** One half of a Fusion pair as the translation sees it. */
  datatype Half = Half(device: nat, otherDevice: nat, isMaster: bool, lbaMultiplier: nat, mask: nat)

  /** A set mask bit selects the second tier and is dropped from the block number. */
  function OnTier2(mask: nat, block: nat): bool
    requires mask > 0
  {
    (block / mask) % 2 == 1
  }

  function WithoutMask(mask: nat, block: nat): nat
    requires mask > 0
  {
    if OnTier2(mask, block) then
      assert block >= mask by {
        if block < mask {
          DivModUnique(block, 0, block, mask);
        }
      }
      block - mask
    else block
  }

  /** Device and LBA of a block of a Fusion volume, in 64-bit arithmetic. */
  function Translate(h: Half, block: nat): (nat, nat)
    requires h.mask > 0
  {
    var lba := (WithoutMask(h.mask, block) * h.lbaMultiplier) % U64;
    (if !OnTier2(h.mask, block) == h.isMaster then h.device else h.otherDevice, lba)
  }

  ghost predicate Mirrored(a: Half, b: Half) {
    && a.device == b.otherDevice && b.device == a.otherDevice
    && a.isMaster != b.isMaster
    && a.mask == b.mask > 0
  }

  /**
   Both halves always agree on the device. Each uses its own multiplier, so they agree on the LBA exactly
   when the difference of the multipliers does not show.
   */
  lemma HalvesAgree(a: Half, b: Half, block: nat)
    requires Mirrored(a, b)
    ensures Translate(a, block).0 == Translate(b, block).0
    ensures Translate(a, block) == Translate(b, block) <==>
            (WithoutMask(a.mask, block) * (a.lbaMultiplier - b.lbaMultiplier)) % U64 == 0
  {
    var w := WithoutMask(a.mask, block);
    LbaCollides(a.lbaMultiplier, b.lbaMultiplier, w);
    Commutes(w, a.lbaMultiplier);
    Commutes(w, b.lbaMultiplier);
    Commutes(w, a.lbaMultiplier - b.lbaMultiplier);
  }

  lemma Commutes(x: int, y: int)
    ensures x * y == y * x
  {
  }

  /** All blocks are in one place for both halves exactly when the multipliers are the same. */
  lemma MultipliersDecide(a: Half, b: Half)
    requires Mirrored(a, b) && a.mask > 1 && a.lbaMultiplier < U64 && b.lbaMultiplier < U64
    ensures (forall block: nat :: Translate(a, block) == Translate(b, block)) <==> a.lbaMultiplier == b.lbaMultiplier
  {
    if forall block: nat :: Translate(a, block) == Translate(b, block) {
      assert Translate(a, 1) == Translate(b, 1);
      DivModUnique(1, 0, 1, a.mask);
      LbaDiffersAtOne(a.lbaMultiplier, b.lbaMultiplier);
    }
  }

  lemma LbaDiffersAtOne(m: nat, n: nat)
    requires m < U64 && n < U64
    ensures (1 * m) % U64 == (1 * n) % U64 ==> m == n
  {
  }

  /** Halves on 512- and 4096-byte sectors send block 1 of 4096 bytes to different sectors of one device. */
  lemma SectorSizesDisagree()
    ensures var mask := 0x4_0000_0000_0000;
            var a, b := Half(0, 1, true, 4096 / 512, mask), Half(1, 0, false, 4096 / 4096, mask);
            IsMask(mask, 4096) && Mirrored(a, b) && Translate(a, 1) == (0, 8) && Translate(b, 1) == (0, 1)
  {
    MaskOf4096();
    DivModUnique(1, 0, 1, 0x4_0000_0000_0000);
  }

  /** As long as no LBA wraps, different blocks never share a place. */
  lemma BlocksStayApart(h: Half, x: nat, y: nat)
    requires h.mask > 0 && h.lbaMultiplier > 0 && h.device != h.otherDevice && x != y
    requires WithoutMask(h.mask, x) * h.lbaMultiplier < U64 && WithoutMask(h.mask, y) * h.lbaMultiplier < U64
    ensures Translate(h, x) != Translate(h, y)
  {
    if OnTier2(h.mask, x) == OnTier2(h.mask, y) {
      LbaDiffers(WithoutMask(h.mask, x), WithoutMask(h.mask, y), h.lbaMultiplier);
    }
  }

  lemma LbaDiffers(p: nat, q: nat, m: nat)
    requires p != q && m > 0 && p * m < U64 && q * m < U64
    ensures (p * m) % U64 != (q * m) % U64
  {
    MulDiffers(p, q, m);
    DivModUnique(p * m, 0, p * m, U64);
    DivModUnique(q * m, 0, q * m, U64);
  }

  lemma MulDiffers(p: nat, q: nat, m: nat)
    requires p != q && m > 0
    ensures p * m != q * m
  {
    if p < q {
      MulAtLeast(q - p, m);
      assert q * m == p * m + (q - p) * m;
    } else {
      MulAtLeast(p - q, m);
      assert p * m == q * m + (p - q) * m;
    }
  }

  /**
   Exactly when two blocks share a place: on the same tier, with LBAs that differ by a multiple of 2^64.
   */
  lemma PlacesCollideExactly(h: Half, x: nat, y: nat)
    requires h.mask > 0 && h.device != h.otherDevice
    ensures Translate(h, x) == Translate(h, y) <==>
            && OnTier2(h.mask, x) == OnTier2(h.mask, y)
            && ((WithoutMask(h.mask, x) - WithoutMask(h.mask, y)) * h.lbaMultiplier) % U64 == 0
  {
    LbaCollides(WithoutMask(h.mask, x), WithoutMask(h.mask, y), h.lbaMultiplier);
  }

  lemma LbaCollides(p: nat, q: nat, m: nat)
    ensures (p * m) % U64 == (q * m) % U64 <==> ((p - q) * m) % U64 == 0
  {
    var a, b := p * m, q * m;
    assert (p - q) * m == a - b;
    ModAdd(a - b, b, U64);
    assert a - b + b == a;
    if a % U64 == b % U64 {
      assert a - b == (a / U64 - b / U64) * U64 + 0;
      DivModUnique(a - b, a / U64 - b / U64, 0, U64);
    }
  }

  /** The mask of 4096-byte blocks. */
  lemma MaskOf4096()
    ensures IsMask(0x4_0000_0000_0000, 4096)
  {
    PowerMul(2, 2);
    PowerMul(4, 4);
    PowerMul(16, 16);
    PowerMul(256, 16);
    var odd := TwoPartDivides(4096);
  }

  /** The wrap the source tolerates is real: 4096-byte blocks on 512-byte sectors, two of them in one place. */
  lemma WrapMergesBlocks()
    ensures var h := Half(0, 1, true, 4096 / 512, 0x4_0000_0000_0000);
            IsMask(h.mask, 4096) && Translate(h, 0) == Translate(h, 0x2000_0000_0000_0000)
  {
    MaskOf4096();
    var h := Half(0, 1, true, 4096 / 512, 0x4_0000_0000_0000);
    DivModUnique(0x2000_0000_0000_0000, 0x800, 0, h.mask);
    PlacesCollideExactly(h, 0, 0x2000_0000_0000_0000);
  }

  // ----- Registration -----

  /** APFS_PRIVATE_DATA; `superUuid` is the Fusion UUID of the super block it was made from. */
  class Drive {
    const blockIo: nat
    const apfsBlockSize: nat
    const mediaBlockSize: nat
    const lbaMultiplier: nat
    const superUuid: Guid
    var fusionUuid: Guid
    var fusionMask: nat
    var fusionSibling: Drive?
    var canLoadDriver: bool
    var isFusion: bool
    var isFusionMaster: bool

    constructor (blockIo: nat, apfsBlockSize: nat, mediaBlockSize: nat, superUuid: Guid)
      requires mediaBlockSize > 0
      ensures this.blockIo == blockIo && this.superUuid == superUuid
      ensures this.apfsBlockSize == apfsBlockSize && this.mediaBlockSize == mediaBlockSize
      ensures lbaMultiplier == apfsBlockSize / mediaBlockSize
      ensures fusionSibling == null && !canLoadDriver && !isFusion && !isFusionMaster
    {
      this.blockIo, this.apfsBlockSize, this.mediaBlockSize := blockIo, apfsBlockSize, mediaBlockSize;
      lbaMultiplier := apfsBlockSize / mediaBlockSize;
      this.superUuid := superUuid;
      fusionUuid, fusionMask, fusionSibling := Guid(0, 0), 0, null;
      canLoadDriver, isFusion, isFusionMaster := false, false, false;
    }

    predicate Sized() {
      && 0 < apfsBlockSize < U32 && mediaBlockSize > 0
      && lbaMultiplier == apfsBlockSize / mediaBlockSize
    }

    /** What the flags of a drive say about its super block, and its multiplier about the block sizes. */
    ghost predicate Consistent()
      reads this
    {
      && Sized()
      && isFusion == !superUuid.IsZero()
      && (!isFusion ==> canLoadDriver && fusionSibling == null)
      && (isFusion ==>
            && fusionUuid == superUuid.WithoutRole()
            && isFusionMaster == superUuid.SaysMaster()
            && (canLoadDriver <==> fusionSibling != null))
    }

    /** The two drives belong together and know it. */
    ghost predicate PairedWith(other: Drive)
      reads this, other
    {
      && fusionSibling == other && other.fusionSibling == this && this != other
      && isFusion && other.isFusion
      && isFusionMaster != other.isFusionMaster
      && superUuid.WithoutRole() == other.superUuid.WithoutRole()
      && fusionMask == other.fusionMask
      && (IsMask(fusionMask, apfsBlockSize) || IsMask(fusionMask, other.apfsBlockSize))
    }

    /** Still waiting for the other half. */
    predicate Waiting()
      reads this
    {
      isFusion && !canLoadDriver
    }

    ghost function View(): Half
      reads this, fusionSibling
      requires fusionSibling != null
    {
      Half(blockIo, fusionSibling.blockIo, isFusionMaster, lbaMultiplier, fusionMask)
    }

    /** InternalApfsTranslateBlock. */
    function TranslateBlock(block: nat): (r: (nat, nat))
      reads this, fusionSibling
      requires canLoadDriver && (isFusion ==> fusionSibling != null && PowerOfTwo(fusionMask))
      ensures isFusion ==> r == Translate(View(), block)
    {
      if !isFusion then (blockIo, (block * lbaMultiplier) % U64)
      else
        AndPower(block, fusionMask);
        AndSplits(block, fusionMask);
        var forMaster := And(block, fusionMask) == 0;
        var b := if forMaster then block else AndNot(block, fusionMask);
        (if forMaster == isFusionMaster then blockIo else fusionSibling.blockIo, (b * lbaMultiplier) % U64)
    }
  }

  predicate CouldPair(d: Drive, e: Drive)
    reads d, e
  {
    d.Waiting() && e.Waiting() && d.isFusionMaster != e.isFusionMaster && d.fusionUuid == e.fusionUuid
  }

  /** A list of registered drives: pairs are mutual, and nothing that fits together is left waiting. */
  ghost predicate Settled(drives: seq<Drive>)
    reads drives
  {
    && (forall i, j :: 0 <= i < j < |drives| ==> drives[i] != drives[j])
    && (forall d :: d in drives ==> d.Consistent())
    && (forall d :: d in drives && d.fusionSibling != null ==>
          d.fusionSibling in drives && d.PairedWith(d.fusionSibling))
    && (forall d, e :: d in drives && e in drives ==> !CouldPair(d, e))
  }

  /** The drives and a new one make up such a list. */
  ghost predicate SettledWith(drives: seq<Drive>, d: Drive)
    reads drives, d
  {
    && d !in drives && (forall i, j :: 0 <= i < j < |drives| ==> drives[i] != drives[j])
    && d.Consistent() && (forall e :: e in drives ==> e.Consistent())
    && (d.fusionSibling != null ==> d.fusionSibling in drives && d.PairedWith(d.fusionSibling))
    && (forall e :: e in drives && e.fusionSibling != null ==>
          (e.fusionSibling == d || e.fusionSibling in drives) && e.PairedWith(e.fusionSibling))
    && (forall e, f :: e in drives && f in drives ==> !CouldPair(e, f))
    && (forall e :: e in drives ==> !CouldPair(d, e) && !CouldPair(e, d))
  }

  lemma SettledExtends(drives: seq<Drive>, d: Drive)
    requires SettledWith(drives, d)
    ensures Settled(drives + [d])
  {
  }

  class Registry {
    var drives: seq<Drive>

    ghost predicate Valid()
      reads this, drives
    {
      Settled(drives)
    }

    constructor ()
      ensures Valid() && drives == []
    {
      drives := [];
    }

    /** ApfsRegisterPartition with a successful protocol installation. */
    method Register(blockIo: nat, apfsBlockSize: nat, mediaBlockSize: nat, superUuid: Guid) returns (d: Drive)
      requires Valid()
      requires 0 < mediaBlockSize && 0 < apfsBlockSize < U32
      modifies this, drives
      ensures Valid() && drives == old(drives) + [d] && fresh(d)
      ensures d.superUuid == superUuid && d.blockIo == blockIo && d.apfsBlockSize == apfsBlockSize
      ensures d.mediaBlockSize == mediaBlockSize && d.lbaMultiplier == apfsBlockSize / mediaBlockSize
      // Pairs made earlier are final.
      ensures forall e :: e in old(drives) && old(e.fusionSibling) != null ==>
                e.fusionSibling == old(e.fusionSibling) && e.fusionMask == old(e.fusionMask)
      ensures d.isFusion && d.fusionSibling == null ==> d.Waiting()
    {
      d := new Drive(blockIo, apfsBlockSize, mediaBlockSize, superUuid);
      InitFusionData(d);
      SettledExtends(drives, d);
      drives := drives + [d];
    }

    /** InternalApfsInitFusionData: the first waiting drive that fits becomes the sibling. */
    method InitFusionData(d: Drive)
      requires Valid() && d !in drives
      requires d.Sized()
      requires d.fusionSibling == null && !d.canLoadDriver && !d.isFusion
      modifies d, drives
      ensures SettledWith(drives, d)
      ensures forall e :: e in drives && old(e.fusionSibling) != null ==>
                e.fusionSibling == old(e.fusionSibling) && e.fusionMask == old(e.fusionMask)
    {
      if d.superUuid.IsZero() {
        d.canLoadDriver := true;
        return;
      }
      d.fusionUuid := d.superUuid.WithoutRole();
      d.isFusion := true;
      d.isFusionMaster := d.superUuid.SaysMaster();
      for i := 0 to |drives|
        invariant d.isFusion && !d.canLoadDriver && d.fusionSibling == null
        invariant d.fusionUuid == d.superUuid.WithoutRole() && d.isFusionMaster == d.superUuid.SaysMaster()
        invariant forall e :: e in drives ==> unchanged(e)
        invariant forall k :: 0 <= k < i ==> !CouldPair(d, drives[k])
      {
        var e := drives[i];
        if !e.isFusion || e.canLoadDriver || e.isFusionMaster == d.isFusionMaster || e.fusionUuid != d.fusionUuid {
          continue;
        }
        Pair(d, e);
        return;
      }
    }

    method Pair(d: Drive, e: Drive)
      requires Valid() && d !in drives && e in drives
      requires d.Sized() && d.fusionSibling == null
      requires CouldPair(d, e)
      requires d.fusionUuid == d.superUuid.WithoutRole() && d.isFusionMaster == d.superUuid.SaysMaster()
      requires !d.superUuid.IsZero()
      modifies d, e
      ensures d.PairedWith(e) && d.Consistent() && e.Consistent()
      ensures d.canLoadDriver && e.canLoadDriver
      ensures d.fusionMask == e.fusionMask
    {
      d.fusionSibling := e;
      d.canLoadDriver := true;
      d.fusionMask := ComputeMask(d.apfsBlockSize);
      e.fusionSibling := d;
      e.canLoadDriver := true;
      e.fusionMask := d.fusionMask;
    }
  }

  lemma PairMirrors(r: Registry, d: Drive)
    requires r.Valid() && d in r.drives && d.fusionSibling != null
    ensures var e := d.fusionSibling;
            && d.canLoadDriver && e.canLoadDriver && d.isFusion && e.isFusion && e.fusionSibling == d
            && d.fusionMask == e.fusionMask && PowerOfTwo(d.fusionMask) && Mirrored(d.View(), e.View())
            && (IsMask(d.fusionMask, d.apfsBlockSize) || IsMask(d.fusionMask, e.apfsBlockSize))
            && d.Sized() && e.Sized()
  {
    var e := d.fusionSibling;
    assert d.PairedWith(e) && e in r.drives;
    MaskIsPower(d.fusionMask, if IsMask(d.fusionMask, d.apfsBlockSize) then d.apfsBlockSize else e.apfsBlockSize);
  }

  /**
   Over every registered pair, both halves find a block on the same device, and in the same place exactly
   when the difference of their multipliers does not show.
   */
  lemma RegisteredPairsAgree(r: Registry, d: Drive, block: nat)
    requires r.Valid() && d in r.drives && d.fusionSibling != null
    ensures d.canLoadDriver && d.fusionSibling.canLoadDriver && PowerOfTwo(d.fusionMask)
    ensures var e := d.fusionSibling;
            && d.TranslateBlock(block).0 == e.TranslateBlock(block).0
            && (d.TranslateBlock(block) == e.TranslateBlock(block) <==>
                (WithoutMask(d.fusionMask, block) * (d.lbaMultiplier - e.lbaMultiplier)) % U64 == 0)
  {
    PairMirrors(r, d);
    HalvesAgree(d.View(), d.fusionSibling.View(), block);
  }

  /** A registered pair is one volume for both halves exactly when as many sectors make a block on either. */
  lemma PairIsOneVolume(r: Registry, d: Drive)
    requires r.Valid() && d in r.drives && d.fusionSibling != null
    ensures d.canLoadDriver && d.fusionSibling.canLoadDriver && PowerOfTwo(d.fusionMask)
    ensures var e := d.fusionSibling;
            (forall block: nat :: d.TranslateBlock(block) == e.TranslateBlock(block)) <==>
            d.apfsBlockSize / d.mediaBlockSize == e.apfsBlockSize / e.mediaBlockSize
  {
    PairMirrors(r, d);
    var e := d.fusionSibling;
    MaskIsLarge(d.fusionMask, if IsMask(d.fusionMask, d.apfsBlockSize) then d.apfsBlockSize else e.apfsBlockSize);
    QuotientSmall(d.apfsBlockSize, d.mediaBlockSize);
    QuotientSmall(e.apfsBlockSize, e.mediaBlockSize);
    var a, b := d.View(), e.View();
    assert forall block: nat :: d.TranslateBlock(block) == Translate(a, block) && e.TranslateBlock(block) == Translate(b, block);
    MultipliersDecide(a, b);
  }

  lemma MaskIsLarge(mask: nat, blockSize: nat)
    requires IsMask(mask, blockSize) && blockSize < U32
    ensures mask > 1
  {
  }

  lemma QuotientSmall(x: nat, m: nat)
    requires 0 < m && x < U32
    ensures x / m < U64
  {
    if x / m > x {
      MulAtLeast(m, x / m);
    }
  }

  /** Each drive has at most one partner, and being a partner is mutual. */
  lemma PartnersAreUnique(r: Registry, d: Drive, e: Drive)
    requires r.Valid() && d in r.drives && e in r.drives
    requires d.fusionSibling != null && d.fusionSibling == e.fusionSibling
    ensures d == e
  {
    assert d.PairedWith(d.fusionSibling) && e.PairedWith(e.fusionSibling);
  }
}
