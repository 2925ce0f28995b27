/**
 The Apple disk image reader: chunks of different encodings, spread over blocks, read as if they were
 one flat array of sectors. The validator's checks are what keeps the reader's arithmetic in range.
 */
module DiskImage {
  import opened Machine
  import opened Bytes

  const SECTOR_SIZE: nat := 512
  const TRAILER_SIZE: nat := 512
  const BLOCK_HEADER_SIZE: nat := 204
  const CHUNK_SIZE: nat := 40
  const CHECKSUM_BITS: nat := 1024
  const MAGIC: nat := 0x6B6F6C79

  const TYPE_ZERO: nat := 0x00000000
  const TYPE_RAW: nat := 0x00000001
  const TYPE_IGNORE: nat := 0x00000002
  const TYPE_ZLIB: nat := 0x80000005

  datatype Chunk = Chunk(kind: nat, sectorNumber: nat, sectorCount: nat, offset: nat, length: nat)

  datatype Block = Block(sectorNumber: nat, sectorCount: nat, chunks: seq<Chunk>)

  /** The loaded file as RAM disk extents, its blocks, and the number of sectors they describe. */
  datatype Image = Image(extents: seq<seq<Byte>>, blocks: seq<Block>, sectorCount: nat)

  /** Library calls: zlib decompression into a buffer of the given size, and pool allocation. */
  datatype Services = Services(inflate: (seq<Byte>, nat) -> seq<Byte>, canAllocate: nat -> bool)

  // ----- RAM disk -----

  function Flatten(extents: seq<seq<Byte>>): seq<Byte> {
    if extents == [] then [] else extents[0] + Flatten(extents[1..])
  }

  /** Where an extent lies in the flat disk. */
  lemma {:induction false} ExtentPlace(extents: seq<seq<Byte>>, i: nat)
    requires i < |extents|
    ensures var disk, at := Flatten(extents), |Flatten(extents[..i])|;
            && |Flatten(extents[..i + 1])| == at + |extents[i]| <= |disk|
            && disk[at..at + |extents[i]|] == extents[i]
  {
    if i == 0 {
      assert extents[..1] == [extents[0]] && extents[..0] == [] && extents[..1][1..] == [];
    } else {
      ExtentPlace(extents[1..], i - 1);
      assert extents[..i][1..] == extents[1..][..i - 1] && extents[..i + 1][1..] == extents[1..][..i];
    }
  }

  /** What one read of the RAM disk yields. */
  function Slice(disk: seq<Byte>, offset: nat, size: nat): Option<seq<Byte>> {
    if offset < |disk| && offset + size <= |disk| then Some(disk[offset..offset + size]) else None
  }

  /** OcAppleRamDiskRead: collects the range extent by extent. */
  method RamDiskRead(extents: seq<seq<Byte>>, offset: nat, size: nat) returns (data: Option<seq<Byte>>)
    ensures data == Slice(Flatten(extents), offset, size)
  {
    ghost var disk := Flatten(extents);
    var current, at, remaining, bytes := 0, offset, size, [];
    for index := 0 to |extents|
      invariant current == |Flatten(extents[..index])| <= |disk|
      invariant offset <= at && current <= at && at + remaining == offset + size
      invariant at > offset ==> at == current && remaining > 0
      invariant if at == offset then bytes == [] else bytes == disk[offset..at]
    {
      var extent := extents[index];
      ExtentPlace(extents, index);
      if at >= current && at - current < |extent| {
        var localOffset := at - current;
        var localSize := if |extent| - localOffset < remaining then |extent| - localOffset else remaining;
        PieceFits(disk, offset, at, current, extent, localSize, bytes);
        bytes := bytes + extent[localOffset..localOffset + localSize];
        remaining := remaining - localSize;
        if remaining == 0 {
          return Some(bytes);
        }
        at := at + localSize;
      }
      current := current + |extent|;
    }
    assert extents[..|extents|] == extents;
    return None;
  }

  /** The next piece of an extent continues the bytes collected so far. */
  lemma PieceFits(disk: seq<Byte>, offset: nat, at: nat, current: nat, extent: seq<Byte>, size: nat, bytes: seq<Byte>)
    requires current + |extent| <= |disk| && disk[current..current + |extent|] == extent
    requires offset <= at && current <= at && at - current + size <= |extent| && bytes == disk[offset..at]
    ensures bytes + extent[at - current..at - current + size] == disk[offset..at + size]
  {
    SubSlice(disk, current, |extent|, at - current, size);
    assert disk[offset..at] + disk[at..at + size] == disk[offset..at + size];
  }

  lemma SubSlice(disk: seq<Byte>, from: nat, length: nat, start: nat, count: nat)
    requires from + length <= |disk| && start + count <= length
    ensures disk[from..from + length][start..start + count] == disk[from + start..from + start + count]
  {
    var inner, direct := disk[from..from + length][start..start + count], disk[from + start..from + start + count];
    assert |inner| == |direct|;
    forall k | 0 <= k < |inner| ensures inner[k] == direct[k] {
      assert inner[k] == disk[from..from + length][start + k];
    }
  }

  // ----- Validation -----

  /** Decoded trailer fields. */
  datatype Trailer = Trailer(
    signature: nat, headerSize: nat, dataForkOffset: nat, dataForkLength: nat, segmentCount: nat, checksumSize: nat,
    xmlOffset: nat, xmlLength: nat, sectorCount: nat)

  /** A block as it comes out of the property list; `stored` are the chunks its data has room for. */
  datatype RawBlock = RawBlock(
    maxSize: nat, chunkCount: nat, dataOffset: nat, checksumSize: nat,
    sectorNumber: nat, sectorCount: nat, stored: seq<Chunk>)

  /** Byte order and property list: the fields of the trailer bytes and the blocks of the XML bytes. */
  datatype Decoder = Decoder(trailer: seq<Byte> -> Trailer, blocks: seq<Byte> -> seq<RawBlock>)

  /** The checks of OcAppleDiskImageInitializeContext. */
  predicate TrailerAccepted(t: Trailer, fileSize: nat) {
    && fileSize > TRAILER_SIZE
    && t.signature == MAGIC
    && t.headerSize == TRAILER_SIZE
    && 0 < t.xmlLength < U32
    && t.checksumSize <= CHECKSUM_BITS
    && t.sectorCount != 0
    && t.segmentCount <= 1
    && t.sectorCount * SECTOR_SIZE < U64
    && t.xmlOffset + t.xmlLength <= fileSize - TRAILER_SIZE
    && t.dataForkOffset + t.dataForkLength <= fileSize - TRAILER_SIZE
  }

  /** What a block must satisfy: its sectors inside the image, its chunks inside the data fork. */
  predicate BlockAccepted(b: Block, sectorCount: nat, maxOffset: nat) {
    && b.sectorNumber + b.sectorCount <= sectorCount
    && forall c :: c in b.chunks ==> ChunkAccepted(b, c, maxOffset)
  }

  predicate ChunkAccepted(b: Block, c: Chunk, maxOffset: nat) {
    && c.sectorNumber + c.sectorCount <= b.sectorNumber + b.sectorCount
    && c.offset + c.length <= maxOffset
  }

  function AddOverflow(x: nat, y: nat): (bool, nat) {
    (x + y >= U64, (x + y) % U64)
  }

  function MulOverflow(x: nat, y: nat): (bool, nat) {
    (x * y >= U64, (x * y) % U64)
  }

  /** The decoded data of a raw block hold the chunks there is room for. */
  predicate Decoded(raw: RawBlock) {
    && raw.maxSize < U32
    && |raw.stored| == if raw.maxSize < BLOCK_HEADER_SIZE then 0 else (raw.maxSize - BLOCK_HEADER_SIZE) / CHUNK_SIZE
  }

  function BlockOf(raw: RawBlock): Block
    requires raw.chunkCount <= |raw.stored|
  {
    Block(raw.sectorNumber, raw.sectorCount, raw.stored[..raw.chunkCount])
  }

  /** Which raw blocks get through. */
  predicate RawAccepted(raw: RawBlock, sectorCount: nat, forkOffset: nat, forkSize: nat) {
    && raw.chunkCount <= |raw.stored|
    && raw.dataOffset <= forkOffset
    && raw.checksumSize <= CHECKSUM_BITS
    && BlockAccepted(BlockOf(raw), sectorCount, forkOffset + forkSize)
  }

  /** InternalSwapBlockData on decoded fields. */
  method ValidateBlock(raw: RawBlock, sectorCount: nat, forkOffset: nat, forkSize: nat) returns (block: Option<Block>)
    requires raw.maxSize >= BLOCK_HEADER_SIZE && Decoded(raw)
    requires sectorCount < U64 && forkOffset + forkSize < U64
    ensures block.Some? <==> RawAccepted(raw, sectorCount, forkOffset, forkSize)
    ensures block.Some? ==> block.value == BlockOf(raw)
  {
    if raw.chunkCount * CHUNK_SIZE >= U32 || raw.chunkCount * CHUNK_SIZE > raw.maxSize - BLOCK_HEADER_SIZE {
      return None;
    }
    var maxOffset := forkOffset + forkSize;
    if raw.dataOffset > forkOffset || raw.checksumSize > CHECKSUM_BITS || raw.dataOffset > maxOffset {
      return None;
    }
    var (overflow, blockTop) := AddOverflow(raw.sectorNumber, raw.sectorCount);
    if overflow || blockTop > sectorCount {
      return None;
    }
    var result := BlockOf(raw);
    for i := 0 to raw.chunkCount
      invariant forall k :: 0 <= k < i ==> ChunkAccepted(result, result.chunks[k], maxOffset)
    {
      var c := result.chunks[i];
      var (chunkOverflow, chunkTop) := AddOverflow(c.sectorNumber, c.sectorCount);
      if chunkOverflow || chunkTop > blockTop {
        assert !ChunkAccepted(result, c, maxOffset);
        return None;
      }
      var (offsetOverflow, offsetTop) := AddOverflow(c.offset, c.length);
      if offsetOverflow || offsetTop > maxOffset {
        assert !ChunkAccepted(result, c, maxOffset);
        return None;
      }
    }
    return Some(result);
  }

  /** Everything the initialiser and the validator guarantee about an image. */
  predicate Accepted(img: Image) {
    && 0 < img.sectorCount
    && img.sectorCount * SECTOR_SIZE < U64
    && |Flatten(img.extents)| < U64
    && forall i :: 0 <= i < |img.blocks| ==> BlockAccepted(img.blocks[i], img.sectorCount, |Flatten(img.extents)|)
  }

  /** The trailer is read, every check passes, and there are blocks that all pass. */
  ghost predicate Initializes(disk: seq<Byte>, fileSize: nat, decode: Decoder) {
    && TRAILER_SIZE < fileSize <= |disk|
    && var t := decode.trailer(disk[fileSize - TRAILER_SIZE..fileSize]);
       && TrailerAccepted(t, fileSize)
       && var raws := decode.blocks(disk[t.xmlOffset..t.xmlOffset + t.xmlLength]);
          raws != [] && AllAccepted(raws, t)
  }

  predicate AllAccepted(raws: seq<RawBlock>, t: Trailer) {
    forall i :: 0 <= i < |raws| ==>
      raws[i].maxSize >= BLOCK_HEADER_SIZE && RawAccepted(raws[i], t.sectorCount, t.dataForkOffset, t.dataForkLength)
  }

  /** Initialisation: everything the reader relies on holds of what gets through. */
  method Initialize(extents: seq<seq<Byte>>, fileSize: nat, decode: Decoder) returns (img: Option<Image>)
    requires |Flatten(extents)| < U64
    requires forall bytes: seq<Byte>, i :: 0 <= i < |decode.blocks(bytes)| ==> Decoded(decode.blocks(bytes)[i])
    ensures img.Some? <==> Initializes(Flatten(extents), fileSize, decode)
    ensures img.Some? ==>
              var disk := Flatten(extents);
              var t := decode.trailer(disk[fileSize - TRAILER_SIZE..fileSize]);
              var raws := decode.blocks(disk[t.xmlOffset..t.xmlOffset + t.xmlLength]);
              && Accepted(img.value) && img.value.extents == extents && img.value.sectorCount == t.sectorCount
              && |img.value.blocks| == |raws| && forall i :: 0 <= i < |raws| ==> img.value.blocks[i] == BlockOf(raws[i])
  {
    if fileSize <= TRAILER_SIZE {
      return None;
    }
    var bytes := RamDiskRead(extents, fileSize - TRAILER_SIZE, TRAILER_SIZE);
    if bytes.None? {
      return None;
    }
    var t := decode.trailer(bytes.value);
    if !TrailerAccepted(t, fileSize) {
      return None;
    }
    var xml := RamDiskRead(extents, t.xmlOffset, t.xmlLength);
    if xml.None? {
      return None;
    }
    var blocks := ValidateBlocks(decode.blocks(xml.value), t);
    if blocks.None? {
      return None;
    }
    return Some(Image(extents, blocks.value, t.sectorCount));
  }

  /** The block loop of InternalParsePlist. */
  method ValidateBlocks(raws: seq<RawBlock>, t: Trailer) returns (result: Option<seq<Block>>)
    requires forall i :: 0 <= i < |raws| ==> Decoded(raws[i])
    requires t.sectorCount < U64 && t.dataForkOffset + t.dataForkLength < U64
    ensures result.Some? <==> raws != [] && AllAccepted(raws, t)
    ensures result.Some? ==>
              |result.value| == |raws| && forall i :: 0 <= i < |raws| ==> result.value[i] == BlockOf(raws[i])
  {
    if raws == [] {
      return None;
    }
    var blocks := [];
    for i := 0 to |raws|
      invariant |blocks| == i
      invariant forall k :: 0 <= k < i ==>
                  && raws[k].maxSize >= BLOCK_HEADER_SIZE
                  && RawAccepted(raws[k], t.sectorCount, t.dataForkOffset, t.dataForkLength)
                  && blocks[k] == BlockOf(raws[k])
    {
      if raws[i].maxSize < BLOCK_HEADER_SIZE {
        return None;
      }
      var block := ValidateBlock(raws[i], t.sectorCount, t.dataForkOffset, t.dataForkLength);
      if block.None? {
        return None;
      }
      blocks := blocks + [block.value];
    }
    return Some(blocks);
  }

  // ----- Lookup -----

  /** First absolute sector of a chunk. */
  function ChunkStart(b: Block, c: Chunk): nat {
    b.sectorNumber + c.sectorNumber
  }

  predicate InBlock(b: Block, lba: nat) {
    b.sectorNumber <= lba < b.sectorNumber + b.sectorCount
  }

  predicate InChunk(b: Block, c: Chunk, lba: nat) {
    ChunkStart(b, c) <= lba < ChunkStart(b, c) + c.sectorCount
  }

  /** Position of a chunk: block index and index inside the block. */
  datatype Place = Place(block: nat, chunk: nat)

  predicate IsPlace(img: Image, p: Place) {
    p.block < |img.blocks| && p.chunk < |img.blocks[p.block].chunks|
  }

  predicate Hit(img: Image, p: Place, lba: nat) {
    && IsPlace(img, p)
    && InBlock(img.blocks[p.block], lba)
    && InChunk(img.blocks[p.block], img.blocks[p.block].chunks[p.chunk], lba)
  }

  predicate Earlier(p: Place, q: Place) {
    p.block < q.block || (p.block == q.block && p.chunk < q.chunk)
  }

  /** The first chunk, in order of blocks and chunks, that holds the sector. */
  ghost predicate IsFirstHit(img: Image, p: Place, lba: nat) {
    Hit(img, p, lba) && forall q :: Earlier(q, p) ==> !Hit(img, q, lba)
  }

  ghost function FirstHit(img: Image, lba: nat): Option<Place> {
    if p :| IsFirstHit(img, p, lba) then Some(p) else None
  }

  lemma FirstHitIs(img: Image, p: Place, lba: nat)
    requires IsFirstHit(img, p, lba)
    ensures FirstHit(img, lba) == Some(p)
  {
    var q := FirstHit(img, lba).value;
    assert p == q || Earlier(p, q) || Earlier(q, p);
  }

  /** No sector sum of the lookup and no multiplication of the reader leaves 64 bits. */
  lemma ArithmeticStaysInRange(img: Image, p: Place)
    requires Accepted(img) && IsPlace(img, p)
    ensures var b := img.blocks[p.block]; var c := b.chunks[p.chunk];
            && b.sectorNumber + b.sectorCount < U64
            && ChunkStart(b, c) + c.sectorCount < U64
            && c.sectorCount * SECTOR_SIZE < U64
            && forall lba: nat :: InChunk(b, c, lba) ==> (lba - ChunkStart(b, c)) * SECTOR_SIZE < U64
  {
    var b := img.blocks[p.block];
    var c := b.chunks[p.chunk];
    assert ChunkAccepted(b, c, |Flatten(img.extents)|);
  }

  /** InternalGetBlockChunk with its 64-bit sums. */
  method GetBlockChunk(img: Image, lba: nat) returns (place: Option<Place>)
    requires Accepted(img)
    ensures place == FirstHit(img, lba)
    ensures place.None? ==> forall q :: !Hit(img, q, lba)
  {
    for i := 0 to |img.blocks|
      invariant forall q: Place :: q.block < i ==> !Hit(img, q, lba)
    {
      var b := img.blocks[i];
      if lba >= b.sectorNumber && lba < (b.sectorNumber + b.sectorCount) % U64 {
        var chunk := FindChunk(img, i, lba);
        if chunk.Some? {
          FirstHitIs(img, Place(i, chunk.value), lba);
          return Some(Place(i, chunk.value));
        }
      }
    }
    return None;
  }

  /** The inner loop: the first chunk of the block that holds the sector. */
  method FindChunk(img: Image, i: nat, lba: nat) returns (chunk: Option<nat>)
    requires Accepted(img) && i < |img.blocks| && InBlock(img.blocks[i], lba)
    ensures chunk.Some? ==> Hit(img, Place(i, chunk.value), lba)
    ensures forall q: Place :: q.block == i && (chunk.Some? ==> q.chunk < chunk.value) ==> !Hit(img, q, lba)
  {
    var b := img.blocks[i];
    for j := 0 to |b.chunks|
      invariant forall q: Place :: q.block == i && q.chunk < j ==> !Hit(img, q, lba)
    {
      ArithmeticStaysInRange(img, Place(i, j));
      var c := b.chunks[j];
      var start := (b.sectorNumber + c.sectorNumber) % U64;
      if lba >= start && lba < (start + c.sectorCount) % U64 {
        return Some(j);
      }
    }
    return None;
  }

  // ----- The flat image -----

  function ChunkAt(img: Image, p: Place): Chunk
    requires IsPlace(img, p)
  {
    img.blocks[p.block].chunks[p.chunk]
  }

  /** Raw data does not wrap the file offset. */
  ghost predicate RawFits(img: Image) {
    forall p :: IsPlace(img, p) && ChunkAt(img, p).kind == TYPE_RAW ==>
      ChunkAt(img, p).offset + ChunkAt(img, p).sectorCount * SECTOR_SIZE < U64
  }

  /** Chunks lie inside their blocks and share no sector, and raw data does not wrap. */
  ghost predicate Regular(img: Image) {
    && (forall p :: IsPlace(img, p) ==>
          ChunkAt(img, p).sectorNumber + ChunkAt(img, p).sectorCount <= img.blocks[p.block].sectorCount)
    && (forall p, q, lba :: Hit(img, p, lba) && Hit(img, q, lba) ==> p == q)
    && RawFits(img)
  }

  /** Decompressed content of a zlib chunk, if it can be had. */
  function Inflated(disk: seq<Byte>, s: Services, c: Chunk): Option<seq<Byte>> {
    var total := c.sectorCount * SECTOR_SIZE;
    if !s.canAllocate((total + c.length) % U64) then None
    else match Slice(disk, c.offset, c.length)
      case None => None
      case Some(packed) =>
        var data := s.inflate(packed, total);
        if |data| == total then Some(data) else None
  }

  /** Byte `k` of a chunk's content; None when it cannot be produced. */
  function ChunkByte(disk: seq<Byte>, s: Services, c: Chunk, k: nat): Option<Byte>
    requires k < c.sectorCount * SECTOR_SIZE
  {
    if c.kind == TYPE_ZERO || c.kind == TYPE_IGNORE then Some(0)
    else if c.kind == TYPE_RAW then
      if c.offset + k < |disk| then Some(disk[c.offset + k]) else None
    else if c.kind == TYPE_ZLIB then
      match Inflated(disk, s, c)
      case None => None
      case Some(data) => Some(data[k])
    else None
  }

  /** Byte `position` of the flat image: the content of whichever chunk holds that sector. */
  ghost function FlatByte(img: Image, s: Services, position: nat): Option<Byte> {
    var lba := position / SECTOR_SIZE;
    if p :| Hit(img, p, lba) then
      var b := img.blocks[p.block];
      var c := b.chunks[p.chunk];
      ChunkByte(Flatten(img.extents), s, c, (lba - ChunkStart(b, c)) * SECTOR_SIZE + position % SECTOR_SIZE)
    else None
  }

  /** Byte `k` of the flat image counted from sector `lba`. */
  ghost function FlatFrom(img: Image, s: Services, lba: nat, k: nat): Option<Byte> {
    FlatByte(img, s, lba * SECTOR_SIZE + k)
  }

  /** Within one chunk the flat image is the chunk's content. */
  lemma FlatInsideChunk(img: Image, s: Services, p: Place, lba: nat, k: nat)
    requires Regular(img) && Hit(img, p, lba)
    requires var b := img.blocks[p.block]; var c := b.chunks[p.chunk];
             (lba - ChunkStart(b, c)) * SECTOR_SIZE + k < c.sectorCount * SECTOR_SIZE
    ensures var b := img.blocks[p.block]; var c := b.chunks[p.chunk];
            FlatByte(img, s, lba * SECTOR_SIZE + k) ==
            ChunkByte(Flatten(img.extents), s, c, (lba - ChunkStart(b, c)) * SECTOR_SIZE + k)
  {
    var b := img.blocks[p.block];
    var c := b.chunks[p.chunk];
    var here := lba + k / SECTOR_SIZE;
    assert (lba * SECTOR_SIZE + k) / SECTOR_SIZE == here;
    assert (lba * SECTOR_SIZE + k) % SECTOR_SIZE == k % SECTOR_SIZE;
    assert IsPlace(img, p) && ChunkAt(img, p) == c;
    assert Hit(img, p, here);
  }

  // ----- What a read delivers -----

  /** Bytes from the sector to the end of the chunk. */
  function Rest(img: Image, p: Place, current: nat): nat
    requires Hit(img, p, current)
  {
    (ChunkStart(img.blocks[p.block], ChunkAt(img, p)) + ChunkAt(img, p).sectorCount - current) * SECTOR_SIZE
  }

  /** Offset of the sector in the content of the chunk. */
  function Within(img: Image, p: Place, current: nat): nat
    requires Hit(img, p, current)
  {
    (current - ChunkStart(img.blocks[p.block], ChunkAt(img, p))) * SECTOR_SIZE
  }

  function Behind(img: Image, p: Place): nat
    requires IsPlace(img, p)
  {
    ChunkStart(img.blocks[p.block], ChunkAt(img, p)) + ChunkAt(img, p).sectorCount
  }

  /**
   Byte `k` of a read that starts at sector `current`: every chunk is read to its own end, wherever its
   block ends, and only then the next sector is looked up.
   */
  ghost function Delivered(img: Image, s: Services, current: nat, k: nat): Option<Byte>
    decreases k
  {
    match FirstHit(img, current)
    case None => None
    case Some(p) =>
      if k < Rest(img, p, current) then ChunkByte(Flatten(img.extents), s, ChunkAt(img, p), Within(img, p, current) + k)
      else Delivered(img, s, Behind(img, p), k - Rest(img, p, current))
  }

  /** What a read from `lba` delivers from byte `at` on is what a read from `current` delivers. */
  ghost predicate Resumes(img: Image, s: Services, lba: nat, at: nat, current: nat) {
    forall k: nat :: Delivered(img, s, current, k) == Delivered(img, s, lba, at + k)
  }

  lemma ResumesBehind(img: Image, s: Services, lba: nat, at: nat, current: nat, p: Place)
    requires Resumes(img, s, lba, at, current) && FirstHit(img, current) == Some(p)
    ensures Resumes(img, s, lba, at + Rest(img, p, current), Behind(img, p))
  {
    var rest := Rest(img, p, current);
    forall k: nat ensures Delivered(img, s, Behind(img, p), k) == Delivered(img, s, lba, at + rest + k) {
      assert Delivered(img, s, current, rest + k) == Delivered(img, s, Behind(img, p), k);
      assert at + (rest + k) == at + rest + k;
    }
  }

  /** The bytes of one reading step. */
  lemma DeliveredStep(img: Image, s: Services, lba: nat, at: nat, current: nat, p: Place, size: nat)
    requires Resumes(img, s, lba, at, current) && FirstHit(img, current) == Some(p) && size <= Rest(img, p, current)
    ensures forall j :: at <= j < at + size ==>
              Delivered(img, s, lba, j) ==
              ChunkByte(Flatten(img.extents), s, ChunkAt(img, p), Within(img, p, current) + (j - at))
  {
    forall j | at <= j < at + size
      ensures Delivered(img, s, lba, j) ==
              ChunkByte(Flatten(img.extents), s, ChunkAt(img, p), Within(img, p, current) + (j - at))
    {
      var k: nat := j - at;
      assert Delivered(img, s, current, k) == Delivered(img, s, lba, at + k);
    }
  }

  lemma DeliveredInside(img: Image, s: Services, lba: nat, p: Place, k: nat)
    requires Regular(img) && Hit(img, p, lba) && k < Rest(img, p, lba)
    ensures FlatOrGap(img, s, lba, k, Delivered(img, s, lba, k))
  {
    FirstHitIs(img, p, lba);
    FlatInsideChunk(img, s, p, lba, k);
    assert FlatFrom(img, s, lba, k) == Delivered(img, s, lba, k);
  }

  lemma DeliveredBehind(img: Image, s: Services, lba: nat, p: Place, m: nat)
    requires Regular(img) && Hit(img, p, lba)
    ensures Delivered(img, s, lba, Rest(img, p, lba) + m) == Delivered(img, s, Behind(img, p), m)
  {
    FirstHitIs(img, p, lba);
  }

  lemma FlatBehind(img: Image, s: Services, lba: nat, p: Place, j: nat)
    requires Hit(img, p, lba)
    ensures FlatFrom(img, s, Behind(img, p), j) == FlatFrom(img, s, lba, Rest(img, p, lba) + j)
  {
    assert Behind(img, p) * SECTOR_SIZE + j == lba * SECTOR_SIZE + (Rest(img, p, lba) + j);
  }

  /**
   On a regular image a byte that is delivered is the flat one, and where none is delivered the flat array
   has a gap at that byte or in front of it.
   */
  lemma {:induction false} DeliveredIsFlat(img: Image, s: Services, lba: nat, k: nat)
    requires Regular(img)
    ensures FlatOrGap(img, s, lba, k, Delivered(img, s, lba, k))
    decreases k
  {
    if p :| Hit(img, p, lba) {
      if k < Rest(img, p, lba) {
        DeliveredInside(img, s, lba, p, k);
      } else {
        DeliveredIsFlat(img, s, Behind(img, p), k - Rest(img, p, lba));
        FlatBehindToo(img, s, lba, p, k - Rest(img, p, lba));
      }
    } else {
      NothingIsGap(img, s, lba, k);
    }
  }

  /** The byte is the flat one, or there is none and the flat array has a gap at it or in front of it. */
  ghost predicate FlatOrGap(img: Image, s: Services, lba: nat, k: nat, byte: Option<Byte>) {
    if byte.Some? then byte == FlatFrom(img, s, lba, k) else Gap(img, s, lba, k)
  }

  lemma NothingIsGap(img: Image, s: Services, lba: nat, k: nat)
    requires forall p :: !Hit(img, p, lba)
    ensures FlatOrGap(img, s, lba, k, Delivered(img, s, lba, k))
  {
    assert FlatFrom(img, s, lba, 0).None?;
  }

  /** What holds of the sector behind the chunk holds of the bytes behind it. */
  lemma FlatBehindToo(img: Image, s: Services, lba: nat, p: Place, m: nat)
    requires Regular(img) && Hit(img, p, lba)
    requires var next := Behind(img, p); FlatOrGap(img, s, next, m, Delivered(img, s, next, m))
    ensures var k := Rest(img, p, lba) + m; FlatOrGap(img, s, lba, k, Delivered(img, s, lba, k))
  {
    DeliveredBehind(img, s, lba, p, m);
    FlatBehind(img, s, lba, p, m);
    if Delivered(img, s, Behind(img, p), m).None? {
      GapBehind(img, s, lba, p, m);
    }
  }

  /** The flat array lacks one of the first `k + 1` bytes. */
  ghost predicate Gap(img: Image, s: Services, lba: nat, k: nat) {
    exists j :: 0 <= j <= k && FlatFrom(img, s, lba, j).None?
  }

  lemma GapBehind(img: Image, s: Services, lba: nat, p: Place, m: nat)
    requires Hit(img, p, lba) && Gap(img, s, Behind(img, p), m)
    ensures Gap(img, s, lba, Rest(img, p, lba) + m)
  {
    var j :| 0 <= j <= m && FlatFrom(img, s, Behind(img, p), j).None?;
    FlatBehind(img, s, lba, p, j);
    assert FlatFrom(img, s, lba, Rest(img, p, lba) + j).None?;
  }

  // ----- Reading -----

  /** One switch arm of the reader: content bytes from `from` on, written at `at`. */
  method ReadChunk(img: Image, s: Services, c: Chunk, from: nat, size: nat, buffer: array<Byte>, at: nat) returns (ok: bool)
    requires 0 < size && from + size <= c.sectorCount * SECTOR_SIZE < U64 && at + size <= buffer.Length
    modifies buffer
    ensures forall k :: 0 <= k < at ==> buffer[k] == old(buffer[k])
    ensures ok && (c.kind == TYPE_RAW ==> c.offset + from < U64) ==>
              forall j :: at <= j < at + size ==>
                ChunkByte(Flatten(img.extents), s, c, from + (j - at)) == Some(buffer[j])
    ensures !ok && (c.kind == TYPE_RAW ==> c.offset + from < U64) ==>
              ChunkByte(Flatten(img.extents), s, c, from + size - 1).None?
  {
    ghost var disk := Flatten(img.extents);
    if c.kind == TYPE_ZERO || c.kind == TYPE_IGNORE {
      Put(buffer, at, seq(size, _ => 0));
    } else if c.kind == TYPE_RAW {
      var data := RamDiskRead(img.extents, (c.offset + from) % U64, size);
      if data.None? {
        return false;
      }
      Put(buffer, at, data.value);
    } else if c.kind == TYPE_ZLIB {
      var total := c.sectorCount * SECTOR_SIZE;
      if !s.canAllocate((total + c.length) % U64) {
        return false;
      }
      var packed := RamDiskRead(img.extents, c.offset, c.length);
      if packed.None? {
        return false;
      }
      var data := s.inflate(packed.value, total);
      if |data| != total {
        return false;
      }
      Put(buffer, at, data[from..from + size]);
    } else {
      return false;
    }
    return true;
  }

  /**
   One iteration of the reader: `size` bytes at `at`, then `next` is the sector to continue with. A
   lookup always yields at least one sector, so `size` is positive.
   */
  method ReadStep(img: Image, s: Services, ghost lba: nat, current: nat, buffer: array<Byte>, at: nat)
      returns (ok: bool, size: nat, next: nat)
    requires Accepted(img) && at < buffer.Length
    requires Resumes(img, s, lba, at, current)
    modifies buffer
    ensures forall k :: 0 <= k < at ==> buffer[k] == old(buffer[k])
    ensures ok ==> 0 < size <= buffer.Length - at
    ensures ok && size < buffer.Length - at ==> Resumes(img, s, lba, at + size, next)
    ensures ok && RawFits(img) ==> forall j :: at <= j < at + size ==> Delivered(img, s, lba, j) == Some(buffer[j])
    ensures !ok && RawFits(img) ==> exists j :: at <= j < buffer.Length && Delivered(img, s, lba, j).None?
  {
    size, next := 0, current;
    var place, from, total, lbaLength := Window(img, current);
    if place.None? {
      assert Delivered(img, s, current, 0) == Delivered(img, s, lba, at + 0);
      return false, size, next;
    }
    var c := ChunkAt(img, place.value);
    var chunkLength := total - from;
    size := if buffer.Length - at < chunkLength then buffer.Length - at else chunkLength;
    ok := ReadChunk(img, s, c, from, size, buffer, at);
    next := current + lbaLength;
    DeliveredStep(img, s, lba, at, current, place.value, size);
    ResumesBehind(img, s, lba, at, current, place.value);
    assert !ok && RawFits(img) ==> Delivered(img, s, lba, at + size - 1).None?;
  }

  /** The chunk that holds a sector, where in it the sector starts, its size, and the sectors that are left. */
  method Window(img: Image, current: nat) returns (place: Option<Place>, from: nat, total: nat, lbaLength: nat)
    requires Accepted(img)
    ensures place == FirstHit(img, current)
    ensures place.Some? ==>
              && Hit(img, place.value, current)
              && from == Within(img, place.value, current)
              && total == ChunkAt(img, place.value).sectorCount * SECTOR_SIZE < U64
              && 0 < total - from == Rest(img, place.value, current)
              && current + lbaLength == Behind(img, place.value)
  {
    from, total, lbaLength := 0, 0, 0;
    place := GetBlockChunk(img, current);
    if place.Some? {
      var p := place.value;
      ArithmeticStaysInRange(img, p);
      var b := img.blocks[p.block];
      var c := b.chunks[p.chunk];
      var lbaOffset := current - ChunkStart(b, c);
      lbaLength := c.sectorCount - lbaOffset;
      var (offsetOverflow, offset) := MulOverflow(lbaOffset, SECTOR_SIZE);
      var (totalOverflow, size) := MulOverflow(c.sectorCount, SECTOR_SIZE);
      assert !offsetOverflow && !totalOverflow;
      from, total := offset, size;
    }
  }

  /**
   On every accepted image the read succeeds exactly when every byte it delivers exists; on regular
   images these are the bytes of the flat array of sectors.
   */
  method Read(img: Image, s: Services, lba: nat, buffer: array<Byte>) returns (ok: bool)
    requires Accepted(img) && lba < img.sectorCount
    modifies buffer
    ensures RawFits(img) ==>
              (ok <==> forall k :: 0 <= k < buffer.Length ==> Delivered(img, s, lba, k).Some?)
    ensures RawFits(img) && ok ==>
              forall k :: 0 <= k < buffer.Length ==> Delivered(img, s, lba, k) == Some(buffer[k])
    ensures Regular(img) ==>
              (ok <==> forall k :: 0 <= k < buffer.Length ==> FlatFrom(img, s, lba, k).Some?)
    ensures Regular(img) && ok ==>
              forall k :: 0 <= k < buffer.Length ==> FlatFrom(img, s, lba, k) == Some(buffer[k])
  {
    ok := ReadLoop(img, s, lba, buffer);
    if Regular(img) {
      forall k | 0 <= k < buffer.Length
        ensures Delivered(img, s, lba, k).Some? ==> Delivered(img, s, lba, k) == FlatFrom(img, s, lba, k)
        ensures Delivered(img, s, lba, k).None? ==> Gap(img, s, lba, k)
      {
        DeliveredIsFlat(img, s, lba, k);
      }
    }
  }

  method ReadLoop(img: Image, s: Services, lba: nat, buffer: array<Byte>) returns (ok: bool)
    requires Accepted(img)
    modifies buffer
    ensures RawFits(img) ==>
              (ok <==> forall k :: 0 <= k < buffer.Length ==> Delivered(img, s, lba, k).Some?)
    ensures RawFits(img) && ok ==>
              forall k :: 0 <= k < buffer.Length ==> Delivered(img, s, lba, k) == Some(buffer[k])
  {
    var current, remaining, at := lba, buffer.Length, 0;
    while remaining > 0
      invariant 0 <= at && 0 <= remaining && at + remaining == buffer.Length
      invariant remaining > 0 ==> Resumes(img, s, lba, at, current)
      invariant RawFits(img) ==>
                  forall k :: 0 <= k < at ==> Delivered(img, s, lba, k) == Some(buffer[k])
    {
      var size;
      ok, size, current := ReadStep(img, s, lba, current, buffer, at);
      if !ok {
        return false;
      }
      remaining := remaining - size;
      at := at + size;
    }
    return true;
  }

  // ----- Overhanging chunks -----

  /**
   The validator compares a chunk's relative end with the block's absolute end. It keeps chunks inside
   their block exactly when the block starts at sector 0.
   */
  lemma ValidatorContainsChunks(b: Block, maxOffset: nat)
    ensures (forall c :: ChunkAccepted(b, c, maxOffset) ==> c.sectorNumber + c.sectorCount <= b.sectorCount) <==>
            b.sectorNumber == 0
  {
    var widest := Chunk(TYPE_ZERO, 0, b.sectorNumber + b.sectorCount, 0, 0);
    assert ChunkAccepted(b, widest, maxOffset);
  }

  /** Every chunk ends where its block ends, or before. */
  ghost predicate Contained(img: Image) {
    forall p :: IsPlace(img, p) ==> Behind(img, p) <= img.blocks[p.block].sectorNumber + img.blocks[p.block].sectorCount
  }

  lemma HitsEndInside(img: Image, p: Place, lba: nat)
    requires Accepted(img) && Hit(img, p, lba)
    ensures lba < img.sectorCount
    ensures Contained(img) ==> Behind(img, p) <= img.sectorCount
  {
    assert BlockAccepted(img.blocks[p.block], img.sectorCount, |Flatten(img.extents)|);
  }

  /** With every chunk inside its block, whatever a read delivers lies in front of the end of the image. */
  lemma {:induction false} ContainedReadsEndInside(img: Image, s: Services, lba: nat, k: nat)
    requires Accepted(img) && Contained(img) && Delivered(img, s, lba, k).Some?
    ensures lba * SECTOR_SIZE + k < img.sectorCount * SECTOR_SIZE
    decreases k
  {
    var p := FirstHit(img, lba).value;
    HitsEndInside(img, p, lba);
    if k >= Rest(img, p, lba) {
      ContainedReadsEndInside(img, s, Behind(img, p), k - Rest(img, p, lba));
    }
  }

  /** A read of `n` bytes from sector `lba` on has all it needs. */
  ghost predicate Readable(img: Image, s: Services, lba: nat, n: nat) {
    forall k: nat :: k < n ==> Delivered(img, s, lba, k).Some?
  }

  /** The read starts inside the image and ends behind it. */
  predicate Passes(img: Image, lba: nat, n: nat) {
    lba < img.sectorCount && lba * SECTOR_SIZE + n > img.sectorCount * SECTOR_SIZE
  }

  /** The lookup of the sector leads to a chunk with content for the sector right behind the image. */
  ghost predicate Overhangs(img: Image, s: Services, lba: nat, p: Place) {
    && FirstHit(img, lba) == Some(p) && Behind(img, p) > img.sectorCount > lba
    && ChunkByte(Flatten(img.extents), s, ChunkAt(img, p), Within(img, p, lba) + (img.sectorCount - lba) * SECTOR_SIZE).Some?
  }

  /**
   Exactly when some read goes past the end: when the lookup of some sector leads to a chunk that reaches
   behind the image and has content there.
   */
  lemma ReadsPassTheEndExactly(img: Image, s: Services)
    requires Accepted(img)
    ensures (exists lba: nat, n: nat :: Passes(img, lba, n) && Readable(img, s, lba, n)) <==>
            (exists lba: nat, p: Place :: Overhangs(img, s, lba, p))
  {
    if lba: nat, n: nat :| Passes(img, lba, n) && Readable(img, s, lba, n) {
      var current, p := PassingOverhangs(img, s, lba, n);
      assert Overhangs(img, s, current, p);
    }
    if lba: nat, p: Place :| Overhangs(img, s, lba, p) {
      OverhangReads(img, s, lba, p);
      var n := (img.sectorCount - lba) * SECTOR_SIZE + 1;
      assert Passes(img, lba, n) && Readable(img, s, lba, n);
    }
  }

  /** The chunk in which a read leaves the image. */
  lemma {:induction false} PassingOverhangs(img: Image, s: Services, lba: nat, n: nat) returns (current: nat, p: Place)
    requires Accepted(img) && Passes(img, lba, n) && Readable(img, s, lba, n)
    ensures Overhangs(img, s, current, p)
    decreases n
  {
    assert Delivered(img, s, lba, 0).Some?;
    p := FirstHit(img, lba).value;
    var rest, next := Rest(img, p, lba), Behind(img, p);
    if next > img.sectorCount {
      current := lba;
      assert Delivered(img, s, lba, (img.sectorCount - lba) * SECTOR_SIZE).Some?;
    } else {
      ReadableBehind(img, s, lba, n, p);
      ReadableStartsInside(img, s, next, n - rest);
      current, p := PassingOverhangs(img, s, next, n - rest);
    }
  }

  lemma ReadableBehind(img: Image, s: Services, lba: nat, n: nat, p: Place)
    requires FirstHit(img, lba) == Some(p) && Readable(img, s, lba, n) && n >= Rest(img, p, lba)
    ensures Readable(img, s, Behind(img, p), n - Rest(img, p, lba))
  {
    var rest := Rest(img, p, lba);
    forall k: nat | k < n - rest ensures Delivered(img, s, Behind(img, p), k).Some? {
      assert Delivered(img, s, lba, rest + k) == Delivered(img, s, Behind(img, p), k);
    }
  }

  lemma ReadableStartsInside(img: Image, s: Services, lba: nat, n: nat)
    requires Accepted(img) && Readable(img, s, lba, n) && n > 0
    ensures lba < img.sectorCount
  {
    assert Delivered(img, s, lba, 0).Some?;
    HitsEndInside(img, FirstHit(img, lba).value, lba);
  }

  /** What can be read behind the image can be read in front of it. */
  lemma OverhangReads(img: Image, s: Services, lba: nat, p: Place)
    requires Overhangs(img, s, lba, p)
    ensures Readable(img, s, lba, (img.sectorCount - lba) * SECTOR_SIZE + 1)
  {
    var n := (img.sectorCount - lba) * SECTOR_SIZE;
    forall k: nat | k < n + 1 ensures Delivered(img, s, lba, k).Some? {
      EarlierByte(Flatten(img.extents), s, ChunkAt(img, p), Within(img, p, lba) + k, Within(img, p, lba) + n);
    }
  }

  /** A chunk has no gap in front of a byte it has. */
  lemma EarlierByte(disk: seq<Byte>, s: Services, c: Chunk, j: nat, k: nat)
    requires j <= k < c.sectorCount * SECTOR_SIZE && ChunkByte(disk, s, c, k).Some?
    ensures ChunkByte(disk, s, c, j).Some?
  {
  }

  /** A block of one sector, the last of eleven, whose chunk of zeros has eleven. */
  const OVERHANG_BLOCK: RawBlock :=
    RawBlock(BLOCK_HEADER_SIZE + CHUNK_SIZE, 1, 0, 0, 10, 1, [Chunk(TYPE_ZERO, 0, 11, 0, 0)])

  lemma OverhangInitializes(disk: seq<Byte>, fileSize: nat, decode: Decoder)
    requires TRAILER_SIZE < fileSize <= |disk|
    requires var t := decode.trailer(disk[fileSize - TRAILER_SIZE..fileSize]);
             && TrailerAccepted(t, fileSize) && t.sectorCount == 11
             && decode.blocks(disk[t.xmlOffset..t.xmlOffset + t.xmlLength]) == [OVERHANG_BLOCK]
    ensures Decoded(OVERHANG_BLOCK) && BlockOf(OVERHANG_BLOCK) == Block(10, 1, [Chunk(TYPE_ZERO, 0, 11, 0, 0)])
    ensures Initializes(disk, fileSize, decode)
  {
    var t := decode.trailer(disk[fileSize - TRAILER_SIZE..fileSize]);
    assert BlockOf(OVERHANG_BLOCK).chunks == [Chunk(TYPE_ZERO, 0, 11, 0, 0)];
    assert RawAccepted(OVERHANG_BLOCK, 11, t.dataForkOffset, t.dataForkLength);
  }

  lemma OverhangDelivers(img: Image, s: Services, k: nat)
    requires img.blocks == [Block(10, 1, [Chunk(TYPE_ZERO, 0, 11, 0, 0)])] && k < 1024
    ensures RawFits(img) && Delivered(img, s, 10, k) == Some(0)
    ensures (forall p :: !Hit(img, p, 11)) && !Regular(img)
  {
    var p := Place(0, 0);
    assert Hit(img, p, 10) && IsFirstHit(img, p, 10);
    FirstHitIs(img, p, 10);
    assert IsPlace(img, p) && ChunkAt(img, p).sectorCount == 11;
  }

  /**
   Any file with an acceptable trailer for eleven sectors and that block passes initialisation, and its last
   sector is read with two sectors' worth of buffer: the read reports success, although no chunk holds the
   second sector and the image has ended.
   */
  method ReadBeyondTheEnd(extents: seq<seq<Byte>>, fileSize: nat, decode: Decoder, s: Services) returns (img: Option<Image>, ok: bool)
    requires TRAILER_SIZE < fileSize <= |Flatten(extents)| < U64
    requires forall bytes: seq<Byte>, i :: 0 <= i < |decode.blocks(bytes)| ==> Decoded(decode.blocks(bytes)[i])
    requires var disk := Flatten(extents);
             var t := decode.trailer(disk[fileSize - TRAILER_SIZE..fileSize]);
             && TrailerAccepted(t, fileSize) && t.sectorCount == 11
             && decode.blocks(disk[t.xmlOffset..t.xmlOffset + t.xmlLength]) == [OVERHANG_BLOCK]
    ensures img.Some? && img.value.sectorCount == 11 && ok
    ensures forall p :: !Hit(img.value, p, 11)
  {
    OverhangInitializes(Flatten(extents), fileSize, decode);
    img := Initialize(extents, fileSize, decode);
    assert |img.value.blocks| == 1 && img.value.blocks[0] == BlockOf([OVERHANG_BLOCK][0]);
    assert img.value.blocks == [Block(10, 1, [Chunk(TYPE_ZERO, 0, 11, 0, 0)])];
    var buffer := new Byte[1024](_ => 0);
    forall k | 0 <= k < 1024 ensures Delivered(img.value, s, 10, k) == Some(0) {
      OverhangDelivers(img.value, s, k);
    }
    OverhangDelivers(img.value, s, 0);
    ok := Read(img.value, s, 10, buffer);
  }
}
