/**
 The APFS object checksum: Fletcher-64 over 32-bit words with a single reduction at the end, compared
 with the textbook form that reduces after every word.
 */
module Fletcher {
  import opened Machine

  /** The Fletcher modulus, 2^32 - 1. */
  const M: nat := 0xFFFF_FFFF
  const MINIMUM_BLOCK_SIZE: nat := 0x1000
  const MAXIMUM_BLOCK_SIZE: nat := 0x10000
  const CHECKSUM_SIZE: nat := 8
  const NX_SIGNATURE: nat := 0x4253584E
  const NX_SUPERBLOCK_TYPE: nat := 0x80000001

  type Word = x: nat | x < 0x1_0000_0000

  // ----- Plain sums -----

  function Sum1(words: seq<Word>): nat {
    if words == [] then 0 else Sum1(words[..|words| - 1]) + words[|words| - 1]
  }

  function Sum2(words: seq<Word>): nat {
    if words == [] then 0 else Sum2(words[..|words| - 1]) + Sum1(words)
  }

  // ----- Textbook form -----

  function Mod1(words: seq<Word>): nat {
    if words == [] then 0 else (Mod1(words[..|words| - 1]) + words[|words| - 1]) % M
  }

  function Mod2(words: seq<Word>): nat {
    if words == [] then 0 else (Mod2(words[..|words| - 1]) + Mod1(words)) % M
  }

  function LowHalf(m1: nat, m2: nat): Word {
    M - (m1 + m2) % M
  }

  function HighHalf(m1: nat, m2: nat): Word {
    M - (m1 + LowHalf(m1, m2)) % M
  }

  function Low(words: seq<Word>): Word {
    LowHalf(Mod1(words), Mod2(words))
  }

  function High(words: seq<Word>): Word {
    HighHalf(Mod1(words), Mod2(words))
  }

  function Checksum(words: seq<Word>): nat {
    High(words) * U32 + Low(words)
  }

  lemma {:induction false} SumsReduce(words: seq<Word>)
    ensures Mod1(words) == Sum1(words) % M
    ensures Mod2(words) == Sum2(words) % M
  {
    if words != [] {
      var front, last := words[..|words| - 1], words[|words| - 1];
      SumsReduce(front);
      ModAdd(Sum1(front), last, M);
      ModAdd(Sum2(front), Mod1(words), M);
      ModAdd(Sum1(words), Sum2(front), M);
    }
  }

  // ----- The loop with one final reduction -----

  lemma {:induction false} SumsBounded(words: seq<Word>)
    requires |words| <= 0x4000
    ensures Sum1(words) <= |words| * M
    ensures Sum2(words) <= |words| * 0x4000 * M
  {
    if words != [] {
      SumsBounded(words[..|words| - 1]);
    }
  }

  /** The words a block of an accepted size leaves for the checksum. */
  predicate CheckedLength(n: nat) {
    MINIMUM_BLOCK_SIZE - CHECKSUM_SIZE <= n * 4 <= MAXIMUM_BLOCK_SIZE - CHECKSUM_SIZE
  }

  /** ApfsFletcher64 in 64-bit arithmetic; nothing overflows, and the result is the textbook one. */
  method ApfsFletcher64(words: seq<Word>) returns (checksum: nat)
    requires CheckedLength(|words|)
    ensures checksum == Checksum(words)
  {
    var sum1, sum2 := 0, 0;
    for i := 0 to |words|
      invariant sum1 == Sum1(words[..i])
      invariant sum2 == Sum2(words[..i])
    {
      assert words[..i + 1][..i] == words[..i];
      SumsBounded(words[..i + 1]);
      assert sum1 + words[i] == Sum1(words[..i + 1]) < U64;
      sum1 := (sum1 + words[i]) % U64;
      assert sum2 + sum1 == Sum2(words[..i + 1]) < U64;
      sum2 := (sum2 + sum1) % U64;
    }
    assert words[..|words|] == words;
    SumsBounded(words);
    checksum := Finish(sum1, sum2, words);
  }

  /** The closing steps: both halves are reduced and complemented. */
  method Finish(s1: nat, s2: nat, ghost words: seq<Word>) returns (checksum: nat)
    requires s1 == Sum1(words) && s2 == Sum2(words)
    requires s1 + s2 + U32 < U64
    ensures checksum == Checksum(words)
  {
    var sum2 := (s2 + s1) % U64;
    assert sum2 == s1 + s2;
    sum2 := U32 - 1 - sum2 % M;
    DeferredHalves(words);
    var sum1 := (s1 + sum2) % U64;
    assert sum1 == s1 + sum2;
    sum1 := U32 - 1 - sum1 % M;
    checksum := sum1 * U32 + sum2;
  }

  lemma DeferredHalves(words: seq<Word>)
    ensures Low(words) == M - (Sum1(words) + Sum2(words)) % M
    ensures High(words) == M - (Sum1(words) + Low(words)) % M
  {
    SumsReduce(words);
    ModAddBoth(Sum1(words), Sum2(words), M);
    ModAdd(Sum1(words), Low(words), M);
  }

  method BlockChecksumVerify(stored: nat, words: seq<Word>) returns (ok: bool)
    requires CheckedLength(|words|)
    ensures ok <==> stored == Checksum(words)
  {
    var checksum := ApfsFletcher64(words);
    ok := checksum == stored;
  }

  // ----- What the checksum guarantees -----

  lemma AppendWord(words: seq<Word>, w: Word)
    ensures Mod1(words + [w]) == (Mod1(words) + w) % M
    ensures Mod2(words + [w]) == (Mod2(words) + Mod1(words) + w) % M
  {
    var longer := words + [w];
    assert longer[..|words|] == words && longer[|words|] == w;
    ModAdd(Mod1(words) + w, Mod2(words), M);
  }

  lemma Complement(x: nat)
    ensures (x + (M - x % M)) % M == 0
  {
    assert x + (M - x % M) == (x / M + 1) * M + 0;
    DivModUnique(x + (M - x % M), x / M + 1, 0, M);
  }

  lemma HalvesClose(m1: nat, m2: nat)
    ensures var n1, n2 := (m1 + LowHalf(m1, m2)) % M, (m2 + m1 + LowHalf(m1, m2)) % M;
            n2 == 0 && (n1 + HighHalf(m1, m2)) % M == 0
  {
    Complement(m1 + m2);
    var lo, hi := LowHalf(m1, m2), HighHalf(m1, m2);
    Complement(m1 + lo);
    ModAdd(m1 + lo, hi, M);
  }

  /** Appending the halves, low one first, drives both running sums to zero. */
  lemma ChecksumCloses(words: seq<Word>)
    ensures Mod1(words + [Low(words)] + [High(words)]) == 0
    ensures Mod2(words + [Low(words)] + [High(words)]) == 0
  {
    AppendWord(words, Low(words));
    AppendWord(words + [Low(words)], High(words));
    HalvesClose(Mod1(words), Mod2(words));
  }

  lemma {:induction false} ReplaceWord(words: seq<Word>, i: nat, w: Word)
    requires i < |words|
    ensures Sum1(words[i := w]) == Sum1(words) + w - words[i]
    ensures Sum2(words[i := w]) == Sum2(words) + (|words| - i) * (w - words[i])
  {
    var last := |words| - 1;
    if i < last {
      ReplaceWord(words[..last], i, w);
      assert words[i := w][..last] == words[..last][i := w];
    } else {
      assert words[i := w][..last] == words[..last];
    }
  }

  /** The two halves tell exactly the two residues. */
  lemma ChecksumSeparates(a: seq<Word>, b: seq<Word>)
    ensures Checksum(a) == Checksum(b) <==> Sum1(a) % M == Sum1(b) % M && Sum2(a) % M == Sum2(b) % M
  {
    SumsReduce(a);
    SumsReduce(b);
    HalvesSeparate(Mod1(a), Mod2(a), Mod1(b), Mod2(b));
  }

  lemma HalvesSeparate(a1: nat, a2: nat, b1: nat, b2: nat)
    requires a1 < M && a2 < M && b1 < M && b2 < M
    ensures HighHalf(a1, a2) * U32 + LowHalf(a1, a2) == HighHalf(b1, b2) * U32 + LowHalf(b1, b2) <==>
            a1 == b1 && a2 == b2
  {
    var la, lb := LowHalf(a1, a2), LowHalf(b1, b2);
    if HighHalf(a1, a2) == HighHalf(b1, b2) && la == lb {
      SameResidue(a1, b1, la);
      SameResidue(a2, b2, a1);
    }
  }

  lemma SameResidue(a: nat, b: nat, c: nat)
    requires a < M && b < M && (c + a) % M == (c + b) % M
    ensures a == b
  {
    Congruent(c + a, c + b);
  }

  /** Changing one word is missed exactly when the new value is congruent to the old one. */
  lemma SingleWordDetected(words: seq<Word>, i: nat, w: Word)
    requires i < |words|
    ensures Checksum(words[i := w]) == Checksum(words) <==> w % M == words[i] % M
  {
    var changed, x: int, k := words[i := w], words[i], |words| - i;
    ReplaceWord(words, i, w);
    ChecksumSeparates(changed, words);
    SumsDetect(Sum1(words), Sum2(words), Sum1(changed), Sum2(changed), w, x, k);
  }

  /** The two words that the checksum cannot tell apart. */
  lemma ZeroAndAllOnesCollide(words: seq<Word>, i: nat)
    requires i < |words|
    ensures Checksum(words[i := 0]) == Checksum(words[i := 0xFFFF_FFFF])
  {
    SingleWordDetected(words[i := 0], i, 0xFFFF_FFFF);
    assert words[i := 0][i := 0xFFFF_FFFF] == words[i := 0xFFFF_FFFF];
  }

  lemma SumsDetect(s1: int, s2: int, c1: int, c2: int, w: int, x: int, k: nat)
    requires c1 == s1 + w - x && c2 == s2 + k * (w - x)
    ensures c1 % M == s1 % M && c2 % M == s2 % M <==> w % M == x % M
  {
    ShiftDetected(s1, s2, w, x, k);
  }

  lemma ShiftDetected(s1: int, s2: int, w: int, x: int, k: nat)
    ensures (s1 + w - x) % M == s1 % M && (s2 + k * (w - x)) % M == s2 % M <==> w % M == x % M
  {
    Congruent(s1 + w - x, s1);
    Congruent(w, x);
    if w % M == x % M {
      CongruentMultiple(w, x, k);
      Congruent(s2 + k * (w - x), s2);
    }
  }

  lemma Congruent(a: int, b: int)
    ensures a % M == b % M <==> (a - b) % M == 0
  {
    var qa, qb := a / M, b / M;
    assert a == qa * M + a % M && b == qb * M + b % M;
    var d := (a - b) / M;
    assert a - b == d * M + (a - b) % M;
  }

  lemma CongruentMultiple(a: int, b: int, k: nat)
    requires a % M == b % M
    ensures (k * (a - b)) % M == 0
  {
    Congruent(a, b);
    var q := (a - b) / M;
    assert a - b == q * M;
    MulMoves(k, q, M);
    DivModUnique(k * (a - b), k * q, 0, M);
  }

  lemma MulMoves(k: int, q: int, m: int)
    ensures k * (q * m) == (k * q) * m
  {
  }

  function Difference(a: int, b: int): int {
    a - b
  }

  /**
   Exchanging two words is missed exactly when their distance times their difference is a multiple of
   the modulus; neighbours that are not congruent are always caught.
   */
  lemma ExchangeDetected(words: seq<Word>, i: nat, j: nat)
    requires i < j < |words|
    ensures Checksum(words[i := words[j]][j := words[i]]) == Checksum(words) <==>
            ((j - i) * Difference(words[j], words[i])) % M == 0
  {
    var x: int, y: int := words[i], words[j];
    var once := words[i := y];
    var both := once[j := x];
    ReplaceWord(words, i, y);
    ReplaceWord(once, j, x);
    ChecksumSeparates(both, words);
    ExchangeDecides(Sum1(words), Sum2(words), Sum1(once), Sum2(once), Sum1(both), Sum2(both), |words| - i, |words| - j, x, y);
  }

  lemma ExchangeDecides(s1: int, s2: int, o1: int, o2: int, b1: int, b2: int, k: nat, l: nat, x: int, y: int)
    requires o1 == s1 + y - x && o2 == s2 + k * (y - x)
    requires b1 == o1 + x - y && b2 == o2 + l * (x - y)
    ensures b1 % M == s1 % M && b2 % M == s2 % M <==> ((k - l) * Difference(y, x)) % M == 0
  {
    Distribute(k, l, y - x);
    assert b2 - s2 == (k - l) * (y - x);
    Congruent(b2, s2);
  }

  lemma Distribute(k: int, l: int, d: int)
    ensures k * d + l * -d == (k - l) * d
  {
  }

  // ----- The superblock reader -----

  datatype SuperBlock = SuperBlock(
    checksum: nat, words: seq<Word>, magic: nat, blockSize: nat,
    objectType: nat, objectSubType: nat, objectOid: nat)

  predicate BlockSizeAccepted(blockSize: nat, mediaBlockSize: nat)
    requires mediaBlockSize > 0
  {
    && blockSize >= mediaBlockSize
    && And(blockSize, mediaBlockSize - 1) == 0
    && And(blockSize, 3) == 0
    && MINIMUM_BLOCK_SIZE <= blockSize <= MAXIMUM_BLOCK_SIZE
  }

  /** Every accepted block size meets the conditions under which the sums cannot overflow. */
  lemma AcceptedSizeIsChecked(blockSize: nat, mediaBlockSize: nat)
    requires mediaBlockSize > 0 && BlockSizeAccepted(blockSize, mediaBlockSize)
    ensures (blockSize - CHECKSUM_SIZE) % 4 == 0 && CheckedLength((blockSize - CHECKSUM_SIZE) / 4)
  {
    assert And(blockSize, 3) == 2 * And(blockSize / 2, 1) + blockSize % 2;
    assert And(blockSize / 2, 1) == 2 * And(blockSize / 2 / 2, 0) + (blockSize / 2) % 2;
  }

  /** The tests in front of the checksum. */
  predicate Recognised(b: SuperBlock, mediaBlockSize: nat)
    requires mediaBlockSize > 0
  {
    b.magic == NX_SIGNATURE && BlockSizeAccepted(b.blockSize, mediaBlockSize)
  }

  /** The checksum over the announced size, and the object header. */
  predicate Sound(b: SuperBlock) {
    && CHECKSUM_SIZE <= b.blockSize && (b.blockSize - CHECKSUM_SIZE) / 4 <= |b.words|
    && b.checksum == Checksum(b.words[..(b.blockSize - CHECKSUM_SIZE) / 4])
    && b.objectType == NX_SUPERBLOCK_TYPE && b.objectSubType == 0 && b.objectOid == 1
  }

  /** A read of `size` bytes gave a block that passes every test. */
  predicate Passes(block: Option<SuperBlock>, size: nat, mediaBlockSize: nat)
    requires mediaBlockSize > 0
  {
    block.Some? && Recognised(block.value, mediaBlockSize) && block.value.blockSize <= size && Sound(block.value)
  }

  /** A read of `size` bytes gave a block that announces a larger size. */
  predicate Announces(block: Option<SuperBlock>, size: nat, mediaBlockSize: nat)
    requires mediaBlockSize > 0
  {
    block.Some? && Recognised(block.value, mediaBlockSize) && block.value.blockSize > size
  }

  /** The minimum block size aligned to the disk's, as ALIGN_VALUE computes it in 32 bits. */
  function FirstSize(mediaBlockSize: nat): nat
    requires mediaBlockSize > 0
  {
    MINIMUM_BLOCK_SIZE + And((mediaBlockSize - MINIMUM_BLOCK_SIZE) % U32, mediaBlockSize - 1)
  }

  /**
   InternalApfsReadSuperBlock. `read(attempt, size)` is the super block found in a read of `size` bytes,
   None when the memory or the disk fails; its words are everything after the checksum. A block is
   returned exactly when the first read, or the second one of the announced size, passes every test.
   */
  method ReadSuperBlock(mediaBlockSize: nat, read: (nat, nat) -> Option<SuperBlock>) returns (result: Option<SuperBlock>)
    requires mediaBlockSize > 0
    requires forall attempt: nat, size: nat :: read(attempt, size).Some? ==>
               |read(attempt, size).value.words| * 4 >= size - CHECKSUM_SIZE
    ensures var size := FirstSize(mediaBlockSize);
            var first := read(0, size);
            if Passes(first, size, mediaBlockSize) then result == first
            else if Announces(first, size, mediaBlockSize) then
              var second := read(1, first.value.blockSize);
              result == if Passes(second, first.value.blockSize, mediaBlockSize) then second else None
            else result == None
  {
    var readSize := FirstSize(mediaBlockSize);
    ghost var size := readSize;
    ghost var first := read(0, size);
    for attempt := 0 to 2
      invariant attempt == 0 ==> readSize == size
      invariant attempt > 0 ==> Announces(first, size, mediaBlockSize)
      invariant attempt == 1 ==> readSize == first.value.blockSize
      invariant attempt == 2 ==> !Passes(read(1, first.value.blockSize), first.value.blockSize, mediaBlockSize)
    {
      var block := read(attempt, readSize);
      if block.None? || block.value.magic != NX_SIGNATURE {
        break;
      }
      var b := block.value;
      if !BlockSizeAccepted(b.blockSize, mediaBlockSize) {
        break;
      }
      if b.blockSize > readSize {
        readSize := b.blockSize;
        continue;
      }
      AcceptedSizeIsChecked(b.blockSize, mediaBlockSize);
      var ok := BlockChecksumVerify(b.checksum, b.words[..(b.blockSize - CHECKSUM_SIZE) / 4]);
      if !ok {
        break;
      }
      if b.objectType != NX_SUPERBLOCK_TYPE || b.objectSubType != 0 || b.objectOid != 1 {
        break;
      }
      return Some(b);
    }
    return None;
  }
}
