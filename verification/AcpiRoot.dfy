/** Writing the root tables: XSDT, RSDT and the two overlapping checksums of the RSDP. */
module AcpiRoot {
  import opened Machine
  import opened Bytes
  import opened AcpiTables

  const LENGTH_OFFSET: nat := 4
  const CHECKSUM_OFFSET: nat := 9
  const RSDP_CHECKSUM_OFFSET: nat := 8
  const RSDP_CHECKSUM_SIZE: nat := 20
  const RSDP_RSDT_OFFSET: nat := 16
  const RSDP_LENGTH_OFFSET: nat := 20
  const RSDP_XSDT_OFFSET: nat := 24
  const RSDP_EXTENDED_OFFSET: nat := 32

  // ----- Byte sums -----

  function ByteSum(s: seq<Byte>): nat {
    if s == [] then 0 else
      var last: nat := s[|s| - 1];
      ByteSum(s[..|s| - 1]) + last
  }

  lemma {:induction false} SumReplace(s: seq<Byte>, i: nat, v: Byte)
    requires i < |s|
    ensures ByteSum(s[i := v]) + s[i] == ByteSum(s) + v
  {
    var last := |s| - 1;
    if i < last {
      SumReplace(s[..last], i, v);
      assert s[i := v][..last] == s[..last][i := v];
    } else {
      assert s[i := v][..last] == s[..last];
    }
  }

  method Sum8(a: array<Byte>, from: nat, size: nat) returns (sum: nat)
    requires from + size <= a.Length
    ensures sum == ByteSum(a[from..from + size]) % 0x100
  {
    sum := 0;
    for i := 0 to size
      invariant sum == ByteSum(a[from..from + i]) % 0x100
    {
      assert a[from..from + i + 1][..i] == a[from..from + i];
      ModAdd(ByteSum(a[from..from + i]), a[from + i], 0x100);
      var b: nat := a[from + i];
      sum := (sum + b) % 0x100;
    }
  }

  /** Zeroes the checksum byte, sums up the structure and stores the complement. */
  method Seal(a: array<Byte>, from: nat, size: nat, at: nat)
    requires from <= at < from + size <= a.Length
    modifies a
    ensures a[..] == old(a[..])[at := a[at]]
    ensures ByteSum(a[from..from + size]) % 0x100 == 0
  {
    a[at] := 0;
    var sum := Sum8(a, from, size);
    ghost var zeroed := a[from..from + size];
    a[at] := (0x100 - sum) % 0x100;
    assert a[from..from + size] == zeroed[at - from := a[at]];
    SumReplace(zeroed, at - from, a[at]);
    SealSum(ByteSum(zeroed));
  }

  lemma SealSum(sum: nat)
    ensures (sum + (0x100 - sum % 0x100) % 0x100) % 0x100 == 0
  {
  }

  // ----- One root table -----

  function EntryBytes(addresses: seq<nat>, width: nat): (s: seq<Byte>)
    ensures |s| == width * |addresses|
  {
    if addresses == [] then [] else
      var last := |addresses| - 1;
      assert width * (last + 1) == width * last + width;
      EntryBytes(addresses[..last], width) + EncodeNumber(addresses[last], width)
  }

  /** The bytes of a root table before it is sealed. */
  function RootBytes(header: seq<Byte>, addresses: seq<nat>, width: nat): (s: seq<Byte>)
    requires |header| == DESCRIPTION_HEADER_SIZE
    ensures |s| == DESCRIPTION_HEADER_SIZE + width * |addresses|
  {
    HeaderBytes(header, DESCRIPTION_HEADER_SIZE + width * |addresses|) + EntryBytes(addresses, width)
  }

  /** Reading entry `i` back gives the address, as far as the entries are wide enough. */
  lemma {:induction false} EntriesDecode(addresses: seq<nat>, width: nat, i: nat)
    requires i < |addresses|
    ensures 0 <= width * i <= width * i + width <= width * |addresses|
    ensures Decode(EntryBytes(addresses, width)[width * i..width * i + width]) == addresses[i] % Limit(width)
    decreases |addresses|
  {
    var last := |addresses| - 1;
    var front, entry := EntryBytes(addresses[..last], width), EncodeNumber(addresses[last], width);
    assert width * (last + 1) == width * last + width;
    if i == last {
      DecodeEncoded(addresses[i], width);
      Behind(front, entry);
    } else {
      EntriesDecode(addresses[..last], width, i);
      Within(front, entry, width * i, width * i + width);
    }
  }

  lemma Behind(front: seq<Byte>, entry: seq<Byte>)
    ensures (front + entry)[|front|..|front| + |entry|] == entry
  {
  }

  lemma Within(front: seq<Byte>, entry: seq<Byte>, from: nat, to: nat)
    requires from <= to <= |front|
    ensures (front + entry)[from..to] == front[from..to]
  {
  }

  /** A sealed root table lists the addresses, states its length and sums to zero. */
  ghost predicate IsRoot(table: seq<Byte>, header: seq<Byte>, addresses: seq<nat>, width: nat) {
    && |header| == DESCRIPTION_HEADER_SIZE
    && |table| == DESCRIPTION_HEADER_SIZE + width * |addresses|
    && table == RootBytes(header, addresses, width)[CHECKSUM_OFFSET := table[CHECKSUM_OFFSET]]
    && ByteSum(table) % 0x100 == 0
  }

  lemma RootStatesLength(table: seq<Byte>, header: seq<Byte>, addresses: seq<nat>, width: nat)
    requires IsRoot(table, header, addresses, width)
    ensures Decode(table[LENGTH_OFFSET..LENGTH_OFFSET + 4]) == |table| % U32
  {
    DecodeEncoded(|table|, 4);
    Limits();
    assert table[LENGTH_OFFSET..LENGTH_OFFSET + 4] == EncodeNumber(|table|, 4);
  }

  /** Entry `i` as a reader of the table finds it. */
  function EntryAt(table: seq<Byte>, width: nat, i: nat): nat
    requires 0 <= width * i && DESCRIPTION_HEADER_SIZE + width * i + width <= |table|
  {
    var at := DESCRIPTION_HEADER_SIZE + width * i;
    Decode(table[at..at + width])
  }

  /** A reader of the table finds the addresses in order, as far as the entries are wide enough. */
  lemma RootEnumerates(table: seq<Byte>, header: seq<Byte>, addresses: seq<nat>, width: nat, i: nat)
    requires IsRoot(table, header, addresses, width) && i < |addresses|
    ensures 0 <= width * i && DESCRIPTION_HEADER_SIZE + width * i + width <= |table|
    ensures EntryAt(table, width, i) == addresses[i] % Limit(width)
  {
    EntriesDecode(addresses, width, i);
    var entries := EntryBytes(addresses, width);
    var at := width * i;
    var root := RootBytes(header, addresses, width);
    assert root[DESCRIPTION_HEADER_SIZE..] == entries;
    TailSlice(table, root, entries, at, width);
  }

  /** The entry is the address exactly when the address fits its width: below 4 GB in an RSDT. */
  lemma EntryIsAddress(table: seq<Byte>, header: seq<Byte>, addresses: seq<nat>, width: nat, i: nat)
    requires IsRoot(table, header, addresses, width) && i < |addresses|
    ensures 0 <= width * i && DESCRIPTION_HEADER_SIZE + width * i + width <= |table|
    ensures EntryAt(table, width, i) == addresses[i] <==> addresses[i] < Limit(width)
    ensures Limit(4) == U32 && Limit(8) == U64
  {
    RootEnumerates(table, header, addresses, width, i);
    Limits();
    if addresses[i] < Limit(width) {
      DivModUnique(addresses[i], 0, addresses[i], Limit(width));
    }
  }

  /** The XSDT and the RSDT of one list name the same table exactly when it lies below 4 GB. */
  lemma RootsAgree(xsdt: seq<Byte>, rsdt: seq<Byte>, headers: (seq<Byte>, seq<Byte>), addresses: seq<nat>, i: nat)
    requires IsRoot(xsdt, headers.0, addresses, 8) && IsRoot(rsdt, headers.1, addresses, 4)
    requires i < |addresses| && addresses[i] < U64
    ensures EntryAt(xsdt, 8, i) == addresses[i]
    ensures EntryAt(xsdt, 8, i) == EntryAt(rsdt, 4, i) <==> addresses[i] < U32
  {
    EntryIsAddress(xsdt, headers.0, addresses, 8, i);
    EntryIsAddress(rsdt, headers.1, addresses, 4, i);
  }

  /** A table right at 4 GB is listed by the RSDT as one at address 0. */
  lemma HighTableTruncated(rsdt: seq<Byte>, header: seq<Byte>)
    requires IsRoot(rsdt, header, [0x1_0000_0000], 4)
    ensures EntryAt(rsdt, 4, 0) == 0
  {
    RootEnumerates(rsdt, header, [0x1_0000_0000], 4, 0);
    Limits();
  }

  lemma TailSlice(table: seq<Byte>, root: seq<Byte>, entries: seq<Byte>, at: nat, width: nat)
    requires at + width <= |entries| && |root| == |table| == DESCRIPTION_HEADER_SIZE + |entries|
    requires root[DESCRIPTION_HEADER_SIZE..] == entries && table == root[CHECKSUM_OFFSET := table[CHECKSUM_OFFSET]]
    ensures table[DESCRIPTION_HEADER_SIZE + at..DESCRIPTION_HEADER_SIZE + at + width] == entries[at..at + width]
  {
    var x, y := table[DESCRIPTION_HEADER_SIZE + at..DESCRIPTION_HEADER_SIZE + at + width], entries[at..at + width];
    forall k | 0 <= k < |x| ensures x[k] == y[k] {
      assert y[k] == root[DESCRIPTION_HEADER_SIZE..][at + k];
    }
  }

  /** Writes one root table at `at`: header, length, entries, then the checksum. */
  method WriteRoot(region: array<Byte>, at: nat, header: seq<Byte>, addresses: seq<nat>, width: nat) returns (size: nat)
    requires |header| == DESCRIPTION_HEADER_SIZE
    requires at + DESCRIPTION_HEADER_SIZE + width * |addresses| <= region.Length
    modifies region
    ensures size == DESCRIPTION_HEADER_SIZE + width * |addresses|
    ensures region[..at] == old(region[..at]) && region[at + size..] == old(region[at + size..])
    ensures IsRoot(region[at..at + size], header, addresses, width)
  {
    size := DESCRIPTION_HEADER_SIZE + width * |addresses|;
    ghost var was := region[..];
    WriteHeader(region, at, header, size);
    ghost var headed := region[..];
    WriteEntries(region, at + DESCRIPTION_HEADER_SIZE, addresses, width);
    PartsJoin(region[..], headed, was, at, header, addresses, width);
    ghost var done := region[..];
    Seal(region, at, size, at + CHECKSUM_OFFSET);
    SealJoins(region[..], done, at, size, region[at + CHECKSUM_OFFSET]);
  }

  lemma SealJoins(now: seq<Byte>, was: seq<Byte>, at: nat, size: nat, v: Byte)
    requires DESCRIPTION_HEADER_SIZE <= size && at + size <= |was| && now == was[at + CHECKSUM_OFFSET := v]
    ensures now[at..at + size] == was[at..at + size][CHECKSUM_OFFSET := v]
    ensures now[..at] == was[..at] && now[at + size..] == was[at + size..]
  {
  }

  function HeaderBytes(header: seq<Byte>, size: nat): (s: seq<Byte>)
    requires |header| == DESCRIPTION_HEADER_SIZE
    ensures |s| == DESCRIPTION_HEADER_SIZE
  {
    header[..LENGTH_OFFSET] + EncodeNumber(size, 4) + header[LENGTH_OFFSET + 4..]
  }

  /** Header and entries, written one after the other, make up the table. */
  lemma PartsJoin(now: seq<Byte>, headed: seq<Byte>, was: seq<Byte>, at: nat, header: seq<Byte>, addresses: seq<nat>, width: nat)
    requires |header| == DESCRIPTION_HEADER_SIZE && at + DESCRIPTION_HEADER_SIZE + width * |addresses| <= |was|
    requires var size := DESCRIPTION_HEADER_SIZE + width * |addresses|;
             && headed == was[..at] + HeaderBytes(header, size) + was[at + DESCRIPTION_HEADER_SIZE..]
             && now == headed[..at + DESCRIPTION_HEADER_SIZE] + EntryBytes(addresses, width) + headed[at + size..]
    ensures var size := DESCRIPTION_HEADER_SIZE + width * |addresses|;
            && |now| == |was|
            && now[at..at + size] == RootBytes(header, addresses, width)
            && now[..at] == was[..at] && now[at + size..] == was[at + size..]
  {
    var size := DESCRIPTION_HEADER_SIZE + width * |addresses|;
    assert headed[..at + DESCRIPTION_HEADER_SIZE] == was[..at] + HeaderBytes(header, size);
    assert headed[at + size..] == was[at + size..];
  }

  method WriteHeader(region: array<Byte>, at: nat, header: seq<Byte>, size: nat)
    requires |header| == DESCRIPTION_HEADER_SIZE && at + DESCRIPTION_HEADER_SIZE <= region.Length
    modifies region
    ensures region[..] == old(region[..at]) + HeaderBytes(header, size) + old(region[at + DESCRIPTION_HEADER_SIZE..])
  {
    Store(region, at, header);
    Store(region, at + LENGTH_OFFSET, EncodeNumber(size, 4));
  }

  method WriteEntries(region: array<Byte>, at: nat, addresses: seq<nat>, width: nat)
    requires at + width * |addresses| <= region.Length
    modifies region
    ensures region[..] == old(region[..at]) + EntryBytes(addresses, width) + old(region[at + width * |addresses|..])
  {
    ghost var was := region[..];
    var end := at;
    for i := 0 to |addresses|
      invariant end == at + width * i <= at + width * |addresses|
      invariant region[..] == was[..at] + EntryBytes(addresses[..i], width) + was[end..]
    {
      MulStep(width, i, |addresses|);
      ghost var before := region[..];
      Store(region, end, EncodeNumber(addresses[i], width));
      EntryJoins(region[..], before, was, at, end, EntryBytes(addresses[..i], width), EncodeNumber(addresses[i], width));
      assert addresses[..i + 1][..i] == addresses[..i];
      end := end + width;
    }
    assert addresses[..|addresses|] == addresses;
  }

  lemma EntryJoins(now: seq<Byte>, before: seq<Byte>, was: seq<Byte>, at: nat, end: nat, entries: seq<Byte>, entry: seq<Byte>)
    requires end == at + |entries| && end + |entry| <= |was|
    requires before == was[..at] + entries + was[end..]
    requires now == before[..end] + entry + before[end + |entry|..]
    ensures now == was[..at] + (entries + entry) + was[end + |entry|..]
  {
    assert before[..end] == was[..at] + entries;
    assert before[end + |entry|..] == was[end + |entry|..];
  }

  lemma MulStep(width: nat, i: nat, n: nat)
    requires i < n
    ensures width * (i + 1) == width * i + width <= width * n
  {
    assert width * n == width * (i + 1) + width * (n - i - 1);
  }

  // ----- The whole context -----

  function Align8(n: nat): nat {
    (n + 7) / 8 * 8
  }

  function Addresses(tables: seq<Table>): (s: seq<nat>)
    ensures |s| == |tables| && forall i :: 0 <= i < |tables| ==> s[i] == tables[i].address
  {
    seq(|tables|, i requires 0 <= i < |tables| => tables[i].address)
  }

  function XsdtSize(xsdt: Option<seq<Byte>>, n: nat): nat {
    if xsdt.None? then 0 else DESCRIPTION_HEADER_SIZE + 8 * n
  }

  function RsdtSize(rsdt: Option<seq<Byte>>, n: nat): nat {
    if rsdt.None? then 0 else DESCRIPTION_HEADER_SIZE + 4 * n
  }

  /** The RSDP can take the pointers: an extended one states a length that covers its second checksum. */
  predicate RsdpFits(rsdp: seq<Byte>, extended: bool) {
    && |rsdp| >= RSDP_CHECKSUM_SIZE
    && (extended ==>
          && |rsdp| >= 36
          && RSDP_EXTENDED_OFFSET < StatedLength(rsdp) <= |rsdp|)
  }

  /** A sealed root table lies at `at`. */
  ghost predicate RootAt(region: seq<Byte>, at: nat, header: seq<Byte>, addresses: seq<nat>, width: nat) {
    var size := DESCRIPTION_HEADER_SIZE + width * |addresses|;
    at + size <= |region| && IsRoot(region[at..at + size], header, addresses, width)
  }

  /** The root tables that exist: the XSDT first, the RSDT behind it. */
  ghost predicate RootsWritten(region: seq<Byte>, xsdt: Option<seq<Byte>>, rsdt: Option<seq<Byte>>, addresses: seq<nat>) {
    && (xsdt.Some? ==> RootAt(region, 0, xsdt.value, addresses, 8))
    && (rsdt.Some? ==> RootAt(region, RsdtOffset(xsdt, |addresses|), rsdt.value, addresses, 4))
  }

  function RsdtOffset(xsdt: Option<seq<Byte>>, n: nat): nat {
    Align8(XsdtSize(xsdt, n))
  }

  /** The RSDP holds the pointers given, and both its checksums are right. */
  ghost predicate Points(rsdp: seq<Byte>, xsdt: Option<nat>, rsdt: Option<nat>) {
    && RsdpFits(rsdp, xsdt.Some?)
    && ByteSum(rsdp[..RSDP_CHECKSUM_SIZE]) % 0x100 == 0
    && (rsdt.Some? ==> Decode(rsdp[RSDP_RSDT_OFFSET..RSDP_RSDT_OFFSET + 4]) == rsdt.value)
    && (xsdt.Some? ==>
          && Decode(rsdp[RSDP_XSDT_OFFSET..RSDP_XSDT_OFFSET + 8]) == xsdt.value
          && ByteSum(rsdp[..StatedLength(rsdp)]) % 0x100 == 0)
  }

  /** The length an extended RSDP states. */
  function StatedLength(rsdp: seq<Byte>): nat
    requires |rsdp| >= RSDP_LENGTH_OFFSET + 4
  {
    Decode(rsdp[RSDP_LENGTH_OFFSET..RSDP_LENGTH_OFFSET + 4])
  }

  /**
   AcpiApplyContext once memory is allocated: `region` is that memory and `base` its address below 4 GB;
   `xsdt` and `rsdt` are the old headers of the root tables that exist.
   */
  method ApplyContext(ctx: Context, xsdt: Option<seq<Byte>>, rsdt: Option<seq<Byte>>, rsdp: array<Byte>, region: array<Byte>, base: nat)
    requires ctx.Valid() && rsdp != region
    requires xsdt.Some? ==> |xsdt.value| == DESCRIPTION_HEADER_SIZE
    requires rsdt.Some? ==> |rsdt.value| == DESCRIPTION_HEADER_SIZE
    requires RsdpFits(rsdp[..], xsdt.Some?)
    requires Align8(XsdtSize(xsdt, ctx.numberOfTables)) + Align8(RsdtSize(rsdt, ctx.numberOfTables)) <= region.Length
    requires base + region.Length <= U32
    modifies rsdp, region
    ensures RootsWritten(region[..], xsdt, rsdt, Addresses(ctx.Contents()))
    ensures Points(rsdp[..], if xsdt.Some? then Some(base) else None,
                   if rsdt.Some? then Some(base + RsdtOffset(xsdt, ctx.numberOfTables)) else None)
    ensures xsdt.Some? ==> StatedLength(rsdp[..]) == old(StatedLength(rsdp[..]))
  {
    var addresses := Addresses(ctx.tables[..ctx.numberOfTables]);
    var at := WriteRoots(region, xsdt, rsdt, addresses);
    UpdateRsdp(rsdp, if xsdt.Some? then Some(base) else None, if rsdt.Some? then Some(base + at) else None);
  }

  /** XSDT first, then the RSDT behind it at `at`. */
  method WriteRoots(region: array<Byte>, xsdt: Option<seq<Byte>>, rsdt: Option<seq<Byte>>, addresses: seq<nat>) returns (at: nat)
    requires xsdt.Some? ==> |xsdt.value| == DESCRIPTION_HEADER_SIZE
    requires rsdt.Some? ==> |rsdt.value| == DESCRIPTION_HEADER_SIZE
    requires Align8(XsdtSize(xsdt, |addresses|)) + Align8(RsdtSize(rsdt, |addresses|)) <= region.Length
    modifies region
    ensures at == RsdtOffset(xsdt, |addresses|) && (rsdt.Some? ==> at < region.Length)
    ensures RootsWritten(region[..], xsdt, rsdt, addresses)
  {
    at := 0;
    if xsdt.Some? {
      var size := WriteRoot(region, 0, xsdt.value, addresses, 8);
      assert region[..][0..size] == region[0..size];
      at := Align8(size);
    }
    if rsdt.Some? {
      ghost var before := region[..];
      var size := WriteRoot(region, at, rsdt.value, addresses, 4);
      FrontKept(before, region[..], XsdtSize(xsdt, |addresses|), at);
      assert region[..][at..at + size] == region[at..at + size];
    }
  }

  lemma FrontKept(before: seq<Byte>, after: seq<Byte>, size: nat, at: nat)
    requires size <= at <= |before| == |after| && before[..at] == after[..at]
    ensures before[0..size] == after[0..size]
  {
    assert before[..at][..size] == before[0..size] && after[..at][..size] == after[0..size];
  }

  /** New pointers, then the checksum of the first twenty bytes, then the one over everything. */
  method UpdateRsdp(rsdp: array<Byte>, xsdt: Option<nat>, rsdt: Option<nat>)
    requires RsdpFits(rsdp[..], xsdt.Some?)
    requires xsdt.Some? ==> xsdt.value < U64
    requires rsdt.Some? ==> rsdt.value < U32
    modifies rsdp
    ensures Points(rsdp[..], xsdt, rsdt)
    ensures xsdt.Some? ==> StatedLength(rsdp[..]) == old(StatedLength(rsdp[..]))
  {
    PutPointers(rsdp, xsdt, rsdt);
    SealBoth(rsdp, xsdt.Some?);
    Limits();
    if xsdt.Some? {
      DecodesTo(rsdp[..], RSDP_XSDT_OFFSET, xsdt.value, 8);
    }
    if rsdt.Some? {
      DecodesTo(rsdp[..], RSDP_RSDT_OFFSET, rsdt.value, 4);
    }
  }

  method PutPointers(rsdp: array<Byte>, xsdt: Option<nat>, rsdt: Option<nat>)
    requires RsdpFits(rsdp[..], xsdt.Some?)
    modifies rsdp
    ensures RsdpFits(rsdp[..], xsdt.Some?)
    ensures xsdt.Some? ==>
              StatedLength(rsdp[..]) == old(StatedLength(rsdp[..])) && Holds(rsdp[..], RSDP_XSDT_OFFSET, EncodeNumber(xsdt.value, 8))
    ensures rsdt.Some? ==> Holds(rsdp[..], RSDP_RSDT_OFFSET, EncodeNumber(rsdt.value, 4))
  {
    ghost var was := rsdp[..];
    if xsdt.Some? {
      Put(rsdp, RSDP_XSDT_OFFSET, EncodeNumber(xsdt.value, 8));
    }
    if rsdt.Some? {
      Put(rsdp, RSDP_RSDT_OFFSET, EncodeNumber(rsdt.value, 4));
    }
    if xsdt.Some? {
      LengthKept(was, rsdp[..]);
    }
  }

  lemma LengthKept(was: seq<Byte>, now: seq<Byte>)
    requires |was| == |now| >= RSDP_LENGTH_OFFSET + 4
    requires forall k :: RSDP_LENGTH_OFFSET <= k < RSDP_LENGTH_OFFSET + 4 ==> now[k] == was[k]
    ensures StatedLength(now) == StatedLength(was)
  {
    assert now[RSDP_LENGTH_OFFSET..RSDP_LENGTH_OFFSET + 4] == was[RSDP_LENGTH_OFFSET..RSDP_LENGTH_OFFSET + 4];
  }

  ghost predicate Holds(s: seq<Byte>, at: nat, data: seq<Byte>) {
    at + |data| <= |s| && forall k :: at <= k < at + |data| ==> s[k] == data[k - at]
  }

  lemma DecodesTo(s: seq<Byte>, at: nat, v: nat, n: nat)
    requires v < Limit(n)
    requires Holds(s, at, EncodeNumber(v, n))
    ensures Decode(s[at..at + n]) == v
  {
    DecodeEncoded(v, n);
    DivModUnique(v, 0, v, Limit(n));
    assert s[at..at + n] == EncodeNumber(v, n);
  }

  /** The first twenty bytes, then everything up to the stated length, which holds the first part too. */
  method SealBoth(rsdp: array<Byte>, extended: bool)
    requires RsdpFits(rsdp[..], extended)
    modifies rsdp
    ensures forall k :: 0 <= k < rsdp.Length && k != RSDP_CHECKSUM_OFFSET && k != RSDP_EXTENDED_OFFSET ==>
              rsdp[k] == old(rsdp[k])
    ensures RsdpFits(rsdp[..], extended) && ByteSum(rsdp[..RSDP_CHECKSUM_SIZE]) % 0x100 == 0
    ensures extended ==>
              StatedLength(rsdp[..]) == old(StatedLength(rsdp[..])) && ByteSum(rsdp[..StatedLength(rsdp[..])]) % 0x100 == 0
  {
    ghost var was := rsdp[..];
    Seal(rsdp, 0, RSDP_CHECKSUM_SIZE, RSDP_CHECKSUM_OFFSET);
    ghost var once := rsdp[..];
    assert rsdp[0..RSDP_CHECKSUM_SIZE] == rsdp[..RSDP_CHECKSUM_SIZE];
    if extended {
      LengthKept(was, once);
      var length := Decode(rsdp[RSDP_LENGTH_OFFSET..RSDP_LENGTH_OFFSET + 4]);
      assert rsdp[RSDP_LENGTH_OFFSET..RSDP_LENGTH_OFFSET + 4] == once[RSDP_LENGTH_OFFSET..RSDP_LENGTH_OFFSET + 4];
      Seal(rsdp, 0, length, RSDP_EXTENDED_OFFSET);
      LengthKept(once, rsdp[..]);
      assert rsdp[0..length] == rsdp[..length];
      assert rsdp[..RSDP_CHECKSUM_SIZE] == once[..RSDP_CHECKSUM_SIZE];
    }
  }
}
