/**
 AML package lengths and name strings (sections 20.2.4 and 20.2.2 of ACPI 6.2): what the parser reads at
 an offset, and that it reads back what the encodings write.
 */
module AmlEncoding {
  import opened Machine
  import opened Bytes
  import opened AmlNames

  const ZERO_OP: nat := 0x00
  const DUAL_NAME_PREFIX: nat := 0x2E
  const MULTI_NAME_PREFIX: nat := 0x2F
  const ROOT_CHAR: nat := 0x5C
  const PARENT_PREFIX_CHAR: nat := 0x5E

  // ----- Package lengths -----

  /** A package length and the offset behind it. */
  datatype Package = Package(length: nat, next: nat)

  function PackageAt(t: seq<Byte>, o: nat): (p: Option<Package>)
    ensures p.Some? ==> o < p.value.next <= |t|
  {
    if o >= |t| then None
    else
      var lead: nat := t[o];
      var count := lead / 0x40;
      if o + 1 + count > |t| then None
      else if count == 0 then Some(Package(lead, o + 1))
      else Some(Package(lead % 0x10 + 0x10 * Number(t, o + 1, count), o + 1 + count))
  }

  /** The encoding with `count` bytes behind the lead byte. */
  function EncodePackage(length: nat, count: nat): (s: seq<Byte>)
    requires count <= 3
    requires length < (if count == 0 then 0x40 else 0x10 * Limit(count))
    ensures |s| == count + 1
  {
    if count == 0 then [length] else [0x40 * count + length % 0x10] + EncodeNumber(length / 0x10, count)
  }

  /** Every package length in every admissible format is read back. */
  lemma PackageRoundTrip(t: seq<Byte>, o: nat, length: nat, count: nat)
    requires count <= 3
    requires length < (if count == 0 then 0x40 else 0x10 * Limit(count))
    requires o + count + 1 <= |t| && t[o..o + count + 1] == EncodePackage(length, count)
    ensures PackageAt(t, o) == Some(Package(length, o + count + 1))
  {
    var s := t[o..o + count + 1];
    assert s[0] == t[o];
    if count > 0 {
      assert t[o + 1..o + 1 + count] == s[1..] == EncodeNumber(length / 0x10, count);
      NumberDecodes(t, o + 1, length / 0x10, count);
    }
  }

  // ----- Name strings -----

  /** A name string: where its segments start, how many there are, and the offset behind it. */
  datatype Name = Name(start: nat, count: nat, isRoot: bool, next: nat)

  predicate IsPrefix(b: nat) {
    b == ROOT_CHAR || b == PARENT_PREFIX_CHAR
  }

  /** Offset behind root and parent prefixes, and whether a root prefix was among them. */
  function SkipPrefixes(t: seq<Byte>, o: nat, isRoot: bool): (r: Option<(nat, bool)>)
    requires o < |t|
    ensures r.Some? ==> o <= r.value.0 < |t|
    decreases |t| - o
  {
    if !IsPrefix(t[o]) then Some((o, isRoot))
    else if |t| - o <= 1 then None
    else SkipPrefixes(t, o + 1, isRoot || t[o] == ROOT_CHAR)
  }

  /** The part of a name string behind its prefixes. */
  function BodyAt(t: seq<Byte>, p: nat, isRoot: bool): (n: Option<Name>)
    requires p < |t|
    ensures n.Some? ==> p < n.value.next <= |t| && n.value.start + IDENT_LEN * n.value.count <= |t|
  {
    if t[p] == ZERO_OP then Some(Name(0, 0, isRoot, p + 1))
    else if t[p] == DUAL_NAME_PREFIX then
      if p + 1 + 2 * IDENT_LEN > |t| then None else Some(Name(p + 1, 2, isRoot, p + 1 + 2 * IDENT_LEN))
    else if t[p] == MULTI_NAME_PREFIX then
      if p + 1 >= |t| then None
      else
        var count: nat := t[p + 1];
        if p + 2 + count * IDENT_LEN > |t| then None
        else Some(Name(p + 2, count, isRoot, p + 2 + count * IDENT_LEN))
    else if p + IDENT_LEN > |t| then None
    else Some(Name(p, 1, isRoot, p + IDENT_LEN))
  }

  function NameAt(t: seq<Byte>, o: nat): (n: Option<Name>)
    requires o < |t|
    ensures n.Some? ==> o < n.value.next <= |t| && n.value.start + IDENT_LEN * n.value.count <= |t|
  {
    match SkipPrefixes(t, o, false)
    case None => None
    case Some((p, isRoot)) => BodyAt(t, p, isRoot)
  }

  /** The name segment at an offset. */
  function IdentAt(t: seq<Byte>, o: nat): Ident
    requires o + IDENT_LEN <= |t|
  {
    Big(t[o], t[o + 1], t[o + 2], t[o + 3])
  }

  lemma IdentAtIsPack(t: seq<Byte>, o: nat)
    requires o + IDENT_LEN <= |t|
    ensures IdentAt(t, o) == Pack(t[o..o + IDENT_LEN])
  {
    PackFour(t[o..o + IDENT_LEN]);
  }

  /** The segments of a name string. */
  function Segments(t: seq<Byte>, start: nat, count: nat): (s: seq<Ident>)
    requires start + IDENT_LEN * count <= |t|
    ensures |s| == count
  {
    seq(count, k requires 0 <= k < count => IdentAt(t, start + IDENT_LEN * k))
  }

  function EncodeIdent(v: Ident): (s: seq<Byte>)
    ensures |s| == IDENT_LEN
  {
    [v / 0x100 / 0x100 / 0x100, v / 0x100 / 0x100 % 0x100, v / 0x100 % 0x100, v % 0x100]
  }

  lemma IdentDecodes(t: seq<Byte>, o: nat, v: Ident)
    requires o + IDENT_LEN <= |t| && t[o..o + IDENT_LEN] == EncodeIdent(v)
    ensures IdentAt(t, o) == v
  {
    var s := t[o..o + IDENT_LEN];
    assert s[0] == t[o] && s[1] == t[o + 1] && s[2] == t[o + 2] && s[3] == t[o + 3];
    Digits(v, v / 0x100, v / 0x100 / 0x100, s[0], s[1], s[2], s[3]);
  }

  /** Unpacking a packed segment gives the segment back. */
  lemma EncodeIdentOf(segment: seq<Byte>, v: Ident)
    requires |segment| == IDENT_LEN && v == Pack(segment)
    ensures EncodeIdent(v) == segment
  {
    PackFour(segment);
    Digits(v, v / 0x100, v / 0x100 / 0x100, segment[0], segment[1], segment[2], segment[3]);
  }

  function Flat(segments: seq<Ident>): (s: seq<Byte>)
    ensures |s| == IDENT_LEN * |segments|
  {
    if segments == [] then [] else EncodeIdent(segments[0]) + Flat(segments[1..])
  }

  /** The lead byte of a segment that stands alone must not look like a prefix. */
  predicate PlainLead(b: nat) {
    !IsPrefix(b) && b != ZERO_OP && b != DUAL_NAME_PREFIX && b != MULTI_NAME_PREFIX
  }

  predicate Encodable(prefixes: seq<Byte>, segments: seq<Ident>) {
    && (forall k :: 0 <= k < |prefixes| ==> IsPrefix(prefixes[k]))
    && |segments| < 0x100
    && (|segments| == 1 ==> PlainLead(segments[0] / 0x100 / 0x100 / 0x100))
  }

  function EncodeBody(segments: seq<Ident>): (s: seq<Byte>)
    requires |segments| < 0x100
    ensures |s| == IDENT_LEN * |segments| + (if |segments| < 2 then 1 - |segments| else if |segments| == 2 then 1 else 2)
  {
    if |segments| == 0 then [ZERO_OP]
    else if |segments| == 1 then Flat(segments)
    else if |segments| == 2 then [DUAL_NAME_PREFIX] + Flat(segments)
    else [MULTI_NAME_PREFIX, |segments|] + Flat(segments)
  }

  lemma SegmentsCons(t: seq<Byte>, start: nat, count: nat)
    requires start + IDENT_LEN + IDENT_LEN * count <= |t|
    ensures Segments(t, start, count + 1) == [IdentAt(t, start)] + Segments(t, start + IDENT_LEN, count)
  {
    var all, longer := Segments(t, start, count + 1), [IdentAt(t, start)] + Segments(t, start + IDENT_LEN, count);
    forall k | 0 <= k < |all| ensures all[k] == longer[k] {
      if k > 0 {
        assert start + IDENT_LEN * k == start + IDENT_LEN + IDENT_LEN * (k - 1);
      }
    }
  }

  lemma {:induction false} FlatSegments(segments: seq<Ident>, t: seq<Byte>, start: nat)
    requires start + |Flat(segments)| <= |t| && t[start..start + |Flat(segments)|] == Flat(segments)
    ensures Segments(t, start, |segments|) == segments
  {
    if segments != [] {
      var flat := t[start..start + |Flat(segments)|];
      var rest := Flat(segments[1..]);
      var next := start + IDENT_LEN;
      assert t[next..next + |rest|] == flat[IDENT_LEN..] == rest;
      FlatSegments(segments[1..], t, next);
      assert t[start..next] == flat[..IDENT_LEN] == EncodeIdent(segments[0]);
      IdentDecodes(t, start, segments[0]);
      SegmentsCons(t, start, |segments| - 1);
      assert segments == [segments[0]] + segments[1..];
    }
  }

  lemma {:induction false} PrefixesSkipped(t: seq<Byte>, o: nat, prefixes: seq<Byte>, isRoot: bool)
    requires o + |prefixes| < |t| && t[o..o + |prefixes|] == prefixes
    requires forall k :: 0 <= k < |prefixes| ==> IsPrefix(prefixes[k])
    requires !IsPrefix(t[o + |prefixes|])
    ensures SkipPrefixes(t, o, isRoot) == Some((o + |prefixes|, isRoot || ROOT_CHAR in prefixes))
    decreases |prefixes|
  {
    if prefixes != [] {
      var s := t[o..o + |prefixes|];
      assert s[0] == t[o] == prefixes[0];
      assert t[o + 1..o + |prefixes|] == s[1..] == prefixes[1..];
      PrefixesSkipped(t, o + 1, prefixes[1..], isRoot || t[o] == ROOT_CHAR);
      assert prefixes == [prefixes[0]] + prefixes[1..];
    }
  }

  /** A slice that is a concatenation consists of its parts. */
  lemma SplitsAt(t: seq<Byte>, o: nat, a: seq<Byte>, b: seq<Byte>)
    requires o + |a| + |b| <= |t| && t[o..o + |a| + |b|] == a + b
    ensures t[o..o + |a|] == a && t[o + |a|..o + |a| + |b|] == b
  {
    var s := t[o..o + |a| + |b|];
    assert t[o..o + |a|] == s[..|a|];
    assert t[o + |a|..o + |a| + |b|] == s[|a|..];
    assert s[..|a|] == a && s[|a|..] == b;
  }

  lemma FirstByte(t: seq<Byte>, o: nat, s: seq<Byte>)
    requires s != [] && o + |s| <= |t| && t[o..o + |s|] == s
    ensures t[o] == s[0]
  {
    assert t[o..o + |s|][0] == t[o];
  }

  lemma DualBodyRoundTrip(t: seq<Byte>, p: nat, isRoot: bool, segments: seq<Ident>)
    requires |segments| == 2 && p + 1 + 2 * IDENT_LEN <= |t|
    requires t[p..p + 1 + 2 * IDENT_LEN] == [DUAL_NAME_PREFIX] + Flat(segments)
    ensures BodyAt(t, p, isRoot) == Some(Name(p + 1, 2, isRoot, p + 1 + 2 * IDENT_LEN))
    ensures !IsPrefix(t[p]) && Segments(t, p + 1, 2) == segments
  {
    SplitsAt(t, p, [DUAL_NAME_PREFIX], Flat(segments));
    FlatSegments(segments, t, p + 1);
    DualBodyAt(t, p, isRoot);
  }

  lemma DualBodyAt(t: seq<Byte>, p: nat, isRoot: bool)
    requires p + 1 + 2 * IDENT_LEN <= |t| && t[p..p + 1] == [DUAL_NAME_PREFIX]
    ensures BodyAt(t, p, isRoot) == Some(Name(p + 1, 2, isRoot, p + 1 + 2 * IDENT_LEN)) && !IsPrefix(t[p])
  {
    assert t[p..p + 1][0] == t[p];
  }

  lemma MultiBodyRoundTrip(t: seq<Byte>, p: nat, isRoot: bool, segments: seq<Ident>, end: nat)
    requires 2 < |segments| < 0x100 && end == p + 2 + |Flat(segments)| <= |t|
    requires t[p..end] == [MULTI_NAME_PREFIX, |segments|] + Flat(segments)
    ensures BodyAt(t, p, isRoot) == Some(Name(p + 2, |segments|, isRoot, end))
    ensures !IsPrefix(t[p]) && Segments(t, p + 2, |segments|) == segments
  {
    var lead: seq<Byte> := [MULTI_NAME_PREFIX, |segments|];
    SplitsAt(t, p, lead, Flat(segments));
    FlatSegments(segments, t, p + 2);
    MultiBodyAt(t, p, isRoot, |segments|, end);
  }

  lemma MultiBodyAt(t: seq<Byte>, p: nat, isRoot: bool, n: nat, end: nat)
    requires n < 0x100 && end == p + 2 + IDENT_LEN * n <= |t| && t[p..p + 2] == [MULTI_NAME_PREFIX, n]
    ensures BodyAt(t, p, isRoot) == Some(Name(p + 2, n, isRoot, end)) && !IsPrefix(t[p])
  {
    assert t[p..p + 2][0] == t[p] && t[p..p + 2][1] == t[p + 1];
  }

  lemma SingleBodyRoundTrip(t: seq<Byte>, p: nat, isRoot: bool, segments: seq<Ident>)
    requires |segments| == 1 && Encodable([], segments)
    requires p + IDENT_LEN <= |t| && t[p..p + IDENT_LEN] == Flat(segments)
    ensures BodyAt(t, p, isRoot) == Some(Name(p, 1, isRoot, p + IDENT_LEN))
    ensures !IsPrefix(t[p]) && Segments(t, p, 1) == segments
  {
    FirstByte(t, p, Flat(segments));
    assert Flat(segments)[0] == EncodeIdent(segments[0])[0];
    FlatSegments(segments, t, p);
  }

  lemma BodyRoundTrip(t: seq<Byte>, p: nat, isRoot: bool, segments: seq<Ident>)
    requires Encodable([], segments)
    requires p + |EncodeBody(segments)| <= |t| && t[p..p + |EncodeBody(segments)|] == EncodeBody(segments)
    ensures p < |t| && !IsPrefix(t[p]) && BodyAt(t, p, isRoot).Some?
    ensures var n := BodyAt(t, p, isRoot).value;
            n.next == p + |EncodeBody(segments)| && n.isRoot == isRoot && Segments(t, n.start, n.count) == segments
  {
    if |segments| == 0 {
      FirstByte(t, p, [ZERO_OP]);
      assert Segments(t, 0, 0) == [];
    } else if |segments| == 1 {
      SingleBodyRoundTrip(t, p, isRoot, segments);
    } else if |segments| == 2 {
      DualBodyRoundTrip(t, p, isRoot, segments);
    } else {
      MultiBodyRoundTrip(t, p, isRoot, segments, p + |EncodeBody(segments)|);
    }
  }

  /** Every name string is read back: its segments, whether it is a root path, and where it ends. */
  lemma NameRoundTrip(t: seq<Byte>, o: nat, prefixes: seq<Byte>, segments: seq<Ident>)
    requires Encodable(prefixes, segments)
    requires var s := prefixes + EncodeBody(segments); o + |s| <= |t| && t[o..o + |s|] == s
    ensures o < |t| && NameAt(t, o).Some?
    ensures var n := NameAt(t, o).value;
            && n.next == o + |prefixes| + |EncodeBody(segments)|
            && n.isRoot == (ROOT_CHAR in prefixes)
            && Segments(t, n.start, n.count) == segments
  {
    var p := o + |prefixes|;
    SplitsAt(t, o, prefixes, EncodeBody(segments));
    BodyRoundTrip(t, p, ROOT_CHAR in prefixes, segments);
    PrefixesSkipped(t, o, prefixes, false);
    NameFrom(t, o, p, ROOT_CHAR in prefixes);
  }

  lemma NameFrom(t: seq<Byte>, o: nat, p: nat, isRoot: bool)
    requires o < |t| && SkipPrefixes(t, o, false) == Some((p, isRoot))
    ensures NameAt(t, o) == BodyAt(t, p, isRoot)
  {
  }
}
