/** Lookup paths of the AML parser: dotted strings turned into packed four-character identifiers. */
module AmlNames {
  import opened Machine

  const IDENT_LEN: nat := 4

  /** A name of four characters packed into 32 bits, first character highest. */
  type Ident = x: nat | x < 0x1_0000_0000
  const NAME_CHAR_A: nat := 0x41
  const NAME_CHAR_0: nat := 0x30
  const NAME_CHAR_UNDERSCORE: nat := 0x5F

  // ----- One identifier -----

  predicate Legal(c: char) {
    'a' <= c <= 'z' || 'A' <= c <= 'Z' || '0' <= c <= '9' || c == '_'
  }

  /** The AML name character of a legal character: letters in upper case. */
  function NameChar(c: char): Byte
    requires Legal(c)
  {
    if 'a' <= c <= 'z' then NAME_CHAR_A + (c as int - 'a' as int)
    else if 'A' <= c <= 'Z' then NAME_CHAR_A + (c as int - 'A' as int)
    else if '0' <= c <= '9' then NAME_CHAR_0 + (c as int - '0' as int)
    else NAME_CHAR_UNDERSCORE
  }

  predicate AllLegal(name: string) {
    forall i :: 0 <= i < |name| ==> Legal(name[i])
  }

  /** Upper case, padded with underscores. */
  function Padded(name: string): (s: seq<Byte>)
    requires |name| <= IDENT_LEN && AllLegal(name)
    ensures |s| == IDENT_LEN
  {
    seq(IDENT_LEN, i requires 0 <= i < IDENT_LEN => if i < |name| then NameChar(name[i]) else NAME_CHAR_UNDERSCORE)
  }

  /** Bytes packed into a number, first byte highest. */
  function Pack(s: seq<Byte>): nat {
    if s == [] then 0 else
      var last: nat := s[|s| - 1];
      Pack(s[..|s| - 1]) * 0x100 + last
  }

  /** What the 8-bit name length leaves of an identifier. */
  function Seen(name: string): string {
    name[..|name| % 0x100]
  }

  predicate Translatable(name: string) {
    |Seen(name)| <= IDENT_LEN && AllLegal(Seen(name))
  }

  method TranslateNameToOpcodes(name: string) returns (ident: Option<Ident>)
    ensures ident == if Translatable(name) then Some(IdentOf(Padded(Seen(name)))) else None
  {
    var length := |name| % 0x100;
    if length > IDENT_LEN {
      return None;
    }
    var packed := 0;
    ghost var bytes: seq<Byte> := [];
    for i := 0 to IDENT_LEN
      invariant |bytes| == i && packed == Pack(bytes)
      invariant forall k :: 0 <= k < i && k < length ==> Legal(name[k]) && bytes[k] == NameChar(name[k])
      invariant forall k :: length <= k < i ==> bytes[k] == NAME_CHAR_UNDERSCORE
    {
      var code: nat;
      if i < length {
        var c := name[i];
        if 'a' <= c <= 'z' {
          code := NAME_CHAR_A + (c as int - 'a' as int);
        } else if 'A' <= c <= 'Z' {
          code := NAME_CHAR_A + (c as int - 'A' as int);
        } else if '0' <= c <= '9' {
          code := NAME_CHAR_0 + (c as int - '0' as int);
        } else if c == '_' {
          code := NAME_CHAR_UNDERSCORE;
        } else {
          assert !Legal(Seen(name)[i]);
          return None;
        }
      } else {
        code := NAME_CHAR_UNDERSCORE;
      }
      assert (bytes + [code])[..i] == bytes;
      bytes := bytes + [code];
      packed := packed * 0x100 + code;
    }
    assert bytes == Padded(Seen(name));
    PackFour(bytes);
    return Some(packed);
  }

  // ----- Comparing a name segment with an identifier -----

  /** Byte `k` of an identifier in memory, lowest first. */
  function ByteOf(ident: nat, k: nat): Byte {
    if k == 0 then ident % 0x100 else ByteOf(ident / 0x100, k - 1)
  }

  /** The byte-reversed comparison of the matchers. */
  predicate SegmentMatches(segment: seq<Byte>, ident: nat)
    requires |segment| == IDENT_LEN
  {
    && segment[0] == ByteOf(ident, 3) && segment[1] == ByteOf(ident, 2)
    && segment[2] == ByteOf(ident, 1) && segment[3] == ByteOf(ident, 0)
  }

  lemma {:induction false} ByteOfPack(s: seq<Byte>, k: nat)
    requires k < |s|
    ensures ByteOf(Pack(s), k) == s[|s| - 1 - k]
  {
    var front := s[..|s| - 1];
    var last: nat := s[|s| - 1];
    assert Pack(s) / 0x100 == Pack(front) && Pack(s) % 0x100 == last;
    if k > 0 {
      ByteOfPack(front, k - 1);
    }
  }

  /** The comparison accepts a segment exactly when it is the packed one. */
  lemma MatchIsEquality(segment: seq<Byte>, packed: seq<Byte>)
    requires |segment| == |packed| == IDENT_LEN
    ensures SegmentMatches(segment, Pack(packed)) <==> segment == packed
  {
    ByteOfPack(packed, 0);
    ByteOfPack(packed, 1);
    ByteOfPack(packed, 2);
    ByteOfPack(packed, 3);
  }

  /** Four bytes as a number, highest first. */
  function Big(a: nat, b: nat, c: nat, d: nat): nat {
    ((a * 0x100 + b) * 0x100 + c) * 0x100 + d
  }

  lemma PackFour(s: seq<Byte>)
    requires |s| == IDENT_LEN
    ensures Pack(s) == Big(s[0], s[1], s[2], s[3]) < 0x1_0000_0000
  {
    var three := s[..3];
    var two := three[..2];
    var one := two[..1];
    assert one[..0] == [] && Pack(one) == s[0];
    assert Pack(two) == Pack(one) * 0x100 + s[1];
    assert Pack(three) == Pack(two) * 0x100 + s[2];
  }

  /** The comparison is equality with the packed segment. */
  lemma MatchIsPack(segment: seq<Byte>, ident: Ident)
    requires |segment| == IDENT_LEN
    ensures SegmentMatches(segment, ident) <==> Pack(segment) == ident
  {
    PackFour(segment);
    BytesOfIdent(ident, segment[0], segment[1], segment[2], segment[3]);
  }

  lemma BytesOfIdent(v: Ident, a: Byte, b: Byte, c: Byte, d: Byte)
    ensures ByteOf(v, 3) == a && ByteOf(v, 2) == b && ByteOf(v, 1) == c && ByteOf(v, 0) == d <==>
            v == Big(a, b, c, d)
  {
    var x := v / 0x100;
    var y := x / 0x100;
    assert ByteOf(v, 1) == ByteOf(x, 0);
    assert ByteOf(v, 2) == ByteOf(x, 1) == ByteOf(y, 0);
    assert ByteOf(v, 3) == ByteOf(x, 2) == ByteOf(y, 1) == ByteOf(y / 0x100, 0);
    Digits(v, x, y, a, b, c, d);
  }

  /** The digits of a number to base 256 are unique. */
  lemma Digits(v: Ident, x: nat, y: nat, a: Byte, b: Byte, c: Byte, d: Byte)
    requires x == v / 0x100 && y == x / 0x100
    ensures y / 0x100 % 0x100 == a && y % 0x100 == b && x % 0x100 == c && v % 0x100 == d <==> v == Big(a, b, c, d)
  {
    var high: nat, mid: nat, low: nat, last: nat := a, b, c, d;
    if v == Big(a, b, c, d) {
      DivModUnique(v, (high * 0x100 + mid) * 0x100 + low, last, 0x100);
      DivModUnique(x, high * 0x100 + mid, low, 0x100);
      DivModUnique(y, high, mid, 0x100);
    }
  }

  // ----- Whole paths -----

  function FirstDot(s: string): (d: nat)
    ensures d <= |s| && '.' !in s[..d] && (d < |s| ==> s[d] == '.')
  {
    if s == [] || s[0] == '.' then 0 else
      var d := 1 + FirstDot(s[1..]);
      assert s[..d] == [s[0]] + s[1..][..d - 1];
      d
  }

  /** The components between dots. */
  function Split(s: string): (parts: seq<string>)
    ensures parts != [] && forall i :: 0 <= i < |parts| ==> '.' !in parts[i]
    decreases |s|
  {
    var d := FirstDot(s);
    if d == |s| then assert s[..d] == s; [s] else [s[..d]] + Split(s[d + 1..])
  }

  function Join(parts: seq<string>): string
    requires parts != []
  {
    if |parts| == 1 then parts[0] else parts[0] + "." + Join(parts[1..])
  }

  /** Splitting loses nothing. */
  lemma {:induction false} JoinSplit(s: string)
    ensures Join(Split(s)) == s
    decreases |s|
  {
    var d := FirstDot(s);
    if d < |s| {
      JoinSplit(s[d + 1..]);
      assert s == s[..d] + "." + s[d + 1..];
    }
  }

  function Dots(s: string, n: nat): nat
    requires n <= |s|
  {
    if n == 0 then 0 else Dots(s, n - 1) + (if s[n - 1] == '.' then 1 else 0)
  }

  lemma {:induction false} DotsFrom(s: string, from: nat, n: nat)
    requires from <= n <= |s|
    ensures Dots(s, n) == Dots(s, from) + Dots(s[from..], n - from)
  {
    if from < n {
      DotsFrom(s, from, n - 1);
    }
  }

  lemma {:induction false} NoDots(s: string, n: nat)
    requires n <= |s| && '.' !in s[..n]
    ensures Dots(s, n) == 0
  {
    if n > 0 {
      assert s[n - 1] == s[..n][n - 1];
      assert s[..n - 1] == s[..n][..n - 1];
      NoDots(s, n - 1);
    }
  }

  lemma {:induction false} SplitCounts(s: string)
    ensures |Split(s)| == Dots(s, |s|) + 1
    decreases |s|
  {
    var d := FirstDot(s);
    NoDots(s, d);
    if d < |s| {
      SplitCounts(s[d + 1..]);
      DotsFrom(s, d + 1, |s|);
      assert Dots(s, d + 1) == 1;
    }
  }

  function WithoutRoot(path: string): string {
    if path != [] && path[0] == '\\' then path[1..] else path
  }

  /** Whether every component can be translated. */
  predicate AllTranslatable(parts: seq<string>) {
    forall i :: 0 <= i < |parts| ==> parts[i] != [] && Translatable(parts[i])
  }

  predicate Accepted(path: string) {
    AllTranslatable(Split(WithoutRoot(path)))
  }

  /** The identifiers are the packed components. */
  ghost predicate PackedFrom(idents: seq<nat>, parts: seq<string>) {
    && |idents| == |parts|
    && forall i :: 0 <= i < |parts| ==> Translatable(parts[i]) && idents[i] == Pack(Padded(Seen(parts[i])))
  }

  /** The identifier of a name segment. */
  function IdentOf(segment: seq<Byte>): (ident: Ident)
    requires |segment| == IDENT_LEN
    ensures ident == Pack(segment)
  {
    PackFour(segment);
    Pack(segment)
  }

  /** The components as name segments: upper case and padded. */
  function Components(path: string): (names: seq<seq<Byte>>)
    requires Accepted(path)
    ensures |names| == |Split(WithoutRoot(path))| && forall i :: 0 <= i < |names| ==> |names[i]| == IDENT_LEN
  {
    var parts := Split(WithoutRoot(path));
    seq(|parts|, i requires 0 <= i < |parts| => Padded(Seen(parts[i])))
  }

  /** The identifiers an accepted path stands for. */
  function Identifiers(path: string): (idents: seq<Ident>)
    requires Accepted(path)
    ensures PackedFrom(idents, Split(WithoutRoot(path)))
    ensures forall i :: 0 <= i < |idents| ==> idents[i] == Pack(Components(path)[i])
  {
    var names := Components(path);
    seq(|names|, i requires 0 <= i < |names| => IdentOf(names[i]))
  }

  datatype PathStatus = Translated | BadPath | NoMemory

  /** GetOpcodeArray: succeeds exactly on accepted paths and packs every component. */
  method GetOpcodeArray(pathString: string, canAllocate: bool) returns (status: PathStatus, idents: seq<Ident>)
    ensures status == NoMemory <==> WithoutRoot(pathString) != [] && !canAllocate
    ensures status == Translated <==> canAllocate && Accepted(pathString)
    ensures status == BadPath ==> !Accepted(pathString)
    ensures status == Translated ==> idents == Identifiers(pathString)
  {
    var path := if pathString != [] && pathString[0] == '\\' then pathString[1..] else pathString;
    if |path| == 0 {
      assert Split(path)[0] == [];
      return BadPath, [];
    }
    var pathLength := 0;
    for i := 0 to |path|
      invariant pathLength == Dots(path, i)
    {
      if path[i] == '.' {
        pathLength := pathLength + 1;
      }
    }
    pathLength := pathLength + 1;
    SplitCounts(path);
    if !canAllocate {
      return NoMemory, [];
    }
    ghost var starts := SplitLayout(path);
    var result := TranslateParts(path, Split(path), starts, pathLength);
    match result
    case None => return BadPath, [];
    case Some(packed) =>
      assert packed == Identifiers(pathString);
      return Translated, packed;
  }

  ghost predicate PartAt(path: string, part: string, start: nat) {
    start + |part| <= |path| && part == path[start..start + |part|] && '.' !in part
  }

  ghost predicate DotBehind(path: string, part: string, start: nat, next: nat) {
    start + |part| < |path| && path[start + |part|] == '.' && next == start + |part| + 1
  }

  /** Where the components lie in the path: each ends at a dot, the last one at the end. */
  ghost predicate Layout(path: string, parts: seq<string>, starts: seq<nat>) {
    && |starts| == |parts| > 0 && starts[0] == 0
    && (forall i :: 0 <= i < |parts| ==> PartAt(path, parts[i], starts[i]))
    && (forall i :: 0 < i < |parts| ==> DotBehind(path, parts[i - 1], starts[i - 1], starts[i]))
    && starts[|parts| - 1] + |parts[|parts| - 1]| == |path|
  }

  lemma PartShift(path: string, from: nat, part: string, start: nat)
    requires from <= |path| && PartAt(path[from..], part, start)
    ensures PartAt(path, part, from + start)
  {
    assert path[from..][start..start + |part|] == path[from + start..from + start + |part|];
  }

  lemma DotShift(path: string, from: nat, part: string, start: nat, next: nat)
    requires from <= |path| && DotBehind(path[from..], part, start, next)
    ensures DotBehind(path, part, from + start, from + next)
  {
  }

  lemma LayoutShift(path: string, d: nat, parts: seq<string>, starts: seq<nat>) returns (all: seq<nat>)
    requires d < |path| && path[d] == '.' && '.' !in path[..d]
    requires Layout(path[d + 1..], parts, starts)
    ensures Layout(path, [path[..d]] + parts, all)
  {
    var shifted: seq<nat> := seq(|starts|, i requires 0 <= i < |starts| => d + 1 + starts[i]);
    all := [0] + shifted;
    var more := [path[..d]] + parts;
    forall i | 0 <= i < |more| ensures PartAt(path, more[i], all[i]) {
      if i == 0 {
        assert path[0..d] == path[..d];
      } else {
        PartShift(path, d + 1, parts[i - 1], starts[i - 1]);
      }
    }
    forall i | 0 < i < |more| ensures DotBehind(path, more[i - 1], all[i - 1], all[i]) {
      if i > 1 {
        DotShift(path, d + 1, parts[i - 2], starts[i - 2], starts[i - 1]);
      }
    }
  }

  lemma {:induction false} SplitLayout(path: string) returns (starts: seq<nat>)
    ensures Layout(path, Split(path), starts)
    decreases |path|
  {
    var d := FirstDot(path);
    if d == |path| {
      starts := [0];
      assert path[0..|path|] == path == path[..d];
    } else {
      var rest := SplitLayout(path[d + 1..]);
      starts := LayoutShift(path, d, Split(path[d + 1..]), rest);
    }
  }

  /** The component loop. */
  method TranslateParts(path: string, ghost parts: seq<string>, ghost starts: seq<nat>, pathLength: nat)
      returns (result: Option<seq<Ident>>)
    requires Layout(path, parts, starts) && pathLength == |parts|
    ensures result.Some? <==> AllTranslatable(parts)
    ensures result.Some? ==> PackedFrom(result.value, parts)
  {
    var start := 0;
    var idents: seq<Ident> := [];
    for index := 0 to pathLength
      invariant 0 <= start && |idents| == index
      invariant index < pathLength ==> start == starts[index]
      invariant AllTranslatable(parts[..index]) && PackedFrom(idents, parts[..index])
    {
      assert PartAt(path, parts[index], start);
      assert index + 1 < |parts| ==> DotBehind(path, parts[index + 1 - 1], starts[index + 1 - 1], starts[index + 1]);
      var walker := NextDot(path, start, parts[index]);
      var part := path[start..walker];
      assert part == parts[index];
      if walker - start < 1 {
        return None;
      }
      var ident := TranslateNameToOpcodes(part);
      if ident.None? {
        return None;
      }
      assert parts[..index + 1] == parts[..index] + [part];
      idents := idents + [ident.value];
      start := walker + 1;
    }
    assert parts[..|parts|] == parts;
    return Some(idents);
  }

  /** The inner walk to the next dot or the end. */
  method NextDot(path: string, start: nat, ghost part: string) returns (walker: nat)
    requires start + |part| <= |path| && part == path[start..start + |part|] && '.' !in part
    requires start + |part| < |path| ==> path[start + |part|] == '.'
    ensures walker == start + |part|
  {
    walker := start;
    while walker < |path| && path[walker] != '.'
      invariant start <= walker <= start + |part|
    {
      walker := walker + 1;
    }
  }

  /** For components that fit the 8-bit length, acceptance is the obvious rule. */
  lemma TranslatableMeans(parts: seq<string>)
    requires forall i :: 0 <= i < |parts| ==> |parts[i]| < 0x100
    ensures AllTranslatable(parts) <==>
            forall i :: 0 <= i < |parts| ==> 0 < |parts[i]| <= IDENT_LEN && AllLegal(parts[i])
  {
    forall i | 0 <= i < |parts| ensures Seen(parts[i]) == parts[i] {
      assert |parts[i]| % 0x100 == |parts[i]|;
    }
  }

  /** Exactly the components that the 8-bit length lets through although they break the four-character rule. */
  lemma TranslatableExactly(name: string)
    ensures (Translatable(name) <==> |name| <= IDENT_LEN && AllLegal(name)) <==>
            !(|name| >= 0x100 && |name| % 0x100 <= IDENT_LEN && AllLegal(name[..|name| % 0x100]))
  {
    if |name| < 0x100 {
      assert Seen(name) == name;
    }
  }

  /** Longer components slip through: 256 arbitrary characters translate like the empty identifier. */
  lemma LongComponentSlipsThrough(name: string)
    requires |name| == 0x100
    ensures Translatable(name) && Padded(Seen(name)) == [0x5F, 0x5F, 0x5F, 0x5F]
  {
    assert Seen(name) == [];
  }
}
