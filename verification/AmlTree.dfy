/**
 Whole tables as trees of terms: searching the encoding of a tree reports exactly what the parser's naming
 rules select in the tree, and ends exactly where they say.
 */
module AmlTree {
  import opened Machine
  import opened Bytes
  import opened AmlNames
  import opened AmlEncoding
  import opened AmlTerms
  import opened AmlParser

  // ----- Skipped terms do not look beyond their end -----

  /** The bytes stand in the table from `r` on. */
  ghost predicate At(t: seq<Byte>, r: nat, s: seq<Byte>) {
    r + |s| <= |t| && forall k :: 0 <= k < |s| ==> s[k] == t[r + k]
  }

  lemma {:induction false} NumberLocal(t: seq<Byte>, r: nat, s: seq<Byte>, o: nat, n: nat)
    requires At(t, r, s) && o + n <= |s|
    ensures Number(t, r + o, n) == Number(s, o, n)
    decreases n
  {
    if n > 0 {
      NumberLocal(t, r, s, o + 1, n - 1);
      assert r + (o + 1) == r + o + 1;
    }
  }

  lemma PackageLocal(t: seq<Byte>, r: nat, s: seq<Byte>, o: nat)
    requires At(t, r, s) && PackageAt(s, o).Some?
    ensures var p := PackageAt(s, o).value; PackageAt(t, r + o) == Some(Package(p.length, r + p.next))
  {
    var count := s[o] / 0x40;
    assert s[o] == t[r + o];
    NumberLocal(t, r, s, o + 1, count);
    assert r + (o + 1) == r + o + 1;
  }

  lemma {:induction false} PrefixesLocal(t: seq<Byte>, r: nat, s: seq<Byte>, o: nat, isRoot: bool)
    requires At(t, r, s) && o < |s| && SkipPrefixes(s, o, isRoot).Some?
    ensures var p := SkipPrefixes(s, o, isRoot).value; SkipPrefixes(t, r + o, isRoot) == Some((r + p.0, p.1))
    decreases |s| - o
  {
    if IsPrefix(s[o]) {
      PrefixesLocal(t, r, s, o + 1, isRoot || s[o] == ROOT_CHAR);
      assert r + (o + 1) == r + o + 1;
    }
  }

  lemma NameLocal(t: seq<Byte>, r: nat, s: seq<Byte>, o: nat)
    requires At(t, r, s) && o < |s| && NameAt(s, o).Some?
    ensures NameAt(t, r + o).Some? && NameAt(t, r + o).value.next == r + NameAt(s, o).value.next
  {
    PrefixesLocal(t, r, s, o, false);
    var p := SkipPrefixes(s, o, false).value.0;
    assert s[p] == t[r + p];
    if s[p] == MULTI_NAME_PREFIX {
      assert s[p + 1] == t[r + (p + 1)];
    }
  }

  /** Where the sub-parsers stop does not depend on the nesting level, as long as it admits them. */
  lemma NameEndLocal(t: seq<Byte>, r: nat, s: seq<Byte>, o: nat, low: nat, depth: nat)
    requires At(t, r, s) && NameEnd(s, o, low).Some? && depth < MAX_NESTING
    ensures NameEnd(t, r + o, depth) == Some(r + NameEnd(s, o, low).value)
  {
    NameLocal(t, r, s, o);
  }

  lemma PackageEndLocal(t: seq<Byte>, r: nat, s: seq<Byte>, o: nat, low: nat, depth: nat)
    requires At(t, r, s) && PackageEnd(s, o, low).Some? && depth < MAX_NESTING
    ensures PackageEnd(t, r + o, depth) == Some(r + PackageEnd(s, o, low).value)
  {
    PackageLocal(t, r, s, o);
  }

  lemma {:induction false} StringLocal(t: seq<Byte>, r: nat, s: seq<Byte>, o: nat)
    requires At(t, r, s) && StringEnd(s, o).Some?
    ensures StringEnd(t, r + o) == Some(r + StringEnd(s, o).value)
    decreases |s| - o
  {
    if 0x01 <= s[o] <= 0x7F {
      StringLocal(t, r, s, o + 1);
      assert r + (o + 1) == r + o + 1;
    }
  }

  lemma DataLocal(t: seq<Byte>, r: nat, s: seq<Byte>, o: nat, low: nat, depth: nat)
    requires At(t, r, s) && DataEnd(s, o, low).Some? && depth < MAX_NESTING
    ensures DataEnd(t, r + o, depth) == Some(r + DataEnd(s, o, low).value)
  {
    assert s[o] == t[r + o];
    if s[o] == STRING_PREFIX {
      StringLocal(t, r, s, o + 1);
    } else if s[o] == BUFFER_OP || s[o] == PACKAGE_OP || s[o] == VAR_PACKAGE_OP {
      PackageEndLocal(t, r, s, o + 1, low, depth);
    }
  }

  lemma SimpleLocal(t: seq<Byte>, r: nat, s: seq<Byte>, o: nat, low: nat, depth: nat)
    requires At(t, r, s) && SimpleEnd(s, o, low).Some? && depth < MAX_NESTING
    ensures SimpleEnd(t, r + o, depth) == Some(r + SimpleEnd(s, o, low).value)
  {
    assert s[o] == t[r + o];
    if ConstantSize(s[o]) == 0 {
      NameEndLocal(t, r, s, o, low, depth);
    }
  }

  lemma {:induction false} PartLocal(t: seq<Byte>, r: nat, s: seq<Byte>, part: Part, o: nat, low: nat, depth: nat)
    requires At(t, r, s) && o <= |s| && PartEnd(s, part, o, low).Some? && depth < MAX_NESTING
    ensures PartEnd(t, part, r + o, depth) == Some(r + PartEnd(s, part, o, low).value)
    decreases |s| - o, 1
  {
    match part
    case NamePart => NameEndLocal(t, r, s, o, low, depth);
    case BytesPart(count) =>
    case PackagePart => PackageEndLocal(t, r, s, o, low, depth);
    case DataPart => DataLocal(t, r, s, o, low, depth);
    case SimplePart => SimpleLocal(t, r, s, o, low, depth);
    case OperandPart => OperandLocal(t, r, s, o, low, depth);
  }

  lemma {:induction false} OperandLocal(t: seq<Byte>, r: nat, s: seq<Byte>, o: nat, low: nat, depth: nat)
    requires At(t, r, s) && o <= |s| && PartEnd(s, OperandPart, o, low).Some? && depth < MAX_NESTING
    ensures PartEnd(t, OperandPart, r + o, depth) == Some(r + PartEnd(s, OperandPart, o, low).value)
    decreases |s| - o, 0
  {
    assert s[o] == t[r + o];
    if s[o] == ADD_OP || s[o] == SUBTRACT_OP {
      PartsLocal(t, r, s, SUM_PARTS, o + 1, low, depth);
      assert r + (o + 1) == r + o + 1;
    } else {
      SimpleLocal(t, r, s, o, low, depth);
    }
  }

  lemma {:induction false} PartsLocal(t: seq<Byte>, r: nat, s: seq<Byte>, parts: Parts, o: nat, low: nat, depth: nat)
    requires At(t, r, s) && o <= |s| && PartsEnd(s, parts, o, low).Some? && depth < MAX_NESTING
    ensures PartsEnd(t, parts, r + o, depth) == Some(r + PartsEnd(s, parts, o, low).value)
    decreases |s| - o, 2, parts
  {
    if parts.Then? {
      PartLocal(t, r, s, parts.part, o, low, depth);
      PartsLocal(t, r, s, parts.rest, PartEnd(s, parts.part, o, low).value, low, depth);
    }
  }

  predicate IsSkipped(op: nat) {
    KnownTerm(op) && !Declares(op) && !IsUnmodelled(op)
  }

  /** A term skipped on its own is skipped alike wherever it stands. */
  lemma SkipLocal(t: seq<Byte>, r: nat, s: seq<Byte>, op: nat, o: nat, low: nat, depth: nat)
    requires At(t, r, s) && o <= |s| && SkipEnd(s, op, o, low).Some? && depth + 1 < MAX_NESTING
    ensures SkipEnd(t, op, r + o, depth) == Some(r + SkipEnd(s, op, o, low).value)
  {
    if op != ZERO_OP && op != EXT_OP {
      PartsLocal(t, r, s, Grammar(op), o, low + 1, depth + 1);
    }
  }

  // ----- Terms with a header -----

  /** Opcode, number of extra length bytes and name of a term with a package. */
  datatype Head = Head(op: Byte, extra: nat, prefixes: seq<Byte>, segments: seq<Ident>)
  {
    predicate Valid() {
      extra <= 3 && Encodable(prefixes, segments)
    }

    predicate IsAbsolute() {
      ROOT_CHAR in prefixes
    }

    /** How many names of the path are spelled inside the scope; a mismatch starts over. */
    function Reached(path: seq<Ident>, i: nat): (j: nat)
      ensures j <= |path|
    {
      var first := if IsAbsolute() then 0 else i;
      if Continues(segments, path, first) then first + |segments| else 0
    }

    function Name(): (s: seq<Byte>)
      requires Valid()
    {
      prefixes + EncodeBody(segments)
    }

    /** Package length of a term with a content of `n` bytes behind its name. */
    function Length(n: nat): nat
      requires Valid()
    {
      1 + extra + |Name()| + n
    }

    /** The length fits its field. */
    predicate Fits(n: nat)
      requires Valid()
    {
      Length(n) < if extra == 0 then 0x40 else 0x10 * Limit(extra)
    }

    function Encode(n: nat): (s: seq<Byte>)
      requires Valid() && Fits(n)
      ensures |s| + n == 1 + Length(n)
    {
      [op] + EncodePackage(Length(n), extra) + Name()
    }
  }

  /** The header of an encoded term is read back. */
  lemma HeaderDecodes(t: seq<Byte>, r: nat, head: Head, n: nat)
    requires head.Valid() && head.Fits(n) && r + 1 + head.Length(n) <= |t|
    requires t[r..r + |head.Encode(n)|] == head.Encode(n)
    ensures t[r] == head.op && HeaderAt(t, r).Some?
    ensures var h := HeaderAt(t, r).value;
            && h.end == r + 1 + head.Length(n) && h.name.next == r + |head.Encode(n)| == h.end - n
            && h.name.isRoot == (ROOT_CHAR in head.prefixes)
            && Segments(t, h.name.start, h.name.count) == head.segments
  {
    var p, name := HeadDecodes(t, r, head, n);
    HeaderFrom(t, r, p, name);
  }

  lemma HeadDecodes(t: seq<Byte>, r: nat, head: Head, n: nat) returns (p: Package, name: Name)
    requires head.Valid() && head.Fits(n) && r + 1 + head.Length(n) <= |t|
    requires t[r..r + |head.Encode(n)|] == head.Encode(n)
    ensures t[r] == head.op && PackageAt(t, r + 1) == Some(p) && p.length == head.Length(n) && p.next < |t|
    ensures NameAt(t, p.next) == Some(name) && name.next == r + |head.Encode(n)| == r + 1 + p.length - n
    ensures name.isRoot == (ROOT_CHAR in head.prefixes)
    ensures name.start + IDENT_LEN * name.count <= |t| && Segments(t, name.start, name.count) == head.segments
  {
    HeadSlices(t, r, head, n);
    p := Package(head.Length(n), r + 2 + head.extra);
    PackageRoundTrip(t, r + 1, p.length, head.extra);
    name := NameDecodes(t, p.next, head);
  }

  lemma NameDecodes(t: seq<Byte>, o: nat, head: Head) returns (n: Name)
    requires head.Valid() && o + |head.Name()| <= |t| && t[o..o + |head.Name()|] == head.Name()
    ensures o < |t| && NameAt(t, o) == Some(n) && n.next == o + |head.Name()|
    ensures n.isRoot == head.IsAbsolute() && Segments(t, n.start, n.count) == head.segments
  {
    NameRoundTrip(t, o, head.prefixes, head.segments);
    n := NameAt(t, o).value;
  }

  lemma HeadSlices(t: seq<Byte>, r: nat, head: Head, n: nat)
    requires head.Valid() && head.Fits(n) && r + 1 + head.Length(n) <= |t|
    requires t[r..r + |head.Encode(n)|] == head.Encode(n)
    ensures t[r] == head.op && t[r + 1..r + 1 + head.extra + 1] == EncodePackage(head.Length(n), head.extra)
    ensures var behind := r + 2 + head.extra; t[behind..behind + |head.Name()|] == head.Name()
  {
    var size, name := EncodePackage(head.Length(n), head.extra), head.Name();
    assert [head.op] + size + name == [head.op] + (size + name);
    SplitsAt(t, r, [head.op], size + name);
    SplitsAt(t, r + 1, size, name);
    assert t[r..r + 1][0] == t[r];
  }

  lemma HeaderFrom(t: seq<Byte>, r: nat, p: Package, n: Name)
    requires PackageAt(t, r + 1) == Some(p) && p.next < |t| && NameAt(t, p.next) == Some(n)
    requires n.next <= r + 1 + p.length <= |t|
    ensures HeaderAt(t, r) == Some(Header(r + 1 + p.length, n))
  {
  }

  // ----- Trees -----

  /** What a search finds, and whether it gets over the terms. */
  datatype Finding = Finding(hits: seq<nat>, complete: bool)

  /**
   A term: a skipped one as bytes, a method or field with what follows its name, a bank or index field with
   its second name and what follows, a scope or device with its terms.
   */
  datatype Term =
    | Skip(bytes: seq<Byte>)
    | Leaf(head: Head, rest: seq<Byte>)
    | Pair(head: Head, prefixes: seq<Byte>, segments: seq<Ident>, rest: seq<Byte>)
    | Scope(head: Head, body: Forest)
  {
    predicate WellFormed()
      decreases this, 0
    {
      match this
      case Skip(bytes) => IsSkippable(bytes)
      case Leaf(head, rest) => (head.op == METHOD_OP || head.op == EXT_FIELD_OP) && head.Valid() && head.Fits(|rest|)
      case Pair(head, prefixes, segments, rest) =>
        && DeclaresTwoNames(head.op) && head.Valid() && Encodable(prefixes, segments)
        && head.Fits(|PairContent(prefixes, segments, rest)|)
      case Scope(head, body) =>
        OpensScope(head.op) && head.Valid() && body.WellFormed() && head.Fits(|body.Encode()|)
    }

    function Encode(): seq<Byte>
      requires WellFormed()
      decreases this, 1
    {
      match this
      case Skip(bytes) => bytes
      case Leaf(head, rest) => head.Encode(|rest|) + rest
      case Pair(head, prefixes, segments, rest) =>
        var content := PairContent(prefixes, segments, rest);
        head.Encode(|content|) + content
      case Scope(head, body) => head.Encode(|body.Encode()|) + body.Encode()
    }

    /** Whether the parser gets over a bank or index field when the first `i` names of the path are spelled already. */
    predicate PairParses(path: seq<Ident>, i: nat)
      requires Pair?
    {
      && |head.segments| == 1
      && (Continues(head.segments, path, i) ==>
            if head.op == EXT_BANK_FIELD_OP then i + 1 == |path| || |segments| == 1
            else i + 1 < |path| && |segments| == 1 && rest != [])
    }

    /**
     What the parser reports, counted from `at`, when it has spelled the first `i` names of the path and
     stands on nesting level `depth`; `last` says that the term is the last one of the table. The name of a
     method or field, or the two names of a bank or index field, must be all the rest of the path, whatever
     its prefixes. The name of a scope goes on with the path, or starts it when it is absolute; in a scope
     that does not go on with the path, or completes it, the search starts over.
     */
    function Find(path: seq<Ident>, i: nat, at: nat, last: bool, depth: nat): (f: Finding)
      requires WellFormed()
    {
      match this
      case Skip(bytes) => Finding([], if |bytes| == 1 then !last else !TooDeep(depth))
      case Leaf(head, rest) => Finding(if Reports(path, i) && !TooDeep(depth) then [at] else [], !TooDeep(depth))
      case Pair(head, prefixes, segments, rest) =>
        var parses := PairParses(path, i) && !TooDeep(depth);
        Finding(if Reports(path, i) && parses then [at] else [], parses)
      case Scope(head, body) =>
        if TooDeep(depth) then Finding([], false)
        else
          var inner := at + |head.Encode(|body.Encode()|)|;
          Inner(this, path, i, at, body.Find(path, Continued(path, i), inner, last, depth + 2))
    }

    /** The term itself is a match when the first `i` names are spelled already. */
    predicate Reports(path: seq<Ident>, i: nat) {
      match this
      case Skip(_) => false
      case Leaf(head, _) => Completes(head.segments, path, i)
      case Pair(head, _, segments, _) => |head.segments| == |segments| == 1 && Completes(head.segments + segments, path, i)
      case Scope(head, _) => head.Reached(path, i) == |path|
    }

    /** How many names count as spelled inside a scope. */
    function Continued(path: seq<Ident>, i: nat): nat
      requires Scope?
    {
      if head.Reached(path, i) == |path| then 0 else head.Reached(path, i)
    }
  }

  /** What is found in a scope: the scope itself, if it is a match, then what is found in its body. */
  function Inner(scope: Term, path: seq<Ident>, i: nat, at: nat, body: Finding): Finding {
    Finding((if scope.Reports(path, i) then [at] else []) + body.hits, body.complete)
  }

  /** The bytes behind the first name of a bank or index field. */
  function PairContent(prefixes: seq<Byte>, segments: seq<Ident>, rest: seq<Byte>): seq<Byte>
    requires |segments| < 0x100
  {
    prefixes + EncodeBody(segments) + rest
  }

  datatype Forest = Nil | More(term: Term, next: Forest)
  {
    predicate WellFormed()
      decreases this, 0
    {
      match this
      case Nil => true
      case More(term, next) => term.WellFormed() && next.WellFormed()
    }

    function Encode(): seq<Byte>
      requires WellFormed()
      decreases this, 1
    {
      match this
      case Nil => []
      case More(term, next) => term.Encode() + next.Encode()
    }

    function Find(path: seq<Ident>, i: nat, at: nat, last: bool, depth: nat): (f: Finding)
      requires WellFormed()
    {
      match this
      case Nil => Finding([], true)
      case More(term, next) =>
        Joined(term.Find(path, i, at, last && next == Nil, depth),
               next.Find(path, i, at + |term.Encode()|, last, depth))
    }
  }

  /** A search that does not get over its first part ends there. */
  function Joined(first: Finding, rest: Finding): Finding {
    if first.complete then Finding(first.hits + rest.hits, rest.complete) else first
  }

  /** The nesting limit leaves no room for a name or a length in a term on this level. */
  predicate TooDeep(depth: nat) {
    depth + 3 > MAX_NESTING
  }

  /** A term that is skipped, on its own. */
  predicate IsSkippable(s: seq<Byte>) {
    s != [] && IsSkipped(s[0]) && SkipEnd(s, s[0], 1, 0) == Some(|s|)
  }

  // ----- Searching an encoded tree -----

  function AsTrace(f: Finding, next: nat): Trace {
    Trace(f.hits, if f.complete then Goes(next) else Fails)
  }

  lemma EncodesSomething(term: Term)
    requires term.WellFormed()
    ensures term.Encode() != []
  {
  }

  /** A term starts on an even level below the limit. */
  predicate StartsAt(depth: nat) {
    depth % 2 == 0 && depth < MAX_NESTING
  }

  lemma SkipSearched(t: seq<Byte>, path: seq<Ident>, i: nat, r: nat, depth: nat, s: seq<Byte>)
    requires IsSkippable(s) && r + |s| <= |t| && t[r..r + |s|] == s && StartsAt(depth)
    ensures TermTrace(t, path, i, r, depth) ==
            Trace([], if r + 1 == |t| || (|s| > 1 && TooDeep(depth)) then Fails else Goes(r + |s|))
  {
    FirstByte(t, r, s);
    if r + 1 < |t| {
      TermSkips(t, path, i, r, depth);
      if |s| == 1 {
        SingleIsNothing(s);
      } else if TooDeep(depth) {
        DeepSkipFails(t, r, s, depth + 1);
      } else {
        SkipTraced(t, r, s, depth + 1);
      }
    }
  }

  /** The skipped terms of one byte are the zero opcode and the extension prefix. */
  lemma SingleIsNothing(s: seq<Byte>)
    requires IsSkippable(s)
    ensures |s| == 1 <==> s[0] == ZERO_OP || s[0] == EXT_OP
  {
    if s[0] != ZERO_OP && s[0] != EXT_OP {
      PartsStep(s, Grammar(s[0]), 1, 1);
    }
  }

  lemma DeepSkipFails(t: seq<Byte>, r: nat, s: seq<Byte>, depth: nat)
    requires IsSkippable(s) && |s| > 1 && r + 1 <= |t| && t[r] == s[0] && depth < MAX_NESTING <= depth + 1
    ensures SkipTrace(t, r, depth) == Trace([], Fails)
  {
    SingleIsNothing(s);
    PartsStep(t, Grammar(t[r]), r + 1, depth + 1);
  }

  lemma SkipTraced(t: seq<Byte>, r: nat, s: seq<Byte>, depth: nat)
    requires IsSkippable(s) && r + |s| <= |t| && t[r..r + |s|] == s && depth + 2 <= MAX_NESTING
    ensures IsSkipped(t[r]) && SkipTrace(t, r, depth) == Trace([], Goes(r + |s|))
  {
    assert forall k :: 0 <= k < |s| ==> s[k] == t[r..r + |s|][k];
    SkipLocal(t, r, s, s[0], 1, 0, depth);
  }

  lemma TermSkips(t: seq<Byte>, path: seq<Ident>, i: nat, r: nat, depth: nat)
    requires r + 1 < |t| && IsSkipped(t[r]) && depth < MAX_NESTING
    ensures TermTrace(t, path, i, r, depth) == SkipTrace(t, r, depth + 1)
  {
  }

  /** On the last level every term with a header fails. */
  lemma DeepTermFails(t: seq<Byte>, path: seq<Ident>, i: nat, r: nat, depth: nat)
    requires r < |t| && Declares(t[r]) && StartsAt(depth) && TooDeep(depth)
    ensures TermTrace(t, path, i, r, depth) == Trace([], Fails)
  {
    if r + 1 < |t| {
      assert TermTrace(t, path, i, r, depth) == DispatchTrace(t, path, i, r, depth + 1);
      if OpensScope(t[r]) {
        assert DispatchTrace(t, path, i, r, depth + 1) == ScopeTrace(t, path, i, r, depth + 1);
      } else {
        assert DispatchTrace(t, path, i, r, depth + 1) == DeclarationTrace(t, path, i, r, depth + 1);
      }
    }
  }

  /** An encoded method or field has a header, and what it declares is its name. */
  lemma LeafDecodes(t: seq<Byte>, r: nat, term: Term, end: nat) returns (h: Header)
    requires term.Leaf? && term.WellFormed()
    requires end == r + |term.Encode()| <= |t| && t[r..end] == term.Encode()
    ensures r + 1 < |t| && t[r] == term.head.op && HeaderAt(t, r) == Some(h)
    ensures DeclaredAt(t, r) == term.head.segments && h.end == end
  {
    SplitsAt(t, r, term.head.Encode(|term.rest|), term.rest);
    HeaderDecodes(t, r, term.head, |term.rest|);
    h := HeaderAt(t, r).value;
  }

  lemma TermIsLeaf(t: seq<Byte>, path: seq<Ident>, i: nat, r: nat, depth: nat, h: Header, tr: Trace)
    requires r + 1 < |t| && (t[r] == METHOD_OP || t[r] == EXT_FIELD_OP)
    requires HeaderAt(t, r) == Some(h) && depth + 3 <= MAX_NESTING
    requires tr == Trace(if DeclaresRest(t, path, i, r) then [r] else [], Goes(h.end))
    ensures TermTrace(t, path, i, r, depth) == tr
  {
    assert TermTrace(t, path, i, r, depth) == DeclarationTrace(t, path, i, r, depth + 1);
  }

  lemma LeafFinds(t: seq<Byte>, path: seq<Ident>, i: nat, r: nat, term: Term, last: bool, depth: nat)
    requires term.Leaf? && term.WellFormed() && DeclaredAt(t, r) == term.head.segments && !TooDeep(depth)
    ensures term.Find(path, i, r, last, depth) == Finding(if DeclaresRest(t, path, i, r) then [r] else [], true)
  {
  }

  lemma TermIsPair(t: seq<Byte>, path: seq<Ident>, i: nat, r: nat, depth: nat, h: Header, tr: Trace)
    requires r + 1 < |t| && DeclaresTwoNames(t[r]) && HeaderAt(t, r) == Some(h) && depth + 3 <= MAX_NESTING
    requires tr == PairTrace(t, path, i, r, h)
    ensures TermTrace(t, path, i, r, depth) == tr
  {
    assert TermTrace(t, path, i, r, depth) == DeclarationTrace(t, path, i, r, depth + 1);
  }

  /** Both names of an encoded bank or index field are read back. */
  lemma PairDecodes(t: seq<Byte>, r: nat, term: Term, end: nat) returns (h: Header, second: Name)
    requires term.Pair? && term.WellFormed()
    requires end == r + |term.Encode()| <= |t| && t[r..end] == term.Encode()
    ensures r + 1 < |t| && t[r] == term.head.op && HeaderAt(t, r) == Some(h) && h.end == end
    ensures Segments(t, h.name.start, h.name.count) == term.head.segments
    ensures h.name.next < h.end && NameAt(t, h.name.next) == Some(second)
    ensures Segments(t, second.start, second.count) == term.segments
    ensures second.next <= h.end && (second.next == h.end <==> term.rest == [])
  {
    var content := PairContent(term.prefixes, term.segments, term.rest);
    SplitsAt(t, r, term.head.Encode(|content|), content);
    HeaderDecodes(t, r, term.head, |content|);
    h := HeaderAt(t, r).value;
    second := SecondDecodes(t, h.name.next, term.prefixes, term.segments, term.rest, end);
  }

  lemma SecondDecodes(t: seq<Byte>, o: nat, prefixes: seq<Byte>, segments: seq<Ident>, rest: seq<Byte>, end: nat) returns (n: Name)
    requires Encodable(prefixes, segments)
    requires var s := PairContent(prefixes, segments, rest); end == o + |s| <= |t| && t[o..end] == s
    ensures o < end && NameAt(t, o) == Some(n) && Segments(t, n.start, n.count) == segments
    ensures n.next <= end && (n.next == end <==> rest == [])
  {
    SplitsAt(t, o, prefixes + EncodeBody(segments), rest);
    NameRoundTrip(t, o, prefixes, segments);
    n := NameAt(t, o).value;
  }

  /** One segment is the identifier at the cursor. */
  lemma SingleMatches(t: seq<Byte>, n: Name, segments: seq<Ident>, path: seq<Ident>, i: nat)
    requires n.start + IDENT_LEN * n.count <= |t| && n.count == 1 && Segments(t, n.start, 1) == segments
    ensures NameMatches(t, n, path, i) <==> Continues(segments, path, i)
  {
    assert segments[0] == IdentAt(t, n.start);
  }

  lemma PairSearched(t: seq<Byte>, path: seq<Ident>, i: nat, r: nat, term: Term, h: Header, second: Name, last: bool, depth: nat)
    requires term.Pair? && term.WellFormed() && i < |path| && !TooDeep(depth)
    requires r < |t| && t[r] == term.head.op && HeaderAt(t, r) == Some(h)
    requires Segments(t, h.name.start, h.name.count) == term.head.segments
    requires h.name.next < h.end && NameAt(t, h.name.next) == Some(second)
    requires Segments(t, second.start, second.count) == term.segments
    requires second.next <= h.end && (second.next == h.end <==> term.rest == [])
    ensures PairTrace(t, path, i, r, h) == AsTrace(term.Find(path, i, r, last, depth), h.end)
  {
    assert h.name.count == |term.head.segments| && second.count == |term.segments|;
    if |term.head.segments| == 1 {
      SingleMatches(t, h.name, term.head.segments, path, i);
      assert AmlTerms.PairParses(t, path, i, r, h) <==> term.PairParses(path, i);
      PairHits(t, path, i, r, term, h, second);
    }
  }

  lemma PairHits(t: seq<Byte>, path: seq<Ident>, i: nat, r: nat, term: Term, h: Header, second: Name)
    requires term.Pair? && i < |path|
    requires r < |t| && DeclaresTwoNames(t[r]) && HeaderAt(t, r) == Some(h) && h.name.count == 1
    requires Segments(t, h.name.start, 1) == term.head.segments
    requires h.name.next < h.end && NameAt(t, h.name.next) == Some(second)
    requires Segments(t, second.start, second.count) == term.segments
    ensures DeclaresRest(t, path, i, r) <==>
            |term.segments| == 1 && Completes(term.head.segments + term.segments, path, i)
  {
    SingleMatches(t, h.name, term.head.segments, path, i);
    PairDeclares(t, path, i, r, h);
    if |term.segments| == 1 {
      SingleMatches(t, second, term.segments, path, i + 1);
      TwoComplete(term.head.segments, term.segments, path, i);
    }
  }

  lemma TwoComplete(a: seq<Ident>, b: seq<Ident>, path: seq<Ident>, i: nat)
    requires |a| == |b| == 1
    ensures Completes(a + b, path, i) <==> i + 2 == |path| && Continues(a, path, i) && Continues(b, path, i + 1)
  {
    if i + 2 == |path| {
      assert path[i..] == path[i..i + 1] + path[i + 1..i + 2];
      assert (a + b)[..1] == a && (a + b)[1..] == b;
      assert path[i..][..1] == path[i..i + 1] && path[i..][1..] == path[i + 1..i + 2];
    }
  }

  lemma EnteredIsReached(t: seq<Byte>, n: Name, head: Head, path: seq<Ident>, i: nat)
    requires n.start + IDENT_LEN * n.count <= |t| && Segments(t, n.start, n.count) == head.segments
    requires n.isRoot == head.IsAbsolute()
    ensures Entered(t, n, path, i) == head.Reached(path, i)
  {
  }

  lemma TermOpens(t: seq<Byte>, path: seq<Ident>, i: nat, r: nat, depth: nat, h: Header, tr: Trace)
    requires r + 1 < |t| && OpensScope(t[r]) && HeaderAt(t, r) == Some(h) && depth + 3 <= MAX_NESTING
    requires tr == EnteredTrace(t, path, Entered(t, h.name, path, i), r, h.name.next, h.end, depth + 2)
    ensures TermTrace(t, path, i, r, depth) == tr
  {
    assert TermTrace(t, path, i, r, depth) == DispatchTrace(t, path, i, r, depth + 1);
    assert DispatchTrace(t, path, i, r, depth + 1) == ScopeTrace(t, path, i, r, depth + 1);
  }

  /** An encoded scope has a header that leads to its encoded body. */
  lemma ScopeDecodes(t: seq<Byte>, path: seq<Ident>, i: nat, r: nat, head: Head, body: Forest, end: nat) returns (h: Header)
    requires Scope(head, body).WellFormed()
    requires end == r + |Scope(head, body).Encode()| <= |t| && t[r..end] == Scope(head, body).Encode()
    ensures r + 1 < |t| && t[r] == head.op && HeaderAt(t, r) == Some(h) && h.end == end
    ensures Entered(t, h.name, path, i) == head.Reached(path, i)
    ensures h.name.next == r + |head.Encode(|body.Encode()|)| && r < h.name.next
    ensures h.end == h.name.next + |body.Encode()| <= |t| && t[h.name.next..h.end] == body.Encode()
  {
    var n := |body.Encode()|;
    SplitsAt(t, r, head.Encode(n), body.Encode());
    HeaderDecodes(t, r, head, n);
    h := HeaderAt(t, r).value;
    EnteredIsReached(t, h.name, head, path, i);
  }

  lemma {:induction false} ScopeSearched(t: seq<Byte>, path: seq<Ident>, i: nat, r: nat, depth: nat,
                                         head: Head, body: Forest, end: nat, last: bool) returns (tr: Trace)
    requires Scope(head, body).WellFormed() && StartsAt(depth) && !TooDeep(depth) && path != []
    requires end == r + |Scope(head, body).Encode()| <= |t| && t[r..end] == Scope(head, body).Encode() && last == (end == |t|)
    ensures TermTrace(t, path, i, r, depth) == tr
    ensures tr == AsTrace(Scope(head, body).Find(path, i, r, last, depth), end)
    decreases body, 5
  {
    var h;
    h, tr := ScopeKnown(t, path, i, r, depth, head, body, end, last);
    TermOpens(t, path, i, r, depth, h, tr);
  }

  lemma {:induction false} ScopeKnown(t: seq<Byte>, path: seq<Ident>, i: nat, r: nat, depth: nat, head: Head, body: Forest,
                                      end: nat, last: bool)
      returns (h: Header, tr: Trace)
    requires Scope(head, body).WellFormed() && StartsAt(depth) && !TooDeep(depth) && path != []
    requires end == r + |Scope(head, body).Encode()| <= |t| && t[r..end] == Scope(head, body).Encode() && last == (end == |t|)
    ensures r + 1 < |t| && t[r] == head.op && HeaderAt(t, r) == Some(h)
    ensures tr == EnteredTrace(t, path, Entered(t, h.name, path, i), r, h.name.next, h.end, depth + 2)
    ensures tr == AsTrace(Scope(head, body).Find(path, i, r, last, depth), end)
    decreases body, 4
  {
    h := ScopeDecodes(t, path, i, r, head, body, end);
    tr := ScopeBodySearched(t, path, i, r, depth, head, body, h, last);
  }

  lemma {:induction false} ScopeBodySearched(t: seq<Byte>, path: seq<Ident>, i: nat, r: nat, depth: nat,
                                             head: Head, body: Forest, h: Header, last: bool)
      returns (tr: Trace)
    requires Scope(head, body).WellFormed() && StartsAt(depth) && !TooDeep(depth) && path != []
    requires h.name.start + IDENT_LEN * h.name.count <= |t| && Entered(t, h.name, path, i) == head.Reached(path, i)
    requires h.name.next == r + |head.Encode(|body.Encode()|)| && r < h.name.next
    requires h.end == h.name.next + |body.Encode()| <= |t| && t[h.name.next..h.end] == body.Encode()
    requires last == (h.end == |t|)
    ensures tr == EnteredTrace(t, path, Entered(t, h.name, path, i), r, h.name.next, h.end, depth + 2)
    ensures tr == AsTrace(Scope(head, body).Find(path, i, r, last, depth), h.end)
    decreases body, 3
  {
    var j, k := head.Reached(path, i), Scope(head, body).Continued(path, i);
    var found := Searched(t, path, k, h.name.next, h.end, depth + 2, body, last);
    tr := EnteredTrace(t, path, j, r, h.name.next, h.end, depth + 2);
    EnteredIs(t, path, j, r, h.name.next, h.end, depth + 2, found);
    ScopeFinds(head, body, path, i, r, h.name.next, last, depth, found);
  }

  lemma EnteredIs(t: seq<Byte>, path: seq<Ident>, j: nat, r: nat, o: nat, end: nat, depth: nat, found: Finding)
    requires r < o <= |t| && end <= |t|
    requires BodyTrace(t, path, if j == |path| then 0 else j, o, end, depth) == AsTrace(found, end)
    ensures EnteredTrace(t, path, j, r, o, end, depth) ==
            AsTrace(Finding((if j == |path| then [r] else []) + found.hits, found.complete), end)
  {
    assert [] + found.hits == found.hits;
  }

  lemma ScopeFinds(head: Head, body: Forest, path: seq<Ident>, i: nat, at: nat, inner: nat, last: bool, depth: nat, found: Finding)
    requires Scope(head, body).WellFormed() && !TooDeep(depth) && inner == at + |head.Encode(|body.Encode()|)|
    requires found == body.Find(path, Scope(head, body).Continued(path, i), inner, last, depth + 2)
    ensures Scope(head, body).Find(path, i, at, last, depth) ==
            Finding((if head.Reached(path, i) == |path| then [at] else []) + found.hits, found.complete)
  {
  }

  lemma LeafTermSearched(t: seq<Byte>, path: seq<Ident>, i: nat, r: nat, depth: nat, term: Term, end: nat, last: bool)
      returns (tr: Trace)
    requires term.Leaf? && term.WellFormed() && !TooDeep(depth)
    requires end == r + |term.Encode()| <= |t| && t[r..end] == term.Encode()
    ensures TermTrace(t, path, i, r, depth) == tr && tr == AsTrace(term.Find(path, i, r, last, depth), end)
  {
    var h;
    h, tr := LeafKnown(t, path, i, r, depth, term, end, last);
    TermIsLeaf(t, path, i, r, depth, h, tr);
  }

  lemma LeafKnown(t: seq<Byte>, path: seq<Ident>, i: nat, r: nat, depth: nat, term: Term, end: nat, last: bool)
      returns (h: Header, tr: Trace)
    requires term.Leaf? && term.WellFormed() && !TooDeep(depth)
    requires end == r + |term.Encode()| <= |t| && t[r..end] == term.Encode()
    ensures r + 1 < |t| && (t[r] == METHOD_OP || t[r] == EXT_FIELD_OP) && HeaderAt(t, r) == Some(h)
    ensures tr == AsTrace(term.Find(path, i, r, last, depth), end)
    ensures tr == Trace(if DeclaresRest(t, path, i, r) then [r] else [], Goes(h.end))
  {
    h := LeafDecodes(t, r, term, end);
    tr := AsTrace(term.Find(path, i, r, last, depth), end);
    LeafFinds(t, path, i, r, term, last, depth);
  }

  lemma PairTermSearched(t: seq<Byte>, path: seq<Ident>, i: nat, r: nat, depth: nat, term: Term, end: nat, last: bool)
      returns (tr: Trace)
    requires term.Pair? && term.WellFormed() && !TooDeep(depth) && i < |path|
    requires end == r + |term.Encode()| <= |t| && t[r..end] == term.Encode()
    ensures TermTrace(t, path, i, r, depth) == tr && tr == AsTrace(term.Find(path, i, r, last, depth), end)
  {
    var h;
    h, tr := PairKnown(t, path, i, r, depth, term, end, last);
    TermIsPair(t, path, i, r, depth, h, tr);
  }

  lemma PairKnown(t: seq<Byte>, path: seq<Ident>, i: nat, r: nat, depth: nat, term: Term, end: nat, last: bool)
      returns (h: Header, tr: Trace)
    requires term.Pair? && term.WellFormed() && !TooDeep(depth) && i < |path|
    requires end == r + |term.Encode()| <= |t| && t[r..end] == term.Encode()
    ensures r + 1 < |t| && DeclaresTwoNames(t[r]) && HeaderAt(t, r) == Some(h)
    ensures tr == PairTrace(t, path, i, r, h)
    ensures tr == AsTrace(term.Find(path, i, r, last, depth), end)
  {
    var second;
    h, second := PairDecodes(t, r, term, end);
    tr := PairTrace(t, path, i, r, h);
    PairSearched(t, path, i, r, term, h, second, last, depth);
  }

  lemma DeepSearched(t: seq<Byte>, path: seq<Ident>, i: nat, r: nat, depth: nat, term: Term, end: nat, last: bool)
      returns (tr: Trace)
    requires !term.Skip? && term.WellFormed() && StartsAt(depth) && TooDeep(depth)
    requires end == r + |term.Encode()| <= |t| && t[r..end] == term.Encode()
    ensures TermTrace(t, path, i, r, depth) == tr && tr == AsTrace(term.Find(path, i, r, last, depth), end)
  {
    tr := Trace([], Fails);
    OpcodeFirst(t, r, term, end);
    DeepTermFails(t, path, i, r, depth);
  }

  lemma OpcodeFirst(t: seq<Byte>, r: nat, term: Term, end: nat)
    requires !term.Skip? && term.WellFormed()
    requires end == r + |term.Encode()| <= |t| && t[r..end] == term.Encode()
    ensures r < |t| && t[r] == term.head.op && Declares(t[r])
  {
    EncodesSomething(term);
    FirstByte(t, r, term.Encode());
    assert term.Encode()[0] == term.head.op;
  }

  lemma {:induction false} TermSearched(t: seq<Byte>, path: seq<Ident>, i: nat, r: nat, depth: nat, term: Term, end: nat, last: bool)
      returns (tr: Trace)
    requires term.WellFormed() && StartsAt(depth) && i < |path|
    requires end == r + |term.Encode()| <= |t| && t[r..end] == term.Encode() && last == (end == |t|)
    ensures TermTrace(t, path, i, r, depth) == tr && tr == AsTrace(term.Find(path, i, r, last, depth), end)
    decreases term, 0
  {
    if term.Skip? {
      SkipSearched(t, path, i, r, depth, term.bytes);
      tr := AsTrace(term.Find(path, i, r, last, depth), end);
    } else if TooDeep(depth) {
      tr := DeepSearched(t, path, i, r, depth, term, end, last);
    } else {
      match term
      case Leaf(_, _) => tr := LeafTermSearched(t, path, i, r, depth, term, end, last);
      case Pair(_, _, _, _) => tr := PairTermSearched(t, path, i, r, depth, term, end, last);
      case Scope(head, body) => tr := ScopeSearched(t, path, i, r, depth, head, body, end, last);
    }
  }

  /** The trace of an encoded forest is what the naming rules select in it. */
  lemma {:induction false} Searched(t: seq<Byte>, path: seq<Ident>, i: nat, o: nat, end: nat, depth: nat, f: Forest, last: bool)
      returns (found: Finding)
    requires f.WellFormed() && o + |f.Encode()| == end <= |t| && t[o..end] == f.Encode() && last == (end == |t|)
    requires StartsAt(depth) && i < |path|
    ensures found == f.Find(path, i, o, last, depth)
    ensures BodyTrace(t, path, i, o, end, depth) == AsTrace(found, end)
    decreases f, 2
  {
    if f.Nil? {
      found := Finding([], true);
    } else {
      found := MoreSearched(t, path, i, o, end, depth, f.term, f.next, last);
    }
  }

  lemma {:induction false} MoreSearched(t: seq<Byte>, path: seq<Ident>, i: nat, o: nat, end: nat, depth: nat,
                                        term: Term, next: Forest, last: bool)
      returns (found: Finding)
    requires var f := More(term, next); f.WellFormed() && o + |f.Encode()| == end <= |t| && t[o..end] == f.Encode()
    requires last == (end == |t|) && StartsAt(depth) && i < |path|
    ensures found == More(term, next).Find(path, i, o, last, depth)
    ensures BodyTrace(t, path, i, o, end, depth) == AsTrace(found, end)
    decreases More(term, next), 1
  {
    var m, final := FirstSplits(t, o, end, term, next, last);
    var first := FirstSearched(t, path, i, o, depth, term, m, final);
    var rest := Searched(t, path, i, m, end, depth, next, last);
    found := FindingJoins(term, next, path, i, o, m, last, final, depth, first, rest);
    BodyCons(t, path, i, o, m, end, depth, first, rest, found);
  }

  lemma {:induction false} FirstSearched(t: seq<Byte>, path: seq<Ident>, i: nat, r: nat, depth: nat, term: Term, end: nat, last: bool)
      returns (found: Finding)
    requires term.WellFormed() && StartsAt(depth) && i < |path|
    requires end == r + |term.Encode()| <= |t| && t[r..end] == term.Encode() && last == (end == |t|)
    ensures found == term.Find(path, i, r, last, depth)
    ensures TermTrace(t, path, i, r, depth) == AsTrace(found, end)
    decreases term, 1
  {
    var tr := TermSearched(t, path, i, r, depth, term, end, last);
    found := term.Find(path, i, r, last, depth);
  }

  lemma FirstSplits(t: seq<Byte>, o: nat, end: nat, term: Term, next: Forest, last: bool) returns (m: nat, final: bool)
    requires var f := More(term, next); f.WellFormed() && o + |f.Encode()| == end <= |t| && t[o..end] == f.Encode()
    requires last == (end == |t|)
    ensures term.WellFormed() && next.WellFormed()
    ensures m == o + |term.Encode()| && o < m <= |t| && t[o..m] == term.Encode() && final == (m == |t|)
    ensures m + |next.Encode()| == end && t[m..end] == next.Encode()
    ensures final == (last && next == Nil)
  {
    m := o + |term.Encode()|;
    final := m == |t|;
    SplitsAt(t, o, term.Encode(), next.Encode());
    EncodesSomething(term);
    if next.More? {
      EncodesSomething(next.term);
    }
  }

  lemma FindingJoins(term: Term, next: Forest, path: seq<Ident>, i: nat, o: nat, m: nat, last: bool, final: bool, depth: nat,
                     first: Finding, rest: Finding)
      returns (found: Finding)
    requires More(term, next).WellFormed() && m == o + |term.Encode()| && final == (last && next == Nil)
    requires first == term.Find(path, i, o, final, depth) && rest == next.Find(path, i, m, last, depth)
    ensures found == Joined(first, rest) && found == More(term, next).Find(path, i, o, last, depth)
  {
    found := Joined(first, rest);
  }

  /** A term in front of a body. */
  lemma BodyCons(t: seq<Byte>, path: seq<Ident>, i: nat, o: nat, m: nat, end: nat, depth: nat,
                 first: Finding, rest: Finding, found: Finding)
    requires o < m <= end <= |t| && found == Joined(first, rest)
    requires TermTrace(t, path, i, o, depth) == AsTrace(first, m)
    requires BodyTrace(t, path, i, m, end, depth) == AsTrace(rest, end)
    ensures BodyTrace(t, path, i, o, end, depth) == AsTrace(found, end)
  {
  }

  /**
   The search over a whole table reports exactly what the naming rules select, in table order, up to a bank
   or index field the parser does not get over, a term too deep for the nesting limit, or a single byte at
   the very end.
   */
  lemma TableSearched(t: seq<Byte>, path: seq<Ident>, f: Forest)
    requires |t| >= DESCRIPTION_HEADER_SIZE && f.WellFormed() && path != []
    requires t[DESCRIPTION_HEADER_SIZE..] == f.Encode()
    ensures TableTrace(t, path) == AsTrace(f.Find(path, 0, DESCRIPTION_HEADER_SIZE, true, 0), |t|)
  {
    assert t[DESCRIPTION_HEADER_SIZE..|t|] == t[DESCRIPTION_HEADER_SIZE..];
    var found := Searched(t, path, 0, DESCRIPTION_HEADER_SIZE, |t|, 0, f, true);
  }
}
