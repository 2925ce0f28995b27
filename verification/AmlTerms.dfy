/**
 AML terms as the parser sees them, without its state: where each kind of term ends, what it declares,
 and the trace of a search, which is every match in table order up to the end or the first error.
 */
module AmlTerms {
  import opened Machine
  import opened Bytes
  import opened AmlNames
  import opened AmlEncoding

  const MAX_NESTING: nat := 1024

  const ONE_OP: nat := 0x01
  const ALIAS_OP: nat := 0x06
  const NAME_OP: nat := 0x08
  const BYTE_PREFIX: nat := 0x0A
  const WORD_PREFIX: nat := 0x0B
  const DWORD_PREFIX: nat := 0x0C
  const STRING_PREFIX: nat := 0x0D
  const QWORD_PREFIX: nat := 0x0E
  const SCOPE_OP: nat := 0x10
  const BUFFER_OP: nat := 0x11
  const PACKAGE_OP: nat := 0x12
  const VAR_PACKAGE_OP: nat := 0x13
  const METHOD_OP: nat := 0x14
  const EXTERNAL_OP: nat := 0x15
  const EXT_OP: nat := 0x5B
  const ADD_OP: nat := 0x72
  const SUBTRACT_OP: nat := 0x74
  const CREATE_DWORD_FIELD_OP: nat := 0x8A
  const CREATE_WORD_FIELD_OP: nat := 0x8B
  const CREATE_BYTE_FIELD_OP: nat := 0x8C
  const CREATE_BIT_FIELD_OP: nat := 0x8D
  const CREATE_QWORD_FIELD_OP: nat := 0x8F
  const IF_OP: nat := 0xA0
  const ONES_OP: nat := 0xFF
  const EXT_MUTEX_OP: nat := 0x01
  const EXT_EVENT_OP: nat := 0x02
  const EXT_CREATE_FIELD_OP: nat := 0x13
  const EXT_REGION_OP: nat := 0x80
  const EXT_FIELD_OP: nat := 0x81
  const EXT_DEVICE_OP: nat := 0x82
  const EXT_PROCESSOR_OP: nat := 0x83
  const EXT_POWER_RES_OP: nat := 0x84
  const EXT_THERMAL_ZONE_OP: nat := 0x85
  const EXT_INDEX_FIELD_OP: nat := 0x86
  const EXT_BANK_FIELD_OP: nat := 0x87

  predicate OpensScope(op: nat) {
    op == SCOPE_OP || op == EXT_DEVICE_OP
  }

  predicate DeclaresTwoNames(op: nat) {
    op == EXT_BANK_FIELD_OP || op == EXT_INDEX_FIELD_OP
  }

  predicate Declares(op: nat) {
    OpensScope(op) || DeclaresTwoNames(op) || op == METHOD_OP || op == EXT_FIELD_OP
  }

  /** Terms whose parsers are not modelled. */
  predicate IsUnmodelled(op: nat) {
    || op == IF_OP
    || op == CREATE_DWORD_FIELD_OP || op == CREATE_WORD_FIELD_OP || op == CREATE_BYTE_FIELD_OP
    || op == CREATE_BIT_FIELD_OP || op == CREATE_QWORD_FIELD_OP || op == EXT_CREATE_FIELD_OP
  }

  /** Opcodes the term parser dispatches on. */
  predicate KnownTerm(op: nat) {
    || Declares(op) || IsUnmodelled(op)
    || op == ZERO_OP || op == EXT_OP || op == ALIAS_OP || op == NAME_OP || op == EXTERNAL_OP
    || op == EXT_REGION_OP || op == EXT_POWER_RES_OP || op == EXT_PROCESSOR_OP || op == EXT_THERMAL_ZONE_OP
    || op == EXT_EVENT_OP || op == EXT_MUTEX_OP
  }

  // ----- Terms that are only skipped -----

  /** Offset behind a name string, if the nesting level still admits one. */
  function NameEnd(t: seq<Byte>, o: nat, depth: nat): (e: Option<nat>)
    ensures e.Some? ==> o < e.value <= |t|
  {
    if depth >= MAX_NESTING || o >= |t| || NameAt(t, o).None? then None else Some(NameAt(t, o).value.next)
  }

  function Behind(t: seq<Byte>, e: Option<nat>, n: nat): (r: Option<nat>)
    ensures r.Some? ==> e.Some? && r.value == e.value + n <= |t|
  {
    if e.Some? && e.value + n <= |t| then Some(e.value + n) else None
  }

  /** Offset behind a package whose length field is at `o`; the length counts from there. */
  function PackageEnd(t: seq<Byte>, o: nat, depth: nat): (e: Option<nat>)
    ensures e.Some? ==> o <= e.value <= |t|
  {
    if depth >= MAX_NESTING || PackageAt(t, o).None? then None
    else Behind(t, Some(o), PackageAt(t, o).value.length)
  }

  /** Offset behind a zero-terminated ASCII string. */
  function StringEnd(t: seq<Byte>, o: nat): (e: Option<nat>)
    ensures e.Some? ==> o < e.value <= |t|
    decreases |t| - o
  {
    if o >= |t| then None
    else if 0x01 <= t[o] <= 0x7F then StringEnd(t, o + 1)
    else if t[o] == ZERO_OP then Some(o + 1)
    else None
  }

  /** Size of an integer constant with its prefix, 0 for anything else. */
  function ConstantSize(op: nat): nat {
    if op == ZERO_OP || op == ONE_OP then 1
    else if op == BYTE_PREFIX then 2
    else if op == WORD_PREFIX then 3
    else if op == DWORD_PREFIX then 5
    else if op == QWORD_PREFIX then 9
    else 0
  }

  /** Offset behind the data object of a Name term. */
  function DataEnd(t: seq<Byte>, o: nat, depth: nat): (e: Option<nat>)
    ensures e.Some? ==> o < e.value <= |t|
  {
    if o >= |t| then None
    else if t[o] == STRING_PREFIX then StringEnd(t, o + 1)
    else if t[o] == BUFFER_OP || t[o] == PACKAGE_OP || t[o] == VAR_PACKAGE_OP then PackageEnd(t, o + 1, depth)
    else if t[o] == ONES_OP then Some(o + 1)
    else if t[o] == EXT_OP then Behind(t, Some(o), 2)
    else if ConstantSize(t[o]) == 0 then None
    else Behind(t, Some(o), ConstantSize(t[o]))
  }

  /** Offset behind an integer constant or a name. */
  function SimpleEnd(t: seq<Byte>, o: nat, depth: nat): (e: Option<nat>)
    ensures e.Some? ==> o < e.value <= |t|
  {
    if o >= |t| then None
    else if ConstantSize(t[o]) > 0 then Behind(t, Some(o), ConstantSize(t[o]))
    else NameEnd(t, o, depth)
  }

  /** What the skipped terms are made of. */
  datatype Part = NamePart | BytesPart(count: nat) | PackagePart | DataPart | SimplePart | OperandPart
  datatype Parts = Done | Then(part: Part, rest: Parts)

  /** A sum or difference: two simple operands and the name of a target. */
  const SUM_PARTS: Parts := Then(SimplePart, Then(SimplePart, Then(NamePart, Done)))

  /** The skipped terms behind their opcode. An operation region has a name, a space byte, an offset and a length. */
  function Grammar(op: nat): Parts {
    if op == ALIAS_OP then Then(NamePart, Then(NamePart, Done))
    else if op == NAME_OP then Then(NamePart, Then(DataPart, Done))
    else if op == EXTERNAL_OP then Then(NamePart, Then(BytesPart(2), Done))
    else if op == EXT_REGION_OP then Then(NamePart, Then(BytesPart(1), Then(OperandPart, Then(OperandPart, Done))))
    else if op == EXT_EVENT_OP then Then(NamePart, Done)
    else if op == EXT_MUTEX_OP then Then(NamePart, Then(BytesPart(1), Done))
    else Then(PackagePart, Done)
  }

  function PartEnd(t: seq<Byte>, part: Part, o: nat, depth: nat): (e: Option<nat>)
    requires o <= |t|
    ensures e.Some? ==> o <= e.value <= |t|
    decreases |t| - o, 0
  {
    match part
    case NamePart => NameEnd(t, o, depth)
    case BytesPart(count) => Behind(t, Some(o), count)
    case PackagePart => PackageEnd(t, o, depth)
    case DataPart => DataEnd(t, o, depth)
    case SimplePart => SimpleEnd(t, o, depth)
    case OperandPart =>
      if o < |t| && (t[o] == ADD_OP || t[o] == SUBTRACT_OP) then PartsEnd(t, SUM_PARTS, o + 1, depth)
      else SimpleEnd(t, o, depth)
  }

  function PartsEnd(t: seq<Byte>, parts: Parts, o: nat, depth: nat): (e: Option<nat>)
    requires o <= |t|
    ensures e.Some? ==> o <= e.value <= |t|
    decreases |t| - o, 1, parts
  {
    match parts
    case Done => Some(o)
    case Then(part, rest) =>
      match PartEnd(t, part, o, depth)
      case None => None
      case Some(a) => PartsEnd(t, rest, a, depth)
  }

  lemma PartsStep(t: seq<Byte>, parts: Parts, o: nat, depth: nat)
    requires o <= |t| && parts.Then?
    ensures PartsEnd(t, parts, o, depth) ==
            match PartEnd(t, parts.part, o, depth)
            case None => None
            case Some(a) => PartsEnd(t, parts.rest, a, depth)
  {
  }

  /** Offset behind a skipped term whose opcode stands in front of `o`; its parser runs on level `depth`. */
  function SkipEnd(t: seq<Byte>, op: nat, o: nat, depth: nat): (e: Option<nat>)
    requires o <= |t|
    ensures e.Some? ==> o <= e.value <= |t|
  {
    if op == ZERO_OP || op == EXT_OP then Some(o)
    else if depth >= MAX_NESTING then None
    else PartsEnd(t, Grammar(op), o, depth + 1)
  }

  // ----- What a term declares -----

  /** Package end and name of the term at `r`. */
  datatype Header = Header(end: nat, name: Name)

  function HeaderAt(t: seq<Byte>, r: nat): (h: Option<Header>)
    ensures h.Some? ==> r + 1 < h.value.name.next <= h.value.end <= |t|
    ensures h.Some? ==> h.value.name.start + IDENT_LEN * h.value.name.count <= |t|
  {
    match PackageAt(t, r + 1)
    case None => None
    case Some(p) =>
      var end := r + 1 + p.length;
      if end > |t| || p.next >= |t| then None
      else match NameAt(t, p.next)
        case None => None
        case Some(n) => if n.next > end then None else Some(Header(end, n))
  }

  /** The name segments declared by the term whose opcode byte is at `r`; bank and index fields declare two. */
  function DeclaredAt(t: seq<Byte>, r: nat): seq<Ident> {
    if r >= |t| || HeaderAt(t, r).None? then []
    else
      var n := HeaderAt(t, r).value.name;
      if !DeclaresTwoNames(t[r]) then Segments(t, n.start, n.count)
      else if n.next >= |t| then []
      else match NameAt(t, n.next)
        case None => []
        case Some(m) =>
          if n.count == m.count == 1 then Segments(t, n.start, 1) + Segments(t, m.start, 1) else []
  }

  /** First offset behind the package of the term at `r`. */
  function ScopeEnd(t: seq<Byte>, r: nat): nat {
    match HeaderAt(t, r)
    case None => r
    case Some(h) => h.end
  }

  /** The segments are those of the path from `i` on. */
  predicate Continues(segments: seq<Ident>, path: seq<Ident>, i: nat) {
    i + |segments| <= |path| && path[i..i + |segments|] == segments
  }

  /** The segments are all those of the path from `i` on. */
  predicate Completes(segments: seq<Ident>, path: seq<Ident>, i: nat) {
    i + |segments| == |path| && path[i..] == segments
  }

  /** The declaration at `r` names what is left of the path from identifier `i` on. */
  predicate DeclaresRest(t: seq<Byte>, path: seq<Ident>, i: nat, r: nat) {
    Completes(DeclaredAt(t, r), path, i)
  }

  // ----- The trace of a search -----

  /**
   How a walk ends: it goes on at an offset, fails, finds the nesting level used up at the start of a term,
   or comes to a term left out of the model.
   */
  datatype End = Goes(next: nat) | Fails | Exhausted | Leaves(at: nat)

  /** All matches in table order. */
  datatype Trace = Trace(hits: seq<nat>, end: End)

  function NameMatches(t: seq<Byte>, n: Name, path: seq<Ident>, i: nat): bool
    requires n.start + IDENT_LEN <= |t|
  {
    i < |path| && IdentAt(t, n.start) == path[i]
  }

  /** Whether the parser gets over the second name of a bank or index field. */
  predicate PairParses(t: seq<Byte>, path: seq<Ident>, i: nat, r: nat, h: Header)
    requires r < |t| && h.name.next <= h.end <= |t| && h.name.start + IDENT_LEN * h.name.count <= |t|
  {
    && h.name.next < h.end && h.name.count == 1
    && var second := NameAt(t, h.name.next);
       if NameMatches(t, h.name, path, i) then
         && second.Some?
         && (if t[r] == EXT_BANK_FIELD_OP
             then i + 1 == |path| || (second.value.next <= h.end && second.value.count == 1)
             else i + 1 < |path| && second.value.next < h.end && second.value.count == 1)
       else t[r] == EXT_BANK_FIELD_OP || second.Some?
  }

  /** A bank or index field is a match exactly when its two names are the last two identifiers. */
  lemma PairDeclares(t: seq<Byte>, path: seq<Ident>, i: nat, r: nat, h: Header)
    requires r < |t| && DeclaresTwoNames(t[r]) && HeaderAt(t, r) == Some(h) && i < |path|
    requires h.name.next < h.end && h.name.count == 1
    ensures var second := NameAt(t, h.name.next);
            DeclaresRest(t, path, i, r) <==>
            && second.Some? && second.value.count == 1 && i + 2 == |path|
            && NameMatches(t, h.name, path, i) && NameMatches(t, second.value, path, i + 1)
  {
    var second, names := NameAt(t, h.name.next), DeclaredAt(t, r);
    if second.Some? && second.value.count == 1 {
      var m := second.value;
      assert names == Segments(t, h.name.start, 1) + Segments(t, m.start, 1);
      assert names == [IdentAt(t, h.name.start), IdentAt(t, m.start)];
      if i + 2 == |path| {
        assert path[i..] == [path[i], path[i + 1]];
      }
    } else {
      assert names == [];
    }
  }

  /** A declaration without a scope. */
  function DeclarationTrace(t: seq<Byte>, path: seq<Ident>, i: nat, r: nat, depth: nat): Trace
    requires r < |t|
  {
    if depth >= MAX_NESTING then Trace([], Exhausted)
    else match HeaderAt(t, r)
    case None => Trace([], Fails)
    case Some(h) =>
      if depth + 1 >= MAX_NESTING then Trace([], Fails)
      else if DeclaresTwoNames(t[r]) then PairTrace(t, path, i, r, h)
      else Trace(if DeclaresRest(t, path, i, r) then [r] else [], Goes(h.end))
  }

  /** A bank or index field of which the header is in order is left to its two names. */
  lemma DeclarationIsPair(t: seq<Byte>, path: seq<Ident>, i: nat, r: nat, depth: nat, h: Header)
    requires r < |t| && DeclaresTwoNames(t[r]) && depth + 1 < MAX_NESTING && HeaderAt(t, r) == Some(h)
    ensures DeclarationTrace(t, path, i, r, depth) == PairTrace(t, path, i, r, h)
  {
  }

  lemma PairHeaderFails(t: seq<Byte>, path: seq<Ident>, i: nat, r: nat, depth: nat)
    requires r < |t| && DeclaresTwoNames(t[r]) && depth < MAX_NESTING
    requires !(depth + 1 < MAX_NESTING && HeaderAt(t, r).Some?
               && var g := HeaderAt(t, r).value; g.name.next < g.end && g.name.count == 1)
    ensures DeclarationTrace(t, path, i, r, depth) == Trace([], Fails)
  {
  }

  function PairTrace(t: seq<Byte>, path: seq<Ident>, i: nat, r: nat, h: Header): Trace
    requires r < |t| && h.name.next <= h.end <= |t| && h.name.start + IDENT_LEN * h.name.count <= |t|
  {
    if !PairParses(t, path, i, r, h) then Trace([], Fails)
    else Trace(if DeclaresRest(t, path, i, r) then [r] else [], Goes(h.end))
  }

  /** Where the path cursor stands inside a scope; a mismatch starts over. */
  function Entered(t: seq<Byte>, n: Name, path: seq<Ident>, i: nat): (j: nat)
    requires n.start + IDENT_LEN * n.count <= |t|
    ensures j <= |path|
  {
    var first := if n.isRoot then 0 else i;
    if Continues(Segments(t, n.start, n.count), path, first) then first + n.count else 0
  }

  function ScopeTrace(t: seq<Byte>, path: seq<Ident>, i: nat, r: nat, depth: nat): (tr: Trace)
    requires r < |t|
    ensures tr.end.Goes? ==> r < tr.end.next <= |t|
    ensures tr.end.Leaves? ==> r <= tr.end.at < |t| && IsUnmodelled(t[tr.end.at])
    decreases |t| - r, 0
  {
    if depth >= MAX_NESTING then Trace([], Exhausted)
    else match HeaderAt(t, r)
    case None => Trace([], Fails)
    case Some(h) =>
      if depth + 1 >= MAX_NESTING then Trace([], Fails)
      else EnteredTrace(t, path, Entered(t, h.name, path, i), r, h.name.next, h.end, depth + 1)
  }

  /** The scope at `r`, entered with `j` identifiers spelled: it may be a match itself, then the search starts over. */
  function EnteredTrace(t: seq<Byte>, path: seq<Ident>, j: nat, r: nat, o: nat, end: nat, depth: nat): (tr: Trace)
    requires r < o <= |t| && end <= |t|
    ensures tr.end.Goes? ==> r < tr.end.next <= |t|
    ensures tr.end.Leaves? ==> r <= tr.end.at < |t| && IsUnmodelled(t[tr.end.at])
    decreases |t| - o, 4
  {
    if j == |path| then
      var body := BodyTrace(t, path, 0, o, end, depth);
      Trace([r] + body.hits, body.end)
    else BodyTrace(t, path, j, o, end, depth)
  }

  /** The terms from `o` on as long as they start in front of `end`. */
  function BodyTrace(t: seq<Byte>, path: seq<Ident>, i: nat, o: nat, end: nat, depth: nat): (tr: Trace)
    requires o <= |t| && end <= |t|
    ensures tr.end.Goes? ==> o <= tr.end.next <= |t|
    ensures tr.end.Leaves? ==> o <= tr.end.at < |t| && IsUnmodelled(t[tr.end.at])
    decreases |t| - o, 3
  {
    if o >= end then Trace([], Goes(o))
    else
      var first := TermTrace(t, path, i, o, depth);
      if !first.end.Goes? then first
      else
        var rest := BodyTrace(t, path, i, first.end.next, end, depth);
        Trace(first.hits + rest.hits, rest.end)
  }

  /** The term whose opcode is at `r`. */
  function TermTrace(t: seq<Byte>, path: seq<Ident>, i: nat, r: nat, depth: nat): (tr: Trace)
    requires r < |t|
    ensures tr.end.Goes? ==> r < tr.end.next <= |t|
    ensures tr.end.Leaves? ==> r <= tr.end.at < |t| && IsUnmodelled(t[tr.end.at])
    decreases |t| - r, 2
  {
    if depth >= MAX_NESTING then Trace([], Exhausted)
    else if !KnownTerm(t[r]) || r + 1 >= |t| then Trace([], Fails)
    else DispatchTrace(t, path, i, r, depth + 1)
  }

  function DispatchTrace(t: seq<Byte>, path: seq<Ident>, i: nat, r: nat, depth: nat): (tr: Trace)
    requires r < |t|
    ensures tr.end.Goes? ==> r < tr.end.next <= |t|
    ensures tr.end.Leaves? ==> r <= tr.end.at < |t| && IsUnmodelled(t[tr.end.at])
    decreases |t| - r, 1
  {
    if OpensScope(t[r]) then ScopeTrace(t, path, i, r, depth)
    else if Declares(t[r]) then DeclarationTrace(t, path, i, r, depth)
    else SkipTrace(t, r, depth)
  }

  /** All but the first `n` matches of a trace are those of the rest, and both end alike. */
  predicate Remains(all: Trace, n: nat, rest: Trace) {
    n <= |all.hits| && all.hits[n..] == rest.hits && all.end == rest.end
  }

  /** One term splits off the front of what remains of a body. */
  lemma BodyAdvances(t: seq<Byte>, path: seq<Ident>, i: nat, o: nat, end: nat, depth: nat, all: Trace, n: nat)
    requires o < end <= |t| && Remains(all, n, BodyTrace(t, path, i, o, end, depth))
    ensures var first := TermTrace(t, path, i, o, depth);
            && n + |first.hits| <= |all.hits| && all.hits[n..n + |first.hits|] == first.hits
            && if first.end.Goes? then
                 Remains(all, n + |first.hits|, BodyTrace(t, path, i, first.end.next, end, depth))
               else |all.hits| == n + |first.hits| && all.end == first.end
  {
    var first := TermTrace(t, path, i, o, depth);
    var rest := all.hits[n..];
    if first.end.Goes? {
      assert rest[..|first.hits|] == first.hits && rest[|first.hits|..] == all.hits[n + |first.hits|..];
    } else {
      assert rest[..|first.hits|] == first.hits;
    }
  }

  function SkipTrace(t: seq<Byte>, r: nat, depth: nat): Trace
    requires r < |t|
  {
    if IsUnmodelled(t[r]) then Trace([], Leaves(r))
    else if depth >= MAX_NESTING && t[r] != ZERO_OP && t[r] != EXT_OP then Trace([], Exhausted)
    else match SkipEnd(t, t[r], r + 1, depth)
      case None => Trace([], Fails)
      case Some(e) => Trace([], Goes(e))
  }

  // ----- Every match is a declaration of the path -----

  /** Terms inside each other, innermost first. */
  datatype Chain = Top | In(outer: Chain, term: nat)

  /** The term at `outer` is a scope that holds the offset. */
  predicate Encloses(t: seq<Byte>, outer: nat, at: nat) {
    outer < at < ScopeEnd(t, outer) && outer < |t| && OpensScope(t[outer])
  }

  /** Each term of the chain is a scope that holds the opcode of the next one. */
  predicate Nested(t: seq<Byte>, chain: Chain) {
    match chain
    case Top => true
    case In(outer, term) => Nested(t, outer) && (outer.In? ==> Encloses(t, outer.term, term))
  }

  /** The names declared along the chain, from the outside in, are exactly the first `i` identifiers. */
  predicate Spelled(t: seq<Byte>, chain: Chain, path: seq<Ident>, i: nat) {
    match chain
    case Top => i == 0
    case In(outer, term) =>
      var names := DeclaredAt(t, term);
      |names| <= i && Continues(names, path, i - |names|) && Spelled(t, outer, path, i - |names|)
  }

  /** The chain of scopes around offset `at` spells the first `i` identifiers. */
  predicate Around(t: seq<Byte>, chain: Chain, path: seq<Ident>, i: nat, at: nat) {
    match chain
    case Top => i == 0
    case In(_, scope) => Encloses(t, scope, at) && Nested(t, chain) && Spelled(t, chain, path, i)
  }

  /** Nested scopes and the declaration at `r` inside them spell the whole path. */
  predicate Located(t: seq<Byte>, path: seq<Ident>, chain: Chain, r: nat) {
    match chain
    case Top => false
    case In(_, term) =>
      term == r < |t| && Declares(t[r]) && Nested(t, chain) && Spelled(t, chain, path, |path|)
  }

  /** The chain inside the scope at `r`: it spells the first `i` identifiers and ends there, or is empty. */
  predicate Inside(t: seq<Byte>, path: seq<Ident>, chain: Chain, i: nat, r: nat) {
    match chain
    case Top => i == 0
    case In(_, scope) => scope == r && Nested(t, chain) && Spelled(t, chain, path, i)
  }

  lemma DeclarationHitLocated(t: seq<Byte>, path: seq<Ident>, i: nat, r: nat, chain: Chain)
    requires r < |t| && Declares(t[r]) && DeclaresRest(t, path, i, r) && Around(t, chain, path, i, r)
    ensures Located(t, path, In(chain, r), r)
  {
  }

  /** The chain that goes on inside the scope at `r`. */
  function Enter(t: seq<Byte>, n: Name, path: seq<Ident>, i: nat, r: nat, chain: Chain): Chain
    requires n.start + IDENT_LEN * n.count <= |t|
  {
    if !Continues(Segments(t, n.start, n.count), path, if n.isRoot then 0 else i) then Top
    else In(if n.isRoot then Top else chain, r)
  }

  lemma EnterInside(t: seq<Byte>, path: seq<Ident>, i: nat, r: nat, h: Header, chain: Chain)
    requires r < |t| && OpensScope(t[r]) && HeaderAt(t, r) == Some(h) && Around(t, chain, path, i, r)
    ensures Inside(t, path, Enter(t, h.name, path, i, r, chain), Entered(t, h.name, path, i), r)
  {
    var names := Segments(t, h.name.start, h.name.count);
    ScopeDeclares(t, r, h);
    if h.name.isRoot {
      if Continues(names, path, 0) {
        LongerInside(t, path, 0, r, names, Top);
      }
    } else if Continues(names, path, i) {
      LongerInside(t, path, i, r, names, chain);
    }
  }

  lemma ScopeDeclares(t: seq<Byte>, r: nat, h: Header)
    requires r < |t| && OpensScope(t[r]) && HeaderAt(t, r) == Some(h)
    ensures DeclaredAt(t, r) == Segments(t, h.name.start, h.name.count)
  {
  }

  lemma LongerInside(t: seq<Byte>, path: seq<Ident>, i: nat, r: nat, names: seq<Ident>, chain: Chain)
    requires Around(t, chain, path, i, r) && DeclaredAt(t, r) == names && Continues(names, path, i)
    ensures Inside(t, path, In(chain, r), i + |names|, r)
  {
    assert i + |names| - |names| == i;
  }

  lemma {:induction false} ScopeHitLocated(t: seq<Byte>, path: seq<Ident>, i: nat, r: nat, depth: nat, chain: Chain, hit: nat)
      returns (where: Chain)
    requires r < |t| && OpensScope(t[r]) && path != [] && Around(t, chain, path, i, r)
    requires hit in ScopeTrace(t, path, i, r, depth).hits
    ensures Located(t, path, where, hit)
    decreases |t| - r, 0
  {
    var h := HeaderAt(t, r).value;
    EnterInside(t, path, i, r, h, chain);
    where := EnteredHitLocated(t, path, Entered(t, h.name, path, i), r, h.name.next, h.end, depth + 1,
                               Enter(t, h.name, path, i, r, chain), hit);
  }

  lemma {:induction false} EnteredHitLocated(t: seq<Byte>, path: seq<Ident>, j: nat, r: nat, o: nat, end: nat, depth: nat,
                                             inner: Chain, hit: nat)
      returns (where: Chain)
    requires r < o <= |t| && end <= |t| && path != [] && OpensScope(t[r]) && ScopeEnd(t, r) == end
    requires Inside(t, path, inner, j, r)
    requires hit in EnteredTrace(t, path, j, r, o, end, depth).hits
    ensures Located(t, path, where, hit)
    decreases |t| - o, 4
  {
    if j != |path| {
      where := BodyHitLocated(t, path, j, o, end, depth, inner, r, hit);
    } else if hit == r {
      where := inner;
    } else {
      where := BodyHitLocated(t, path, 0, o, end, depth, Top, r, hit);
    }
  }

  lemma {:induction false} BodyHitLocated(t: seq<Byte>, path: seq<Ident>, i: nat, o: nat, end: nat, depth: nat,
                                          chain: Chain, scope: nat, hit: nat)
      returns (where: Chain)
    requires o <= |t| && end <= |t| && path != []
    requires chain == Top || (scope < o && scope < |t| && OpensScope(t[scope]) && ScopeEnd(t, scope) == end)
    requires Inside(t, path, chain, i, scope)
    requires hit in BodyTrace(t, path, i, o, end, depth).hits
    ensures Located(t, path, where, hit)
    decreases |t| - o, 3
  {
    var first := TermTrace(t, path, i, o, depth);
    if hit in first.hits {
      where := TermHitLocated(t, path, i, o, depth, chain, hit);
    } else {
      where := BodyHitLocated(t, path, i, first.end.next, end, depth, chain, scope, hit);
    }
  }

  /** Whatever a search finds is a declaration whose scopes and names spell the path. */
  lemma {:induction false} TermHitLocated(t: seq<Byte>, path: seq<Ident>, i: nat, r: nat, depth: nat, chain: Chain, hit: nat)
      returns (where: Chain)
    requires r < |t| && path != [] && Around(t, chain, path, i, r)
    requires hit in TermTrace(t, path, i, r, depth).hits
    ensures Located(t, path, where, hit)
    decreases |t| - r, 1
  {
    if OpensScope(t[r]) {
      where := ScopeHitLocated(t, path, i, r, depth + 1, chain, hit);
    } else {
      where := In(chain, r);
      OneHit(t, path, i, r, depth, hit);
      DeclarationHitLocated(t, path, i, r, chain);
    }
  }

  lemma OneHit(t: seq<Byte>, path: seq<Ident>, i: nat, r: nat, depth: nat, hit: nat)
    requires r < |t| && !OpensScope(t[r]) && hit in TermTrace(t, path, i, r, depth).hits
    ensures hit == r && Declares(t[r]) && DeclaresRest(t, path, i, r)
  {
    assert TermTrace(t, path, i, r, depth) == DispatchTrace(t, path, i, r, depth + 1);
    assert Declares(t[r]);
    assert TermTrace(t, path, i, r, depth) == DeclarationTrace(t, path, i, r, depth + 1);
  }

  // ----- The nesting limit -----

  lemma {:induction false} ScopeNotExhausted(t: seq<Byte>, path: seq<Ident>, i: nat, r: nat, depth: nat)
    requires r < |t| && depth % 2 == 1 && depth < MAX_NESTING
    ensures ScopeTrace(t, path, i, r, depth).end != Exhausted
    decreases |t| - r, 0
  {
    var h := HeaderAt(t, r);
    if h.Some? && depth + 1 < MAX_NESTING {
      var j, next := Entered(t, h.value.name, path, i), h.value.name.next;
      BodyNotExhausted(t, path, if j == |path| then 0 else j, next, h.value.end, depth + 1);
    }
  }

  /**
   A term and its parser take one level each, so terms start on even levels, and at the last one the
   header of a scope already fails: a walk that starts on an even level never reports the limit itself.
   */
  lemma {:induction false} BodyNotExhausted(t: seq<Byte>, path: seq<Ident>, i: nat, o: nat, end: nat, depth: nat)
    requires o <= |t| && end <= |t| && depth % 2 == 0 && depth < MAX_NESTING
    ensures BodyTrace(t, path, i, o, end, depth).end != Exhausted
    decreases |t| - o, 2
  {
    if o < end {
      var first := TermTrace(t, path, i, o, depth);
      TermNotExhausted(t, path, i, o, depth);
      if first.end.Goes? {
        BodyNotExhausted(t, path, i, first.end.next, end, depth);
      }
    }
  }

  lemma {:induction false} TermNotExhausted(t: seq<Byte>, path: seq<Ident>, i: nat, r: nat, depth: nat)
    requires r < |t| && depth % 2 == 0 && depth < MAX_NESTING
    ensures TermTrace(t, path, i, r, depth).end != Exhausted
    decreases |t| - r, 1
  {
    if OpensScope(t[r]) {
      ScopeNotExhausted(t, path, i, r, depth + 1);
    }
  }

  // ----- The matches come in table order -----

  predicate Ascending(s: seq<nat>, lo: nat, hi: nat) {
    && (forall k :: 0 <= k < |s| ==> lo <= s[k] < hi)
    && (forall j, k :: 0 <= j < k < |s| ==> s[j] < s[k])
  }

  /** Where the matches of a trace end. */
  function Bound(t: seq<Byte>, end: End): nat {
    if end.Goes? then end.next else |t|
  }

  lemma AscendingConcat(a: seq<nat>, b: seq<nat>, lo: nat, mid: nat, hi: nat)
    requires Ascending(a, lo, mid) && Ascending(b, mid, hi) && lo <= mid <= hi
    ensures Ascending(a + b, lo, hi)
  {
  }

  lemma {:induction false} ScopeAscends(t: seq<Byte>, path: seq<Ident>, i: nat, r: nat, depth: nat)
    requires r < |t|
    ensures var tr := ScopeTrace(t, path, i, r, depth); Ascending(tr.hits, r, Bound(t, tr.end))
    decreases |t| - r, 0
  {
    var h := HeaderAt(t, r);
    if h.Some? {
      var j, next := Entered(t, h.value.name, path, i), h.value.name.next;
      BodyAscends(t, path, if j == |path| then 0 else j, next, h.value.end, depth + 1);
    }
  }

  /** No place is counted twice: matches ascend. */
  lemma {:induction false} BodyAscends(t: seq<Byte>, path: seq<Ident>, i: nat, o: nat, end: nat, depth: nat)
    requires o <= |t| && end <= |t|
    ensures var tr := BodyTrace(t, path, i, o, end, depth); Ascending(tr.hits, o, Bound(t, tr.end))
    decreases |t| - o, 2
  {
    if o < end {
      var first := TermTrace(t, path, i, o, depth);
      TermAscends(t, path, i, o, depth);
      if first.end.Goes? {
        var rest := BodyTrace(t, path, i, first.end.next, end, depth);
        BodyAscends(t, path, i, first.end.next, end, depth);
        AscendingConcat(first.hits, rest.hits, o, first.end.next, Bound(t, rest.end));
      }
    }
  }

  lemma {:induction false} TermAscends(t: seq<Byte>, path: seq<Ident>, i: nat, r: nat, depth: nat)
    requires r < |t|
    ensures var tr := TermTrace(t, path, i, r, depth); Ascending(tr.hits, r, Bound(t, tr.end))
    decreases |t| - r, 1
  {
    if OpensScope(t[r]) {
      ScopeAscends(t, path, i, r, depth + 1);
    }
  }
}
