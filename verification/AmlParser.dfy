/**
 The AML term parser: recursive descent over a table with one shared cursor, a cursor in the lookup path
 and a nesting counter. If and CreateField terms end the model's run with `Unmodelled`.
 */
module AmlParser {
  import opened Machine
  import opened Bytes
  import opened AmlNames
  import opened AmlEncoding
  import opened AmlTerms

  datatype Status = Success | NotFound | DeviceError | OutOfResources | LoadError | InvalidParameter | Unmodelled

  // ----- The parser context -----

  class Parser {
    const table: seq<Byte>
    const path: seq<Ident>
    const required: nat
    var cur: nat
    var ident: nat
    var nesting: nat
    var found: nat

    constructor (table: seq<Byte>, path: seq<Ident>, required: nat, cur: nat)
      ensures this.table == table && this.path == path && this.required == required && this.cur == cur
      ensures ident == 0 && nesting == 0 && found == 0
    {
      this.table, this.path, this.required, this.cur := table, path, required, cur;
      ident, nesting, found := 0, 0, 0;
    }

    /** CONTEXT_HAS_WORK. */
    predicate HasWork()
      reads this
    {
      cur < |table| && ident < |path| && found < required
    }

    /** A helper got over its part and left cursor and nesting level accordingly, or failed. */
    twostate predicate Passed(ok: bool, new end: Option<nat>)
      reads this
    {
      && old(cur) <= cur <= |table| && old(nesting) <= nesting
      && match end
         case Some(e) => ok && cur == e && nesting == old(nesting)
         case None => !ok
    }

    /** A skip parser: not found with the cursor behind the term, or an error. */
    twostate predicate Skipped(status: Status, new end: Option<nat>)
      reads this
    {
      && old(cur) <= cur <= |table| && old(nesting) <= nesting
      && match end
         case Some(e) => status == NotFound && cur == e && nesting == old(nesting)
         case None => status == if old(nesting) >= MAX_NESTING then OutOfResources else DeviceError
    }

    /**
     A parser follows the trace of its term: it succeeds at the match that makes up the required number,
     and otherwise reports the way the trace ends. A not-found return stands behind the term, has counted
     its matches and restored path cursor and nesting level.
     */
    twostate predicate Follows(status: Status, result: nat, new tr: Trace)
      reads this
    {
      && old(cur) <= cur <= |table| && ident <= |path| && old(nesting) <= nesting
      && Reports(old(found), status, result, tr)
      && (status == NotFound ==> ident == old(ident) && nesting == old(nesting))
    }

    /** The outcome a trace prescribes when `before` matches have been counted in front of it. */
    ghost predicate Reports(before: nat, status: Status, result: nat, tr: Trace)
      reads this
    {
      if before + |tr.hits| >= required then
        before < required && status == Success && result == tr.hits[required - before - 1]
      else match tr.end
        case Goes(next) => status == NotFound && cur == next && found == before + |tr.hits|
        case Leaves(_) => status == Unmodelled
        case Fails => status == DeviceError
        case Exhausted => status == OutOfResources
    }

    method ParseNameString() returns (status: Status, name: Name)
      requires HasWork()
      modifies this`cur, this`nesting
      ensures old(cur) <= cur <= |table| && old(nesting) <= nesting
      ensures status == Success ==>
                NameAt(table, old(cur)) == Some(name) && cur == name.next && nesting == old(nesting)
      ensures status == OutOfResources <==> old(nesting) >= MAX_NESTING
      ensures old(nesting) < MAX_NESTING ==> status == if NameAt(table, old(cur)).Some? then Success else DeviceError
    {
      name := Name(0, 0, false, 0);
      nesting := nesting + 1;
      if nesting > MAX_NESTING {
        return OutOfResources, name;
      }
      var isRoot := false;
      while table[cur] == ROOT_CHAR || table[cur] == PARENT_PREFIX_CHAR
        invariant old(cur) <= cur < |table| && nesting == old(nesting) + 1
        invariant SkipPrefixes(table, old(cur), false) == SkipPrefixes(table, cur, isRoot)
        decreases |table| - cur
      {
        if table[cur] == ROOT_CHAR {
          isRoot := true;
        }
        if |table| - cur <= 1 {
          return DeviceError, name;
        }
        cur := cur + 1;
      }
      if table[cur] == ZERO_OP {
        name := Name(0, 0, isRoot, cur + 1);
        cur := cur + 1;
      } else if table[cur] == DUAL_NAME_PREFIX {
        if |table| - cur <= 1 {
          return DeviceError, name;
        }
        cur := cur + 1;
        if |table| - cur < 2 * IDENT_LEN {
          return DeviceError, name;
        }
        name := Name(cur, 2, isRoot, cur + 2 * IDENT_LEN);
        cur := cur + 2 * IDENT_LEN;
      } else if table[cur] == MULTI_NAME_PREFIX {
        if |table| - cur <= 1 {
          return DeviceError, name;
        }
        cur := cur + 1;
        var count: nat := table[cur];
        if |table| - cur < 1 + count * IDENT_LEN {
          return DeviceError, name;
        }
        name := Name(cur + 1, count, isRoot, cur + 1 + count * IDENT_LEN);
        cur := cur + 1 + count * IDENT_LEN;
      } else {
        if |table| - cur < IDENT_LEN {
          return DeviceError, name;
        }
        name := Name(cur, 1, isRoot, cur + IDENT_LEN);
        cur := cur + IDENT_LEN;
      }
      nesting := nesting - 1;
      status := Success;
    }

    method ParsePkgLength() returns (status: Status, length: nat)
      requires HasWork()
      modifies this`cur, this`nesting
      ensures old(cur) <= cur <= |table| && old(nesting) <= nesting
      ensures status == Success ==>
                PackageAt(table, old(cur)) == Some(Package(length, cur)) && nesting == old(nesting)
      ensures status == OutOfResources <==> old(nesting) >= MAX_NESTING
      ensures old(nesting) < MAX_NESTING ==> status == if PackageAt(table, old(cur)).Some? then Success else DeviceError
    {
      length := 0;
      nesting := nesting + 1;
      if nesting > MAX_NESTING {
        return OutOfResources, length;
      }
      var lead: nat := table[cur];
      var count := lead / 0x40;
      cur := cur + 1;
      if count > 0 {
        if |table| - cur < count {
          return DeviceError, length;
        }
        length := ReadNumber(cur, count);
        length := lead % 0x10 + 0x10 * length;
        cur := cur + count;
      } else {
        length := lead;
      }
      nesting := nesting - 1;
      status := Success;
    }

    /** The byte loop of the package length. */
    method ReadNumber(at: nat, count: nat) returns (value: nat)
      requires at + count <= |table| && count <= 3
      ensures value == Number(table, at, count)
    {
      value := 0;
      var unit := 1;
      for i := 0 to count
        invariant unit == Limit(i) && value == Number(table, at, i)
      {
        NumberSnoc(table, at, i);
        var b: nat := table[at + i];
        value := value + b * unit;
        unit := unit * 0x100;
      }
    }

    // ----- Terms that are only skipped -----

    /** A name string that is only passed. */
    method SkipName() returns (ok: bool)
      requires cur <= |table| && ident < |path| && found < required
      modifies this`cur, this`nesting
      ensures Passed(ok, PartEnd(table, NamePart, old(cur), old(nesting)))
    {
      if |table| - cur < 1 {
        return false;
      }
      var named, name := ParseNameString();
      ok := named == Success;
    }

    /** The data object of a Name term. */
    method SkipData() returns (ok: bool)
      requires HasWork()
      modifies this`cur, this`nesting
      ensures Passed(ok, PartEnd(table, DataPart, old(cur), old(nesting)))
    {
      var op: nat := table[cur];
      if op == STRING_PREFIX {
        ok := SkipString();
        return;
      }
      if op == BUFFER_OP || op == PACKAGE_OP || op == VAR_PACKAGE_OP {
        if |table| - cur <= 1 {
          return false;
        }
        cur := cur + 1;
        ok := SkipPackage();
        return;
      }
      var size := ConstantSize(op);
      if op == ONES_OP {
        size := 1;
      } else if op == EXT_OP {
        size := 2;
      }
      if size == 0 || |table| - cur < size {
        return false;
      }
      cur := cur + size;
      ok := true;
    }

    /** Zero-terminated ASCII string behind its prefix. */
    method SkipString() returns (ok: bool)
      requires cur < |table|
      modifies this`cur
      ensures Passed(ok, StringEnd(table, old(cur) + 1))
    {
      if |table| - cur <= 1 {
        return false;
      }
      cur := cur + 1;
      while 0x01 <= table[cur] <= 0x7F
        invariant old(cur) < cur < |table| && StringEnd(table, cur) == StringEnd(table, old(cur) + 1)
        decreases |table| - cur
      {
        if |table| - cur <= 1 {
          return false;
        }
        cur := cur + 1;
      }
      if table[cur] != ZERO_OP {
        return false;
      }
      cur := cur + 1;
      ok := true;
    }

    /** Steps over a whole package, counted from its length field. */
    method SkipPackage() returns (ok: bool)
      requires HasWork()
      modifies this`cur, this`nesting
      ensures Passed(ok, PackageEnd(table, old(cur), old(nesting)))
    {
      var begin := cur;
      var sized, length := ParsePkgLength();
      if sized != Success {
        return false;
      }
      cur := begin;
      if |table| - cur < length {
        return false;
      }
      cur := cur + length;
      ok := true;
    }

    /** An integer constant or a name. */
    method SkipSimpleOperand() returns (ok: bool)
      requires cur <= |table| && ident < |path| && found < required
      modifies this`cur, this`nesting
      ensures Passed(ok, PartEnd(table, SimplePart, old(cur), old(nesting)))
    {
      if |table| - cur < 1 {
        return false;
      }
      var size := ConstantSize(table[cur]);
      if size == 0 {
        ok := SkipName();
        return;
      }
      if |table| - cur < size {
        return false;
      }
      cur := cur + size;
      ok := true;
    }

    /** An operand of an operation region, which may be a sum or a difference with its target. */
    method SkipOperand() returns (ok: bool)
      requires cur <= |table| && ident < |path| && found < required
      modifies this`cur, this`nesting
      ensures Passed(ok, PartEnd(table, OperandPart, old(cur), old(nesting)))
    {
      if |table| - cur < 1 {
        return false;
      }
      if table[cur] != ADD_OP && table[cur] != SUBTRACT_OP {
        ok := SkipSimpleOperand();
        return;
      }
      if |table| - cur <= 1 {
        PartsStep(table, SUM_PARTS, cur + 1, nesting);
        return false;
      }
      cur := cur + 1;
      ok := SkipSum();
    }

    /** Both operands and the target of a sum or difference. */
    method SkipSum() returns (ok: bool)
      requires HasWork()
      modifies this`cur, this`nesting
      ensures Passed(ok, PartsEnd(table, SUM_PARTS, old(cur), old(nesting)))
    {
      PartsStep(table, SUM_PARTS, cur, nesting);
      ok := SkipSimpleOperand();
      if ok {
        PartsStep(table, SUM_PARTS.rest, cur, nesting);
        ok := SkipSimpleOperand();
      }
      if ok {
        PartsStep(table, SUM_PARTS.rest.rest, cur, nesting);
        ok := SkipName();
      }
    }

    method ParseAlias() returns (status: Status)
      requires HasWork()
      modifies this`cur, this`nesting
      ensures Skipped(status, SkipEnd(table, ALIAS_OP, old(cur), old(nesting)))
    {
      nesting := nesting + 1;
      if nesting > MAX_NESTING {
        return OutOfResources;
      }
      ghost var parts := Grammar(ALIAS_OP);
      PartsStep(table, parts, cur, nesting);
      var ok := SkipName();
      if !ok {
        return DeviceError;
      }
      PartsStep(table, parts.rest, cur, nesting);
      ok := SkipName();
      if !ok {
        return DeviceError;
      }
      nesting := nesting - 1;
      status := NotFound;
    }

    method ParseName() returns (status: Status)
      requires HasWork()
      modifies this`cur, this`nesting
      ensures Skipped(status, SkipEnd(table, NAME_OP, old(cur), old(nesting)))
    {
      nesting := nesting + 1;
      if nesting > MAX_NESTING {
        return OutOfResources;
      }
      ghost var parts := Grammar(NAME_OP);
      PartsStep(table, parts, cur, nesting);
      var ok := SkipName();
      if !ok {
        return DeviceError;
      }
      PartsStep(table, parts.rest, cur, nesting);
      if |table| - cur < 1 {
        return DeviceError;
      }
      ok := SkipData();
      if !ok {
        return DeviceError;
      }
      nesting := nesting - 1;
      status := NotFound;
    }

    /** Externals, events and mutexes: a name and `extra` bytes. */
    method ParseNamed(op: nat, extra: nat) returns (status: Status)
      requires HasWork()
      requires Grammar(op) == Then(NamePart, if extra == 0 then Done else Then(BytesPart(extra), Done))
      requires op != ZERO_OP && op != EXT_OP
      modifies this`cur, this`nesting
      ensures Skipped(status, SkipEnd(table, op, old(cur), old(nesting)))
    {
      nesting := nesting + 1;
      if nesting > MAX_NESTING {
        return OutOfResources;
      }
      ghost var parts := Grammar(op);
      PartsStep(table, parts, cur, nesting);
      var ok := SkipName();
      if !ok {
        return DeviceError;
      }
      if extra > 0 {
        PartsStep(table, parts.rest, cur, nesting);
      }
      if |table| - cur < extra {
        return DeviceError;
      }
      cur := cur + extra;
      nesting := nesting - 1;
      status := NotFound;
    }

    method ParseOpRegion() returns (status: Status)
      requires HasWork()
      modifies this`cur, this`nesting
      ensures Skipped(status, SkipEnd(table, EXT_REGION_OP, old(cur), old(nesting)))
    {
      nesting := nesting + 1;
      if nesting > MAX_NESTING {
        return OutOfResources;
      }
      ghost var parts := Grammar(EXT_REGION_OP);
      PartsStep(table, parts, cur, nesting);
      var ok := SkipName();
      if !ok {
        return DeviceError;
      }
      ok := SkipSpace();
      if !ok {
        return DeviceError;
      }
      ok := SkipOperands();
      if !ok {
        return DeviceError;
      }
      nesting := nesting - 1;
      status := NotFound;
    }

    /** The space byte of an operation region, which must not be the last one. */
    method SkipSpace() returns (ok: bool)
      requires cur <= |table|
      modifies this`cur
      ensures ok <==> old(cur) + 1 < |table|
      ensures cur == if ok then old(cur) + 1 else old(cur)
      ensures var parts := Grammar(EXT_REGION_OP).rest;
              PartsEnd(table, parts, old(cur), nesting) == if ok then PartsEnd(table, parts.rest, cur, nesting) else None
    {
      ghost var parts := Grammar(EXT_REGION_OP).rest;
      PartsStep(table, parts, cur, nesting);
      if |table| - cur <= 1 {
        if |table| - cur == 1 {
          PartsStep(table, parts.rest, cur + 1, nesting);
        }
        return false;
      }
      cur := cur + 1;
      ok := true;
    }

    /** Offset and length of an operation region. */
    method SkipOperands() returns (ok: bool)
      requires HasWork()
      modifies this`cur, this`nesting
      ensures Passed(ok, PartsEnd(table, Grammar(EXT_REGION_OP).rest.rest, old(cur), old(nesting)))
    {
      ghost var parts := Grammar(EXT_REGION_OP).rest.rest;
      PartsStep(table, parts, cur, nesting);
      ok := SkipOperand();
      if ok {
        PartsStep(table, parts.rest, cur, nesting);
        ok := SkipOperand();
      }
    }

    /** Power resources, processors and thermal zones are skipped alike. */
    method ParseSkippedPackage(op: nat) returns (status: Status)
      requires HasWork() && Grammar(op) == Then(PackagePart, Done) && op != ZERO_OP && op != EXT_OP
      modifies this`cur, this`nesting
      ensures Skipped(status, SkipEnd(table, op, old(cur), old(nesting)))
    {
      nesting := nesting + 1;
      if nesting > MAX_NESTING {
        return OutOfResources;
      }
      PartsStep(table, Grammar(op), cur, nesting);
      var ok := SkipPackage();
      if !ok {
        return DeviceError;
      }
      nesting := nesting - 1;
      status := NotFound;
    }

    // ----- Matching names -----

    /** The byte comparison of one segment with an identifier. */
    method CompareSegment(at: nat, i: nat) returns (equal: bool)
      requires at + IDENT_LEN <= |table| && i < |path|
      ensures equal <==> IdentAt(table, at) == path[i]
    {
      ghost var segment := table[at..at + IDENT_LEN];
      MatchIsPack(segment, path[i]);
      IdentAtIsPack(table, at);
      for k := 0 to IDENT_LEN
        invariant k > 0 ==> segment[0] == ByteOf(path[i], 3)
        invariant k > 1 ==> segment[1] == ByteOf(path[i], 2)
        invariant k > 2 ==> segment[2] == ByteOf(path[i], 1)
        invariant k > 3 ==> segment[3] == ByteOf(path[i], 0)
      {
        assert segment[k] == table[at + k];
        if table[at + k] != ByteOf(path[i], IDENT_LEN - k - 1) {
          return false;
        }
      }
      return true;
    }

    /** Compares the segments with the path from the current identifier on. */
    method MatchName(start: nat, count: nat) returns (ok: bool)
      requires start + IDENT_LEN * count <= |table| && ident <= |path|
      modifies this`ident
      ensures ident <= |path|
      ensures ok <==> Continues(Segments(table, start, count), path, old(ident))
      ensures ok ==> ident == old(ident) + count
    {
      ghost var first := ident;
      ghost var segments := Segments(table, start, count);
      for index := 0 to count
        invariant ident == first + index <= |path|
        invariant path[first..first + index] == segments[..index]
      {
        if ident == |path| {
          return false;
        }
        var equal := CompareSegment(start + IDENT_LEN * index, ident);
        if !equal {
          assert first + count <= |path| ==> path[first..first + count][index] == path[ident];
          return false;
        }
        ident := ident + 1;
        assert path[first..first + index + 1] == path[first..first + index] + [path[first + index]];
        assert segments[..index + 1] == segments[..index] + [segments[index]];
      }
      assert segments[..count] == segments;
      return true;
    }

    // ----- Terms that can be found -----

    /** Package and name of a term: the end of the package must lie inside the table, the name inside the package. */
    method ParseHeader() returns (ok: bool, h: Header)
      requires HasWork() && cur > 0
      modifies this`cur, this`nesting
      ensures old(cur) <= cur <= |table| && old(nesting) <= nesting
      ensures ok <==> old(nesting) < MAX_NESTING && HeaderAt(table, old(cur) - 1).Some?
      ensures ok ==> HeaderAt(table, old(cur) - 1) == Some(h) && cur == h.name.next && nesting == old(nesting)
    {
      var begin := cur;
      h := Header(0, Name(0, 0, false, 0));
      var sized, length := ParsePkgLength();
      if sized != Success || |table| - begin < length || |table| - cur < 1 {
        return false, h;
      }
      var named, name := ParseNameString();
      if named != Success || cur > begin + length {
        return false, h;
      }
      return true, Header(begin + length, name);
    }

    /** ParseMethod and ParseField, which differ in nothing but their name. */
    method ParseMethodOrField() returns (status: Status, result: nat)
      requires HasWork() && cur > 0 && Declares(table[cur - 1]) && !DeclaresTwoNames(table[cur - 1])
      modifies this
      ensures Follows(status, result, DeclarationTrace(table, path, old(ident), old(cur) - 1, old(nesting)))
    {
      result := 0;
      nesting := nesting + 1;
      if nesting > MAX_NESTING {
        return OutOfResources, result;
      }
      var start, saved := cur, ident;
      var ok, h := ParseHeader();
      if !ok {
        return DeviceError, result;
      }
      var matched := MatchName(h.name.start, h.name.count);
      if matched && ident == |path| {
        found := found + 1;
        if found == required {
          return Success, start - 1;
        }
      }
      cur, ident := h.end, saved;
      nesting := nesting - 1;
      status := NotFound;
    }

    /** Header of a bank or index field: a single name with something behind it; does it match? */
    method ParsePairHeader() returns (ok: bool, h: Header, equal: bool)
      requires HasWork() && cur > 0
      modifies this`cur, this`nesting
      ensures old(cur) <= cur <= |table| && old(nesting) <= nesting
      ensures ok <==>
                && old(nesting) < MAX_NESTING && HeaderAt(table, old(cur) - 1).Some?
                && var g := HeaderAt(table, old(cur) - 1).value; g.name.next < g.end && g.name.count == 1
      ensures ok ==>
                && HeaderAt(table, old(cur) - 1) == Some(h) && cur == h.name.next && nesting == old(nesting)
                && equal == NameMatches(table, h.name, path, ident)
    {
      equal := false;
      ok, h := ParseHeader();
      if ok {
        ok := cur < h.end && h.name.count == 1;
      }
      if ok {
        equal := CompareSegment(h.name.start, ident);
      }
    }

    /**
     The second name of a field at `r` whose first name has just been matched, on its nesting level. An
     index field needs something behind the name, a bank field does not.
     */
    method MatchSecondName(r: nat, h: Header) returns (status: Status, result: nat)
      requires HasWork() && ident > 0 && nesting > 0 && r < |table|
      requires DeclaresTwoNames(table[r]) && HeaderAt(table, r) == Some(h) && h.name.count == 1
      requires cur == h.name.next < h.end && NameMatches(table, h.name, path, ident - 1) && nesting < MAX_NESTING
      modifies this
      ensures old(cur) <= cur <= |table| && ident <= |path| && old(nesting) - 1 <= nesting
      ensures Reports(old(found), status, result, PairTrace(table, path, old(ident) - 1, r, h))
      ensures status == NotFound ==> ident == old(ident) - 1 && nesting == old(nesting) - 1
    {
      result := 0;
      PairDeclares(table, path, ident - 1, r, h);
      var named, name := ParseNameString();
      if named != Success || cur > h.end || name.count != 1 {
        return DeviceError, result;
      }
      if table[r] == EXT_INDEX_FIELD_OP && cur == h.end {
        return DeviceError, result;
      }
      var equal := CompareSegment(name.start, ident);
      if equal && ident + 1 == |path| {
        found := found + 1;
        if found == required {
          return Success, r;
        }
      }
      cur, ident := h.end, ident - 1;
      nesting := nesting - 1;
      status := NotFound;
    }

    method ParseIndexField() returns (status: Status, result: nat)
      requires HasWork() && cur > 0 && table[cur - 1] == EXT_INDEX_FIELD_OP
      modifies this
      ensures Follows(status, result, DeclarationTrace(table, path, old(ident), old(cur) - 1, old(nesting)))
    {
      nesting := nesting + 1;
      if nesting > MAX_NESTING {
        return OutOfResources, 0;
      }
      var start := cur;
      var ok, h, equal := ParsePairHeader();
      if !ok {
        PairHeaderFails(table, path, ident, start - 1, old(nesting));
        return DeviceError, 0;
      }
      DeclarationIsPair(table, path, ident, start - 1, old(nesting), h);
      status, result := MatchIndexNames(start - 1, h, equal);
    }

    method MatchIndexNames(r: nat, h: Header, equal: bool) returns (status: Status, result: nat)
      requires HasWork() && 0 < nesting < MAX_NESTING && r < |table|
      requires table[r] == EXT_INDEX_FIELD_OP && HeaderAt(table, r) == Some(h) && h.name.count == 1
      requires cur == h.name.next < h.end && equal == NameMatches(table, h.name, path, ident)
      modifies this
      ensures old(cur) <= cur <= |table| && ident <= |path| && old(nesting) - 1 <= nesting
      ensures Reports(old(found), status, result, PairTrace(table, path, old(ident), r, h))
      ensures status == NotFound ==> ident == old(ident) && nesting == old(nesting) - 1
    {
      result := 0;
      PairDeclares(table, path, ident, r, h);
      if !equal {
        var ok := SkipName();
        if !ok {
          return DeviceError, result;
        }
        cur := h.end;
        nesting := nesting - 1;
        return NotFound, result;
      }
      ident := ident + 1;
      if ident == |path| || |table| - cur < 1 {
        return DeviceError, result;
      }
      status, result := MatchSecondName(r, h);
    }

    method ParseBankField() returns (status: Status, result: nat)
      requires HasWork() && cur > 0 && table[cur - 1] == EXT_BANK_FIELD_OP
      modifies this
      ensures Follows(status, result, DeclarationTrace(table, path, old(ident), old(cur) - 1, old(nesting)))
    {
      nesting := nesting + 1;
      if nesting > MAX_NESTING {
        return OutOfResources, 0;
      }
      var start := cur;
      var ok, h, equal := ParsePairHeader();
      if !ok {
        PairHeaderFails(table, path, ident, start - 1, old(nesting));
        return DeviceError, 0;
      }
      DeclarationIsPair(table, path, ident, start - 1, old(nesting), h);
      status, result := MatchBankNames(start - 1, h, equal);
    }

    method MatchBankNames(r: nat, h: Header, equal: bool) returns (status: Status, result: nat)
      requires HasWork() && 0 < nesting < MAX_NESTING && r < |table|
      requires table[r] == EXT_BANK_FIELD_OP && HeaderAt(table, r) == Some(h) && h.name.count == 1
      requires cur == h.name.next < h.end && equal == NameMatches(table, h.name, path, ident)
      modifies this
      ensures old(cur) <= cur <= |table| && ident <= |path| && old(nesting) - 1 <= nesting
      ensures Reports(old(found), status, result, PairTrace(table, path, old(ident), r, h))
      ensures status == NotFound ==> ident == old(ident) && nesting == old(nesting) - 1
    {
      result := 0;
      PairDeclares(table, path, ident, r, h);
      if !equal {
        cur := h.end;
        nesting := nesting - 1;
        return NotFound, result;
      }
      ident := ident + 1;
      if |table| - cur < 1 {
        return DeviceError, result;
      }
      if ident == |path| {
        ident := ident - 1;
        var ok := SkipName();
        if !ok {
          return DeviceError, result;
        }
        cur := h.end;
        nesting := nesting - 1;
        return NotFound, result;
      }
      status, result := MatchSecondName(r, h);
    }

    method ParseScopeOrDevice() returns (status: Status, result: nat)
      requires HasWork() && cur > 0 && OpensScope(table[cur - 1])
      modifies this
      ensures Follows(status, result, ScopeTrace(table, path, old(ident), old(cur) - 1, old(nesting)))
      decreases |table| - cur, 1
    {
      result := 0;
      nesting := nesting + 1;
      if nesting > MAX_NESTING {
        return OutOfResources, result;
      }
      var start, saved := cur, ident;
      var ok, h := ParseHeader();
      if !ok {
        return DeviceError, result;
      }
      EnterScope(h.name);
      status, result := ParseEntered(start - 1, h.end);
      if status == NotFound {
        ident := saved;
        nesting := nesting - 1;
      }
    }

    /** Inside the scope at `r`: the scope itself may be the match, or a term in it. */
    method ParseEntered(r: nat, end: nat) returns (status: Status, result: nat)
      requires r < cur <= |table| && end <= |table| && ident <= |path| && path != [] && found < required
      modifies this
      ensures old(cur) <= cur <= |table| && ident <= |path| && old(nesting) <= nesting
      ensures Reports(old(found), status, result, EnteredTrace(table, path, old(ident), r, old(cur), end, old(nesting)))
      ensures status == NotFound ==> nesting == old(nesting)
      decreases |table| - cur, 4
    {
      if ident == |path| {
        found := found + 1;
        if found == required {
          return Success, r;
        }
        ident := 0;
      }
      status, result := ParseScopeBody(end);
    }

    /** Matches a scope's name; a mismatch restarts the search inside it. */
    method EnterScope(name: Name)
      requires ident < |path| && name.start + IDENT_LEN * name.count <= |table|
      modifies this`ident
      ensures ident == Entered(table, name, path, old(ident))
    {
      if name.isRoot {
        ident := 0;
      }
      var ok := MatchName(name.start, name.count);
      if !ok {
        ident := 0;
      }
    }

    /** The terms of a scope. */
    method ParseScopeBody(end: nat) returns (status: Status, result: nat)
      requires cur <= |table| && ident < |path| && found < required && end <= |table|
      modifies this
      ensures Follows(status, result, BodyTrace(table, path, old(ident), old(cur), end, old(nesting)))
      decreases |table| - cur, 3
    {
      result := 0;
      ghost var all := BodyTrace(table, path, ident, cur, end, nesting);
      while cur < end
        invariant old(cur) <= cur <= |table| && ident == old(ident) && nesting == old(nesting)
        invariant old(found) <= found < required
        invariant Remains(all, found - old(found), BodyTrace(table, path, ident, cur, end, nesting))
        decreases |table| - cur
      {
        BodyAdvances(table, path, ident, cur, end, nesting, all, found - old(found));
        status, result := ParseTerm();
        if status != NotFound {
          return;
        }
      }
      status := NotFound;
    }

    /** InternalAcpiParseTerm. */
    method ParseTerm() returns (status: Status, result: nat)
      requires HasWork()
      modifies this
      ensures Follows(status, result, TermTrace(table, path, old(ident), old(cur), old(nesting)))
      decreases |table| - cur, 2
    {
      result := 0;
      nesting := nesting + 1;
      if nesting > MAX_NESTING {
        return OutOfResources, result;
      }
      var op: nat := table[cur];
      if !KnownTerm(op) {
        nesting := nesting - 1;
        return DeviceError, result;
      }
      if |table| - cur <= 1 {
        return DeviceError, result;
      }
      cur := cur + 1;
      status, result := Dispatch(op);
      nesting := nesting - 1;
    }

    /** The switch over the opcode, which the cursor has just passed. */
    method Dispatch(op: nat) returns (status: Status, result: nat)
      requires HasWork() && cur > 0 && table[cur - 1] == op && KnownTerm(op)
      modifies this
      ensures Follows(status, result, DispatchTrace(table, path, old(ident), old(cur) - 1, old(nesting)))
      decreases |table| - cur, 2
    {
      result := 0;
      if OpensScope(op) {
        status, result := ParseScopeOrDevice();
      } else if Declares(op) {
        status, result := ParseDeclaration(op);
      } else {
        status := SkipTerm(op);
      }
    }

    /** The declarations without a scope. */
    method ParseDeclaration(op: nat) returns (status: Status, result: nat)
      requires HasWork() && cur > 0 && table[cur - 1] == op && Declares(op) && !OpensScope(op)
      modifies this
      ensures Follows(status, result, DeclarationTrace(table, path, old(ident), old(cur) - 1, old(nesting)))
    {
      if op == EXT_INDEX_FIELD_OP {
        status, result := ParseIndexField();
      } else if op == EXT_BANK_FIELD_OP {
        status, result := ParseBankField();
      } else {
        status, result := ParseMethodOrField();
      }
    }

    /** The terms that are only skipped. */
    method SkipTerm(op: nat) returns (status: Status)
      requires HasWork() && KnownTerm(op) && !Declares(op)
      modifies this`cur, this`nesting
      ensures if IsUnmodelled(op) then status == Unmodelled && cur == old(cur) && nesting == old(nesting)
              else Skipped(status, SkipEnd(table, op, old(cur), old(nesting)))
    {
      if op == ZERO_OP || op == EXT_OP {
        status := NotFound;
      } else if op == ALIAS_OP {
        status := ParseAlias();
      } else if op == NAME_OP {
        status := ParseName();
      } else if op == EXTERNAL_OP {
        status := ParseNamed(op, 2);
      } else if op == EXT_REGION_OP {
        status := ParseOpRegion();
      } else if op == EXT_POWER_RES_OP || op == EXT_PROCESSOR_OP || op == EXT_THERMAL_ZONE_OP {
        status := ParseSkippedPackage(op);
      } else if op == EXT_EVENT_OP {
        status := ParseNamed(op, 0);
      } else if op == EXT_MUTEX_OP {
        status := ParseNamed(op, 1);
      } else {
        status := Unmodelled;
      }
    }
  }

  /** The trace of a whole table. */
  function TableTrace(t: seq<Byte>, path: seq<Ident>): Trace
    requires |t| >= DESCRIPTION_HEADER_SIZE
  {
    BodyTrace(t, path, 0, DESCRIPTION_HEADER_SIZE, |t|, 0)
  }

  /** The search never reports the nesting limit: where it is reached, a header fails first. */
  lemma LimitNotReported(t: seq<Byte>, path: seq<Ident>)
    requires |t| >= DESCRIPTION_HEADER_SIZE
    ensures TableTrace(t, path).end != Exhausted
  {
    BodyNotExhausted(t, path, 0, DESCRIPTION_HEADER_SIZE, |t|, 0);
  }

  /**
   What a search can report: places behind the table header, each later than the one before, where a
   declaration inside its scopes spells the path.
   */
  lemma MatchesAreDeclarations(t: seq<Byte>, path: seq<Ident>, k: nat) returns (where: Chain)
    requires |t| >= DESCRIPTION_HEADER_SIZE && path != [] && k < |TableTrace(t, path).hits|
    ensures var hits := TableTrace(t, path).hits;
            && DESCRIPTION_HEADER_SIZE <= hits[k] < |t| && Located(t, path, where, hits[k])
            && forall j :: 0 <= j < k ==> hits[j] < hits[k]
  {
    BodyAscends(t, path, 0, DESCRIPTION_HEADER_SIZE, |t|, 0);
    where := BodyHitLocated(t, path, 0, DESCRIPTION_HEADER_SIZE, |t|, 0, Top, 0, TableTrace(t, path).hits[k]);
  }

  /** Length of the table, from the caller or from its header. */
  function TableSize(memory: seq<Byte>, tableLength: nat): nat
    requires tableLength == 0 ==> |memory| >= COMMON_HEADER_SIZE
  {
    if tableLength > 0 then tableLength else Number(memory, 4, 4)
  }

  /**
   AcpiFindEntryInMemory. `memory` are the bytes from the table on; a zero `tableLength` means that the
   length comes from the table header. The search succeeds exactly when the trace of the table has the
   wanted match, and gives its offset.
   */
  method FindEntryInMemory(memory: seq<Byte>, pathString: string, entry: nat, tableLength: nat, canAllocate: bool)
      returns (status: Status, offset: nat)
    requires entry > 0
    requires tableLength == 0 ==> |memory| >= COMMON_HEADER_SIZE
    requires TableSize(memory, tableLength) <= |memory|
    ensures var size := TableSize(memory, tableLength);
            if 0 < tableLength < COMMON_HEADER_SIZE then status == LoadError
            else if size <= DESCRIPTION_HEADER_SIZE then status == DeviceError
            else if WithoutRoot(pathString) != [] && !canAllocate then status == OutOfResources
            else if !Accepted(pathString) then status == InvalidParameter
            else
              var tr := TableTrace(memory[..size], Identifiers(pathString));
              if |tr.hits| >= entry then status == Success && offset == tr.hits[entry - 1]
              else match tr.end
                case Goes(_) => status == NotFound
                case Leaves(_) => status == Unmodelled
                case _ => status == DeviceError
  {
    offset := 0;
    var length := tableLength;
    if length > 0 {
      if length < COMMON_HEADER_SIZE {
        return LoadError, offset;
      }
    } else {
      length := Number(memory, 4, 4);
    }
    if length <= DESCRIPTION_HEADER_SIZE {
      return DeviceError, offset;
    }
    var translated, idents := GetOpcodeArray(pathString, canAllocate);
    if translated != Translated {
      return if translated == NoMemory then OutOfResources else InvalidParameter, offset;
    }
    var table := memory[..length];
    status, offset := Search(table, idents, entry);
  }

  /** The loop over the top-level terms. */
  method Search(table: seq<Byte>, path: seq<Ident>, entry: nat) returns (status: Status, offset: nat)
    requires entry > 0 && |table| > DESCRIPTION_HEADER_SIZE && path != []
    ensures var tr := TableTrace(table, path);
            if |tr.hits| >= entry then status == Success && offset == tr.hits[entry - 1]
            else match tr.end
              case Goes(_) => status == NotFound
              case Leaves(_) => status == Unmodelled
              case _ => status == DeviceError
  {
    var parser := new Parser(table, path, entry, DESCRIPTION_HEADER_SIZE);
    offset := 0;
    ghost var all := TableTrace(table, path);
    LimitNotReported(table, path);
    while parser.cur < |table|
      invariant parser.table == table && parser.path == path && parser.required == entry
      invariant DESCRIPTION_HEADER_SIZE <= parser.cur <= |table| && parser.ident == 0 && parser.nesting == 0
      invariant parser.found < entry
      invariant Remains(all, parser.found, BodyTrace(table, path, 0, parser.cur, |table|, 0))
      decreases |table| - parser.cur
    {
      BodyAdvances(table, path, 0, parser.cur, |table|, 0, all, parser.found);
      status, offset := parser.ParseTerm();
      if status != NotFound {
        return;
      }
    }
    status := NotFound;
  }
}
