/**
 The walk over IFR opcodes of a HII forms package. Opcodes may open scopes that an END opcode closes;
 the recursive walk is compared with a flat scan that knows nothing of nesting.
 */
module IfrWalk {
  import opened Machine

  const END_OP: nat := 0x29
  const VARSTORE_OP: nat := 0x24

  // ----- Opcode headers: opcode byte, then seven bits of length and the scope bit -----

  /** A complete opcode lies at the offset. */
  predicate OpAt(b: seq<Byte>, o: nat) {
    o + 2 <= |b| && b[o + 1] % 128 >= 2 && o + b[o + 1] % 128 <= |b|
  }

  function Next(b: seq<Byte>, o: nat): (n: nat)
    requires OpAt(b, o)
    ensures o < n <= |b|
  {
    o + b[o + 1] % 128
  }

  predicate OpensScope(b: seq<Byte>, o: nat)
    requires OpAt(b, o)
  {
    b[o + 1] / 128 == 1
  }

  /**
   The END that closes `depth` open scopes and the one the walk started in, found by counting along the
   flat stream; None when the stream is not well nested.
   */
  function Close(b: seq<Byte>, o: nat, depth: nat): (end: Option<nat>)
    ensures end.Some? ==> o <= end.value && OpAt(b, end.value) && b[end.value] == END_OP
    decreases |b| - o
  {
    if !OpAt(b, o) then None
    else if b[o] == END_OP then
      if depth == 0 then Some(o) else Close(b, Next(b, o), depth - 1)
    else Close(b, Next(b, o), if OpensScope(b, o) then depth + 1 else depth)
  }

  /** Closing one more scope means going on behind the END that closes the inner ones. */
  lemma {:induction false} CloseOuter(b: seq<Byte>, o: nat, inner: nat, outer: nat)
    ensures Close(b, o, inner + 1 + outer) ==
            match Close(b, o, inner)
            case None => None
            case Some(e) => Close(b, Next(b, e), outer)
    decreases |b| - o
  {
    if OpAt(b, o) {
      if b[o] == END_OP {
        if inner > 0 {
          CloseOuter(b, Next(b, o), inner - 1, outer);
        }
      } else {
        CloseOuter(b, Next(b, o), if OpensScope(b, o) then inner + 1 else inner, outer);
      }
    }
  }

  /** Every opcode on the way to the closing END is complete. */
  lemma NextOnTheWay(b: seq<Byte>, o: nat, depth: nat, end: nat) returns (d: nat)
    requires Close(b, o, depth) == Some(end) && o < end
    ensures Next(b, o) <= end && Close(b, Next(b, o), d) == Some(end)
  {
    d := if b[o] == END_OP then depth - 1 else if OpensScope(b, o) then depth + 1 else depth;
  }

  // ----- The flat scan -----

  predicate IsMatch(b: seq<Byte>, o: nat, opCode: nat) {
    o < |b| && b[o] == opCode && b[o] != END_OP
  }

  /** Hands every matching opcode in front of `end` to the handler, in stream order, until it stops. */
  function FlatScan<S>(b: seq<Byte>, o: nat, end: nat, opCode: nat, s: S, handle: (S, nat) -> S, stopped: S -> bool): S
    decreases |b| - o
  {
    if o >= end || !OpAt(b, o) || stopped(s) then s
    else FlatScan(b, Next(b, o), end, opCode, if IsMatch(b, o, opCode) then handle(s, o) else s, handle, stopped)
  }

  lemma {:induction false} ScanSplit<S>(
      b: seq<Byte>, o: nat, depth: nat, middle: nat, end: nat, opCode: nat, s: S, handle: (S, nat) -> S, stopped: S -> bool)
    requires Close(b, o, depth) == Some(middle) && middle < end
    ensures FlatScan(b, o, end, opCode, s, handle, stopped) ==
            FlatScan(b, Next(b, middle), end, opCode,
                     FlatScan(b, o, middle, opCode, s, handle, stopped), handle, stopped)
    decreases |b| - o
  {
    if !stopped(s) && o < middle {
      var d := NextOnTheWay(b, o, depth, middle);
      ScanSplit(b, Next(b, o), d, middle, end, opCode, if IsMatch(b, o, opCode) then handle(s, o) else s, handle, stopped);
    }
  }

  /**
   IterateOpCode. The handler works on a state that includes the stop flag; `stopped` is constantly
   false when no flag is passed.
   */
  method IterateOpCode<S>(b: seq<Byte>, start: nat, opCode: nat, s0: S, handle: (S, nat) -> S, stopped: S -> bool)
      returns (header: nat, s: S, ghost depth: nat)
    requires Close(b, start, 0).Some?
    // The recursive walk does exactly what the flat scan does.
    ensures s == FlatScan(b, start, Close(b, start, 0).value, opCode, s0, handle, stopped)
    ensures !stopped(s) ==> header == Close(b, start, 0).value
    // Wherever a stop leaves the walk, there is an opcode of this scope to step over.
    ensures Close(b, header, depth) == Close(b, start, 0)
    ensures stopped(s) && !stopped(s0) ==> header < Close(b, start, 0).value
    decreases |b| - start
  {
    ghost var end := Close(b, start, 0).value;
    header, s, depth := start, s0, 0;
    while !stopped(s)
      invariant Close(b, header, depth) == Some(end)
      invariant stopped(s) && !stopped(s0) ==> header < end
      invariant !stopped(s) ==> depth == 0 && start <= header
      invariant FlatScan(b, header, end, opCode, s, handle, stopped) ==
                FlatScan(b, start, end, opCode, s0, handle, stopped)
      decreases !stopped(s), |b| - header
    {
      if b[header] == END_OP {
        return;
      }
      ghost var before := s;
      if b[header] == opCode {
        s := handle(s, header);
        if stopped(s) {
          return;
        }
      }
      if OpensScope(b, header) {
        ghost var opening := header;
        CloseOuter(b, Next(b, opening), 0, 0);
        ghost var inner := Close(b, Next(b, opening), 0).value;
        ghost var entered := s;
        header, s, depth := IterateOpCode(b, Next(b, header), opCode, s, handle, stopped);
        ScanSplit(b, Next(b, opening), 0, inner, end, opCode, entered, handle, stopped);
        if header < inner {
          depth := NextOnTheWay(b, header, depth, inner);
          ghost var n := Next(b, header);
          CloseOuter(b, n, depth, 0);
          depth := depth + 1;
        }
      }
      header := Next(b, header);
    }
  }

  // ----- Order of the calls -----

  /** Offsets of the matching opcodes in stream order. */
  function Matches(b: seq<Byte>, o: nat, end: nat, opCode: nat): seq<nat>
    decreases |b| - o
  {
    if o >= end || !OpAt(b, o) then []
    else (if IsMatch(b, o, opCode) then [o] else []) + Matches(b, Next(b, o), end, opCode)
  }

  function Fold<S>(s: seq<nat>, state: S, handle: (S, nat) -> S, stopped: S -> bool): S {
    if s == [] || stopped(state) then state else Fold(s[1..], handle(state, s[0]), handle, stopped)
  }

  /** The handler is called once for each match, in order, and never after the flag is set. */
  lemma {:induction false} ScanFoldsMatches<S>(
      b: seq<Byte>, o: nat, end: nat, opCode: nat, s: S, handle: (S, nat) -> S, stopped: S -> bool)
    ensures FlatScan(b, o, end, opCode, s, handle, stopped) == Fold(Matches(b, o, end, opCode), s, handle, stopped)
    decreases |b| - o
  {
    if o < end && OpAt(b, o) && !stopped(s) {
      var s' := if IsMatch(b, o, opCode) then handle(s, o) else s;
      ScanFoldsMatches(b, Next(b, o), end, opCode, s', handle, stopped);
      var rest := Matches(b, Next(b, o), end, opCode);
      assert [] + rest == rest && ([o] + rest)[1..] == rest;
    }
  }

  // ----- Variable stores -----

  /** Little-endian identifier behind the header and the GUID of a variable store opcode. */
  function VarStoreId(b: seq<Byte>, o: nat): nat {
    if o + 20 > |b| then 0
    else
      var low: nat, high: nat := b[o + 18], b[o + 19];
      low + 256 * high
  }

  /** Index of the first store with the identifier. */
  function FirstStore(b: seq<Byte>, stores: seq<nat>, id: nat): (k: Option<nat>)
    ensures k.Some? ==>
              && k.value < |stores| && VarStoreId(b, stores[k.value]) == id
              && forall i :: 0 <= i < k.value ==> VarStoreId(b, stores[i]) != id
    ensures k.None? ==> forall i :: 0 <= i < |stores| ==> VarStoreId(b, stores[i]) != id
  {
    if stores == [] then None
    else if VarStoreId(b, stores[0]) == id then Some(0)
    else match FirstStore(b, stores[1..], id)
      case None => None
      case Some(k) => Some(k + 1)
  }

  /** HandleVarStore on the part of the context it changes. */
  function HandleVarStore(b: seq<Byte>, id: nat): (Option<nat>, nat) -> Option<nat> {
    (found: Option<nat>, o: nat) => if VarStoreId(b, o) == id then Some(o) else found
  }

  function Found(): Option<nat> -> bool {
    (found: Option<nat>) => found.Some?
  }

  lemma {:induction false} FoldFindsFirst(b: seq<Byte>, stores: seq<nat>, id: nat)
    ensures Fold(stores, None, HandleVarStore(b, id), Found()) ==
            match FirstStore(b, stores, id)
            case None => None
            case Some(k) => Some(stores[k])
  {
    if stores != [] {
      if VarStoreId(b, stores[0]) != id {
        FoldFindsFirst(b, stores[1..], id);
      }
    }
  }

  /** GetVarStore returns the first variable store of the scope that has the identifier. */
  method GetVarStore(b: seq<Byte>, start: nat, id: nat) returns (store: Option<nat>)
    requires Close(b, start, 0).Some?
    ensures var stores := Matches(b, start, Close(b, start, 0).value, VARSTORE_OP);
            var first := FirstStore(b, stores, id);
            store == if first.Some? then Some(stores[first.value]) else None
  {
    ghost var end := Close(b, start, 0).value;
    var header, found, depth := IterateOpCode(b, start, VARSTORE_OP, None, HandleVarStore(b, id), Found());
    store := found;
    ScanFoldsMatches(b, start, end, VARSTORE_OP, None, HandleVarStore(b, id), Found());
    FoldFindsFirst(b, Matches(b, start, end, VARSTORE_OP), id);
  }
}
