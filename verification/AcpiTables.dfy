/** The list of ACPI tables: read from the root table, edited in place, with room for more. */
module AcpiTables {
  import opened Machine

  const DSDT_SIGNATURE: nat := 0x54445344

  /** A table in memory; `isRsdp` tells that it starts with the RSDP signature. */
  datatype Table = Table(address: nat, signature: nat, length: nat, oemTableId: nat, isRsdp: bool)
  {
    /** The OEM table identifier, which short tables do not have. */
    function OemId(): nat {
      if length >= DESCRIPTION_HEADER_SIZE then oemTableId else 0
    }

    /** Root table entries that are taken over. */
    predicate Listed() {
      address != 0 && signature != DSDT_SIGNATURE && !isRsdp
    }
  }

  /** What to delete; zero means any. */
  datatype Criteria = Criteria(signature: nat, length: nat, oemTableId: nat)
  {
    predicate Selects(t: Table) {
      && (signature == 0 || t.signature == signature)
      && (length == 0 || t.length == length)
      && (oemTableId == 0 || t.OemId() == oemTableId)
    }
  }

  /** Which tables a list operation keeps. */
  datatype Rule = Listable | Sparing(criteria: Criteria)
  {
    predicate Keeps(t: Table) {
      match this
      case Listable => t.Listed()
      case Sparing(c) => !c.Selects(t)
    }
  }

  datatype Status = Success | NotFound | InvalidParameter | OutOfResources | ReplacesDsdt

  // ----- The abstract list -----

  function Filter(s: seq<Table>, rule: Rule): seq<Table> {
    if s == [] then [] else (if rule.Keeps(s[0]) then [s[0]] else []) + Filter(s[1..], rule)
  }

  /** The list without its first selected element. */
  function RemoveFirst(s: seq<Table>, criteria: Criteria): seq<Table> {
    if s == [] then []
    else if criteria.Selects(s[0]) then s[1..]
    else [s[0]] + RemoveFirst(s[1..], criteria)
  }

  ghost predicate AnySelected(s: seq<Table>, criteria: Criteria, from: nat) {
    exists k :: from <= k < |s| && criteria.Selects(s[k])
  }

  /** Filtering keeps exactly the wanted elements, with multiplicity. */
  lemma {:induction false} FilterKeeps(s: seq<Table>, rule: Rule, x: Table)
    ensures multiset(Filter(s, rule))[x] == if rule.Keeps(x) then multiset(s)[x] else 0
  {
    if s != [] {
      FilterKeeps(s[1..], rule, x);
      assert s == [s[0]] + s[1..];
    }
  }

  /** Number of kept elements in front of `i`. */
  function Position(s: seq<Table>, rule: Rule, i: nat): nat
    requires i <= |s|
  {
    if i == 0 then 0 else (if rule.Keeps(s[0]) then 1 else 0) + Position(s[1..], rule, i - 1)
  }

  /** And in their order: each kept element lands behind exactly the kept elements in front of it. */
  lemma {:induction false} FilterPlaces(s: seq<Table>, rule: Rule, i: nat)
    requires i < |s| && rule.Keeps(s[i])
    ensures Position(s, rule, i) < |Filter(s, rule)| && Filter(s, rule)[Position(s, rule, i)] == s[i]
  {
    if i > 0 {
      FilterPlaces(s[1..], rule, i - 1);
    }
  }

  lemma FilterStep(s: seq<Table>, rule: Rule, i: nat, kept: seq<Table>)
    requires i < |s|
    ensures kept + Filter(s[i..], rule) ==
            (if rule.Keeps(s[i]) then kept + [s[i]] else kept) + Filter(s[i + 1..], rule)
  {
    assert s[i..][1..] == s[i + 1..];
  }

  /** The deletion loop as a function of the list and the position it has reached. */
  function SweepFrom(s: seq<Table>, criteria: Criteria, all: bool, i: nat): seq<Table>
    decreases |s| - i
  {
    if i >= |s| then s
    else if !criteria.Selects(s[i]) then SweepFrom(s, criteria, all, i + 1)
    else if all then SweepFrom(s[..i] + s[i + 1..], criteria, all, i)
    else s[..i] + s[i + 1..]
  }

  lemma {:induction false} SweepAll(s: seq<Table>, criteria: Criteria, i: nat)
    requires i <= |s|
    ensures SweepFrom(s, criteria, true, i) == s[..i] + Filter(s[i..], Sparing(criteria))
    decreases |s| - i
  {
    if i < |s| {
      assert s[i..][1..] == s[i + 1..];
      if criteria.Selects(s[i]) {
        var shorter := s[..i] + s[i + 1..];
        SweepAll(shorter, criteria, i);
        assert shorter[..i] == s[..i] && shorter[i..] == s[i + 1..];
      } else {
        SweepAll(s, criteria, i + 1);
        assert s[..i + 1] == s[..i] + [s[i]];
      }
    }
  }

  lemma {:induction false} SweepFirst(s: seq<Table>, criteria: Criteria, i: nat)
    requires i <= |s|
    ensures SweepFrom(s, criteria, false, i) == s[..i] + RemoveFirst(s[i..], criteria)
    decreases |s| - i
  {
    if i < |s| {
      assert s[i..][1..] == s[i + 1..];
      if !criteria.Selects(s[i]) {
        SweepFirst(s, criteria, i + 1);
        assert s[..i + 1] == s[..i] + [s[i]];
      }
    }
  }

  // ----- The table context -----

  class Context {
    var tables: array<Table>
    var numberOfTables: nat
    /** Whether a FADT and a DSDT to replace are known. */
    var hasDsdt: bool

    ghost predicate Valid()
      reads this
    {
      numberOfTables <= tables.Length
    }

    ghost function Contents(): seq<Table>
      reads this, tables
      requires Valid()
    {
      tables[..numberOfTables]
    }

    /** The table loop of AcpiInitContext over the entries of the root table. */
    constructor (entries: seq<Table>, hasDsdt: bool)
      ensures Valid() && fresh(tables)
      ensures tables.Length == |entries|
      ensures Contents() == Filter(entries, Listable)
    {
      var slots := new Table[|entries|](_ => Table(0, 0, 0, 0, false));
      var rule := Listable;
      var dst := 0;
      assert entries[0..] == entries;
      for i := 0 to |entries|
        invariant 0 <= dst <= i
        invariant slots[..dst] + Filter(entries[i..], rule) == Filter(entries, rule)
      {
        ghost var kept := slots[..dst];
        slots[dst] := entries[i];
        FilterStep(entries, rule, i, kept);
        if slots[dst].address == 0 || slots[dst].signature == DSDT_SIGNATURE || slots[dst].isRsdp {
          continue;
        }
        assert slots[..dst + 1] == kept + [entries[i]];
        dst := dst + 1;
      }
      tables := slots;
      numberOfTables := dst;
      this.hasDsdt := hasDsdt;
    }

    /** Closes the gap at `index`. */
    method CloseGap(index: nat)
      requires Valid() && index < numberOfTables
      modifies this`numberOfTables, tables
      ensures Valid() && numberOfTables == old(numberOfTables) - 1
      ensures Contents() == old(Contents()[..index] + Contents()[index + 1..])
    {
      ghost var was := tables[..numberOfTables];
      for k := index to numberOfTables - 1
        modifies tables
        invariant forall j :: 0 <= j < index ==> tables[j] == was[j]
        invariant forall j :: index <= j < k ==> tables[j] == was[j + 1]
        invariant forall j :: k <= j < numberOfTables ==> tables[j] == was[j]
      {
        tables[k] := tables[k + 1];
      }
      numberOfTables := numberOfTables - 1;
      assert tables[..numberOfTables] == was[..index] + was[index + 1..];
    }

    method Delete(criteria: Criteria, all: bool) returns (status: Status)
      requires Valid()
      modifies this`numberOfTables, tables
      ensures Valid()
      ensures Contents() == if all then Filter(old(Contents()), Sparing(criteria))
                            else RemoveFirst(old(Contents()), criteria)
      ensures status == if AnySelected(old(Contents()), criteria, 0) then Success else NotFound
    {
      ghost var was := Contents();
      SweepAll(was, criteria, 0);
      SweepFirst(was, criteria, 0);
      assert was[0..] == was;
      var index, found := 0, false;
      while index < numberOfTables
        invariant Valid()
        invariant SweepFrom(Contents(), criteria, all, index) == SweepFrom(was, criteria, all, 0)
        invariant (found || AnySelected(Contents(), criteria, index)) == AnySelected(was, criteria, 0)
        decreases numberOfTables - index
      {
        if Selected(criteria, tables[index]) {
          CloseGap(index);
          if all {
            found := true;
            continue;
          } else {
            return Success;
          }
        }
        index := index + 1;
      }
      status := if found then Success else NotFound;
    }

    /** The nested tests of the deletion loop. */
    function Selected(criteria: Criteria, t: Table): (selected: bool)
      ensures selected == criteria.Selects(t)
    {
      (criteria.signature == 0 || t.signature == criteria.signature)
      && (criteria.length == 0 || t.length == criteria.length)
      && (var id := if t.length >= DESCRIPTION_HEADER_SIZE then t.oemTableId else 0;
          criteria.oemTableId == 0 || id == criteria.oemTableId)
    }

    /**
     `canGrow` is the outcome of allocating a larger list, `copyAt` the address of the copied table;
     the replacement of the DSDT itself does not concern the list.
     */
    method Insert(data: Table, length: nat, canGrow: bool, copyAt: Option<nat>) returns (status: Status)
      requires Valid()
      modifies this, tables
      ensures Valid() && (tables == old(tables) || fresh(tables))
      ensures status == Success ==>
                && copyAt.Some? && data.signature != DSDT_SIGNATURE && data.length == length
                && Contents() == old(Contents()) + [data.(address := copyAt.value)]
                && tables.Length == if old(numberOfTables) == old(tables.Length) then old(tables.Length) + 2 else old(tables.Length)
      ensures status != Success ==> Contents() == old(Contents())
      ensures status == InvalidParameter <==>
                length < COMMON_HEADER_SIZE || data.length != length || (data.signature == DSDT_SIGNATURE && !hasDsdt)
      ensures status != InvalidParameter && data.signature != DSDT_SIGNATURE && canGrow && copyAt.Some? ==>
                status == Success
    {
      if length < COMMON_HEADER_SIZE || data.length != length {
        return InvalidParameter;
      }
      var replaceDsdt := data.signature == DSDT_SIGNATURE;
      if replaceDsdt && !hasDsdt {
        return InvalidParameter;
      }
      ghost var was := Contents();
      if !replaceDsdt && numberOfTables == tables.Length {
        if !canGrow {
          return OutOfResources;
        }
        var more := new Table[numberOfTables + 2](_ => Table(0, 0, 0, 0, false));
        for i := 0 to numberOfTables
          modifies more
          invariant more[..i] == was[..i]
        {
          more[i] := tables[i];
        }
        tables := more;
        assert Contents() == was;
      }
      if replaceDsdt {
        return ReplacesDsdt;
      }
      if copyAt.None? {
        return OutOfResources;
      }
      tables[numberOfTables] := data.(address := copyAt.value);
      numberOfTables := numberOfTables + 1;
      status := Success;
      assert tables[..numberOfTables - 1] == was;
    }
  }
}
