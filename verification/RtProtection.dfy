/**
 Runtime memory protection: before boot.efi relocates memory, runtime descriptors are disguised as
 memory-mapped I/O, and their types are put back before the kernel sees the map.
 */
module RtProtection {
  import opened Machine
  import opened MemoryMap

  const RT_RELOC_PROTECT_MAX_NUM: nat := 64

  datatype RelocInfo = RelocInfo(start: nat, last: nat, kind: MemoryType)

  /** The area that must stay relocatable: the private copy of the system table. */
  datatype Area = Area(start: nat, size: nat)
  {
    predicate Within(d: Descriptor) {
      start >= d.start && (start + size - 1) % U64 <= d.Last()
    }
  }

  predicate ToProtect(d: Descriptor, sysTable: Area) {
    && d.runtime
    && d.pages > 0
    && (d.kind.RuntimeServicesCode? || d.kind.RuntimeServicesData?)
    && !sysTable.Within(d)
  }

  /** What is remembered about the first `n` descriptors: the runtime ones, while slots last. */
  function Saved(mm: seq<Descriptor>, sysTable: Area, n: nat): (infos: seq<RelocInfo>)
    requires n <= |mm|
    ensures |infos| <= RT_RELOC_PROTECT_MAX_NUM
  {
    if n == 0 then []
    else
      var infos := Saved(mm, sysTable, n - 1);
      if ToProtect(mm[n - 1], sysTable) && |infos| < RT_RELOC_PROTECT_MAX_NUM
      then infos + [InfoOf(mm[n - 1])]
      else infos
  }

  predicate IsProtected(mm: seq<Descriptor>, sysTable: Area, i: nat)
    requires i < |mm|
  {
    ToProtect(mm[i], sysTable) && |Saved(mm, sysTable, i)| < RT_RELOC_PROTECT_MAX_NUM
  }

  function InfoOf(d: Descriptor): RelocInfo {
    RelocInfo(d.start, d.Last(), d.kind)
  }

  function Protected(mm: seq<Descriptor>, sysTable: Area, i: nat): Descriptor
    requires i < |mm|
  {
    if IsProtected(mm, sysTable, i) then mm[i].(kind := MemoryMappedIO) else mm[i]
  }

  lemma {:induction false} FullStaysFull(mm: seq<Descriptor>, sysTable: Area, i: nat, n: nat)
    requires i <= n <= |mm| && |Saved(mm, sysTable, i)| == RT_RELOC_PROTECT_MAX_NUM
    ensures Saved(mm, sysTable, n) == Saved(mm, sysTable, i)
  {
    if i < n {
      FullStaysFull(mm, sysTable, i, n - 1);
    }
  }

  method ProtectRtMemory(mm: array<Descriptor>, sysTable: Area) returns (infos: seq<RelocInfo>)
    modifies mm
    ensures infos == Saved(old(mm[..]), sysTable, mm.Length)
    ensures forall i :: 0 <= i < mm.Length ==> mm[i] == Protected(old(mm[..]), sysTable, i)
  {
    ghost var was := mm[..];
    infos := [];
    for i := 0 to mm.Length
      invariant infos == Saved(was, sysTable, i)
      invariant forall k :: 0 <= k < i ==> mm[k] == Protected(was, sysTable, k)
      invariant forall k :: i <= k < mm.Length ==> mm[k] == was[k]
    {
      var d := mm[i];
      if d.runtime && d.pages > 0 && (d.kind.RuntimeServicesCode? || d.kind.RuntimeServicesData?) && !sysTable.Within(d) {
        if |infos| == RT_RELOC_PROTECT_MAX_NUM {
          forall k | i <= k <= mm.Length ensures Saved(was, sysTable, k) == infos {
            FullStaysFull(was, sysTable, i, k);
          }
          assert forall k :: i <= k < mm.Length ==> Protected(was, sysTable, k) == was[k];
          return;
        }
        infos := infos + [RelocInfo(d.start, d.Last(), d.kind)];
        mm[i] := d.(kind := MemoryMappedIO);
      }
    }
  }

  // ----- Restoring -----

  predicate SameRange(d: Descriptor, info: RelocInfo) {
    d.start == info.start && d.Last() == info.last
  }

  /** First saved entry with exactly the descriptor's range. */
  function Find(d: Descriptor, infos: seq<RelocInfo>): (k: Option<nat>)
    ensures k.Some? ==> k.value < |infos| && SameRange(d, infos[k.value])
    ensures k.None? ==> forall i :: 0 <= i < |infos| ==> !SameRange(d, infos[i])
  {
    if infos == [] then None
    else if SameRange(d, infos[0]) then Some(0)
    else match Find(d, infos[1..])
      case None => None
      case Some(k) => Some(k + 1)
  }

  function Restored(d: Descriptor, infos: seq<RelocInfo>): Descriptor {
    match Find(d, infos)
    case None => d
    case Some(k) => d.(kind := infos[k].kind)
  }

  /** Entries outstanding when the loop comes to descriptor `i`. */
  function Left(mm: seq<Descriptor>, infos: seq<RelocInfo>, i: nat): nat
    requires i <= |mm|
  {
    if i == 0 then |infos|
    else
      var left := Left(mm, infos, i - 1);
      if left > 0 && Find(mm[i - 1], infos).Some? then left - 1 else left
  }

  /** The loop stops as soon as no entry is outstanding. */
  function RestoredAt(mm: seq<Descriptor>, infos: seq<RelocInfo>, i: nat): Descriptor
    requires i < |mm|
  {
    if Left(mm, infos, i) > 0 then Restored(mm[i], infos) else mm[i]
  }

  lemma {:induction false} LeftStaysZero(mm: seq<Descriptor>, infos: seq<RelocInfo>, i: nat, n: nat)
    requires i <= n <= |mm| && Left(mm, infos, i) == 0
    ensures Left(mm, infos, n) == 0
  {
    if i < n {
      LeftStaysZero(mm, infos, i, n - 1);
    }
  }

  lemma NothingLeft(mm: seq<Descriptor>, infos: seq<RelocInfo>, i: nat)
    requires i <= |mm| && Left(mm, infos, i) == 0
    ensures Left(mm, infos, |mm|) == 0
    ensures forall j :: i <= j < |mm| ==> RestoredAt(mm, infos, j) == mm[j]
  {
    forall j | i <= j <= |mm| ensures Left(mm, infos, j) == 0 {
      LeftStaysZero(mm, infos, i, j);
    }
  }

  /** The map when the loop has come to descriptor `i`. */
  function After(mm: seq<Descriptor>, infos: seq<RelocInfo>, i: nat): (r: seq<Descriptor>)
    requires i <= |mm|
    ensures |r| == |mm| && r[i..] == mm[i..]
  {
    if i == 0 then mm else After(mm, infos, i - 1)[i - 1 := RestoredAt(mm, infos, i - 1)]
  }

  lemma {:induction false} AfterAt(mm: seq<Descriptor>, infos: seq<RelocInfo>, i: nat, j: nat)
    requires j < i <= |mm|
    ensures After(mm, infos, i)[j] == RestoredAt(mm, infos, j)
  {
    if j < i - 1 {
      AfterAt(mm, infos, i - 1, j);
    }
  }

  /** With entries outstanding, one more descriptor is restored. */
  lemma AfterStep(mm: seq<Descriptor>, infos: seq<RelocInfo>, i: nat)
    requires i < |mm| && Left(mm, infos, i) > 0
    ensures After(mm, infos, i)[i] == mm[i]
    ensures After(mm, infos, i + 1) == After(mm, infos, i)[i := Restored(mm[i], infos)]
  {
    assert After(mm, infos, i)[i] == After(mm, infos, i)[i..][0] == mm[i..][0];
  }

  /** Where the loop ends, every descriptor is as it should be. */
  lemma AfterAll(mm: seq<Descriptor>, infos: seq<RelocInfo>, i: nat)
    requires i <= |mm| && (i < |mm| ==> Left(mm, infos, i) == 0)
    ensures Left(mm, infos, |mm|) == Left(mm, infos, i)
    ensures forall j :: 0 <= j < |mm| ==> After(mm, infos, i)[j] == RestoredAt(mm, infos, j)
  {
    if i < |mm| {
      NothingLeft(mm, infos, i);
    }
    forall j | 0 <= j < |mm| ensures After(mm, infos, i)[j] == RestoredAt(mm, infos, j) {
      if j < i {
        AfterAt(mm, infos, i, j);
      } else {
        assert After(mm, infos, i)[j] == After(mm, infos, i)[i..][j - i] == mm[i..][j - i];
      }
    }
  }

  /** `left` is the number of entries the source reports as not restored. */
  method RestoreProtectedRtMemoryTypes(infos: seq<RelocInfo>, mm: array<Descriptor>) returns (left: nat)
    modifies mm
    ensures forall i :: 0 <= i < mm.Length ==> mm[i] == RestoredAt(old(mm[..]), infos, i)
    ensures left == Left(old(mm[..]), infos, mm.Length)
  {
    ghost var was := mm[..];
    left := |infos|;
    var i := 0;
    while i < mm.Length && left > 0
      invariant 0 <= i <= mm.Length && left == Left(was, infos, i)
      invariant mm[..] == After(was, infos, i)
    {
      AfterStep(was, infos, i);
      var hit := RestoreOne(infos, mm, i);
      if hit {
        left := left - 1;
      }
      i := i + 1;
    }
    AfterAll(was, infos, i);
    assert forall j :: 0 <= j < mm.Length ==> mm[j] == mm[..][j];
  }

  /** One iteration of the outer loop. */
  method RestoreOne(infos: seq<RelocInfo>, mm: array<Descriptor>, i: nat) returns (hit: bool)
    requires i < mm.Length
    modifies mm
    ensures mm[..] == old(mm[..])[i := Restored(old(mm[i]), infos)]
    ensures hit == Find(old(mm[i]), infos).Some?
  {
    var found := FindEntry(mm[i], infos);
    hit := found.Some?;
    if hit {
      mm[i] := mm[i].(kind := infos[found.value].kind);
    }
  }

  /** The inner loop over the saved entries. */
  method FindEntry(d: Descriptor, infos: seq<RelocInfo>) returns (found: Option<nat>)
    ensures found == Find(d, infos)
  {
    for k := 0 to |infos|
      invariant forall j :: 0 <= j < k ==> !SameRange(d, infos[j])
    {
      if d.start == infos[k].start && d.Last() == infos[k].last {
        FindFirst(d, infos, k);
        return Some(k);
      }
    }
    return None;
  }

  lemma {:induction false} FindFirst(d: Descriptor, infos: seq<RelocInfo>, k: nat)
    requires k < |infos| && SameRange(d, infos[k])
    requires forall j :: 0 <= j < k ==> !SameRange(d, infos[j])
    ensures Find(d, infos) == Some(k)
  {
    if k > 0 {
      FindFirst(d, infos[1..], k - 1);
    }
  }

  // ----- The round trip -----

  ghost predicate DistinctRanges(mm: seq<Descriptor>) {
    forall i, j :: 0 <= i < j < |mm| ==> mm[i].start != mm[j].start || mm[i].Last() != mm[j].Last()
  }

  /** Entries matched by the descriptors in front of `i`. */
  ghost function Matched(mm: seq<Descriptor>, infos: seq<RelocInfo>, i: nat): set<nat>
    requires i <= |mm|
  {
    set j | 0 <= j < i && Find(mm[j], infos).Some? :: Find(mm[j], infos).value
  }

  ghost function Indices(n: nat): (s: set<nat>)
    ensures |s| == n && forall k: nat :: k in s <==> k < n
  {
    if n == 0 then {} else Indices(n - 1) + {n - 1}
  }

  /** With distinct ranges no entry is used twice. */
  lemma FreshMatch(mm: seq<Descriptor>, infos: seq<RelocInfo>, i: nat)
    requires DistinctRanges(mm) && i < |mm| && Find(mm[i], infos).Some?
    ensures Find(mm[i], infos).value !in Matched(mm, infos, i)
  {
    var k := Find(mm[i], infos).value;
    forall j | 0 <= j < i ensures Find(mm[j], infos) != Some(k) {
      assert mm[j].start != mm[i].start || mm[j].Last() != mm[i].Last();
    }
  }

  lemma MatchedStep(mm: seq<Descriptor>, infos: seq<RelocInfo>, i: nat)
    requires DistinctRanges(mm) && i < |mm|
    ensures |Matched(mm, infos, i + 1)| == |Matched(mm, infos, i)| + (if Find(mm[i], infos).Some? then 1 else 0)
  {
    if Find(mm[i], infos).Some? {
      FreshMatch(mm, infos, i);
      assert Matched(mm, infos, i + 1) == Matched(mm, infos, i) + {Find(mm[i], infos).value};
    } else {
      assert Matched(mm, infos, i + 1) == Matched(mm, infos, i);
    }
  }

  /** So the outstanding count is exact. */
  lemma {:induction false} LeftIsExact(mm: seq<Descriptor>, infos: seq<RelocInfo>, i: nat)
    requires DistinctRanges(mm) && i <= |mm|
    ensures Left(mm, infos, i) + |Matched(mm, infos, i)| == |infos|
  {
    if i == 0 {
      assert Matched(mm, infos, 0) == {};
    } else {
      LeftIsExact(mm, infos, i - 1);
      MatchedStep(mm, infos, i - 1);
      if Find(mm[i - 1], infos).Some? {
        NoMatchLeft(mm, infos, i - 1);
      }
    }
  }

  /** And stopping early skips nothing. */
  lemma EarlyStopIsHarmless(mm: seq<Descriptor>, infos: seq<RelocInfo>, i: nat)
    requires DistinctRanges(mm) && i < |mm|
    ensures RestoredAt(mm, infos, i) == Restored(mm[i], infos)
  {
    if Find(mm[i], infos).Some? {
      LeftIsExact(mm, infos, i);
      NoMatchLeft(mm, infos, i);
    }
  }

  /** While a descriptor still has an entry, not all entries are used up. */
  lemma NoMatchLeft(mm: seq<Descriptor>, infos: seq<RelocInfo>, i: nat)
    requires DistinctRanges(mm) && i < |mm| && Find(mm[i], infos).Some?
    ensures |Matched(mm, infos, i)| < |infos|
  {
    FreshMatch(mm, infos, i);
    var used, k := Matched(mm, infos, i), Find(mm[i], infos).value;
    var unused := Indices(|infos|) - used;
    assert k in unused;
    assert Indices(|infos|) == used + unused;
    assert |Indices(|infos|)| == |used| + |unused|;
  }

  /** The descriptor an entry was saved from; the number of entries before it is the entry's index. */
  ghost function Source(mm: seq<Descriptor>, sysTable: Area, n: nat, k: nat): (i: nat)
    requires n <= |mm| && k < |Saved(mm, sysTable, n)|
    ensures i < n && IsProtected(mm, sysTable, i)
    ensures |Saved(mm, sysTable, i)| == k && Saved(mm, sysTable, n)[k] == InfoOf(mm[i])
  {
    if k < |Saved(mm, sysTable, n - 1)| then Source(mm, sysTable, n - 1, k) else n - 1
  }

  lemma {:induction false} ProtectedIsSaved(mm: seq<Descriptor>, sysTable: Area, i: nat, n: nat)
    requires i < n <= |mm| && IsProtected(mm, sysTable, i)
    ensures var infos, k := Saved(mm, sysTable, n), |Saved(mm, sysTable, i)|;
            k < |infos| && infos[k] == InfoOf(mm[i])
  {
    if i < n - 1 {
      ProtectedIsSaved(mm, sysTable, i, n - 1);
    }
  }

  /** Looking a protected descriptor up gives its own entry, and nothing else is found. */
  lemma FindProtected(mm: seq<Descriptor>, sysTable: Area, i: nat)
    requires DistinctRanges(mm) && i < |mm|
    ensures Find(Protected(mm, sysTable, i), Saved(mm, sysTable, |mm|)) ==
            if IsProtected(mm, sysTable, i) then Some(|Saved(mm, sysTable, i)|) else None
  {
    var infos := Saved(mm, sysTable, |mm|);
    var d := Protected(mm, sysTable, i);
    forall k | 0 <= k < |infos| && SameRange(d, infos[k])
      ensures IsProtected(mm, sysTable, i) && k == |Saved(mm, sysTable, i)|
    {
      var j := Source(mm, sysTable, |mm|, k);
      assert j == i;
    }
    if IsProtected(mm, sysTable, i) {
      ProtectedIsSaved(mm, sysTable, i, |mm|);
      FindFirst(d, infos, |Saved(mm, sysTable, i)|);
    }
  }

  lemma RestoredInvertsProtected(mm: seq<Descriptor>, sysTable: Area, i: nat)
    requires DistinctRanges(mm) && i < |mm|
    ensures Restored(Protected(mm, sysTable, i), Saved(mm, sysTable, |mm|)) == mm[i]
  {
    FindProtected(mm, sysTable, i);
    if IsProtected(mm, sysTable, i) {
      ProtectedIsSaved(mm, sysTable, i, |mm|);
    }
  }

  /** `order` rearranges `n` positions and `back` undoes it. */
  ghost predicate Reordering(order: seq<nat>, back: seq<nat>, n: nat) {
    && |order| == n && |back| == n
    && (forall i :: 0 <= i < n ==> order[i] < n && back[order[i]] == i)
    && (forall i :: 0 <= i < n ==> back[i] < n && order[back[i]] == i)
  }

  /** `shuffled` is the protected map in the given order. */
  ghost predicate ProtectedInOrder(mm: seq<Descriptor>, sysTable: Area, order: seq<nat>, back: seq<nat>, shuffled: seq<Descriptor>) {
    && Reordering(order, back, |mm|)
    && |shuffled| == |mm|
    && forall i :: 0 <= i < |mm| ==> shuffled[i] == Protected(mm, sysTable, order[i])
  }

  lemma ShuffledDistinct(mm: seq<Descriptor>, sysTable: Area, order: seq<nat>, back: seq<nat>, shuffled: seq<Descriptor>)
    requires DistinctRanges(mm) && ProtectedInOrder(mm, sysTable, order, back, shuffled)
    ensures DistinctRanges(shuffled)
  {
    forall i, j | 0 <= i < j < |mm|
      ensures shuffled[i].start != shuffled[j].start || shuffled[i].Last() != shuffled[j].Last()
    {
      var x, y := order[i], order[j];
      assert back[x] == i && back[y] == j;
      if x < y {
        assert mm[x].start != mm[y].start || mm[x].Last() != mm[y].Last();
      }
    }
  }

  lemma AllEntriesMatched(mm: seq<Descriptor>, sysTable: Area, order: seq<nat>, back: seq<nat>, shuffled: seq<Descriptor>)
    requires DistinctRanges(mm) && ProtectedInOrder(mm, sysTable, order, back, shuffled)
    ensures var infos := Saved(mm, sysTable, |mm|);
            Matched(shuffled, infos, |mm|) == Indices(|infos|)
  {
    var infos := Saved(mm, sysTable, |mm|);
    forall k | 0 <= k < |infos| ensures k in Matched(shuffled, infos, |mm|) {
      var i := Source(mm, sysTable, |mm|, k);
      assert order[back[i]] == i;
      FindProtected(mm, sysTable, i);
      assert Find(shuffled[back[i]], infos) == Some(k);
    }
  }

  /**
   Protect, rearrange the map in any way, restore: every descriptor has its original type again and no
   entry is reported missing, also when there were more runtime descriptors than slots.
   */
  lemma ProtectRestoreRoundTrip(mm: seq<Descriptor>, sysTable: Area, order: seq<nat>, back: seq<nat>, shuffled: seq<Descriptor>)
    requires DistinctRanges(mm) && ProtectedInOrder(mm, sysTable, order, back, shuffled)
    ensures var infos := Saved(mm, sysTable, |mm|);
            && Left(shuffled, infos, |mm|) == 0
            && forall i :: 0 <= i < |mm| ==> RestoredAt(shuffled, infos, i) == mm[order[i]]
  {
    var infos := Saved(mm, sysTable, |mm|);
    ShuffledDistinct(mm, sysTable, order, back, shuffled);
    forall i | 0 <= i < |mm| ensures RestoredAt(shuffled, infos, i) == mm[order[i]] {
      EarlyStopIsHarmless(shuffled, infos, i);
      RestoredInvertsProtected(mm, sysTable, order[i]);
    }
    LeftIsExact(shuffled, infos, |mm|);
    AllEntriesMatched(mm, sysTable, order, back, shuffled);
  }
}
