/**
 What the naming rules of a search mean for whole tables. A term has a qualified name; the parser reports
 terms by a rule of its own, and the two agree exactly when no term it comes to is misplaced.
 */
module AmlNaming {
  import opened Machine
  import opened Bytes
  import opened AmlNames
  import opened AmlEncoding
  import opened AmlTerms
  import opened AmlParser
  import opened AmlTree

  // ----- Qualified names -----

  /** The scope that prefixes lead to from the scope `here`: a root prefix to the root, each caret one scope up. */
  function Base(here: seq<Ident>, prefixes: seq<Byte>): seq<Ident>
    decreases |prefixes|
  {
    if prefixes == [] then here
    else Base(if prefixes[0] == ROOT_CHAR || here == [] then [] else here[..|here| - 1], prefixes[1..])
  }

  function Qualified(here: seq<Ident>, prefixes: seq<Byte>, segments: seq<Ident>): seq<Ident> {
    Base(here, prefixes) + segments
  }

  /** The qualified name of a term in the scope `here`. The second name of a bank or index field lies in the first. */
  function OwnName(term: Term, here: seq<Ident>): seq<Ident>
    requires !term.Skip?
  {
    var first := Qualified(here, term.head.prefixes, term.head.segments);
    if term.Pair? then Qualified(first, term.prefixes, term.segments) else first
  }

  predicate IsNamed(term: Term, here: seq<Ident>, path: seq<Ident>) {
    !term.Skip? && OwnName(term, here) == path
  }

  /** The places, counted from `at`, of all terms whose qualified name is the path. */
  function TermPlaces(term: Term, path: seq<Ident>, here: seq<Ident>, at: nat): seq<nat>
    requires term.WellFormed()
    decreases term, 0
  {
    var own := if IsNamed(term, here, path) then [at] else [];
    match term
    case Scope(head, body) => own + Places(body, path, OwnName(term, here), at + |head.Encode(|body.Encode()|)|)
    case _ => own
  }

  function Places(f: Forest, path: seq<Ident>, here: seq<Ident>, at: nat): seq<nat>
    requires f.WellFormed()
    decreases f, 1
  {
    if f.Nil? then []
    else TermPlaces(f.term, path, here, at) + Places(f.next, path, here, at + |f.term.Encode()|)
  }

  // ----- Misplaced terms -----

  /** The parser reports the term itself and gets over it. */
  predicate Hit(term: Term, path: seq<Ident>, i: nat, depth: nat) {
    term.Reports(path, i) && !TooDeep(depth) && (term.Pair? ==> term.PairParses(path, i))
  }

  /** The parser reports the term without its having the name, or fails to report it. */
  predicate Misplaced(term: Term, path: seq<Ident>, i: nat, here: seq<Ident>, depth: nat) {
    Hit(term, path, i, depth) != IsNamed(term, here, path)
  }

  /** No term that the search comes to is misplaced. */
  predicate TermPlaced(term: Term, path: seq<Ident>, i: nat, here: seq<Ident>, at: nat, last: bool, depth: nat)
    requires term.WellFormed()
    decreases term, 0
  {
    && !Misplaced(term, path, i, here, depth)
    && (term.Scope? && !TooDeep(depth) ==>
          Placed(term.body, path, term.Continued(path, i), OwnName(term, here), Inside(term, at), last, depth + 2))
  }

  predicate Placed(f: Forest, path: seq<Ident>, i: nat, here: seq<Ident>, at: nat, last: bool, depth: nat)
    requires f.WellFormed()
    decreases f, 1
  {
    f.More? ==>
      var final := last && f.next == Nil;
      && TermPlaced(f.term, path, i, here, at, final, depth)
      && (f.term.Find(path, i, at, final, depth).complete ==>
            Placed(f.next, path, i, here, at + |f.term.Encode()|, last, depth))
  }

  /** Where the body of a scope starts. */
  function Inside(term: Term, at: nat): nat
    requires term.WellFormed() && term.Scope?
  {
    at + |term.head.Encode(|term.body.Encode()|)|
  }

  /** Prefixes with a root among them lead to the root. */
  lemma {:induction false} BaseOfAbsolute(here: seq<Ident>, prefixes: seq<Byte>)
    requires here == [] || ROOT_CHAR in prefixes
    ensures Base(here, prefixes) == []
    decreases |prefixes|
  {
    if prefixes != [] {
      assert prefixes == [prefixes[0]] + prefixes[1..];
      BaseOfAbsolute(if prefixes[0] == ROOT_CHAR || here == [] then [] else here[..|here| - 1], prefixes[1..]);
    }
  }

  /**
   The guard behind it: the scope that the prefixes lead to is not the part of the path spelled so far, and
   the name completes one of the two.
   */
  predicate Strays(base: seq<Ident>, segments: seq<Ident>, path: seq<Ident>, i: nat)
    requires i <= |path|
  {
    base != path[..i] && (Completes(segments, path, i) || base + segments == path)
  }

  lemma StraysMeans(base: seq<Ident>, segments: seq<Ident>, path: seq<Ident>, i: nat)
    requires i <= |path|
    ensures Strays(base, segments, path, i) <==> Completes(segments, path, i) != (base + segments == path)
  {
    if Completes(segments, path, i) {
      assert path[..i] + segments == path;
    }
    if base + segments == path {
      assert (base + segments)[..|base|] == base && (base + segments)[|base|..] == segments;
    }
  }

  /** Exactly the methods and fields that are misplaced. */
  lemma LeafMisplaced(head: Head, rest: seq<Byte>, path: seq<Ident>, i: nat, here: seq<Ident>, depth: nat)
    requires i <= |path| && !TooDeep(depth)
    ensures Misplaced(Leaf(head, rest), path, i, here, depth) <==>
            Strays(Base(here, head.prefixes), head.segments, path, i)
  {
    StraysMeans(Base(here, head.prefixes), head.segments, path, i);
  }

  /** Exactly the bank and index fields with two single names, the second without prefixes, that are misplaced. */
  lemma PairMisplaced(term: Term, path: seq<Ident>, i: nat, here: seq<Ident>, depth: nat)
    requires term.Pair? && term.prefixes == [] && |term.head.segments| == |term.segments| == 1
    requires i <= |path| && !TooDeep(depth) && term.PairParses(path, i)
    ensures Misplaced(term, path, i, here, depth) <==>
            Strays(Base(here, term.head.prefixes), term.head.segments + term.segments, path, i)
  {
    var base := Base(here, term.head.prefixes);
    assert base + term.head.segments + term.segments == base + (term.head.segments + term.segments);
    StraysMeans(base, term.head.segments + term.segments, path, i);
  }

  /** Exactly the scopes that are misplaced; absolute ones never are. */
  lemma ScopeMisplaced(head: Head, body: Forest, path: seq<Ident>, i: nat, here: seq<Ident>, depth: nat)
    requires i < |path| && !TooDeep(depth)
    ensures Misplaced(Scope(head, body), path, i, here, depth) <==>
            !head.IsAbsolute() && Strays(Base(here, head.prefixes), head.segments, path, i)
  {
    var first := if head.IsAbsolute() then 0 else i;
    ReachesAll(head, path, i, first);
    StraysMeans(Base(here, head.prefixes), head.segments, path, first);
    if head.IsAbsolute() {
      BaseOfAbsolute(here, head.prefixes);
      assert path[..0] == [];
    }
  }

  lemma ReachesAll(head: Head, path: seq<Ident>, i: nat, first: nat)
    requires path != [] && first == if head.IsAbsolute() then 0 else i
    ensures head.Reached(path, i) == |path| <==> Completes(head.segments, path, first)
  {
    if first + |head.segments| == |path| {
      assert path[first..first + |head.segments|] == path[first..];
    }
  }

  // ----- Reported and named -----

  /** The terms that the search comes to and that have the name; it gets over the same terms as the search. */
  function TermVisited(term: Term, path: seq<Ident>, i: nat, here: seq<Ident>, at: nat, last: bool, depth: nat): Finding
    requires term.WellFormed()
    decreases term, 0
  {
    var own := if IsNamed(term, here, path) then [at] else [];
    if term.Scope? && !TooDeep(depth) then
      var inner := Visited(term.body, path, term.Continued(path, i), OwnName(term, here), Inside(term, at), last, depth + 2);
      Finding(own + inner.hits, inner.complete)
    else Finding(own, term.Find(path, i, at, last, depth).complete)
  }

  function Visited(f: Forest, path: seq<Ident>, i: nat, here: seq<Ident>, at: nat, last: bool, depth: nat): Finding
    requires f.WellFormed()
    decreases f, 1
  {
    if f.Nil? then Finding([], true)
    else
      Joined(TermVisited(f.term, path, i, here, at, last && f.next == Nil, depth),
             Visited(f.next, path, i, here, at + |f.term.Encode()|, last, depth))
  }

  predicate AllWithin(hits: seq<nat>, lo: nat, hi: nat) {
    forall k :: 0 <= k < |hits| ==> lo <= hits[k] < hi
  }

  /** Two findings between the places `lo` and `hi` that get equally far are the same exactly when told so. */
  predicate Compared(found: Finding, named: Finding, placed: bool, lo: nat, hi: nat) {
    && AllWithin(found.hits, lo, hi) && AllWithin(named.hits, lo, hi) && found.complete == named.complete
    && (found == named <==> placed)
  }

  lemma ConcatSeparates(a: seq<nat>, b: seq<nat>, c: seq<nat>, d: seq<nat>, lo: nat, mid: nat, hi: nat)
    requires AllWithin(a, lo, mid) && AllWithin(c, lo, mid) && AllWithin(b, mid, hi) && AllWithin(d, mid, hi)
    ensures a + b == c + d <==> a == c && b == d
  {
    if a + b == c + d {
      assert b != [] ==> (a + b)[|a|] == b[0];
      assert d != [] ==> (c + d)[|c|] == d[0];
      assert forall k :: 0 <= k < |a| ==> (a + b)[k] == a[k];
      assert forall k :: 0 <= k < |c| ==> (c + d)[k] == c[k];
      assert |a| == |c|;
      assert (a + b)[..|a|] == a && (c + d)[..|c|] == c;
      assert (a + b)[|a|..] == b && (c + d)[|c|..] == d;
    }
  }

  function Own(p: bool, at: nat, inner: Finding): Finding {
    Finding((if p then [at] else []) + inner.hits, inner.complete)
  }

  lemma OwnCompared(p: bool, q: bool, at: nat, inner: nat, end: nat, found: Finding, named: Finding, placed: bool)
    requires at < inner <= end && Compared(found, named, placed, inner, end)
    ensures Compared(Own(p, at, found), Own(q, at, named), p == q && placed, at, end)
  {
    ConcatSeparates(if p then [at] else [], found.hits, if q then [at] else [], named.hits, at, inner, end);
  }

  lemma JoinCompared(a: Finding, c: Finding, p: bool, b: Finding, d: Finding, q: bool, lo: nat, mid: nat, hi: nat)
    requires lo <= mid <= hi && Compared(a, c, p, lo, mid) && Compared(b, d, q, mid, hi)
    ensures Compared(Joined(a, b), Joined(c, d), p && (a.complete ==> q), lo, hi)
  {
    ConcatSeparates(a.hits, b.hits, c.hits, d.hits, lo, mid, hi);
  }

  lemma {:induction false} TermCompared(term: Term, path: seq<Ident>, i: nat, here: seq<Ident>, at: nat, last: bool, depth: nat)
      returns (found: Finding, named: Finding, placed: bool)
    requires term.WellFormed()
    ensures found == term.Find(path, i, at, last, depth) && named == TermVisited(term, path, i, here, at, last, depth)
    ensures placed == TermPlaced(term, path, i, here, at, last, depth)
    ensures Compared(found, named, placed, at, at + |term.Encode()|)
    decreases term, 0
  {
    if term.Scope? && !TooDeep(depth) {
      var k, name, inner := term.Continued(path, i), OwnName(term, here), Inside(term, at);
      var f, n, p := ForestCompared(term.body, path, k, name, inner, last, depth + 2);
      found, named, placed := ScopeCompared(term, path, i, here, at, last, depth, k, name, inner, f, n, p);
    } else {
      found, named, placed := SingleCompared(term, path, i, here, at, last, depth);
    }
  }

  /** A scope, by what is known of its body. */
  lemma ScopeCompared(term: Term, path: seq<Ident>, i: nat, here: seq<Ident>, at: nat, last: bool, depth: nat,
                      k: nat, name: seq<Ident>, inner: nat, f: Finding, n: Finding, p: bool)
      returns (found: Finding, named: Finding, placed: bool)
    requires term.Scope? && term.WellFormed() && !TooDeep(depth)
    requires k == term.Continued(path, i) && name == OwnName(term, here) && inner == Inside(term, at)
    requires f == term.body.Find(path, k, inner, last, depth + 2)
    requires n == Visited(term.body, path, k, name, inner, last, depth + 2)
    requires p == Placed(term.body, path, k, name, inner, last, depth + 2)
    requires Compared(f, n, p, inner, inner + |term.body.Encode()|)
    ensures found == term.Find(path, i, at, last, depth) && named == TermVisited(term, path, i, here, at, last, depth)
    ensures placed == TermPlaced(term, path, i, here, at, last, depth)
    ensures Compared(found, named, placed, at, at + |term.Encode()|)
  {
    found, named := Own(term.Reports(path, i), at, f), Own(IsNamed(term, here, path), at, n);
    placed := !Misplaced(term, path, i, here, depth) && p;
    ScopeFinds(term.head, term.body, path, i, at, inner, last, depth, f);
    OwnCompared(term.Reports(path, i), IsNamed(term, here, path), at, inner, at + |term.Encode()|, f, n, p);
  }

  /** Anything that is not searched inside. */
  lemma SingleCompared(term: Term, path: seq<Ident>, i: nat, here: seq<Ident>, at: nat, last: bool, depth: nat)
      returns (found: Finding, named: Finding, placed: bool)
    requires term.WellFormed() && (term.Scope? ==> TooDeep(depth))
    ensures found == term.Find(path, i, at, last, depth) && named == TermVisited(term, path, i, here, at, last, depth)
    ensures placed == TermPlaced(term, path, i, here, at, last, depth)
    ensures Compared(found, named, placed, at, at + |term.Encode()|)
  {
    EncodesSomething(term);
    found, named := term.Find(path, i, at, last, depth), TermVisited(term, path, i, here, at, last, depth);
    placed := TermPlaced(term, path, i, here, at, last, depth);
  }

  lemma {:induction false} ForestCompared(f: Forest, path: seq<Ident>, i: nat, here: seq<Ident>, at: nat, last: bool, depth: nat)
      returns (found: Finding, named: Finding, placed: bool)
    requires f.WellFormed()
    ensures found == f.Find(path, i, at, last, depth) && named == Visited(f, path, i, here, at, last, depth)
    ensures placed == Placed(f, path, i, here, at, last, depth)
    ensures Compared(found, named, placed, at, at + |f.Encode()|)
    decreases f, 1
  {
    if f.Nil? {
      found, named, placed := Finding([], true), Finding([], true), true;
    } else {
      var final, m := last && f.next == Nil, at + |f.term.Encode()|;
      var a, c, p := TermCompared(f.term, path, i, here, at, final, depth);
      var b, d, q := ForestCompared(f.next, path, i, here, m, last, depth);
      found, named, placed := MoreCompared(f.term, f.next, path, i, here, at, last, depth, final, m, a, c, p, b, d, q);
    }
  }

  /** A list, by what is known of its first term and of the rest. */
  lemma MoreCompared(term: Term, next: Forest, path: seq<Ident>, i: nat, here: seq<Ident>, at: nat, last: bool, depth: nat,
                     final: bool, m: nat, a: Finding, c: Finding, p: bool, b: Finding, d: Finding, q: bool)
      returns (found: Finding, named: Finding, placed: bool)
    requires More(term, next).WellFormed() && final == (last && next == Nil) && m == at + |term.Encode()|
    requires a == term.Find(path, i, at, final, depth) && c == TermVisited(term, path, i, here, at, final, depth)
    requires p == TermPlaced(term, path, i, here, at, final, depth) && Compared(a, c, p, at, m)
    requires b == next.Find(path, i, m, last, depth) && d == Visited(next, path, i, here, m, last, depth)
    requires q == Placed(next, path, i, here, m, last, depth) && Compared(b, d, q, m, m + |next.Encode()|)
    ensures found == More(term, next).Find(path, i, at, last, depth)
    ensures named == Visited(More(term, next), path, i, here, at, last, depth)
    ensures placed == Placed(More(term, next), path, i, here, at, last, depth)
    ensures Compared(found, named, placed, at, at + |More(term, next).Encode()|)
  {
    found := FindingJoins(term, next, path, i, at, m, last, final, depth, a, b);
    named := VisitedJoins(term, next, path, i, here, at, m, last, final, depth, c, d);
    placed := PlacedJoins(term, next, path, i, here, at, m, last, final, depth, a, p, q);
    JoinCompared(a, c, p, b, d, q, at, m, m + |next.Encode()|);
  }

  lemma VisitedJoins(term: Term, next: Forest, path: seq<Ident>, i: nat, here: seq<Ident>, at: nat, m: nat, last: bool, final: bool,
                     depth: nat, c: Finding, d: Finding)
      returns (named: Finding)
    requires More(term, next).WellFormed() && m == at + |term.Encode()| && final == (last && next == Nil)
    requires c == TermVisited(term, path, i, here, at, final, depth) && d == Visited(next, path, i, here, m, last, depth)
    ensures named == Joined(c, d) && named == Visited(More(term, next), path, i, here, at, last, depth)
  {
    named := Joined(c, d);
  }

  lemma PlacedJoins(term: Term, next: Forest, path: seq<Ident>, i: nat, here: seq<Ident>, at: nat, m: nat, last: bool, final: bool,
                    depth: nat, a: Finding, p: bool, q: bool)
      returns (placed: bool)
    requires More(term, next).WellFormed() && m == at + |term.Encode()| && final == (last && next == Nil)
    requires a == term.Find(path, i, at, final, depth)
    requires p == TermPlaced(term, path, i, here, at, final, depth) && q == Placed(next, path, i, here, m, last, depth)
    ensures placed == (p && (a.complete ==> q)) && placed == Placed(More(term, next), path, i, here, at, last, depth)
  {
    placed := p && (a.complete ==> q);
  }

  /** What is reported is what is named, among the terms the search comes to, exactly when none is misplaced. */
  lemma PlacedExactly(f: Forest, path: seq<Ident>, i: nat, here: seq<Ident>, at: nat, last: bool, depth: nat)
    requires f.WellFormed()
    ensures Visited(f, path, i, here, at, last, depth).complete == f.Find(path, i, at, last, depth).complete
    ensures f.Find(path, i, at, last, depth) == Visited(f, path, i, here, at, last, depth) <==>
            Placed(f, path, i, here, at, last, depth)
  {
    var found, named, placed := ForestCompared(f, path, i, here, at, last, depth);
  }

  lemma {:induction false} TermVisitedAll(term: Term, path: seq<Ident>, i: nat, here: seq<Ident>, at: nat, last: bool, depth: nat)
    requires term.WellFormed() && TermVisited(term, path, i, here, at, last, depth).complete
    ensures TermVisited(term, path, i, here, at, last, depth).hits == TermPlaces(term, path, here, at)
    decreases term, 0
  {
    if term.Scope? {
      ForestVisitedAll(term.body, path, term.Continued(path, i), OwnName(term, here), Inside(term, at), last, depth + 2);
    }
  }

  lemma {:induction false} ForestVisitedAll(f: Forest, path: seq<Ident>, i: nat, here: seq<Ident>, at: nat, last: bool, depth: nat)
    requires f.WellFormed() && Visited(f, path, i, here, at, last, depth).complete
    ensures Visited(f, path, i, here, at, last, depth).hits == Places(f, path, here, at)
    decreases f, 1
  {
    if f.More? {
      TermVisitedAll(f.term, path, i, here, at, last && f.next == Nil, depth);
      ForestVisitedAll(f.next, path, i, here, at + |f.term.Encode()|, last, depth);
    }
  }

  /** A search that gets over all terms comes to every place with the name. */
  lemma VisitedAll(f: Forest, path: seq<Ident>, i: nat, here: seq<Ident>, at: nat, last: bool, depth: nat)
    requires f.WellFormed() && f.Find(path, i, at, last, depth).complete
    ensures Visited(f, path, i, here, at, last, depth).hits == Places(f, path, here, at)
  {
    PlacedExactly(f, path, i, here, at, last, depth);
    ForestVisitedAll(f, path, i, here, at, last, depth);
  }

  /**
   A search that gets over all terms reports exactly the places whose qualified name is the path if and only
   if no term is misplaced.
   */
  lemma FoundIsNamed(f: Forest, path: seq<Ident>, at: nat, last: bool)
    requires f.WellFormed()
    ensures var found := f.Find(path, 0, at, last, 0);
            found.complete ==> (found.hits == Places(f, path, [], at) <==> Placed(f, path, 0, [], at, last, 0))
  {
    if f.Find(path, 0, at, last, 0).complete {
      PlacedExactly(f, path, 0, [], at, last, 0);
      VisitedAll(f, path, 0, [], at, last, 0);
    }
  }

  // ----- Examples -----

  const NAME_A: Ident := 0x415F_5F5F
  const NAME_B: Ident := 0x425F_5F5F

  function Method(prefixes: seq<Byte>, segments: seq<Ident>): Term {
    Leaf(Head(METHOD_OP, 0, prefixes, segments), [0])
  }

  /** Scope (A) with one term in it. */
  function InScopeA(term: Term): Term {
    Scope(Head(SCOPE_OP, 0, [], [NAME_A]), More(term, Nil))
  }

  lemma MethodForms(prefixes: seq<Byte>, segments: seq<Ident>)
    requires prefixes == [] || prefixes == [ROOT_CHAR] || prefixes == [PARENT_PREFIX_CHAR]
    requires segments == [NAME_A] || segments == [NAME_B] || segments == [NAME_A, NAME_B]
    ensures Method(prefixes, segments).WellFormed()
    ensures InScopeA(Method(prefixes, segments)).WellFormed()
    ensures forall at: nat :: Inside(InScopeA(Method(prefixes, segments)), at) == at + 6
  {
    var term := Method(prefixes, segments);
    assert Encodable(prefixes, segments) && Encodable([], [NAME_A]);
    assert |EncodeBody(segments)| <= 9 && |EncodeBody([NAME_A])| == 4;
    assert term.head.Length(1) <= 12 && term.WellFormed() && More(term, Nil).WellFormed();
    assert |More(term, Nil).Encode()| == |term.Encode()| <= 14;
  }

  /** What is reported in Scope (A) with a method in it, and what has the name. */
  lemma InScopeAFinds(term: Term, path: seq<Ident>, at: nat, last: bool)
    requires term.Leaf? && InScopeA(term).WellFormed() && Inside(InScopeA(term), at) == at + 6
    requires path == [NAME_B] || path == [NAME_A, NAME_B]
    ensures InScopeA(term).Find(path, 0, at, last, 0).hits ==
            if Completes(term.head.segments, path, |path| - 1) then [at + 6] else []
    ensures TermPlaces(InScopeA(term), path, [], at) ==
            if Qualified([NAME_A], term.head.prefixes, term.head.segments) == path then [at + 6] else []
  {
    var scope, body := InScopeA(term), More(term, Nil);
    assert path[0..1] == [path[0]];
    assert scope.Continued(path, 0) == |path| - 1 && !scope.Reports(path, 0);
    var found := term.Find(path, |path| - 1, at + 6, last, 2);
    assert body.Find(path, |path| - 1, at + 6, last, 2) == Joined(found, Finding([], true));
    assert found.hits + [] == found.hits && [] + found.hits == found.hits;
    assert Base([], []) + [NAME_A] == [NAME_A] == OwnName(scope, []);
    var places := TermPlaces(term, path, [NAME_A], at + 6);
    assert Places(body, path, [NAME_A], at + 6) == places + [] == places;
    assert [] + places == places;
  }

  /** Scope (A) { Method (B) } declares A.B and is reported for B. */
  lemma RestartReportsTooMuch(at: nat, last: bool)
    ensures var term := InScopeA(Method([], [NAME_B]));
            && term.WellFormed()
            && term.Find([NAME_B], 0, at, last, 0).hits == [at + 6]
            && TermPlaces(term, [NAME_B], [], at) == []
            && TermPlaces(term, [NAME_A, NAME_B], [], at) == [at + 6]
  {
    MethodForms([], [NAME_B]);
    InScopeAFinds(Method([], [NAME_B]), [NAME_B], at, last);
    InScopeAFinds(Method([], [NAME_B]), [NAME_A, NAME_B], at, last);
    assert Base([NAME_A], []) + [NAME_B] == [NAME_A, NAME_B];
  }

  /** Scope (A) { Method (^B) } declares B at the root and is reported for A.B. */
  lemma ParentPrefixIgnored(at: nat, last: bool)
    ensures var term := InScopeA(Method([PARENT_PREFIX_CHAR], [NAME_B]));
            && term.WellFormed()
            && term.Find([NAME_A, NAME_B], 0, at, last, 0).hits == [at + 6]
            && TermPlaces(term, [NAME_A, NAME_B], [], at) == []
  {
    MethodForms([PARENT_PREFIX_CHAR], [NAME_B]);
    InScopeAFinds(Method([PARENT_PREFIX_CHAR], [NAME_B]), [NAME_A, NAME_B], at, last);
    assert [PARENT_PREFIX_CHAR][1..] == [] && [NAME_A][..0] == [];
    assert Base([NAME_A], [PARENT_PREFIX_CHAR]) == Base([], []) == [];
  }

  /** Scope (A) { Method (\B) } declares B at the root and is reported for A.B. */
  lemma RootPrefixIgnored(at: nat, last: bool)
    ensures var term := InScopeA(Method([ROOT_CHAR], [NAME_B]));
            && term.WellFormed()
            && term.Find([NAME_A, NAME_B], 0, at, last, 0).hits == [at + 6]
            && TermPlaces(term, [NAME_A, NAME_B], [], at) == []
  {
    MethodForms([ROOT_CHAR], [NAME_B]);
    InScopeAFinds(Method([ROOT_CHAR], [NAME_B]), [NAME_A, NAME_B], at, last);
    BaseOfAbsolute([NAME_A], [ROOT_CHAR]);
  }

  /** Scope (A) { Method (\A.B) } declares A.B and is not reported for it. */
  lemma RootPathMissed(at: nat, last: bool)
    ensures var term := InScopeA(Method([ROOT_CHAR], [NAME_A, NAME_B]));
            && term.WellFormed()
            && term.Find([NAME_A, NAME_B], 0, at, last, 0).hits == []
            && TermPlaces(term, [NAME_A, NAME_B], [], at) == [at + 6]
  {
    MethodForms([ROOT_CHAR], [NAME_A, NAME_B]);
    InScopeAFinds(Method([ROOT_CHAR], [NAME_A, NAME_B]), [NAME_A, NAME_B], at, last);
    BaseOfAbsolute([NAME_A], [ROOT_CHAR]);
    assert [] + [NAME_A, NAME_B] == [NAME_A, NAME_B];
  }

  /** A table that ends in a single zero byte behind its header makes every search fail. */
  lemma TrailingByteFails(header: seq<Byte>, path: seq<Ident>)
    requires |header| == DESCRIPTION_HEADER_SIZE && path != []
    ensures TableTrace(header + [ZERO_OP], path) == Trace([], Fails)
  {
    var t, f := header + [ZERO_OP], More(Skip([ZERO_OP]), Nil);
    assert IsSkippable([ZERO_OP]);
    assert f.term.WellFormed() && f.next.WellFormed();
    assert f.term.Encode() == [ZERO_OP] && f.next.Encode() == [];
    assert t[DESCRIPTION_HEADER_SIZE..] == [ZERO_OP] == f.Encode();
    TableSearched(t, path, f);
  }

  /** An index field whose first name is the whole path stops the search in front of whatever follows. */
  lemma IndexFieldStopsSearch(term: Term, next: Forest, names: seq<Ident>, at: nat, last: bool, depth: nat)
    requires term.WellFormed() && next.WellFormed() && term.Pair? && term.head.op == EXT_INDEX_FIELD_OP
    requires |names| == 1 && term.head.segments == names
    ensures More(term, next).Find(names, 0, at, last, depth) == Finding([], false)
  {
    assert names[0..1] == names;
  }

  // ----- Nothing is missed -----

  /** The term of the list that starts at the place. */
  function TermAt(f: Forest, at: nat, place: nat): (term: Option<Term>)
    requires f.WellFormed()
    ensures term.Some? ==> term.value.WellFormed()
  {
    if f.Nil? then None
    else if place == at then Some(f.term)
    else TermAt(f.next, at + |f.term.Encode()|, place)
  }

  /**
   The route is the places of scopes inside each other and of a declaration in the innermost one, and
   their names together are the given ones. Below the top all names are relative.
   */
  predicate Declared(f: Forest, at: nat, route: seq<nat>, names: seq<Ident>, top: bool)
    requires f.WellFormed()
    decreases |route|, 1
  {
    route != [] &&
    match TermAt(f, at, route[0])
    case None => false
    case Some(term) => TermDeclares(term, route, names, top)
  }

  predicate TermDeclares(term: Term, route: seq<nat>, names: seq<Ident>, top: bool)
    requires term.WellFormed() && route != []
    decreases |route|, 0
  {
    match term
    case Skip(_) => false
    case Leaf(head, _) => |route| == 1 && (top || !head.IsAbsolute()) && head.segments == names
    case Pair(head, _, segments, _) => |route| == 1 && |head.segments| == |segments| == 1 && head.segments + segments == names
    case Scope(head, body) =>
      && (top || !head.IsAbsolute()) && head.segments <= names
      && if |route| == 1 then head.segments == names
         else
           && |head.segments| < |names|
           && Declared(body, route[0] + |head.Encode(|body.Encode()|)|, route[1..], names[|head.segments|..], false)
  }

  /**
   A search that gets over all terms finds every declaration whose scopes and own name, taken from the top,
   are the names looked for.
   */
  lemma {:induction false} DeclaredIsFound(f: Forest, names: seq<Ident>, i: nat, at: nat, last: bool,
                                           route: seq<nat>, top: bool, depth: nat, found: Finding)
    requires f.WellFormed() && i < |names| && (top ==> i == 0) && Declared(f, at, route, names[i..], top)
    requires found == f.Find(names, i, at, last, depth) && found.complete
    ensures route[|route| - 1] in found.hits
    decreases |route|, 2, f, 1
  {
    if f.More? {
      DeclaredInMore(f.term, f.next, names, i, at, last, route, top, depth, found);
    }
  }

  lemma {:induction false} DeclaredInMore(term: Term, next: Forest, names: seq<Ident>, i: nat, at: nat, last: bool,
                                          route: seq<nat>, top: bool, depth: nat, found: Finding)
    requires More(term, next).WellFormed() && i < |names| && (top ==> i == 0)
    requires Declared(More(term, next), at, route, names[i..], top)
    requires found == More(term, next).Find(names, i, at, last, depth) && found.complete
    ensures route[|route| - 1] in found.hits
    decreases |route|, 2, More(term, next), 0
  {
    DeclaredSplits(term, next, at, route, names[i..], top);
    var final, m, first, rest := FoundParts(term, next, names, i, at, last, depth, found);
    if route[0] == at {
      DeclaredHere(term, names, i, at, final, route, top, depth, first);
    } else {
      DeclaredIsFound(next, names, i, m, last, route, top, depth, rest);
    }
  }

  lemma DeclaredSplits(term: Term, next: Forest, at: nat, route: seq<nat>, names: seq<Ident>, top: bool)
    requires More(term, next).WellFormed() && Declared(More(term, next), at, route, names, top)
    ensures term.WellFormed() && next.WellFormed() && route != []
    ensures if route[0] == at then TermDeclares(term, route, names, top)
            else Declared(next, at + |term.Encode()|, route, names, top)
  {
  }

  /** What a search that gets through finds in a list is what it finds in its first term and in the rest. */
  lemma FoundParts(term: Term, next: Forest, names: seq<Ident>, i: nat, at: nat, last: bool, depth: nat, found: Finding)
      returns (final: bool, m: nat, first: Finding, rest: Finding)
    requires More(term, next).WellFormed() && found == More(term, next).Find(names, i, at, last, depth) && found.complete
    ensures m == at + |term.Encode()|
    ensures first == term.Find(names, i, at, final, depth) && first.complete
    ensures rest == next.Find(names, i, m, last, depth) && rest.complete
    ensures forall x :: x in found.hits <==> x in first.hits || x in rest.hits
  {
    final, m := last && next == Nil, at + |term.Encode()|;
    first, rest := term.Find(names, i, at, final, depth), next.Find(names, i, m, last, depth);
    JoinedHits(first, rest);
  }

  lemma JoinedHits(first: Finding, rest: Finding)
    ensures Joined(first, rest).complete ==>
              && first.complete && rest.complete
              && forall x :: x in Joined(first, rest).hits <==> x in first.hits || x in rest.hits
  {
  }

  lemma {:induction false} DeclaredHere(term: Term, names: seq<Ident>, i: nat, at: nat, last: bool,
                                        route: seq<nat>, top: bool, depth: nat, found: Finding)
    requires term.WellFormed() && i < |names| && (top ==> i == 0) && route != [] && route[0] == at
    requires TermDeclares(term, route, names[i..], top)
    requires found == term.Find(names, i, at, last, depth) && found.complete
    ensures route[|route| - 1] in found.hits
    decreases |route|, 1
  {
    if term.Scope? {
      DeclaredInScope(term.head, term.body, names, i, at, last, route, top, depth, found);
    }
  }

  lemma ReachedBy(head: Head, names: seq<Ident>, i: nat)
    requires i <= |names| && head.segments <= names[i..] && (i == 0 || !head.IsAbsolute())
    ensures i + |head.segments| <= |names| && head.Reached(names, i) == i + |head.segments|
    ensures names[i..][|head.segments|..] == names[i + |head.segments|..]
  {
    var n := |head.segments|;
    assert names[i..][..n] == names[i..i + n];
  }

  lemma {:induction false} DeclaredInScope(head: Head, body: Forest, names: seq<Ident>, i: nat, at: nat, last: bool,
                                           route: seq<nat>, top: bool, depth: nat, found: Finding)
    requires Scope(head, body).WellFormed() && i < |names| && (top ==> i == 0) && route != [] && route[0] == at
    requires TermDeclares(Scope(head, body), route, names[i..], top)
    requires found == Scope(head, body).Find(names, i, at, last, depth) && found.complete
    ensures route[|route| - 1] in found.hits
    decreases |route|, 0
  {
    var j, inner := i + |head.segments|, at + |head.Encode(|body.Encode()|)|;
    ReachedBy(head, names, i);
    var rest := ScopeParts(head, body, names, i, at, last, depth, j, inner, found);
    if |route| > 1 {
      DeclaredIsFound(body, names, j, inner, last, route[1..], false, depth + 2, rest);
    }
  }

  /** A scope that completes the names is found itself; the search goes on in its body in any case. */
  lemma ScopeParts(head: Head, body: Forest, names: seq<Ident>, i: nat, at: nat, last: bool, depth: nat, j: nat, inner: nat, found: Finding)
      returns (rest: Finding)
    requires Scope(head, body).WellFormed() && j == head.Reached(names, i) && inner == at + |head.Encode(|body.Encode()|)|
    requires found == Scope(head, body).Find(names, i, at, last, depth) && found.complete
    ensures rest == body.Find(names, if j == |names| then 0 else j, inner, last, depth + 2) && rest.complete
    ensures j == |names| ==> at in found.hits
    ensures forall x :: x in rest.hits ==> x in found.hits
  {
    rest := body.Find(names, if j == |names| then 0 else j, inner, last, depth + 2);
    ScopeFinds(head, body, names, i, at, inner, last, depth, rest);
  }

  // ----- What a caller gets -----

  /** The identifiers looked for stand in a table as exactly the upper case, padded components of the path. */
  lemma ComponentBytes(pathString: string, i: nat)
    requires Accepted(pathString) && i < |Identifiers(pathString)|
    ensures EncodeIdent(Identifiers(pathString)[i]) == Components(pathString)[i]
  {
    EncodeIdentOf(Components(pathString)[i], Identifiers(pathString)[i]);
  }

  /**
   AcpiFindEntryInMemory on the encoding of a tree: the wanted one of the places the naming rules select for
   the components of the path string. They are the places with that qualified name exactly when no term is
   misplaced.
   */
  method FindEntryInTree(memory: seq<Byte>, ghost f: Forest, pathString: string, entry: nat, tableLength: nat)
      returns (status: Status, offset: nat)
    requires entry > 0 && Accepted(pathString)
    requires tableLength == 0 ==> |memory| >= COMMON_HEADER_SIZE
    requires DESCRIPTION_HEADER_SIZE < TableSize(memory, tableLength) <= |memory|
    requires f.WellFormed()
    requires memory[DESCRIPTION_HEADER_SIZE..TableSize(memory, tableLength)] == f.Encode()
    ensures var found := f.Find(Identifiers(pathString), 0, DESCRIPTION_HEADER_SIZE, true, 0);
            && (if |found.hits| >= entry then status == Success && offset == found.hits[entry - 1]
                else status == if found.complete then NotFound else DeviceError)
            && (found.complete ==>
                  (found.hits == Places(f, Identifiers(pathString), [], DESCRIPTION_HEADER_SIZE) <==>
                   Placed(f, Identifiers(pathString), 0, [], DESCRIPTION_HEADER_SIZE, true, 0)))
  {
    var size := TableSize(memory, tableLength);
    ghost var t := memory[..size];
    assert t[DESCRIPTION_HEADER_SIZE..] == memory[DESCRIPTION_HEADER_SIZE..size];
    TableSearched(t, Identifiers(pathString), f);
    FoundIsNamed(f, Identifiers(pathString), DESCRIPTION_HEADER_SIZE, true);
    status, offset := FindEntryInMemory(memory, pathString, entry, tableLength, true);
  }
}
