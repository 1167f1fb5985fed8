// apex/apex.go and android/apex.go: the apex_unique mutator.  Modules are visited bottom-up; a
// module that shares an APEX with a dependency that needs unique variations needs them too.
module ApexUnique {
  import opened DepWalk
  import opened ApexInfos
  import opened ApexDeps
  import opened Orders

  ghost predicate DependsOn(g: Graph, m: Mod, d: Mod)
    requires Acyclic(g)
    ensures DependsOn(g, m, d) ==> g.rank(d) < g.rank(m)
  {
    exists e :: e in g.deps(m) && e.child == d
  }

  // ----- anyInSameApex -----

  function Apexes(infos: seq<ApexInfo>): seq<string> {
    if infos == [] then [] else Apexes(infos[..|infos| - 1]) + infos[|infos| - 1].inApexes
  }

  lemma {:induction false} ApexesExactly(infos: seq<ApexInfo>, name: string)
    ensures name in Apexes(infos) <==> InSomeApex(infos, name)
  {
    if infos != [] {
      var n := |infos| - 1;
      ApexesExactly(infos[..n], name);
      assert forall i :: 0 <= i < n ==> infos[..n][i] == infos[i];
    }
  }

  /** Some record lists the APEX. */
  ghost predicate InSomeApex(infos: seq<ApexInfo>, name: string) {
    exists i :: 0 <= i < |infos| && name in infos[i].inApexes
  }

  method CollectApexes(infos: seq<ApexInfo>) returns (ret: seq<string>)
    ensures ret == Apexes(infos)
  {
    ret := [];
    for i := 0 to |infos|
      invariant ret == Apexes(infos[..i])
    {
      assert infos[..i + 1][..i] == infos[..i];
      ret := ret + infos[i].inApexes;
    }
    assert infos[..|infos|] == infos;
  }

  /** sort.SearchStrings and the test that follows it: is `x` among the sorted strings? */
  method InSorted(sorted: seq<string>, x: string) returns (r: bool)
    requires SortedBy(sorted, Itself)
    ensures r <==> x in sorted
  {
    var notBelow := (i: nat) => i < |sorted| && !Less(sorted[i], x);
    forall i, j | 0 <= i < j < |sorted| && notBelow(i) ensures notBelow(j) {
      assert !Less(Itself(sorted[j]), Itself(sorted[i]));
      NotBelowIsUpward(sorted[i], sorted[j], x);
    }
    var index := Search(|sorted|, notBelow);
    r := index < |sorted| && sorted[index] == x;
    if x in sorted {
      var k :| 0 <= k < |sorted| && sorted[k] == x;
      LessIrreflexive(x);
      assert notBelow(k);
      assert notBelow(index);
      assert index < k ==> !Less(Itself(sorted[k]), Itself(sorted[index]));
      LessTotal(sorted[index], x);
    }
  }

  lemma {:induction false} NotBelowIsUpward(a: string, b: string, x: string)
    requires !Less(a, x) && !Less(b, a)
    ensures !Less(b, x)
  {
    if Less(b, x) {
      LessTotal(a, b);
      if a != b {
        LessTransitive(a, b, x);
      }
    }
  }

  ghost predicate ShareApex(a: seq<ApexInfo>, b: seq<ApexInfo>) {
    exists name :: InSomeApex(a, name) && InSomeApex(b, name)
  }

  /** The sort-and-search test is set intersection. */
  method AnyInSameApex(a: seq<ApexInfo>, b: seq<ApexInfo>) returns (r: bool)
    ensures r <==> ShareApex(a, b)
  {
    var aApexes := CollectApexes(a);
    var bApexes := CollectApexes(b);
    var sorted := SortBy(bApexes, Itself);
    SortBySorts(bApexes, Itself);
    assert forall x :: x in sorted <==> x in multiset(sorted);
    assert forall x :: x in bApexes <==> x in multiset(bApexes);
    forall name: string
      ensures (name in aApexes <==> InSomeApex(a, name)) && (name in bApexes <==> InSomeApex(b, name))
    {
      ApexesExactly(a, name);
      ApexesExactly(b, name);
    }
    for i := 0 to |aApexes|
      invariant forall j :: 0 <= j < i ==> aApexes[j] !in bApexes
    {
      var found := InSorted(sorted, aApexes[i]);
      if found {
        return true;
      }
    }
    return false;
  }

  // ----- the pass -----

  /** What the visit of one direct dependency tests; `marks` is what apexDepsMutator left. */
  ghost predicate Spreads(ms: Modules, marks: Marks, flags: set<Mod>, m: Mod, d: Mod) {
    && ms.kind(d).ApexModule?
    && ShareApex(VariationsOf(marks, d), VariationsOf(marks, m))
    && (ms.unique(d) || d in flags)
  }

  class UniquePass {
    var flags: set<Mod>  // the modules with UniqueApexVariationsForDeps set

    constructor ()
      ensures flags == {}
    {
      flags := {};
    }

    method UpdateUniqueApexVariationsForDeps(ms: Modules, marks: Marks, m: Mod)
      requires Acyclic(ms.g)
      modifies this
      ensures flags == old(flags) +
        (if exists d :: DependsOn(ms.g, m, d) && Spreads(ms, marks, old(flags), m, d) then {m} else {})
    {
      var deps := ms.g.deps(m);
      for i := 0 to |deps|
        invariant flags == old(flags) +
          (if exists j :: 0 <= j < i && Spreads(ms, marks, old(flags), m, deps[j].child) then {m} else {})
      {
        var dep := deps[i].child;
        assert deps[i] in deps;
        if ms.kind(dep).ApexModule? {
          var same := AnyInSameApex(VariationsOf(marks, dep), VariationsOf(marks, m));
          if same && (ms.unique(dep) || dep in flags) {
            flags := flags + {m};
          }
        }
      }
      if d :| DependsOn(ms.g, m, d) && Spreads(ms, marks, old(flags), m, d) {
        var j :| 0 <= j < |deps| && deps[j].child == d;
      }
      assert forall j :: 0 <= j < |deps| ==> deps[j] in deps && DependsOn(ms.g, m, deps[j].child);
    }

    /** The mutator over all modules; every module comes after its dependencies. */
    method Run(ms: Modules, marks: Marks, order: seq<Mod>)
      requires Acyclic(ms.g) && BottomUp(ms.g, order) && flags == {}
      modifies this
      ensures forall m :: m in flags <==> m in order && Unique(ms, marks, m)
    {
      for i := 0 to |order|
        invariant forall m :: m in flags <==> m in order[..i] && Unique(ms, marks, m)
      {
        var m := order[i];
        assert order[..i + 1] == order[..i] + [m];
        ghost var before := flags;
        forall d | DependsOn(ms.g, m, d) ensures Spreads(ms, marks, before, m, d) <==> Passes(ms, marks, m, d) {
          var j :| 0 <= j < i && order[j] == d;
          assert d in order[..i];
        }
        if ms.enabled(m) && ms.kind(m).ApexModule? {
          UpdateUniqueApexVariationsForDeps(ms, marks, m);
        }
      }
      assert order[..|order|] == order;
    }
  }

  ghost predicate BottomUp(g: Graph, order: seq<Mod>)
    requires Acyclic(g)
  {
    forall i, d :: 0 <= i < |order| && DependsOn(g, order[i], d) ==> exists j :: 0 <= j < i && order[j] == d
  }

  ghost predicate Unique(ms: Modules, marks: Marks, m: Mod)
    requires Acyclic(ms.g)
    decreases ms.g.rank(m), 1
  {
    ms.enabled(m) && ms.kind(m).ApexModule? && exists d :: DependsOn(ms.g, m, d) && Passes(ms, marks, m, d)
  }

  ghost predicate Passes(ms: Modules, marks: Marks, m: Mod, d: Mod)
    requires Acyclic(ms.g) && DependsOn(ms.g, m, d)
    decreases ms.g.rank(m), 0
  {
    && ms.kind(d).ApexModule?
    && ShareApex(VariationsOf(marks, d), VariationsOf(marks, m))
    && (ms.unique(d) || Unique(ms, marks, d))
  }

  // ----- the closed form -----

  /** One link: an enabled ApexModule and an ApexModule that it depends on. */
  ghost predicate Link(ms: Modules, m: Mod, d: Mod)
    requires Acyclic(ms.g)
  {
    ms.enabled(m) && ms.kind(m).ApexModule? && DependsOn(ms.g, m, d) && ms.kind(d).ApexModule?
  }

  /** A chain of one or more links, each in a common APEX, to a module with unique variations. */
  ghost predicate UniqueChain(ms: Modules, marks: Marks, chain: seq<Mod>)
    requires Acyclic(ms.g)
  {
    && |chain| >= 2
    && (forall i :: 0 <= i < |chain| - 1 ==>
         Link(ms, chain[i], chain[i + 1]) && ShareApex(VariationsOf(marks, chain[i + 1]), VariationsOf(marks, chain[i])))
    && ms.unique(chain[|chain| - 1])
  }

  lemma {:induction false} UniqueHasChain(ms: Modules, marks: Marks, m: Mod) returns (chain: seq<Mod>)
    requires Acyclic(ms.g) && Unique(ms, marks, m)
    ensures UniqueChain(ms, marks, chain) && chain[0] == m
    decreases ms.g.rank(m)
  {
    var d :| DependsOn(ms.g, m, d) && Passes(ms, marks, m, d);
    if ms.unique(d) {
      chain := [m, d];
    } else {
      var rest := UniqueHasChain(ms, marks, d);
      chain := [m] + rest;
      assert forall i :: 0 < i < |chain| - 1 ==> chain[i] == rest[i - 1] && chain[i + 1] == rest[i];
    }
  }

  lemma {:induction false} ChainMakesUnique(ms: Modules, marks: Marks, chain: seq<Mod>)
    requires Acyclic(ms.g) && UniqueChain(ms, marks, chain)
    ensures Unique(ms, marks, chain[0])
    decreases |chain|
  {
    assert Link(ms, chain[0], chain[1]);
    if |chain| > 2 {
      var rest := chain[1..];
      assert forall i :: 0 <= i < |rest| ==> rest[i] == chain[i + 1];
      ChainMakesUnique(ms, marks, rest);
    }
    assert Passes(ms, marks, chain[0], chain[1]);
  }

  /**
   * UniqueApexVariationsForDeps ends up set exactly for the modules from which a chain of
   * dependencies, each pair in a common APEX and all but the last enabled, leads to a module
   * with unique variations.
   */
  lemma {:induction false} UniqueExactly(ms: Modules, marks: Marks, m: Mod)
    requires Acyclic(ms.g)
    ensures Unique(ms, marks, m) <==> exists chain :: UniqueChain(ms, marks, chain) && chain[0] == m
  {
    if Unique(ms, marks, m) {
      var chain := UniqueHasChain(ms, marks, m);
    }
    if chain :| UniqueChain(ms, marks, chain) && chain[0] == m {
      ChainMakesUnique(ms, marks, chain);
    }
  }

  // ----- after apex_deps, whatever the order of its visits -----

  lemma {:induction false} ApexesAreNames(infos: seq<ApexInfo>, name: string)
    requires SelfNamed(infos)
    ensures InSomeApex(infos, name) <==> HasName(infos, name)
  {
    assert forall i :: 0 <= i < |infos| ==> (name in infos[i].inApexes <==> infos[i].apexVariationName == name);
  }

  /** Some APEX contains both modules, or two bundles of one name contain one of them each. */
  ghost predicate InCommonApex(ms: Modules, d: Mod, m: Mod) {
    exists a, b :: Contains(ms, a, d) && Contains(ms, b, m) && ms.name(a) == ms.name(b)
  }

  lemma {:induction false} ShareExactly(ms: Modules, once: bool, events: seq<Event>, d: Mod, m: Mod)
    requires Acyclic(ms.g) && AllEvents(ms, once, events)
    ensures var marks := MarkAll(ms, events);
            ShareApex(VariationsOf(marks, d), VariationsOf(marks, m)) <==> InCommonApex(ms, d, m)
  {
    var x, y := VariationsOf(MarkAll(ms, events), d), VariationsOf(MarkAll(ms, events), m);
    MarkedAreRegistered(ms, events, d);
    MarkedAreRegistered(ms, events, m);
    if name :| InSomeApex(x, name) && InSomeApex(y, name) {
      ApexesAreNames(x, name);
      ApexesAreNames(y, name);
      RegisteredExactly(ms, once, events, d, name);
      RegisteredExactly(ms, once, events, m, name);
    }
    if a, b :| Contains(ms, a, d) && Contains(ms, b, m) && ms.name(a) == ms.name(b) {
      var name := ms.name(a);
      ApexesAreNames(x, name);
      ApexesAreNames(y, name);
      RegisteredExactly(ms, once, events, d, name);
      RegisteredExactly(ms, once, events, m, name);
    }
  }

  /** A chain of dependencies in common APEXes, in terms of the dependency graph alone. */
  ghost predicate GraphChain(ms: Modules, chain: seq<Mod>)
    requires Acyclic(ms.g)
  {
    && |chain| >= 2
    && (forall i :: 0 <= i < |chain| - 1 ==>
         Link(ms, chain[i], chain[i + 1]) && InCommonApex(ms, chain[i + 1], chain[i]))
    && ms.unique(chain[|chain| - 1])
  }

  /** After both mutators, what the flag of a module says about the dependency graph. */
  lemma {:induction false} UniqueFromGraph(ms: Modules, once: bool, events: seq<Event>, m: Mod)
    requires Acyclic(ms.g) && AllEvents(ms, once, events)
    ensures Unique(ms, MarkAll(ms, events), m) <==> exists chain :: GraphChain(ms, chain) && chain[0] == m
  {
    var marks := MarkAll(ms, events);
    UniqueExactly(ms, marks, m);
    forall chain ensures UniqueChain(ms, marks, chain) <==> GraphChain(ms, chain) {
      SameChains(ms, once, events, chain);
    }
  }

  lemma {:induction false} SameChains(ms: Modules, once: bool, events: seq<Event>, chain: seq<Mod>)
    requires Acyclic(ms.g) && AllEvents(ms, once, events)
    ensures UniqueChain(ms, MarkAll(ms, events), chain) <==> GraphChain(ms, chain)
  {
    forall i | 0 <= i < |chain| - 1
      ensures ShareApex(VariationsOf(MarkAll(ms, events), chain[i + 1]), VariationsOf(MarkAll(ms, events), chain[i])) <==>
        InCommonApex(ms, chain[i + 1], chain[i])
    {
      ShareExactly(ms, once, events, chain[i + 1], chain[i]);
    }
  }

  /** So the flags do not depend on the order of the visits, even where the records do. */
  lemma {:induction false} UniqueIgnoresVisitOrder(
      ms: Modules, once: bool, events: seq<Event>, once': bool, events': seq<Event>, m: Mod)
    requires Acyclic(ms.g) && AllEvents(ms, once, events) && AllEvents(ms, once', events')
    ensures Unique(ms, MarkAll(ms, events), m) <==> Unique(ms, MarkAll(ms, events'), m)
  {
    UniqueFromGraph(ms, once, events, m);
    UniqueFromGraph(ms, once', events', m);
  }
}
