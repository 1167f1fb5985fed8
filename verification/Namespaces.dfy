// android/namespace.go: the directory-to-namespace cache.  findNamespace searches upward and
// stores its answer for every directory it passes; addNamespace refuses a directory that is
// already in the cache.  Directories are relative paths, given by their components.
module Namespaces {
  import opened Orders
  import opened CleanPaths

  type Dir = seq<string>  // [] is "."

  class Namespace {
    const path: Dir

    constructor (path: Dir)
      ensures this.path == path
    {
      this.path := path;
    }
  }

  /** The path as a string. */
  function PathString(d: Dir): string {
    Render(false, d)
  }

  /** filepath.Dir; the directory above "." is "." itself. */
  function Parent(d: Dir): Dir {
    if d == [] then [] else d[..|d| - 1]
  }

  /** The uncached search: the nearest declared namespace at or above `d`, or null. */
  ghost function Nearest(declared: map<Dir, Namespace>, d: Dir): Namespace? {
    if d in declared then declared[d] else if d == [] then null else Nearest(declared, Parent(d))
  }

  /** The declared directory that is the longest prefix of `d`. */
  ghost predicate IsNearest(declared: map<Dir, Namespace>, d: Dir, p: Dir) {
    p <= d && p in declared && forall n :: n in declared && n <= d ==> n <= p
  }

  /** "Nearest" is a matter of prefixes: the longest declared one, or none. */
  lemma {:induction false} NearestExactly(declared: map<Dir, Namespace>, d: Dir)
    ensures Nearest(declared, d) == null <==> forall p :: p in declared ==> !(p <= d)
    ensures Nearest(declared, d) != null ==> exists p :: IsNearest(declared, d, p) && Nearest(declared, d) == declared[p]
    ensures forall p :: IsNearest(declared, d, p) ==> Nearest(declared, d) == declared[p]
    decreases |d|
  {
    if d in declared {
      assert IsNearest(declared, d, d);
      assert forall p :: IsNearest(declared, d, p) ==> p == d;
    } else if d != [] {
      var up := d[..|d| - 1];
      forall p | p in declared ensures p <= d <==> p <= up {
        PrefixOfParent(d, p);
      }
      NearestExactly(declared, up);
      assert forall p :: IsNearest(declared, d, p) <==> IsNearest(declared, up, p);
    }
  }

  lemma {:induction false} PrefixOfParent(d: Dir, p: Dir)
    requires d != [] && p != d
    ensures p <= d <==> p <= d[..|d| - 1]
  {
    assert |p| == |d| && p <= d ==> p == d;
  }

  /** The strings by which namespaces are sorted. */
  lemma {:induction false} PathStrings(d: Dir, e: string)
    ensures PathString([]) == "." && PathString([e]) == e
    ensures d != [] ==> PathString(d + [e]) == PathString(d) + "/" + e
  {
    if d != [] {
      JoinSlashConcat(d, [e]);
    }
  }

  // ----- the resolver's state and its operations -----

  datatype State = State(cache: map<Dir, Namespace?>, declared: map<Dir, Namespace>, sorted: bool)

  datatype AddOutcome = Added | AlreadyExists | NotFirstInFile | PanicSorted

  ghost predicate Inv(s: State) {
    && [] in s.declared
    && (forall d :: d in s.declared ==> s.declared[d].path == d && d in s.cache)
    && (forall d :: d in s.cache ==> s.cache[d] != null && s.cache[d] == Nearest(s.declared, d))
    && (forall d :: d in s.cache && d !in s.declared ==> Parent(d) in s.cache)
  }

  ghost function AddResult(s: State, ns: Namespace): AddOutcome {
    if ns.path in s.cache then
      if s.cache[ns.path] != null && s.cache[ns.path].path == ns.path then AlreadyExists else NotFirstInFile
    else if s.sorted then PanicSorted
    else Added
  }

  ghost function Add(s: State, ns: Namespace): State {
    if AddResult(s, ns) == Added
    then s.(cache := s.cache[ns.path := ns], declared := s.declared[ns.path := ns])
    else s
  }

  ghost function FindResult(s: State, d: Dir): Namespace? {
    if d in s.cache then s.cache[d] else if d == [] then null else FindResult(s, Parent(d))
  }

  /** Every directory from `d` up to the first cached one is stored. */
  ghost function Find(s: State, d: Dir): State {
    if d in s.cache || d == [] then s
    else
      var above := Find(s, Parent(d));
      above.(cache := above.cache[d := FindResult(s, Parent(d))])
  }

  function ByPath(n: Namespace): string {
    PathString(n.path)
  }

  /** `items` are the declared namespaces. */
  ghost predicate ListsDeclared(items: seq<Namespace>, declared: map<Dir, Namespace>) {
    && (forall n :: n in items ==> n.path in declared && declared[n.path] == n)
    && (forall d :: d in declared ==> declared[d] in items)
  }

  lemma {:induction false} SortKeepsListed(items: seq<Namespace>, declared: map<Dir, Namespace>)
    requires ListsDeclared(items, declared)
    ensures ListsDeclared(SortBy(items, ByPath), declared)
    ensures SortedBy(SortBy(items, ByPath), ByPath)
    ensures multiset(SortBy(items, ByPath)) == multiset(items)
  {
    var r := SortBy(items, ByPath);
    SortBySorts(items, ByPath);
    assert forall n :: n in r <==> n in multiset(r);
    assert forall n :: n in items <==> n in multiset(items);
  }

  class NameResolver {
    var namespacesByDir: map<Dir, Namespace?>
    var items: seq<Namespace>  // sortedNamespaces.items
    var sorted: bool           // sortedNamespaces.sorted
    ghost var declared: map<Dir, Namespace>

    ghost function Abstract(): State
      reads this
    {
      State(namespacesByDir, declared, sorted)
    }

    ghost predicate Valid()
      reads this
    {
      && Inv(Abstract())
      && ListsDeclared(items, declared)
      && (sorted ==> SortedBy(items, ByPath))
    }

    /** NewNameResolver declares the root namespace. */
    constructor ()
      ensures Valid()
      ensures declared.Keys == {[]} && !sorted
    {
      var root := new Namespace([]);
      namespacesByDir, items, sorted := map[[] := root], [root], false;
      declared := map[[] := root];
    }

    method AddNamespace(ns: Namespace) returns (o: AddOutcome)
      requires Valid()
      modifies this
      ensures Valid()
      ensures o == AddResult(old(Abstract()), ns)
      ensures Abstract() == Add(old(Abstract()), ns)
      ensures items == if o == Added then old(items) + [ns] else old(items)
    {
      if ns.path in namespacesByDir {
        var existing := namespacesByDir[ns.path];
        return if existing.path == ns.path then AlreadyExists else NotFirstInFile;
      }
      if sorted {
        return PanicSorted;
      }
      items := items + [ns];
      namespacesByDir := namespacesByDir[ns.path := ns];
      declared := declared[ns.path := ns];
      AddKeepsInv(old(Abstract()), ns);
      return Added;
    }

    /** sortedItems: sorts on the first call, after which AddNamespace panics. */
    method SortedItems() returns (r: seq<Namespace>)
      requires Valid()
      modifies `items, `sorted
      ensures Valid()
      ensures Abstract() == Apply(old(Abstract()), SortOp)
      ensures r == items && multiset(items) == multiset(old(items))
      ensures forall i, j :: 0 <= i < j < |r| ==> !Less(PathString(r[j].path), PathString(r[i].path))
    {
      if !sorted {
        SortKeepsListed(items, declared);
        items := SortBy(items, ByPath);
        sorted := true;
      }
      r := items;
    }

    method FindNamespace(path: Dir) returns (ns: Namespace?)
      requires Valid()
      modifies `namespacesByDir
      ensures Valid()
      ensures Abstract() == Find(old(Abstract()), path)
      ensures ns == FindResult(old(Abstract()), path)
      ensures ns != null && ns == Nearest(declared, path)
      ensures exists p :: IsNearest(declared, path, p) && ns == declared[p]
      decreases |path|
    {
      FindKeepsInv(Abstract(), path);
      FindIsNearest(Abstract(), path);
      if path in namespacesByDir {
        return namespacesByDir[path];
      }
      var parentDir := Parent(path);
      if parentDir == path {
        return null;
      }
      ns := FindNamespace(parentDir);
      namespacesByDir := namespacesByDir[path := ns];
    }
  }

  // ----- findNamespace is the uncached search -----

  lemma {:induction false} FindIsNearest(s: State, d: Dir)
    requires Inv(s)
    ensures FindResult(s, d) == Nearest(s.declared, d) != null
    ensures exists p :: IsNearest(s.declared, d, p) && FindResult(s, d) == s.declared[p]
    decreases |d|
  {
    NearestExactly(s.declared, d);
    if d !in s.cache {
      FindIsNearest(s, Parent(d));
    }
  }

  lemma {:induction false} FindKeepsInv(s: State, d: Dir)
    requires Inv(s)
    ensures Inv(Find(s, d))
    ensures d in Find(s, d).cache
    ensures Find(s, d).declared == s.declared
    decreases |d|
  {
    if d !in s.cache {
      FindKeepsInv(s, Parent(d));
      FindIsNearest(s, Parent(d));
    }
  }

  // ----- why addNamespace's check is enough -----

  /** A new declaration outside the cache changes no cached answer. */
  lemma {:induction false} AddChangesNoCachedAnswer(s: State, ns: Namespace, d: Dir)
    requires Inv(s) && ns.path !in s.cache && d in s.cache
    ensures Nearest(s.declared[ns.path := ns], d) == Nearest(s.declared, d)
    decreases |d|
  {
    if d !in s.declared {
      AddChangesNoCachedAnswer(s, ns, Parent(d));
    }
  }

  lemma {:induction false} AddKeepsInv(s: State, ns: Namespace)
    requires Inv(s)
    ensures Inv(Add(s, ns))
  {
    if AddResult(s, ns) == Added {
      forall d | d in s.cache ensures Nearest(s.declared[ns.path := ns], d) == Nearest(s.declared, d) {
        AddChangesNoCachedAnswer(s, ns, d);
      }
    }
  }

  // ----- every run -----

  datatype Op = AddOp(ns: Namespace) | FindOp(dir: Dir) | SortOp

  ghost function Apply(s: State, op: Op): State {
    match op
    case AddOp(ns) => Add(s, ns)
    case FindOp(d) => Find(s, d)
    case SortOp => s.(sorted := true)
  }

  ghost predicate IsRun(states: seq<State>, ops: seq<Op>) {
    && |states| == |ops| + 1
    && Inv(states[0])
    && states[0].cache.Keys == {[]} && !states[0].sorted
    && forall i :: 0 <= i < |ops| ==> states[i + 1] == Apply(states[i], ops[i])
  }

  lemma {:induction false} RunInvariant(states: seq<State>, ops: seq<Op>, i: nat)
    requires IsRun(states, ops) && i < |states|
    ensures Inv(states[i])
  {
    if i > 0 {
      var s := states[i - 1];
      RunInvariant(states, ops, i - 1);
      match ops[i - 1]
      case AddOp(ns) => AddKeepsInv(s, ns);
      case FindOp(d) => FindKeepsInv(s, d);
      case SortOp =>
    }
  }

  lemma {:induction false} FindKeepsCache(s: State, e: Dir, d: Dir)
    requires d in s.cache
    ensures d in Find(s, e).cache && Find(s, e).cache[d] == s.cache[d]
    decreases |e|
  {
    if e !in s.cache && e != [] {
      FindKeepsCache(s, Parent(e), d);
    }
  }

  lemma {:induction false} CacheGrows(states: seq<State>, ops: seq<Op>, i: nat, j: nat, d: Dir)
    requires IsRun(states, ops) && i <= j < |states|
    requires d in states[i].cache
    ensures d in states[j].cache && states[j].cache[d] == states[i].cache[d]
    decreases j
  {
    if i < j {
      CacheGrows(states, ops, i, j - 1, d);
      if ops[j - 1].FindOp? {
        FindKeepsCache(states[j - 1], ops[j - 1].dir, d);
      }
    }
  }

  /** An answer once given for a directory is the right answer at every later time. */
  lemma {:induction false} AnswersNeverChange(states: seq<State>, ops: seq<Op>, i: nat, j: nat)
    requires IsRun(states, ops) && i < |ops| && ops[i].FindOp? && i < j < |states|
    ensures FindResult(states[j], ops[i].dir) == FindResult(states[i], ops[i].dir)
    ensures Nearest(states[j].declared, ops[i].dir) == Nearest(states[i].declared, ops[i].dir)
  {
    var d := ops[i].dir;
    RunInvariant(states, ops, i);
    RunInvariant(states, ops, j);
    FindKeepsInv(states[i], d);
    FindIsNearest(states[i], d);
    FindIsNearest(states[j], d);
    CacheGrows(states, ops, i + 1, j, d);
    RunInvariant(states, ops, i + 1);
  }

  // ----- addNamespace refuses no more than it must -----

  /** The search that starts at `q` passes `d`. */
  ghost predicate Passes(declared: map<Dir, Namespace>, q: Dir, d: Dir) {
    q == d || (q !in declared && q != [] && Passes(declared, Parent(q), d))
  }

  ghost predicate Asked(ops: seq<Op>, i: nat, q: Dir)
    requires i <= |ops|
  {
    exists j :: 0 <= j < i && ops[j] == FindOp(q)
  }

  /** Declaring a passed directory would change the answer. */
  lemma {:induction false} PassedWouldChange(declared: map<Dir, Namespace>, q: Dir, ns: Namespace)
    requires Passes(declared, q, ns.path) && ns.path !in declared
    requires forall d :: d in declared ==> declared[d].path == d
    ensures Nearest(declared[ns.path := ns], q) == ns
    ensures Nearest(declared, q) != ns
    decreases |q|
  {
    if q != ns.path {
      PassedWouldChange(declared, Parent(q), ns);
    } else {
      NearestIsDeclared(declared, q);
    }
  }

  lemma {:induction false} NearestIsDeclared(declared: map<Dir, Namespace>, d: Dir)
    requires forall d :: d in declared ==> declared[d].path == d
    ensures Nearest(declared, d) != null ==> Nearest(declared, d).path in declared
    decreases |d|
  {
    if d !in declared && d != [] {
      NearestIsDeclared(declared, Parent(d));
    }
  }

  lemma {:induction false} PassesStays(s: State, ns: Namespace, q: Dir, d: Dir)
    requires Inv(s) && ns.path !in s.cache && q in s.cache
    requires Passes(s.declared, q, d)
    ensures Passes(s.declared[ns.path := ns], q, d)
    decreases |q|
  {
    if q != d {
      PassesStays(s, ns, Parent(q), d);
    }
  }

  lemma {:induction false} FindStoresPassed(s: State, q: Dir, d: Dir)
    requires Inv(s) && d in Find(s, q).cache && d !in s.cache
    ensures Passes(s.declared, q, d)
    decreases |q|
  {
    if q != d {
      FindStoresPassed(s, Parent(q), d);
    }
  }

  lemma {:induction false} AskedIsCached(states: seq<State>, ops: seq<Op>, i: nat, q: Dir)
    requires IsRun(states, ops) && i < |states| && Asked(ops, i, q)
    ensures q in states[i].cache
  {
    var j :| 0 <= j < i && ops[j] == FindOp(q);
    RunInvariant(states, ops, j);
    FindKeepsInv(states[j], q);
    CacheGrows(states, ops, j + 1, i, q);
  }

  lemma {:induction false} OpKeepsPasses(s: State, op: Op, q: Dir, d: Dir)
    requires Inv(s) && q in s.cache && Passes(s.declared, q, d)
    ensures Passes(Apply(s, op).declared, q, d)
  {
    match op
    case AddOp(ns) =>
      if ns.path !in s.cache {
        PassesStays(s, ns, q, d);
      }
    case FindOp(e) => FindKeepsInv(s, e);
    case SortOp =>
  }

  /** A directory that is new in the cache and not declared was passed by a search. */
  lemma {:induction false} NewlyCachedWasPassed(s: State, op: Op, d: Dir)
    requires Inv(s) && d !in s.cache
    requires d in Apply(s, op).cache && d !in Apply(s, op).declared
    ensures op.FindOp? && Passes(s.declared, op.dir, d)
  {
    if op.FindOp? {
      FindStoresPassed(s, op.dir, d);
    }
  }

  lemma {:induction false} DeclaredGrows(s: State, op: Op)
    requires Inv(s)
    ensures s.declared.Keys <= Apply(s, op).declared.Keys
  {
    if op.FindOp? {
      FindKeepsInv(s, op.dir);
    }
  }

  /** Every cached directory that was not declared was passed by a search for some answer given. */
  lemma {:induction false} CachedWasPassed(states: seq<State>, ops: seq<Op>, i: nat, d: Dir) returns (q: Dir)
    requires IsRun(states, ops) && i < |states|
    requires d in states[i].cache && d !in states[i].declared
    ensures Asked(ops, i, q) && Passes(states[i].declared, q, d)
  {
    assert i > 0;
    var s, op := states[i - 1], ops[i - 1];
    RunInvariant(states, ops, i - 1);
    DeclaredGrows(s, op);
    if d !in s.cache {
      NewlyCachedWasPassed(s, op, d);
      q := op.dir;
      assert ops[i - 1] == FindOp(q);
      AskedIsCached(states, ops, i, q);
      FindKeepsInv(s, q);
    } else {
      q := CachedWasPassed(states, ops, i - 1, d);
      AskedIsCached(states, ops, i - 1, q);
      OpKeepsPasses(s, op, q, d);
      var j :| 0 <= j < i - 1 && ops[j] == FindOp(q);
    }
  }

  /** Accepting `ns` changes none of the answers given so far. */
  ghost predicate ChangesNoAnswer(s: State, ops: seq<Op>, i: nat, ns: Namespace)
    requires i <= |ops|
  {
    forall q :: Asked(ops, i, q) ==> Nearest(s.declared[ns.path := ns], q) == Nearest(s.declared, q)
  }

  /**
   * The cache lookup decides exactly what it should: addNamespace accepts a namespace if its
   * directory has none yet and no answer already given would change, unless the list was sorted.
   */
  lemma {:induction false} AddAcceptsExactly(states: seq<State>, ops: seq<Op>, i: nat, ns: Namespace)
    requires IsRun(states, ops) && i < |states|
    ensures AddResult(states[i], ns) ==
      if ns.path in states[i].declared then AlreadyExists
      else if !ChangesNoAnswer(states[i], ops, i, ns) then NotFirstInFile
      else if states[i].sorted then PanicSorted
      else Added
    ensures states[i].sorted <==> exists j :: 0 <= j < i && ops[j].SortOp?
  {
    var s := states[i];
    RunInvariant(states, ops, i);
    SortedExactly(states, ops, i);
    NearestIsDeclared(s.declared, ns.path);
    if ns.path !in s.cache {
      forall q | Asked(ops, i, q) ensures Nearest(s.declared[ns.path := ns], q) == Nearest(s.declared, q) {
        AskedIsCached(states, ops, i, q);
        AddChangesNoCachedAnswer(s, ns, q);
      }
    } else if ns.path !in s.declared {
      var q := CachedWasPassed(states, ops, i, ns.path);
      PassedWouldChange(s.declared, q, ns);
    }
  }

  lemma {:induction false} SortedExactly(states: seq<State>, ops: seq<Op>, i: nat)
    requires IsRun(states, ops) && i < |states|
    ensures states[i].sorted <==> states[0].sorted || exists j :: 0 <= j < i && ops[j].SortOp?
  {
    if i > 0 {
      SortedExactly(states, ops, i - 1);
      FindKeepsSorted(states[i - 1], if ops[i - 1].FindOp? then ops[i - 1].dir else []);
      assert ops[i - 1].SortOp? ==> exists j :: 0 <= j < i && ops[j].SortOp?;
    }
  }

  lemma {:induction false} FindKeepsSorted(s: State, d: Dir)
    ensures Find(s, d).sorted == s.sorted
    decreases |d|
  {
    if d !in s.cache && d != [] {
      FindKeepsSorted(s, Parent(d));
    }
  }
}
