// android/module.go: WalkDeps rebuilds the path from the start module to the visited child from
// nothing but the stream of (child, parent) visits that Blueprint makes.
module DepWalk {
  import opened Wrappers

  type Mod = nat  // a module variant
  type Tag = nat  // a dependency tag

  datatype Edge = Edge(child: Mod, tag: Tag)

  /** The dependency graph; `android` tells the modules that are android.Module. */
  datatype Graph = Graph(deps: Mod -> seq<Edge>, rank: Mod -> nat, android: Mod -> bool)

  /** Blueprint rejects dependency cycles: a module has a higher rank than what it depends on. */
  ghost predicate Acyclic(g: Graph) {
    forall m, e :: e in g.deps(m) ==> g.rank(e.child) < g.rank(m)
  }

  datatype Visit = Visit(parent: Mod, child: Mod, tag: Tag)

  // ----- Blueprint's walk -----

  /** The visits made so far and the modules whose dependencies have all been walked. */
  datatype Walk = Walk(visited: set<Mod>, log: seq<Visit>)

  /**
   * The visitor Blueprint calls.  `decide` is the answer of the function given to WalkDeps, which
   * may depend on everything it has seen; a visit of a module that is not an android.Module is
   * answered without asking it.
   */
  predicate Recurse(g: Graph, log: seq<Visit>, decide: seq<Visit> -> bool)
    requires log != []
  {
    var v := log[|log| - 1];
    g.android(v.child) && g.android(v.parent) && decide(log)
  }

  /**
   * The depth-first edge walk over the dependencies of `m` from the i-th on: every edge of a
   * walked module is visited; a child whose visit is answered with true is walked in turn, but if
   * `once` is set only the first time.
   */
  ghost function WalkFrom(g: Graph, m: Mod, i: nat, w: Walk, decide: seq<Visit> -> bool, once: bool): Walk
    requires Acyclic(g) && i <= |g.deps(m)|
    decreases g.rank(m), |g.deps(m)| - i
  {
    if i == |g.deps(m)| then w
    else
      var e := g.deps(m)[i];
      var seen := w.(log := w.log + [Visit(m, e.child, e.tag)]);
      WalkFrom(g, m, i + 1, WalkInto(g, e.child, seen, decide, once, g.rank(m)), decide, once)
  }

  ghost function WalkInto(
      g: Graph, c: Mod, w: Walk, decide: seq<Visit> -> bool, once: bool, bound: nat): Walk
    requires Acyclic(g) && g.rank(c) < bound && w.log != []
    decreases bound, 0
  {
    if Recurse(g, w.log, decide) && !(once && c in w.visited) then
      var below := WalkFrom(g, c, 0, w, decide, once);
      below.(visited := below.visited + {c})
    else w
  }

  // ----- the path that WalkDeps keeps -----

  datatype Paths = Paths(walk: seq<Mod>, tags: seq<Tag>)

  /** The loop that pops until the parent is last; None is the panic of an empty slice. */
  function PopTo(p: Paths, parent: Mod): Option<Paths>
    decreases |p.walk|
  {
    if p.walk == [] then None
    else if p.walk[|p.walk| - 1] == parent then Some(p)
    else if p.tags == [] then None
    else PopTo(Paths(p.walk[..|p.walk| - 1], p.tags[..|p.tags| - 1]), parent)
  }

  function Track(g: Graph, p: Paths, v: Visit): Option<Paths> {
    if g.android(v.child) && g.android(v.parent) then
      match PopTo(p, v.parent)
      case None => None
      case Some(q) => Some(Paths(q.walk + [v.child], q.tags + [v.tag]))
    else Some(p)
  }

  function TrackAll(g: Graph, start: Mod, log: seq<Visit>): Option<Paths> {
    if log == [] then Some(Paths([start], []))
    else
      match TrackAll(g, start, log[..|log| - 1])
      case None => None
      case Some(p) => Track(g, p, log[|log| - 1])
  }

  /** The fields of baseModuleContext and the closure that WalkDeps hands to Blueprint. */
  class WalkContext {
    var walkPath: seq<Mod>
    var tagPath: seq<Tag>

    constructor (start: Mod)
      ensures walkPath == [start] && tagPath == []
    {
      walkPath, tagPath := [start], [];
    }

    method Visit(g: Graph, v: Visit)
      requires Track(g, Paths(walkPath, tagPath), v).Some?
      modifies this
      ensures Some(Paths(walkPath, tagPath)) == Track(g, old(Paths(walkPath, tagPath)), v)
    {
      if g.android(v.child) && g.android(v.parent) {
        ghost var target := PopTo(Paths(walkPath, tagPath), v.parent);
        while walkPath[|walkPath| - 1] != v.parent
          invariant walkPath != []
          invariant PopTo(Paths(walkPath, tagPath), v.parent) == target
          decreases |walkPath|
        {
          walkPath := walkPath[..|walkPath| - 1];
          tagPath := tagPath[..|tagPath| - 1];
        }
        walkPath := walkPath + [v.child];
        tagPath := tagPath + [v.tag];
      }
    }
  }

  /** A dependency path: each tag belongs to the edge between its two modules. */
  ghost predicate IsDepPath(g: Graph, p: Paths) {
    && |p.walk| == |p.tags| + 1
    && forall i :: 0 <= i < |p.tags| ==> Edge(p.walk[i + 1], p.tags[i]) in g.deps(p.walk[i])
  }

  /** What GetWalkPath and GetTagPath promise to the function that is visiting `v`. */
  ghost predicate GoodPath(g: Graph, start: Mod, p: Paths, v: Visit) {
    && IsDepPath(g, p)
    && |p.walk| >= 2
    && p.walk[0] == start
    && p.walk[|p.walk| - 2] == v.parent
    && p.walk[|p.walk| - 1] == v.child
    && p.tags[|p.tags| - 1] == v.tag
  }

  /** The visit that completes `log` is a good one. */
  ghost predicate GoodVisit(g: Graph, start: Mod, log: seq<Visit>)
    requires log != []
  {
    var v := log[|log| - 1];
    g.android(v.child) && g.android(v.parent) ==>
      TrackAll(g, start, log).Some? && GoodPath(g, start, TrackAll(g, start, log).value, v)
  }

  ghost predicate GoodSoFar(g: Graph, start: Mod, log: seq<Visit>) {
    forall k :: 0 < k <= |log| ==> GoodVisit(g, start, log[..k])
  }

  /** The kept path is the path to `m`, followed by leftovers from below `m`. */
  ghost predicate OnTopOf(g: Graph, q: Paths, p: Paths, m: Mod) {
    && |q.walk| == |q.tags| + 1
    && p.walk <= q.walk && p.tags <= q.tags
    && forall i :: |p.walk| <= i < |q.walk| ==> g.rank(q.walk[i]) < g.rank(m)
  }

  ghost predicate PathTo(g: Graph, start: Mod, p: Paths, m: Mod) {
    IsDepPath(g, p) && p.walk[0] == start && p.walk[|p.walk| - 1] == m
  }

  /** Popping to `m` removes exactly the leftovers: in an acyclic graph m is not among them. */
  lemma {:induction false} PopRemovesLeftovers(g: Graph, q: Paths, p: Paths, m: Mod)
    requires OnTopOf(g, q, p, m) && |p.walk| == |p.tags| + 1 && p.walk[|p.walk| - 1] == m
    ensures PopTo(q, m) == Some(p)
    decreases |q.walk|
  {
    if |q.walk| == |p.walk| {
      assert q == p;
    } else {
      PopRemovesLeftovers(g, Paths(q.walk[..|q.walk| - 1], q.tags[..|q.tags| - 1]), p, m);
    }
  }

  lemma {:induction false} TrackedVisit(g: Graph, start: Mod, log: seq<Visit>, q: Paths, p: Paths, v: Visit)
    requires TrackAll(g, start, log) == Some(q)
    requires PathTo(g, start, p, v.parent) && OnTopOf(g, q, p, v.parent)
    ensures TrackAll(g, start, log + [v]) == Some(
      if g.android(v.child) && g.android(v.parent) then Paths(p.walk + [v.child], p.tags + [v.tag]) else q)
  {
    assert (log + [v])[..|log|] == log;
    PopRemovesLeftovers(g, q, p, v.parent);
  }

  lemma {:induction false} VisitIsGood(g: Graph, start: Mod, log: seq<Visit>, q: Paths, p: Paths, v: Visit)
    requires GoodSoFar(g, start, log) && TrackAll(g, start, log) == Some(q)
    requires PathTo(g, start, p, v.parent) && OnTopOf(g, q, p, v.parent)
    requires Edge(v.child, v.tag) in g.deps(v.parent)
    ensures GoodSoFar(g, start, log + [v])
  {
    var log' := log + [v];
    TrackedVisit(g, start, log, q, p, v);
    assert GoodVisit(g, start, log');
    forall k | 0 < k <= |log'| ensures GoodVisit(g, start, log'[..k]) {
      if k <= |log| {
        assert log'[..k] == log[..k];
      } else {
        assert log'[..k] == log';
      }
    }
  }

  /** Walking the dependencies of m keeps the path to m at the bottom, and every visit is good. */
  lemma {:induction false} WalkFromIsGood(
      g: Graph, start: Mod, m: Mod, i: nat, w: Walk, decide: seq<Visit> -> bool, once: bool, q: Paths, p: Paths)
      returns (q': Paths)
    requires Acyclic(g) && i <= |g.deps(m)|
    requires GoodSoFar(g, start, w.log) && TrackAll(g, start, w.log) == Some(q)
    requires PathTo(g, start, p, m) && OnTopOf(g, q, p, m)
    ensures GoodSoFar(g, start, WalkFrom(g, m, i, w, decide, once).log)
    ensures TrackAll(g, start, WalkFrom(g, m, i, w, decide, once).log) == Some(q')
    ensures OnTopOf(g, q', p, m)
    decreases g.rank(m), |g.deps(m)| - i
  {
    if i == |g.deps(m)| {
      q' := q;
    } else {
      var e := g.deps(m)[i];
      var v := Visit(m, e.child, e.tag);
      var seen := w.(log := w.log + [v]);
      VisitIsGood(g, start, w.log, q, p, v);
      TrackedVisit(g, start, w.log, q, p, v);
      var r := q;
      if g.android(e.child) && g.android(m) {
        r := Paths(p.walk + [e.child], p.tags + [e.tag]);
      }
      if Recurse(g, seen.log, decide) && !(once && e.child in seen.visited) {
        ExtendedPath(g, start, p, m, e);
        var s := WalkFromIsGood(g, start, e.child, 0, seen, decide, once, r, r);
        LeftoversStayBelow(g, s, r, p, m, e.child);
        r := s;
      }
      q' := WalkFromIsGood(g, start, m, i + 1, WalkInto(g, e.child, seen, decide, once, g.rank(m)), decide, once, r, p);
    }
  }

  lemma {:induction false} ExtendedPath(g: Graph, start: Mod, p: Paths, m: Mod, e: Edge)
    requires PathTo(g, start, p, m) && e in g.deps(m)
    ensures PathTo(g, start, Paths(p.walk + [e.child], p.tags + [e.tag]), e.child)
  {
    assert Edge(e.child, e.tag) == e;
  }

  lemma {:induction false} LeftoversStayBelow(g: Graph, s: Paths, r: Paths, p: Paths, m: Mod, c: Mod)
    requires OnTopOf(g, s, r, c) && OnTopOf(g, r, p, m)
    requires g.rank(c) < g.rank(m)
    ensures OnTopOf(g, s, p, m)
  {
    assert forall i :: |p.walk| <= i < |r.walk| ==> s.walk[i] == r.walk[i];
  }

  /**
   * For every acyclic graph, every visiting function and every visit: the pop loop never empties
   * the path, and GetWalkPath and GetTagPath are the promised path from the start module.
   */
  lemma {:induction false} WalkDepsTracksPath(
      g: Graph, start: Mod, decide: seq<Visit> -> bool, once: bool, k: nat)
    requires Acyclic(g)
    requires k < |WalkFrom(g, start, 0, Walk({}, []), decide, once).log|
    ensures var log := WalkFrom(g, start, 0, Walk({}, []), decide, once).log;
            && TrackAll(g, start, log[..k]).Some?
            && TrackAll(g, start, log[..k + 1]).Some?
            && (g.android(log[k].child) && g.android(log[k].parent) ==>
              GoodPath(g, start, TrackAll(g, start, log[..k + 1]).value, log[k]))
  {
    var log := WalkFrom(g, start, 0, Walk({}, []), decide, once).log;
    var p := Paths([start], []);
    var q := WalkFromIsGood(g, start, start, 0, Walk({}, []), decide, once, p, p);
    assert log[..|log|] == log;
    TrackedPrefix(g, start, log, k + 1);
    assert log[..k + 1][..k] == log[..k];
    assert GoodVisit(g, start, log[..k + 1]);
  }

  lemma {:induction false} TrackedPrefix(g: Graph, start: Mod, log: seq<Visit>, k: nat)
    requires k <= |log| && TrackAll(g, start, log).Some?
    ensures TrackAll(g, start, log[..k]).Some?
  {
    if k == |log| {
      assert log[..k] == log;
    } else {
      TrackedPrefix(g, start, log[..|log| - 1], k);
      assert log[..|log| - 1][..k] == log[..k];
    }
  }

  /** WalkDeps on the visits of a whole walk: what the visiting function sees each time. */
  method WalkDeps(
      g: Graph, start: Mod, log: seq<Visit>, ghost decide: seq<Visit> -> bool, ghost once: bool)
      returns (seen: seq<Paths>)
    requires Acyclic(g) && log == WalkFrom(g, start, 0, Walk({}, []), decide, once).log
    ensures |seen| == |log|
    ensures forall k :: 0 <= k < |log| && g.android(log[k].child) && g.android(log[k].parent) ==>
      GoodPath(g, start, seen[k], log[k])
  {
    var context := new WalkContext(start);
    seen := [];
    for k := 0 to |log|
      invariant |seen| == k
      invariant Some(Paths(context.walkPath, context.tagPath)) == TrackAll(g, start, log[..k])
      invariant forall j :: 0 <= j < k && g.android(log[j].child) && g.android(log[j].parent) ==>
        GoodPath(g, start, seen[j], log[j])
    {
      WalkDepsTracksPath(g, start, decide, once, k);
      assert log[..k + 1][..k] == log[..k];
      context.Visit(g, log[k]);
      seen := seen + [Paths(context.walkPath, context.tagPath)];
    }
  }

  // ----- which visits a walk makes -----

  /** A visiting function that decides by the visit alone. */
  function DecideBy(admit: Visit -> bool): seq<Visit> -> bool {
    (log: seq<Visit>) => log != [] && admit(log[|log| - 1])
  }

  predicate Taken(g: Graph, admit: Visit -> bool, v: Visit) {
    g.android(v.child) && g.android(v.parent) && admit(v)
  }

  ghost predicate IsVisitable(g: Graph, v: Visit) {
    Edge(v.child, v.tag) in g.deps(v.parent)
  }

  /** A chain of admitted visits that leads from `start` to `m`. */
  ghost predicate Chain(g: Graph, admit: Visit -> bool, start: Mod, path: seq<Visit>, m: Mod) {
    if path == [] then m == start
    else
      var v := path[|path| - 1];
      v.child == m && IsVisitable(g, v) && Taken(g, admit, v) && Chain(g, admit, start, path[..|path| - 1], v.parent)
  }

  ghost predicate Reached(g: Graph, admit: Visit -> bool, start: Mod, m: Mod) {
    exists path :: Chain(g, admit, start, path, m)
  }

  lemma {:induction false} ReachedStep(g: Graph, admit: Visit -> bool, start: Mod, v: Visit)
    requires Reached(g, admit, start, v.parent) && IsVisitable(g, v) && Taken(g, admit, v)
    ensures Reached(g, admit, start, v.child)
  {
    var path :| Chain(g, admit, start, path, v.parent);
    assert (path + [v])[..|path|] == path;
    assert Chain(g, admit, start, path + [v], v.child);
  }

  ghost predicate OnlyReached(g: Graph, admit: Visit -> bool, start: Mod, log: seq<Visit>) {
    forall v :: v in log ==> IsVisitable(g, v) && Reached(g, admit, start, v.parent)
  }

  /** The visited modules have all their edges visited, and their admitted children visited. */
  ghost predicate Closed(g: Graph, admit: Visit -> bool, w: Walk) {
    forall m, e :: m in w.visited && e in g.deps(m) ==> EdgeDone(g, admit, w, m, e)
  }

  ghost predicate EdgeDone(g: Graph, admit: Visit -> bool, w: Walk, m: Mod, e: Edge) {
    var v := Visit(m, e.child, e.tag);
    v in w.log && (Taken(g, admit, v) ==> e.child in w.visited)
  }

  ghost predicate Grows(w: Walk, w': Walk) {
    w.visited <= w'.visited && forall v :: v in w.log ==> v in w'.log
  }

  ghost predicate Sound(g: Graph, admit: Visit -> bool, start: Mod, w: Walk) {
    OnlyReached(g, admit, start, w.log) && Closed(g, admit, w)
  }

  lemma {:induction false} WalkFromVisits(
      g: Graph, admit: Visit -> bool, start: Mod, m: Mod, i: nat, w: Walk, once: bool)
    requires Acyclic(g) && i <= |g.deps(m)|
    requires Reached(g, admit, start, m) && Sound(g, admit, start, w)
    ensures var w' := WalkFrom(g, m, i, w, DecideBy(admit), once);
            && Grows(w, w') && Sound(g, admit, start, w')
            && forall j :: i <= j < |g.deps(m)| ==> EdgeDone(g, admit, w', m, g.deps(m)[j])
    decreases g.rank(m), |g.deps(m)| - i
  {
    if i < |g.deps(m)| {
      var e := g.deps(m)[i];
      var seen := w.(log := w.log + [Visit(m, e.child, e.tag)]);
      var next := WalkInto(g, e.child, seen, DecideBy(admit), once, g.rank(m));
      VisitKeepsSound(g, admit, start, m, e, w);
      WalkIntoVisits(g, admit, start, m, e, seen, once);
      WalkFromVisits(g, admit, start, m, i + 1, next, once);
    }
  }

  lemma {:induction false} VisitKeepsSound(g: Graph, admit: Visit -> bool, start: Mod, m: Mod, e: Edge, w: Walk)
    requires Reached(g, admit, start, m) && Sound(g, admit, start, w) && e in g.deps(m)
    ensures Sound(g, admit, start, w.(log := w.log + [Visit(m, e.child, e.tag)]))
  {
    var v := Visit(m, e.child, e.tag);
    var seen := w.(log := w.log + [v]);
    assert Edge(v.child, v.tag) == e;
    forall x, f | x in w.visited && f in g.deps(x) ensures EdgeDone(g, admit, seen, x, f) {
      assert EdgeDone(g, admit, w, x, f);
    }
  }

  lemma {:induction false} WalkIntoVisits(
      g: Graph, admit: Visit -> bool, start: Mod, m: Mod, e: Edge, w: Walk, once: bool)
    requires Acyclic(g) && Reached(g, admit, start, m) && Sound(g, admit, start, w) && e in g.deps(m)
    requires w.log != [] && w.log[|w.log| - 1] == Visit(m, e.child, e.tag)
    ensures var w' := WalkInto(g, e.child, w, DecideBy(admit), once, g.rank(m));
            Grows(w, w') && Sound(g, admit, start, w') && EdgeDone(g, admit, w', m, e)
    decreases g.rank(m), 0
  {
    var v := Visit(m, e.child, e.tag);
    assert Recurse(g, w.log, DecideBy(admit)) <==> Taken(g, admit, v);
    if Taken(g, admit, v) && !(once && e.child in w.visited) {
      assert Edge(v.child, v.tag) == e;
      ReachedStep(g, admit, start, v);
      WalkFromVisits(g, admit, start, e.child, 0, w, once);
      FinishKeepsSound(g, admit, start, e.child, WalkFrom(g, e.child, 0, w, DecideBy(admit), once));
    }
  }

  lemma {:induction false} FinishKeepsSound(g: Graph, admit: Visit -> bool, start: Mod, c: Mod, w: Walk)
    requires Sound(g, admit, start, w)
    requires forall j :: 0 <= j < |g.deps(c)| ==> EdgeDone(g, admit, w, c, g.deps(c)[j])
    ensures Sound(g, admit, start, w.(visited := w.visited + {c}))
  {
    var w' := w.(visited := w.visited + {c});
    forall x, f | x in w'.visited && f in g.deps(x) ensures EdgeDone(g, admit, w', x, f) {
      assert EdgeDone(g, admit, w, x, f);
    }
  }

  lemma {:induction false} ReachedIsDone(
      g: Graph, admit: Visit -> bool, start: Mod, w: Walk, path: seq<Visit>, m: Mod, e: Edge)
    requires Closed(g, admit, w)
    requires forall f :: f in g.deps(start) ==> EdgeDone(g, admit, w, start, f)
    requires Chain(g, admit, start, path, m) && e in g.deps(m)
    ensures EdgeDone(g, admit, w, m, e)
    decreases |path|
  {
    if path != [] {
      var v := path[|path| - 1];
      ReachedIsDone(g, admit, start, w, path[..|path| - 1], v.parent, Edge(v.child, v.tag));
    }
  }

  /** A walk visits exactly the edges whose parent is reached by admitted visits. */
  lemma {:induction false} WalkVisitsReached(g: Graph, admit: Visit -> bool, start: Mod, once: bool, v: Visit)
    requires Acyclic(g)
    ensures v in WalkFrom(g, start, 0, Walk({}, []), DecideBy(admit), once).log <==>
      IsVisitable(g, v) && Reached(g, admit, start, v.parent)
  {
    var w := WalkFrom(g, start, 0, Walk({}, []), DecideBy(admit), once);
    assert Chain(g, admit, start, [], start);
    WalkFromVisits(g, admit, start, start, 0, Walk({}, []), once);
    assert forall f :: f in g.deps(start) ==> EdgeDone(g, admit, w, start, f);
    if IsVisitable(g, v) && Reached(g, admit, start, v.parent) {
      var path :| Chain(g, admit, start, path, v.parent);
      ReachedIsDone(g, admit, start, w, path, v.parent, Edge(v.child, v.tag));
    }
  }
}
