// android/depset.go: a DAG of immutable nodes, flattened by a depth-first walk that enters
// every node once.  The walk is compared with the naive unfolding, which lists a shared node
// once for every path that leads to it.
module DepSets {
  import opened Lists
  import opened Wrappers

  datatype Order = PREORDER | POSTORDER | TOPOLOGICAL

  /**
   * A node.  `direct` and `transitive` are the stored lists, which TOPOLOGICAL nodes hold
   * reversed.  The rank is the number of construction steps below the node: children exist
   * before their parents, so the graph has no cycles.
   */
  class DepSet<T(==,!new)> {
    const order: Order
    const direct: seq<T>
    const transitive: seq<DepSet<T>>
    ghost const rank: nat

    constructor (order: Order, direct: seq<T>, transitive: seq<DepSet<T>>)
      requires forall c :: c in transitive ==> c.Valid() && c.order == order
      ensures Valid()
      ensures this.order == order
      ensures Contents() == direct
      ensures Children() == transitive
    {
      this.order := order;
      if order == TOPOLOGICAL {
        var directCopy := ReversedCopy(direct);
        var transitiveCopy := ReversedCopy(transitive);
        ReverseTwice(direct);
        ReverseTwice(transitive);
        this.direct := directCopy;
        this.transitive := transitiveCopy;
      } else {
        this.direct := direct;
        this.transitive := transitive;
      }
      this.rank := RankAbove(transitive);
    }

    /** All nodes below share this node's order and were built before it. */
    ghost predicate Valid()
      decreases rank
    {
      forall c :: c in transitive ==> c.rank < rank && c.order == order && c.Valid()
    }

    /** The direct elements in the order in which they were given. */
    function Contents(): seq<T> {
      if order == TOPOLOGICAL then Reverse(direct) else direct
    }

    /** The dependencies in the order in which they were given. */
    function Children(): seq<DepSet<T>> {
      if order == TOPOLOGICAL then Reverse(transitive) else transitive
    }

    /** ToList: walk, drop later copies in place, reverse in place if TOPOLOGICAL. */
    method ToList() returns (r: seq<T>)
      requires Valid()
      ensures order == PREORDER ==> r == FirstUnique(Preorder(this))
      ensures order == POSTORDER ==> r == FirstUnique(Postorder(this))
      ensures order == TOPOLOGICAL ==> r == LastUnique(Preorder(this))
    {
      var walker := new Walker<T>();
      walker.Walk(this);
      var list := new T[|walker.list|](i requires 0 <= i < |walker.list| reads walker => walker.list[i]);
      assert list[..] == walker.list;
      var k := FirstUniqueInPlace(list);
      if order == TOPOLOGICAL {
        ReverseInPlace(list, k);
      }
      r := list[..k];
      UnfoldIsListing(this);
      if order == TOPOLOGICAL {
        LastUniqueMirrorsFirstUnique(Preorder(this));
      }
    }
  }

  ghost function RankAbove<T(!new)>(ds: seq<DepSet<T>>): (n: nat)
    ensures forall c :: c in ds ==> c.rank < n
  {
    if ds == [] then 0
    else
      var n := RankAbove(ds[1..]);
      if ds[0].rank < n then n else ds[0].rank + 1
  }

  /** NewDepSet panics (None) exactly when a dependency has another order. */
  method NewDepSet<T(==,!new)>(order: Order, direct: seq<T>, transitive: seq<DepSet<T>>)
      returns (r: Option<DepSet<T>>)
    requires forall c :: c in transitive ==> c.Valid()
    ensures r.None? <==> exists c :: c in transitive && c.order != order
    ensures r.Some? ==> r.value.Valid() && r.value.order == order
    ensures r.Some? ==> r.value.Contents() == direct && r.value.Children() == transitive
  {
    for i := 0 to |transitive|
      invariant forall j :: 0 <= j < i ==> transitive[j].order == order
    {
      if transitive[i].order != order {
        return None;
      }
    }
    var d := new DepSet(order, direct, transitive);
    r := Some(d);
  }

  /** DepSetBuilder: collects contents to the right and may build more than once. */
  class DepSetBuilder<T(==,!new)> {
    const order: Order
    var direct: seq<T>
    var transitive: seq<DepSet<T>>

    constructor (order: Order)
      ensures this.order == order && direct == [] && transitive == []
    {
      this.order := order;
      direct, transitive := [], [];
    }

    method Direct(direct: seq<T>)
      modifies `direct
      ensures this.direct == old(this.direct) + direct
    {
      this.direct := this.direct + direct;
    }

    method Transitive(transitive: seq<DepSet<T>>)
      modifies `transitive
      ensures this.transitive == old(this.transitive) + transitive
    {
      this.transitive := this.transitive + transitive;
    }

    method Build() returns (r: Option<DepSet<T>>)
      requires forall c :: c in transitive ==> c.Valid()
      ensures r.None? <==> exists c :: c in transitive && c.order != order
      ensures r.Some? ==> r.value.Valid() && r.value.order == order
      ensures r.Some? ==> r.value.Contents() == direct && r.value.Children() == transitive
    {
      r := NewDepSet(order, direct, transitive);
    }
  }

  // ----- the naive listings, over the lists as they were given -----

  /** A node's elements, then its dependencies' listings, left to right. */
  ghost function Preorder<T(!new)>(d: DepSet<T>): seq<T>
    requires d.Valid()
    decreases d.rank
  {
    d.Contents() + PreorderAll(ChildrenBelow(d), d.rank)
  }

  ghost function PreorderAll<T(!new)>(ds: seq<DepSet<T>>, bound: nat): seq<T>
    requires AllBelow(ds, bound)
    decreases bound, |ds|
  {
    if ds == [] then [] else Preorder(ds[0]) + PreorderAll(ds[1..], bound)
  }

  /** The dependencies' listings left to right, then the node's own elements. */
  ghost function Postorder<T(!new)>(d: DepSet<T>): seq<T>
    requires d.Valid()
    decreases d.rank
  {
    PostorderAll(ChildrenBelow(d), d.rank) + d.Contents()
  }

  ghost function PostorderAll<T(!new)>(ds: seq<DepSet<T>>, bound: nat): seq<T>
    requires AllBelow(ds, bound)
    decreases bound, |ds|
  {
    if ds == [] then [] else Postorder(ds[0]) + PostorderAll(ds[1..], bound)
  }

  ghost predicate AllBelow<T(!new)>(ds: seq<DepSet<T>>, bound: nat) {
    forall i :: 0 <= i < |ds| ==> ds[i].Valid() && ds[i].rank < bound
  }

  ghost function ChildrenBelow<T(!new)>(d: DepSet<T>): (ds: seq<DepSet<T>>)
    requires d.Valid()
    ensures ds == d.Children()
    ensures AllBelow(ds, d.rank)
    ensures forall i :: 0 <= i < |ds| ==> ds[i] in d.transitive && ds[i].order == d.order
  {
    d.Children()
  }

  // ----- the naive unfolding, over the lists as they are stored -----

  ghost function Unfold<T(!new)>(d: DepSet<T>): seq<T>
    requires d.Valid()
    decreases d.rank
  {
    if d.order == PREORDER then d.direct + UnfoldAll(d.transitive, d.rank)
    else UnfoldAll(d.transitive, d.rank) + d.direct
  }

  ghost function UnfoldAll<T(!new)>(ds: seq<DepSet<T>>, bound: nat): seq<T>
    requires AllBelow(ds, bound)
    decreases bound, |ds|
  {
    if ds == [] then [] else Unfold(ds[0]) + UnfoldAll(ds[1..], bound)
  }

  ghost predicate SameOrder<T(!new)>(ds: seq<DepSet<T>>, order: Order) {
    forall i :: 0 <= i < |ds| ==> ds[i].order == order
  }

  /** The double reversal: unfolding the stored lists gives the listing of the given ones. */
  lemma {:induction false} UnfoldIsListing<T(!new)>(d: DepSet<T>)
    requires d.Valid()
    ensures d.order == PREORDER ==> Unfold(d) == Preorder(d)
    ensures d.order == POSTORDER ==> Unfold(d) == Postorder(d)
    ensures d.order == TOPOLOGICAL ==> Unfold(d) == Reverse(Preorder(d))
    decreases d.rank
  {
    UnfoldAllIsListing(d.transitive, d.rank, d.order);
    if d.order == TOPOLOGICAL {
      ReverseConcat(d.Contents(), PreorderAll(ChildrenBelow(d), d.rank));
      ReverseTwice(d.direct);
    }
  }

  lemma {:induction false} UnfoldAllIsListing<T(!new)>(ds: seq<DepSet<T>>, bound: nat, order: Order)
    requires AllBelow(ds, bound) && SameOrder(ds, order)
    ensures order == PREORDER ==> UnfoldAll(ds, bound) == PreorderAll(ds, bound)
    ensures order == POSTORDER ==> UnfoldAll(ds, bound) == PostorderAll(ds, bound)
    ensures AllBelow(Reverse(ds), bound)
    ensures order == TOPOLOGICAL ==> UnfoldAll(ds, bound) == Reverse(PreorderAll(Reverse(ds), bound))
    decreases bound, |ds|
  {
    if ds != [] {
      UnfoldIsListing(ds[0]);
      UnfoldAllIsListing(ds[1..], bound, order);
      if order == TOPOLOGICAL {
        PreorderAllSnoc(Reverse(ds[1..]), ds[0], bound);
        ReverseConcat(PreorderAll(Reverse(ds[1..]), bound), Preorder(ds[0]));
      }
    }
  }

  lemma {:induction false} PreorderAllSnoc<T(!new)>(ds: seq<DepSet<T>>, d: DepSet<T>, bound: nat)
    requires AllBelow(ds, bound) && d.Valid() && d.rank < bound
    ensures AllBelow(ds + [d], bound)
    ensures PreorderAll(ds + [d], bound) == PreorderAll(ds, bound) + Preorder(d)
    decreases |ds|
  {
    if ds == [] {
      assert ds + [d] == [d];
      assert PreorderAll([d], bound) == Preorder(d) + PreorderAll([d][1..], bound);
    } else {
      var all := ds + [d];
      assert all[0] == ds[0] && all[1..] == ds[1..] + [d];
      PreorderAllSnoc(ds[1..], d, bound);
    }
  }

  // ----- the walk -----

  /** The state of a walk: the visited map and the nodes visited so far, in order. */
  datatype Trail<T(==,!new)> = Trail(visited: set<DepSet<T>>, nodes: seq<DepSet<T>>)

  ghost function Mark<T(!new)>(w: Trail<T>, d: DepSet<T>): Trail<T> {
    Trail(w.visited + {d}, w.nodes)
  }

  ghost function Emit<T(!new)>(w: Trail<T>, d: DepSet<T>): Trail<T> {
    Trail(w.visited, w.nodes + [d])
  }

  /** dfs as a function of the trail. */
  ghost function Dfs<T(!new)>(d: DepSet<T>, w: Trail<T>): Trail<T>
    requires d.Valid()
    decreases d.rank
  {
    if d.order == PREORDER then DfsAll(d.transitive, d.rank, Emit(Mark(w, d), d))
    else Emit(DfsAll(d.transitive, d.rank, Mark(w, d)), d)
  }

  ghost function DfsAll<T(!new)>(ds: seq<DepSet<T>>, bound: nat, w: Trail<T>): Trail<T>
    requires AllBelow(ds, bound)
    decreases bound, |ds|
  {
    if ds == [] then w
    else DfsAll(ds[1..], bound, if ds[0] in w.visited then w else Dfs(ds[0], w))
  }

  ghost function Flatten<T(!new)>(nodes: seq<DepSet<T>>): seq<T> {
    if nodes == [] then [] else Flatten(nodes[..|nodes| - 1]) + nodes[|nodes| - 1].direct
  }

  ghost function Elements<T(!new)>(w: Trail<T>): seq<T> {
    Flatten(w.nodes)
  }

  ghost predicate Reaches<T(!new)>(d: DepSet<T>, v: DepSet<T>)
    requires d.Valid()
    decreases d.rank
  {
    v == d || exists c :: c in d.transitive && Reaches(c, v)
  }

  /** The visited map and the captured list of ToList, shared by the calls of dfs. */
  class Walker<T(==,!new)> {
    var visited: set<DepSet<T>>
    var list: seq<T>
    ghost var nodes: seq<DepSet<T>>  // the nodes whose elements were appended, in that order

    constructor ()
      ensures visited == {} && list == [] && nodes == []
    {
      visited, list, nodes := {}, [], [];
    }

    ghost function Trace(): Trail<T>
      reads this
    {
      Trail(visited, nodes)
    }

    method Visit(d: DepSet<T>)
      requires list == Flatten(nodes)
      modifies `list, `nodes
      ensures list == Flatten(nodes)
      ensures Trace() == Emit(old(Trace()), d)
    {
      list := list + d.direct;
      nodes := nodes + [d];
      assert nodes[..|nodes| - 1] == old(nodes);
    }

    /** The recursive closure of walk. */
    method Descend(d: DepSet<T>)
      requires d.Valid() && list == Flatten(nodes)
      modifies this
      ensures list == Flatten(nodes)
      ensures Trace() == Dfs(d, old(Trace()))
      decreases d.rank
    {
      visited := visited + {d};
      if d.order == PREORDER {
        Visit(d);
      }
      ghost var start := Trace();
      for i := 0 to |d.transitive|
        invariant list == Flatten(nodes)
        invariant DfsAll(d.transitive[i..], d.rank, Trace()) == DfsAll(d.transitive, d.rank, start)
      {
        assert d.transitive[i..][1..] == d.transitive[i + 1..];
        if d.transitive[i] !in visited {
          Descend(d.transitive[i]);
        }
      }
      if d.order != PREORDER {
        Visit(d);
      }
    }

    /** walk: afterwards every reachable node has been visited exactly once. */
    method Walk(d: DepSet<T>)
      requires d.Valid()
      requires visited == {} && list == [] && nodes == []
      modifies this
      ensures list == Flatten(nodes) && NoDuplicates(nodes)
      ensures forall v :: v in nodes <==> Reaches(d, v)
      ensures FirstUnique(list) == FirstUnique(Unfold(d))
    {
      Descend(d);
      WalkVisitsReachable(d);
      WalkMatchesUnfolding(d);
    }
  }

  // ----- what the walk visits -----

  /** From w to w' exactly the nodes that are new in the visited map were emitted, once each. */
  ghost predicate Extends<T(!new)>(w: Trail<T>, w': Trail<T>) {
    && w.visited <= w'.visited
    && w.nodes <= w'.nodes
    && NoDuplicates(w'.nodes[|w.nodes|..])
    && (forall v :: v in w'.nodes[|w.nodes|..] ==> v in w'.visited && v !in w.visited)
    && (forall v :: v in w'.visited && v !in w.visited ==> v in w'.nodes[|w.nodes|..])
  }

  /** The visited nodes up to a rank have all their dependencies visited. */
  ghost predicate ClosedUpTo<T(!new)>(w: Trail<T>, r: int) {
    forall v :: v in w.visited && v.rank <= r ==> forall c :: c in v.transitive ==> c in w.visited
  }

  lemma {:induction false} ExtendsTransitive<T(!new)>(a: Trail<T>, b: Trail<T>, c: Trail<T>)
    requires Extends(a, b) && Extends(b, c)
    ensures Extends(a, c)
  {
    var first, second := b.nodes[|a.nodes|..], c.nodes[|b.nodes|..];
    assert c.nodes[|a.nodes|..] == first + second;
    assert forall i :: 0 <= i < |first| ==> first[i] in first;
    assert forall i :: 0 <= i < |second| ==> second[i] in second;
  }

  /** What is new in the visited map lies below the node where the walk started. */
  lemma {:induction false} DfsReaches<T(!new)>(d: DepSet<T>, w: Trail<T>)
    requires d.Valid()
    ensures w.visited + {d} <= Dfs(d, w).visited
    ensures forall v :: v in Dfs(d, w).visited && v !in w.visited ==> v.rank <= d.rank && Reaches(d, v)
    decreases d.rank
  {
    DfsAllReaches(d.transitive, d.rank, if d.order == PREORDER then Emit(Mark(w, d), d) else Mark(w, d));
  }

  lemma {:induction false} DfsAllReaches<T(!new)>(ds: seq<DepSet<T>>, bound: nat, w: Trail<T>)
    requires AllBelow(ds, bound)
    ensures w.visited <= DfsAll(ds, bound, w).visited
    ensures forall c :: c in ds ==> c in DfsAll(ds, bound, w).visited
    ensures forall v :: v in DfsAll(ds, bound, w).visited && v !in w.visited ==>
      v.rank < bound && exists c :: c in ds && c.Valid() && Reaches(c, v)
    decreases bound, |ds|
  {
    if ds != [] {
      assert ds == [ds[0]] + ds[1..];
      var next := if ds[0] in w.visited then w else Dfs(ds[0], w);
      DfsReaches(ds[0], w);
      DfsAllReaches(ds[1..], bound, next);
      forall v | v in DfsAll(ds, bound, w).visited && v !in w.visited
        ensures v.rank < bound && exists c :: c in ds && c.Valid() && Reaches(c, v)
      {
        var c :| (c == ds[0] || c in ds[1..]) && c.Valid() && Reaches(c, v);
        assert c in ds;
      }
    }
  }

  lemma {:induction false} DfsVisits<T(!new)>(d: DepSet<T>, w: Trail<T>)
    requires d.Valid() && d !in w.visited
    requires ClosedUpTo(w, d.rank)
    ensures Extends(w, Dfs(d, w))
    ensures ClosedUpTo(Dfs(d, w), d.rank)
    decreases d.rank
  {
    var marked := if d.order == PREORDER then Emit(Mark(w, d), d) else Mark(w, d);
    var inner := DfsAll(d.transitive, d.rank, marked);
    DfsAllVisits(d.transitive, d.rank, marked);
    DfsAllReaches(d.transitive, d.rank, marked);
    var added := inner.nodes[|marked.nodes|..];
    if d.order == PREORDER {
      assert inner.nodes[|w.nodes|..] == [d] + added;
    } else {
      assert Dfs(d, w).nodes[|w.nodes|..] == added + [d];
    }
  }

  lemma {:induction false} DfsAllVisits<T(!new)>(ds: seq<DepSet<T>>, bound: nat, w: Trail<T>)
    requires AllBelow(ds, bound)
    requires ClosedUpTo(w, bound - 1)
    ensures Extends(w, DfsAll(ds, bound, w))
    ensures ClosedUpTo(DfsAll(ds, bound, w), bound - 1)
    decreases bound, |ds|
  {
    if ds != [] {
      var next := if ds[0] in w.visited then w else Dfs(ds[0], w);
      if ds[0] !in w.visited {
        DfsVisits(ds[0], w);
        DfsReaches(ds[0], w);
      }
      DfsAllVisits(ds[1..], bound, next);
      ExtendsTransitive(w, next, DfsAll(ds[1..], bound, next));
    }
  }

  lemma {:induction false} ClosedContainsReachable<T(!new)>(d: DepSet<T>, v: DepSet<T>, nodes: set<DepSet<T>>)
    requires d.Valid() && d in nodes
    requires forall u :: u in nodes ==> forall c :: c in u.transitive ==> c in nodes
    requires Reaches(d, v)
    ensures v in nodes
    decreases d.rank
  {
    if v != d {
      var c :| c in d.transitive && Reaches(c, v);
      ClosedContainsReachable(c, v, nodes);
    }
  }

  /** The walk visits exactly the reachable nodes, each of them once. */
  lemma {:induction false} WalkVisitsReachable<T(!new)>(d: DepSet<T>)
    requires d.Valid()
    ensures NoDuplicates(Dfs(d, Trail({}, [])).nodes)
    ensures forall v :: v in Dfs(d, Trail({}, [])).nodes <==> Reaches(d, v)
  {
    var w := Dfs(d, Trail({}, []));
    DfsVisits(d, Trail({}, []));
    DfsReaches(d, Trail({}, []));
    assert w.nodes[0..] == w.nodes;
    forall v | Reaches(d, v) ensures v in w.nodes {
      ClosedContainsReachable(d, v, w.visited);
    }
  }

  // ----- the walk against the naive unfolding -----

  /** Visited nodes up to a rank have their whole unfolding listed. */
  ghost predicate SettledUpTo<T(!new)>(w: Trail<T>, r: int) {
    forall v :: v in w.visited && v.rank <= r ==> v.Valid() && forall x :: x in Unfold(v) ==> x in Elements(w)
  }

  ghost predicate Listed<T(!new)>(part: seq<T>, whole: seq<T>) {
    forall x :: x in part ==> x in whole
  }

  lemma {:induction false} ListedIfSameUnique<T(!new)>(list: seq<T>, before: seq<T>, part: seq<T>)
    requires FirstUnique(list) == FirstUnique(before + part)
    ensures Listed(before, list) && Listed(part, list)
  {
    FirstUniqueElements(list);
    FirstUniqueElements(before + part);
    assert forall x :: x in FirstUnique(list) <==> x in list;
    assert forall x :: x in before + part ==> x in FirstUnique(before + part);
  }

  lemma {:induction false} FlattenSnoc<T(!new)>(w: Trail<T>, d: DepSet<T>)
    ensures Elements(Emit(w, d)) == Elements(w) + d.direct
  {
    assert (w.nodes + [d])[..|w.nodes|] == w.nodes;
  }

  /** Entering a node appends, up to repetitions, its whole unfolding. */
  lemma {:induction false} DfsMatches<T(!new)>(d: DepSet<T>, w: Trail<T>)
    requires d.Valid()
    requires SettledUpTo(w, d.rank)
    ensures FirstUnique(Elements(Dfs(d, w))) == FirstUnique(Elements(w) + Unfold(d))
    decreases d.rank, 1, 0
  {
    if d.order == PREORDER {
      FlattenSnoc(Mark(w, d), d);
      DfsAllMatches(d.transitive, d.rank, Emit(Mark(w, d), d));
      PreorderAssembles(Elements(w), d);
    } else {
      var inner := DfsAll(d.transitive, d.rank, Mark(w, d));
      FlattenSnoc(inner, d);
      DfsAllMatches(d.transitive, d.rank, Mark(w, d));
      PostorderAssembles(Elements(inner), Elements(w), d);
    }
  }

  lemma {:induction false} PreorderAssembles<T(!new)>(before: seq<T>, d: DepSet<T>)
    requires d.Valid() && d.order == PREORDER
    ensures (before + d.direct) + UnfoldAll(d.transitive, d.rank) == before + Unfold(d)
  {
    var direct, below := d.direct, UnfoldAll(d.transitive, d.rank);
    assert (before + direct) + below == before + (direct + below);
  }

  lemma {:induction false} PostorderAssembles<T(!new)>(list: seq<T>, before: seq<T>, d: DepSet<T>)
    requires d.Valid() && d.order != PREORDER
    requires FirstUnique(list) == FirstUnique(before + UnfoldAll(d.transitive, d.rank))
    ensures FirstUnique(list + d.direct) == FirstUnique(before + Unfold(d))
  {
    FirstUniqueAppend(list, before, UnfoldAll(d.transitive, d.rank), d.direct);
  }

  lemma {:induction false} DfsSettles<T(!new)>(d: DepSet<T>, w: Trail<T>)
    requires d.Valid()
    requires SettledUpTo(w, d.rank)
    ensures SettledUpTo(Dfs(d, w), d.rank)
    decreases d.rank, 2, 0
  {
    var marked := if d.order == PREORDER then Emit(Mark(w, d), d) else Mark(w, d);
    var inner, after := DfsAll(d.transitive, d.rank, marked), Dfs(d, w);
    FlattenSnoc(Mark(w, d), d);
    FlattenSnoc(inner, d);
    DfsAllMatches(d.transitive, d.rank, marked);
    DfsMatches(d, w);
    ListedIfSameUnique(Elements(after), Elements(w), Unfold(d));
    DfsAllReaches(d.transitive, d.rank, marked);
    SettledAfter(d, w, inner, after);
  }

  lemma {:induction false} SettledAfter<T(!new)>(d: DepSet<T>, w: Trail<T>, inner: Trail<T>, after: Trail<T>)
    requires d.Valid() && after.visited == inner.visited
    requires SettledUpTo(w, d.rank) && Listed(Elements(w), Elements(after))
    requires SettledUpTo(inner, d.rank - 1) && Listed(Elements(inner), Elements(after))
    requires Listed(Unfold(d), Elements(after))
    requires forall v :: v in inner.visited && v !in w.visited && v != d ==> v.rank < d.rank
    ensures SettledUpTo(after, d.rank)
  {
  }

  lemma {:induction false} DfsAllMatches<T(!new)>(ds: seq<DepSet<T>>, bound: nat, w: Trail<T>)
    requires AllBelow(ds, bound)
    requires SettledUpTo(w, bound - 1)
    ensures FirstUnique(Elements(DfsAll(ds, bound, w))) == FirstUnique(Elements(w) + UnfoldAll(ds, bound))
    ensures SettledUpTo(DfsAll(ds, bound, w), bound - 1)
    decreases bound, 0, |ds|
  {
    if ds == [] {
      assert Elements(w) + [] == Elements(w);
    } else {
      var next := if ds[0] in w.visited then w else Dfs(ds[0], w);
      var head, tail := Unfold(ds[0]), UnfoldAll(ds[1..], bound);
      if ds[0] in w.visited {
        FirstUniqueAbsorb(Elements(w), head);
      } else {
        NextSettled(ds[0], bound, w);
      }
      DfsAllMatches(ds[1..], bound, next);
      FirstUniqueAppend(Elements(next), Elements(w), head, tail);
    }
  }

  lemma {:induction false} NextSettled<T(!new)>(d: DepSet<T>, bound: nat, w: Trail<T>)
    requires d.Valid() && d.rank < bound
    requires SettledUpTo(w, bound - 1)
    ensures FirstUnique(Elements(Dfs(d, w))) == FirstUnique(Elements(w) + Unfold(d))
    ensures SettledUpTo(Dfs(d, w), bound - 1)
    decreases d.rank, 3, 0
  {
    DfsMatches(d, w);
    DfsSettles(d, w);
    DfsReaches(d, w);
    ListedIfSameUnique(Elements(Dfs(d, w)), Elements(w), Unfold(d));
  }

  lemma {:induction false} WalkMatchesUnfolding<T(!new)>(d: DepSet<T>)
    requires d.Valid()
    ensures FirstUnique(Elements(Dfs(d, Trail({}, [])))) == FirstUnique(Unfold(d))
  {
    DfsMatches(d, Trail({}, []));
    assert Elements<T>(Trail({}, [])) + Unfold(d) == Unfold(d);
  }

  // ----- the ordering guarantee -----

  /** `y` is an element of the node or of a node below it. */
  ghost predicate Includes<T(!new)>(d: DepSet<T>, y: T)
    requires d.Valid()
    decreases d.rank
  {
    y in d.Contents() || exists c :: c in d.transitive && Includes(c, y)
  }

  ghost predicate AnyIncludes<T(!new)>(ds: seq<DepSet<T>>, y: T) {
    exists c :: c in ds && c.Valid() && Includes(c, y)
  }

  lemma {:induction false} IncludesChildren<T(!new)>(d: DepSet<T>, y: T)
    requires d.Valid()
    ensures AnyIncludes(d.transitive, y) <==> AnyIncludes(ChildrenBelow(d), y)
  {
    ReverseSameElements(d.transitive);
  }

  lemma {:induction false} IncludesMeansListed<T(!new)>(d: DepSet<T>, y: T)
    requires d.Valid()
    ensures Includes(d, y) <==> y in Preorder(d)
    decreases d.rank, 1, 0
  {
    IncludesChildren(d, y);
    AnyIncludesMeansListed(ChildrenBelow(d), d.rank, y);
  }

  lemma {:induction false} AnyIncludesMeansListed<T(!new)>(ds: seq<DepSet<T>>, bound: nat, y: T)
    requires AllBelow(ds, bound)
    ensures AnyIncludes(ds, y) <==> y in PreorderAll(ds, bound)
    decreases bound, 0, |ds|
  {
    if ds != [] {
      assert ds == [ds[0]] + ds[1..];
      IncludesMeansListed(ds[0], y);
      AnyIncludesMeansListed(ds[1..], bound, y);
    }
  }

  /**
   * Wherever the graph, read from left to right, has x, there is a y further on: among the
   * elements of the same node, below it, or to the right of the path that leads to it.
   */
  ghost predicate KeepsOrder<T(!new)>(d: DepSet<T>, x: T, y: T)
    requires d.Valid()
    decreases d.rank
  {
    (Follows(d.Contents(), x, y) || AnyIncludes(d.transitive, y)) && AllKeepOrder(ChildrenBelow(d), d.rank, x, y)
  }

  ghost predicate AllKeepOrder<T(!new)>(ds: seq<DepSet<T>>, bound: nat, x: T, y: T)
    requires AllBelow(ds, bound)
    decreases bound, |ds|
  {
    ds != [] ==> (KeepsOrder(ds[0], x, y) || AnyIncludes(ds[1..], y)) && AllKeepOrder(ds[1..], bound, x, y)
  }

  lemma {:induction false} KeepsOrderMeansFollows<T(!new)>(d: DepSet<T>, x: T, y: T)
    requires d.Valid()
    ensures KeepsOrder(d, x, y) <==> Follows(Preorder(d), x, y)
    decreases d.rank, 1, 0
  {
    var cs := ChildrenBelow(d);
    IncludesChildren(d, y);
    AnyIncludesMeansListed(cs, d.rank, y);
    AllKeepOrderMeansFollows(cs, d.rank, x, y);
    FollowsConcat(d.Contents(), PreorderAll(cs, d.rank), x, y);
  }

  lemma {:induction false} AllKeepOrderMeansFollows<T(!new)>(ds: seq<DepSet<T>>, bound: nat, x: T, y: T)
    requires AllBelow(ds, bound)
    ensures AllKeepOrder(ds, bound, x, y) <==> Follows(PreorderAll(ds, bound), x, y)
    decreases bound, 0, |ds|
  {
    if ds != [] {
      KeepsOrderMeansFollows(ds[0], x, y);
      AnyIncludesMeansListed(ds[1..], bound, y);
      AllKeepOrderMeansFollows(ds[1..], bound, x, y);
      FollowsConcat(Preorder(ds[0]), PreorderAll(ds[1..], bound), x, y);
    }
  }

  ghost predicate Precedes<T(!new)>(r: seq<T>, x: T, y: T) {
    exists i, j :: 0 <= i < j < |r| && r[i] == x && r[j] == y
  }

  /** Exactly when TOPOLOGICAL ToList lists x before y. */
  lemma {:induction false} TopologicalExactly<T(!new)>(d: DepSet<T>, x: T, y: T)
    requires d.Valid() && Includes(d, x) && Includes(d, y)
    ensures Precedes(LastUnique(Preorder(d)), x, y) <==> KeepsOrder(d, x, y)
  {
    var r := LastUnique(Preorder(d));
    IncludesMeansListed(d, x);
    IncludesMeansListed(d, y);
    LastUniqueElements(Preorder(d));
    var i :| 0 <= i < |r| && r[i] == x;
    var j :| 0 <= j < |r| && r[j] == y;
    LastUniqueFollows(Preorder(d), x, y, i, j);
    KeepsOrderMeansFollows(d, x, y);
  }

  /** Every node with element x has y somewhere below it. */
  ghost predicate OwnersAbove<T(!new)>(d: DepSet<T>, x: T, y: T)
    requires d.Valid()
    decreases d.rank
  {
    && (x in d.Contents() ==> AnyIncludes(d.transitive, y))
    && forall c :: c in d.transitive ==> OwnersAbove(c, x, y)
  }

  lemma {:induction false} OwnersAboveKeepsOrder<T(!new)>(d: DepSet<T>, x: T, y: T)
    requires d.Valid() && OwnersAbove(d, x, y)
    ensures KeepsOrder(d, x, y)
    decreases d.rank, 1, 0
  {
    OwnersAboveKeepOrder(ChildrenBelow(d), d.rank, x, y);
  }

  lemma {:induction false} OwnersAboveKeepOrder<T(!new)>(ds: seq<DepSet<T>>, bound: nat, x: T, y: T)
    requires AllBelow(ds, bound) && forall i :: 0 <= i < |ds| ==> OwnersAbove(ds[i], x, y)
    ensures AllKeepOrder(ds, bound, x, y)
    decreases bound, 0, |ds|
  {
    if ds != [] {
      OwnersAboveKeepsOrder(ds[0], x, y);
      OwnersAboveKeepOrder(ds[1..], bound, x, y);
    }
  }

  lemma {:induction false} ReachableIsIncluded<T(!new)>(d: DepSet<T>, v: DepSet<T>, y: T)
    requires d.Valid() && Reaches(d, v) && y in v.Contents()
    ensures Includes(d, y)
    decreases d.rank
  {
    if v != d {
      var c :| c in d.transitive && Reaches(c, v);
      ReachableIsIncluded(c, v, y);
    }
  }

  lemma {:induction false} OnlyOwnerIsAbove<T(!new)>(d: DepSet<T>, u: DepSet<T>, x: T, y: T)
    requires d.Valid() && u.Valid() && AnyIncludes(u.transitive, y)
    requires forall w :: Reaches(d, w) && x in w.Contents() ==> w == u
    ensures OwnersAbove(d, x, y)
    decreases d.rank
  {
    assert Reaches(d, d);
    forall c | c in d.transitive ensures OwnersAbove(c, x, y) {
      forall w | Reaches(c, w) && x in w.Contents() ensures w == u {
        assert Reaches(d, w);
      }
      OnlyOwnerIsAbove(c, u, x, y);
    }
  }

  /**
   * TOPOLOGICAL ToList lists elements of children after all of their parents, if each node with
   * the parent's element has the child's below it ...
   */
  lemma {:induction false} TopologicalGuarantee<T(!new)>(d: DepSet<T>, x: T, y: T)
    requires d.Valid() && Includes(d, x) && Includes(d, y) && OwnersAbove(d, x, y)
    ensures Precedes(LastUnique(Preorder(d)), x, y)
  {
    OwnersAboveKeepsOrder(d, x, y);
    TopologicalExactly(d, x, y);
  }

  /** ... and so if the parent's element is a direct element of no other node. */
  lemma {:induction false} ChildrenAfterParents<T(!new)>(d: DepSet<T>, u: DepSet<T>, v: DepSet<T>, x: T, y: T)
    requires d.Valid() && u.Valid() && Reaches(d, u) && Reaches(u, v) && v != u
    requires x in u.Contents() && y in v.Contents()
    requires forall w :: Reaches(d, w) && x in w.Contents() ==> w == u
    ensures Precedes(LastUnique(Preorder(d)), x, y)
  {
    var c :| c in u.transitive && Reaches(c, v);
    ReachableIsIncluded(c, v, y);
    ReachableIsIncluded(d, u, x);
    OnlyOwnerIsAbove(d, u, x, y);
    ReachesIncludes(d, u, y);
    TopologicalGuarantee(d, x, y);
  }

  lemma {:induction false} ReachesIncludes<T(!new)>(d: DepSet<T>, u: DepSet<T>, y: T)
    requires d.Valid() && u.Valid() && Reaches(d, u) && Includes(u, y)
    ensures Includes(d, y)
    decreases d.rank
  {
    if u != d {
      var c :| c in d.transitive && Reaches(c, u);
      ReachesIncludes(c, u, y);
    }
  }

  /** A second copy of x, with no y below it, can pull x behind its child y. */
  lemma {:induction false} DuplicatedParentListedLast<T(!new)>(
      d: DepSet<T>, u: DepSet<T>, v: DepSet<T>, w: DepSet<T>, x: T, y: T)
    requires x != y && d.Valid() && u.Valid() && v.Valid() && w.Valid() && d.order == TOPOLOGICAL
    requires d.Contents() == [] && d.Children() == [u, w]
    requires u.Contents() == [x] && u.Children() == [v]
    requires v.Contents() == [y] && v.Children() == []
    requires w.Contents() == [x] && w.Children() == []
    ensures LastUnique(Preorder(d)) == [y, x]
  {
    assert PreorderAll(ChildrenBelow(v), v.rank) == [];
    assert Preorder(v) == [y];
    assert PreorderAll(ChildrenBelow(w), w.rank) == [];
    assert Preorder(w) == [x];
    assert PreorderAll([v], u.rank) == [y];
    assert [u, w][1..] == [w];
    assert PreorderAll([w], d.rank) == [x];
    assert PreorderAll([u, w], d.rank) == [x, y] + [x];
    assert [x, y, x][1..] == [y, x] && [y, x][1..] == [x];
    assert Preorder(d) == [x, y, x];
    assert LastUnique([x]) == [x];
    assert LastUnique([y, x]) == [y, x];
  }

  /** The graph of DuplicatedParentListedLast, built and listed. */
  method DuplicatedParent<T(==,!new)>(x: T, y: T)
      returns (d: DepSet<T>, u: DepSet<T>, v: DepSet<T>, r: seq<T>)
    requires x != y
    ensures d.Valid() && d.order == TOPOLOGICAL && u in d.Children() && v in u.Children()
    ensures x in u.Contents() && y in v.Contents()
    ensures r == LastUnique(Preorder(d)) == [y, x]
  {
    var leaf := NewDepSet(TOPOLOGICAL, [y], []);
    v := leaf.value;
    var parent := NewDepSet(TOPOLOGICAL, [x], [v]);
    u := parent.value;
    var copy := NewDepSet(TOPOLOGICAL, [x], []);
    var top := NewDepSet(TOPOLOGICAL, [], [u, copy.value]);
    d := top.value;
    DuplicatedParentListedLast(d, u, v, copy.value, x, y);
    r := d.ToList();
  }
}
