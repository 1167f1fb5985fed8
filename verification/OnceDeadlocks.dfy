// android/onceper.go: when calls of Once and Get can block each other for good.  A constructor may
// call Once and Get in turn; which keys it uses so decides whether a deadlock is possible.
module OnceDeadlocks {
  import opened Wrappers
  import opened Lists
  import opened OncePer

  /** uses(k, l): the constructor of k may call Once or Get on l. */
  type Uses = (Key, Key) -> bool

  predicate Nests(a: Action) {
    a.NestOnce? || a.NestGet?
  }

  ghost predicate Respects(states: seq<State>, actions: seq<Action>, uses: Uses)
    requires IsRun(states, actions)
  {
    forall i :: 0 <= i < |actions| && Nests(actions[i]) ==>
      uses(states[i].calls[actions[i].call].key, actions[i].key)
  }

  ghost predicate AllFinished(s: State) {
    forall c :: 0 <= c < |s.calls| ==> s.calls[c].pc.Finished()
  }

  /** A run in which constructors use these keys, and at whose end calls are blocked for good. */
  ghost predicate Deadlocks(states: seq<State>, actions: seq<Action>, uses: Uses) {
    && IsRun(states, actions) && Respects(states, actions, uses)
    && Quiet(states[|actions|]) && !AllFinished(states[|actions|])
  }

  ghost predicate DeadlockFree(uses: Uses) {
    forall states, actions :: !Deadlocks(states, actions, uses)
  }

  /** The next key on a cycle. */
  function After(ks: seq<Key>, i: nat): (j: nat)
    requires i < |ks|
    ensures j < |ks|
  {
    if i + 1 < |ks| then i + 1 else 0
  }

  ghost predicate IsCycle(uses: Uses, ks: seq<Key>) {
    ks != [] && NoDuplicates(ks) && forall i :: 0 <= i < |ks| ==> uses(ks[i], ks[After(ks, i)])
  }

  /**
   * No run deadlocks if and only if no constructor uses its own key, directly or by way of the
   * constructors of other keys.
   */
  lemma {:induction false} DeadlockFreeExactly(uses: Uses)
    ensures DeadlockFree(uses) <==> !exists ks :: IsCycle(uses, ks)
  {
    if states, actions :| Deadlocks(states, actions, uses) {
      var ks := DeadlockHasCycle(states, actions, uses);
    }
    if ks :| IsCycle(uses, ks) {
      var states, actions := CycleDeadlocks(uses, ks);
    }
  }

  /** A rank that falls from a key to the keys it uses is enough. */
  lemma {:induction false} RanksExcludeDeadlock(uses: Uses, rank: Key -> nat)
    requires forall k, l :: uses(k, l) ==> rank(l) < rank(k)
    ensures DeadlockFree(uses)
  {
    forall ks | IsCycle(uses, ks) ensures false {
      assert uses(ks[|ks| - 1], ks[After(ks, |ks| - 1)]);
      RankFalls(uses, rank, ks, |ks| - 1);
    }
    DeadlockFreeExactly(uses);
  }

  lemma {:induction false} RankFalls(uses: Uses, rank: Key -> nat, ks: seq<Key>, i: nat)
    requires IsCycle(uses, ks) && i < |ks| && forall k, l :: uses(k, l) ==> rank(l) < rank(k)
    ensures rank(ks[i]) <= rank(ks[0])
  {
    if i > 0 {
      RankFalls(uses, rank, ks, i - 1);
      assert uses(ks[i - 1], ks[After(ks, i - 1)]);
    }
  }

  // ----- a deadlock has a cycle -----

  ghost predicate InnerIsUsed(s: State, uses: Uses, c: nat)
    requires c < |s.calls|
  {
    s.calls[c].pc.Constructing? && s.calls[c].pc.inner.Some? ==>
      var n := s.calls[c].pc.inner.value;
      n < |s.calls| && uses(s.calls[c].key, s.calls[n].key)
  }

  ghost predicate AllInnerUsed(s: State, uses: Uses) {
    forall c :: 0 <= c < |s.calls| ==> InnerIsUsed(s, uses, c)
  }

  lemma {:induction false} InnerStaysUsed(s: State, a: Action, uses: Uses)
    requires Enabled(s, a) && AllInnerUsed(s, uses)
    requires Nests(a) ==> uses(s.calls[a.call].key, a.key)
    ensures AllInnerUsed(Next(s, a), uses)
  {
    var t := Next(s, a);
    forall c | 0 <= c < |t.calls| ensures InnerIsUsed(t, uses, c) {
      assert c < |s.calls| ==> InnerIsUsed(s, uses, c);
    }
  }

  lemma {:induction false} RunUses(states: seq<State>, actions: seq<Action>, uses: Uses, i: nat)
    requires IsRun(states, actions) && Respects(states, actions, uses) && i < |states|
    ensures AllInnerUsed(states[i], uses)
  {
    if i > 0 {
      RunUses(states, actions, uses, i - 1);
      InnerStaysUsed(states[i - 1], actions[i - 1], uses);
    }
  }

  /** The call that has to move before this one can. */
  function OwnerOf(s: State, c: nat): nat
    requires c < |s.calls|
  {
    if s.calls[c].pc.Waiting? then s.calls[c].pc.maker else c
  }

  /** When nothing moves, behind an unfinished call there is a constructor on its key that waits. */
  lemma {:induction false} OwnerIsStuck(s: State, c: nat)
    requires Inv(s) && Quiet(s) && c < |s.calls| && !s.calls[c].pc.Finished()
    ensures var o := OwnerOf(s, c);
            o < |s.calls| && s.calls[o].key == s.calls[c].key && AwaitsInner(s, o)
  {
    assert CallOk(s, c);
    var o := OwnerOf(s, c);
    assert !Enabled(s, Step(c)) && !Enabled(s, Step(o)) && !Enabled(s, ConstructorPanics(o));
    if s.calls[c].pc.Waiting? {
      OwedAClose(s, c);
    }
  }

  function Inner(s: State, c: nat): nat
    requires c < |s.calls| && s.calls[c].pc.Constructing? && s.calls[c].pc.inner.Some?
  {
    s.calls[c].pc.inner.value
  }

  /** Constructors, each of which waits for the next. */
  ghost predicate StuckPath(s: State, path: seq<nat>) {
    && path != [] && NoDuplicates(path)
    && (forall i :: 0 <= i < |path| ==> AwaitsInner(s, path[i]))
    && (forall i :: 0 <= i < |path| - 1 ==> path[i + 1] == OwnerOf(s, Inner(s, path[i])))
  }

  ghost function Unvisited(s: State, path: seq<nat>): set<nat> {
    set c: nat | c < |s.calls| && c !in path
  }

  /** The path is followed until it comes back to itself, as it must: there are finitely many calls. */
  lemma {:induction false} StuckHasCycle(s: State, uses: Uses, path: seq<nat>) returns (ks: seq<Key>)
    requires Inv(s) && Quiet(s) && AllInnerUsed(s, uses) && StuckPath(s, path)
    ensures IsCycle(uses, ks)
    decreases Unvisited(s, path)
  {
    var last := path[|path| - 1];
    OwnerIsStuck(s, Inner(s, last));
    var o := OwnerOf(s, Inner(s, last));
    if o in path {
      var j :| 0 <= j < |path| && path[j] == o;
      ks := ClosedPathIsCycle(s, uses, path[j..]);
    } else {
      var longer := path + [o];
      assert o in Unvisited(s, path) && o !in Unvisited(s, longer);
      ks := StuckHasCycle(s, uses, longer);
    }
  }

  lemma {:induction false} ClosedPathIsCycle(s: State, uses: Uses, path: seq<nat>) returns (ks: seq<Key>)
    requires Inv(s) && Quiet(s) && AllInnerUsed(s, uses) && StuckPath(s, path)
    requires path[0] == OwnerOf(s, Inner(s, path[|path| - 1]))
    ensures IsCycle(uses, ks)
  {
    ks := seq(|path|, i requires 0 <= i < |path| => s.calls[path[i]].key);
    forall i | 0 <= i < |ks| ensures uses(ks[i], ks[After(ks, i)]) {
      assert InnerIsUsed(s, uses, path[i]);
      OwnerIsStuck(s, Inner(s, path[i]));
      assert path[After(ks, i)] == OwnerOf(s, Inner(s, path[i]));
    }
    forall i, j | 0 <= i < j < |ks| ensures ks[i] != ks[j] {
      assert CallOk(s, path[i]) && CallOk(s, path[j]);
    }
  }

  lemma {:induction false} DeadlockHasCycle(states: seq<State>, actions: seq<Action>, uses: Uses) returns (ks: seq<Key>)
    requires Deadlocks(states, actions, uses)
    ensures IsCycle(uses, ks)
  {
    var s := states[|actions|];
    RunInvariant(states, actions, |actions|);
    RunUses(states, actions, uses, |actions|);
    var c :| 0 <= c < |s.calls| && !s.calls[c].pc.Finished();
    OwnerIsStuck(s, c);
    ks := StuckHasCycle(s, uses, [OwnerOf(s, c)]);
  }

  // ----- a cycle has a deadlock -----

  /** The first `made` keys have the waiters of the calls 0, 1, ... */
  function Waiters(ks: seq<Key>, made: nat): map<Key, Entry>
    requires made <= |ks|
  {
    if made == 0 then map[] else Waiters(ks, made - 1)[ks[made - 1] := Waiter(made - 1)]
  }

  lemma {:induction false} WaitersOf(ks: seq<Key>, made: nat)
    requires NoDuplicates(ks) && made <= |ks|
    ensures forall i :: 0 <= i < made ==> ks[i] in Waiters(ks, made) && Waiters(ks, made)[ks[i]] == Waiter(i)
    ensures forall i :: made <= i < |ks| ==> ks[i] !in Waiters(ks, made)
  {
    if made > 0 {
      WaitersOf(ks, made - 1);
    }
  }

  /** The first `begun` keys have a call, the first `made` of them are in their constructors ... */
  function Outer(ks: seq<Key>, begun: nat, made: nat, nested: nat): (calls: seq<Call>)
    requires begun <= |ks|
    ensures |calls| == begun
  {
    seq(begun, i requires 0 <= i < begun => Call(ks[i], OuterPc(|ks|, made, nested, i)))
  }

  function OuterPc(n: nat, made: nat, nested: nat, i: nat): Pc {
    if i < nested then Constructing(Some(n + i)) else if i < made then Constructing(None) else OnceLoad
  }

  /** ... the first `nested` of these call Once on the next key, and `stepped` calls wait for it. */
  function Inners(ks: seq<Key>, nested: nat, stepped: nat): (calls: seq<Call>)
    requires nested <= |ks|
    ensures |calls| == nested
  {
    seq(nested, i requires 0 <= i < nested =>
      Call(ks[After(ks, i)], if i < stepped then Waiting(After(ks, i)) else OnceLoad))
  }

  lemma {:induction false} BeginOne(ks: seq<Key>, i: nat)
    requires i < |ks|
    ensures Next(State(map[], {}, Outer(ks, i, 0, 0)), BeginOnce(ks[i])) == State(map[], {}, Outer(ks, i + 1, 0, 0))
  {
  }

  function MadeState(ks: seq<Key>, made: nat): State
    requires made <= |ks|
  {
    State(Waiters(ks, made), {}, Outer(ks, |ks|, made, 0))
  }

  lemma {:induction false} MakeOne(ks: seq<Key>, i: nat)
    requires NoDuplicates(ks) && i < |ks|
    ensures var s := MadeState(ks, i);
            && Enabled(s, Step(i)) && Enabled(Next(s, Step(i)), Step(i))
            && Next(Next(s, Step(i)), Step(i)) == MadeState(ks, i + 1)
  {
    WaitersOf(ks, i);
    var s := MadeState(ks, i);
    assert s.calls[i] == Call(ks[i], OnceLoad);
    var t := Next(s, Step(i));
    assert t == s.(calls := s.calls[i := Call(ks[i], OnceLoadOrStore)]);
    assert Next(t, Step(i)).calls == Outer(ks, |ks|, i + 1, 0);
  }

  function NestedState(ks: seq<Key>, nested: nat, stepped: nat): State
    requires nested <= |ks|
  {
    State(Waiters(ks, |ks|), {}, Outer(ks, |ks|, |ks|, nested) + Inners(ks, nested, stepped))
  }

  lemma {:induction false} NestOne(ks: seq<Key>, i: nat)
    requires i < |ks|
    ensures var s, a := NestedState(ks, i, 0), NestOnce(i, ks[After(ks, i)]);
            && Enabled(s, a) && s.calls[i].key == ks[i]
            && Next(s, a) == NestedState(ks, i + 1, 0)
  {
    var s, a := NestedState(ks, i, 0), NestOnce(i, ks[After(ks, i)]);
    assert s.calls[i] == Call(ks[i], Constructing(None));
    var outer := Outer(ks, |ks|, |ks|, i)[i := Call(ks[i], Constructing(Some(|ks| + i)))];
    assert outer == Outer(ks, |ks|, |ks|, i + 1);
    assert Inners(ks, i + 1, 0) == Inners(ks, i, 0) + [Call(a.key, OnceLoad)];
    assert Next(s, a).calls == outer + Inners(ks, i, 0) + [Call(a.key, OnceLoad)];
    assert Next(s, a).calls == outer + Inners(ks, i + 1, 0);
  }

  lemma {:induction false} StepOne(ks: seq<Key>, i: nat)
    requires NoDuplicates(ks) && i < |ks|
    ensures var s := NestedState(ks, |ks|, i);
            Enabled(s, Step(|ks| + i)) && Next(s, Step(|ks| + i)) == NestedState(ks, |ks|, i + 1)
  {
    WaitersOf(ks, |ks|);
    var s, c := NestedState(ks, |ks|, i), |ks| + i;
    var outer, waiting := Outer(ks, |ks|, |ks|, |ks|), Call(ks[After(ks, i)], Waiting(After(ks, i)));
    assert s.calls[c] == Inners(ks, |ks|, i)[i] == Call(waiting.key, OnceLoad);
    assert Next(s, Step(c)) == s.(calls := s.calls[c := waiting]);
    assert Inners(ks, |ks|, i)[i := waiting] == Inners(ks, |ks|, i + 1);
    assert s.calls[c := waiting] == outer + Inners(ks, |ks|, i)[i := waiting];
  }

  /** Then nothing moves: each constructor waits for a call that waits for the next constructor. */
  lemma {:induction false} LastStateIsQuiet(ks: seq<Key>)
    requires ks != []
    ensures var s := NestedState(ks, |ks|, |ks|);
            Quiet(s) && !AllFinished(s)
  {
    var n, s := |ks|, NestedState(ks, |ks|, |ks|);
    assert forall c :: 0 <= c < n ==> s.calls[c].pc == Constructing(Some(n + c));
    assert forall c :: n <= c < n + n ==> s.calls[c] == Inners(ks, n, n)[c - n];
    assert forall c :: n <= c < n + n ==> s.calls[c].pc.Waiting?;
    forall a: Action | !Begins(a) ensures !Enabled(s, a) {
      assert a.call < n ==> s.calls[n + a.call].pc.Waiting?;
    }
    assert !s.calls[0].pc.Finished();
  }

  ghost predicate EndsIn(states: seq<State>, actions: seq<Action>, uses: Uses, s: State) {
    IsRun(states, actions) && Respects(states, actions, uses) && states[|actions|] == s
  }

  ghost predicate Reachable(uses: Uses, s: State) {
    exists states, actions :: EndsIn(states, actions, uses, s)
  }

  lemma {:induction false} ReachNext(uses: Uses, s: State, a: Action)
    requires Reachable(uses, s) && Enabled(s, a) && (Nests(a) ==> uses(s.calls[a.call].key, a.key))
    ensures Reachable(uses, Next(s, a))
  {
    var states, actions :| EndsIn(states, actions, uses, s);
    var states', actions' := states + [Next(s, a)], actions + [a];
    forall i | 0 <= i < |actions'|
      ensures Enabled(states'[i], actions'[i]) && states'[i + 1] == Next(states'[i], actions'[i])
      ensures Nests(actions'[i]) ==> uses(states'[i].calls[actions'[i].call].key, actions'[i].key)
    {
      if i < |actions| {
        assert states'[i] == states[i] && states'[i + 1] == states[i + 1] && actions'[i] == actions[i];
      }
    }
    assert EndsIn(states', actions', uses, Next(s, a));
  }

  lemma {:induction false} ReachBegun(uses: Uses, ks: seq<Key>, begun: nat)
    requires begun <= |ks|
    ensures Reachable(uses, State(map[], {}, Outer(ks, begun, 0, 0)))
  {
    if begun == 0 {
      assert EndsIn([Init], [], uses, State(map[], {}, Outer(ks, 0, 0, 0)));
    } else {
      ReachBegun(uses, ks, begun - 1);
      BeginOne(ks, begun - 1);
      ReachNext(uses, State(map[], {}, Outer(ks, begun - 1, 0, 0)), BeginOnce(ks[begun - 1]));
    }
  }

  lemma {:induction false} ReachMade(uses: Uses, ks: seq<Key>, made: nat)
    requires NoDuplicates(ks) && made <= |ks|
    ensures Reachable(uses, MadeState(ks, made))
  {
    if made == 0 {
      ReachBegun(uses, ks, |ks|);
    } else {
      ReachMade(uses, ks, made - 1);
      MakeOne(ks, made - 1);
      var s := MadeState(ks, made - 1);
      ReachNext(uses, s, Step(made - 1));
      ReachNext(uses, Next(s, Step(made - 1)), Step(made - 1));
    }
  }

  lemma {:induction false} ReachNested(uses: Uses, ks: seq<Key>, nested: nat)
    requires IsCycle(uses, ks) && nested <= |ks|
    ensures Reachable(uses, NestedState(ks, nested, 0))
  {
    if nested == 0 {
      ReachMade(uses, ks, |ks|);
      assert NestedState(ks, 0, 0) == MadeState(ks, |ks|);
    } else {
      ReachNested(uses, ks, nested - 1);
      NestOne(ks, nested - 1);
      ReachNext(uses, NestedState(ks, nested - 1, 0), NestOnce(nested - 1, ks[After(ks, nested - 1)]));
    }
  }

  lemma {:induction false} ReachStepped(uses: Uses, ks: seq<Key>, stepped: nat)
    requires IsCycle(uses, ks) && stepped <= |ks|
    ensures Reachable(uses, NestedState(ks, |ks|, stepped))
  {
    if stepped == 0 {
      ReachNested(uses, ks, |ks|);
    } else {
      ReachStepped(uses, ks, stepped - 1);
      StepOne(ks, stepped - 1);
      ReachNext(uses, NestedState(ks, |ks|, stepped - 1), Step(|ks| + stepped - 1));
    }
  }

  /** Constructors that use each other's keys in a circle can all be blocked. */
  lemma {:induction false} CycleDeadlocks(uses: Uses, ks: seq<Key>) returns (states: seq<State>, actions: seq<Action>)
    requires IsCycle(uses, ks)
    ensures Deadlocks(states, actions, uses)
  {
    ReachStepped(uses, ks, |ks|);
    LastStateIsQuiet(ks);
    states, actions :| EndsIn(states, actions, uses, NestedState(ks, |ks|, |ks|));
  }

  /** The shortest cycle: a constructor that calls Once on its own key. */
  lemma {:induction false} OwnKeyDeadlocks(uses: Uses, k: Key) returns (states: seq<State>, actions: seq<Action>)
    requires uses(k, k)
    ensures Deadlocks(states, actions, uses)
  {
    states, actions := CycleDeadlocks(uses, [k]);
  }
}
