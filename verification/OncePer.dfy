// android/onceper.go: a once-per-key cache shared by any number of threads.  Every call of Once
// or Get is a little program whose atomic steps are its operations on the sync.Map and on the
// waiter channels; a run is any interleaving of such steps.
module OncePer {
  import opened Wrappers

  type Key = nat    // an opaque comparable key
  type Value = nat  // an opaque constructed value; nil is Option.None

  /** A map entry.  A call makes at most one channel, so channels are named by their maker. */
  datatype Entry = Waiter(maker: nat) | Constructed(value: Option<Value>)

  /** Where a call is: the operation it performs next, or how it ended. */
  datatype Pc =
    | OnceLoad                                              // fast path: Load
    | OnceLoadOrStore                                       // slow path: LoadOrStore a new waiter
    | Constructing(inner: Option<nat>)                      // inside value(), which may await a call of its own
    | Storing(result: Option<Value>, panicking: bool)       // deferred: Store the result
    | Closing(result: Option<Value>, panicking: bool)       // deferred: close the waiter
    | GetLoad                                               // Get: Load
    | Waiting(maker: nat)                                   // maybeWaitFor: receive from the channel
    | Reloading                                             // maybeWaitFor: Load again
    | Returned(value: Option<Value>)
    | ConstructorPanic                                      // value() panicked, propagated
    | GetPanic                                              // "Get() called before Once()"
    | NotValidPanic                                         // "key is still not valid"
    | CloseOfClosedPanic
  {
    predicate Finished() {
      Returned? || ConstructorPanic? || GetPanic? || NotValidPanic? || CloseOfClosedPanic?
    }

    /** The call has put its waiter into the map and has not closed it yet. */
    predicate Owner() {
      Constructing? || Storing? || Closing?
    }
  }

  datatype Call = Call(key: Key, pc: Pc)

  datatype State = State(values: map<Key, Entry>, closed: set<nat>, calls: seq<Call>)

  datatype Action =
    | BeginOnce(key: Key)
    | BeginGet(key: Key)
    | Step(call: nat)
    | NestOnce(call: nat, key: Key)                         // value() calls Once ...
    | NestGet(call: nat, key: Key)                          // ... or Get
    | ConstructorReturns(call: nat, value: Option<Value>)
    | ConstructorPanics(call: nat)

  const Init := State(map[], {}, [])

  /** The call runs value(), and no call that value() has made is still on its way. */
  predicate Ready(s: State, c: nat) {
    && c < |s.calls| && s.calls[c].pc.Constructing?
    && match s.calls[c].pc.inner
       case None => true
       case Some(n) => n < |s.calls| && s.calls[n].pc.Finished()
  }

  predicate Enabled(s: State, a: Action) {
    match a
    case BeginOnce(_) => true
    case BeginGet(_) => true
    case NestOnce(c, _) => Ready(s, c)
    case NestGet(c, _) => Ready(s, c)
    case ConstructorReturns(c, _) => Ready(s, c)
    case ConstructorPanics(c) => Ready(s, c)
    case Step(c) =>
      && c < |s.calls|
      && !s.calls[c].pc.Finished()
      && !s.calls[c].pc.Constructing?
      && (s.calls[c].pc.Waiting? ==> s.calls[c].pc.maker in s.closed)
  }

  function Next(s: State, a: Action): State
    requires Enabled(s, a)
  {
    match a
    case BeginOnce(k) => s.(calls := s.calls + [Call(k, OnceLoad)])
    case BeginGet(k) => s.(calls := s.calls + [Call(k, GetLoad)])
    case NestOnce(c, k) => Nest(s, c, Call(k, OnceLoad))
    case NestGet(c, k) => Nest(s, c, Call(k, GetLoad))
    case ConstructorReturns(c, v) => Goto(s, c, Storing(v, false))
    case ConstructorPanics(c) => Goto(s, c, Storing(None, true))
    case Step(c) => Perform(s, c)
  }

  function Goto(s: State, c: nat, pc: Pc): State
    requires c < |s.calls|
  {
    s.(calls := s.calls[c := s.calls[c].(pc := pc)])
  }

  function Nest(s: State, c: nat, call: Call): State
    requires c < |s.calls|
  {
    var t := Goto(s, c, Constructing(Some(|s.calls|)));
    t.(calls := t.calls + [call])
  }

  /** maybeWaitFor on a loaded entry. */
  function MaybeWaitFor(e: Entry): Pc {
    match e
    case Waiter(maker) => Waiting(maker)
    case Constructed(v) => Returned(v)
  }

  function Perform(s: State, c: nat): State
    requires Enabled(s, Step(c))
  {
    var k := s.calls[c].key;
    match s.calls[c].pc
    case OnceLoad => Goto(s, c, if k in s.values then MaybeWaitFor(s.values[k]) else OnceLoadOrStore)
    case OnceLoadOrStore =>
      if k in s.values then Goto(s, c, MaybeWaitFor(s.values[k]))
      else Goto(s, c, Constructing(None)).(values := s.values[k := Waiter(c)])
    case Storing(v, p) => Goto(s, c, Closing(v, p)).(values := s.values[k := Constructed(v)])
    case Closing(v, p) =>
      if c in s.closed then Goto(s, c, CloseOfClosedPanic)
      else Goto(s, c, if p then ConstructorPanic else Returned(v)).(closed := s.closed + {c})
    case GetLoad => Goto(s, c, if k in s.values then MaybeWaitFor(s.values[k]) else GetPanic)
    case Waiting(_) => Goto(s, c, Reloading)
    case Reloading =>
      Goto(s, c,
        if k !in s.values then Returned(None)
        else if s.values[k].Waiter? then NotValidPanic
        else Returned(s.values[k].value))
  }

  /** A run: states[i + 1] follows from states[i] by actions[i]. */
  ghost predicate IsRun(states: seq<State>, actions: seq<Action>) {
    && |states| == |actions| + 1
    && states[0] == Init
    && forall i :: 0 <= i < |actions| ==> Enabled(states[i], actions[i]) && states[i + 1] == Next(states[i], actions[i])
  }

  // ----- the invariant -----

  /** A waiter in the map belongs to a call on that key which has not stored its result yet. */
  ghost predicate EntryOk(s: State, k: Key)
    requires k in s.values
  {
    s.values[k].Waiter? ==>
      var o := s.values[k].maker;
      o < |s.calls| && s.calls[o].key == k && (s.calls[o].pc.Constructing? || s.calls[o].pc.Storing?)
  }

  ghost predicate CallOk(s: State, c: nat)
    requires c < |s.calls|
  {
    var k := s.calls[c].key;
    match s.calls[c].pc
    case OnceLoad => true
    case OnceLoadOrStore => true
    case GetLoad => true
    case Constructing(inner) =>
      && k in s.values && s.values[k] == Waiter(c) && c !in s.closed
      && (inner.Some? ==> c < inner.value < |s.calls|)
    case Storing(v, p) => k in s.values && s.values[k] == Waiter(c) && c !in s.closed && (p ==> v == None)
    case Closing(v, p) => k in s.values && s.values[k] == Constructed(v) && c !in s.closed && (p ==> v == None)
    case Waiting(o) =>
      && o < |s.calls| && s.calls[o].key == k
      && (o in s.closed || s.calls[o].pc.Owner())
      && k in s.values && (s.values[k] == Waiter(o) || s.values[k].Constructed?)
    case Reloading => k in s.values && s.values[k].Constructed?
    case Returned(v) => k in s.values && s.values[k] == Constructed(v)
    case ConstructorPanic => k in s.values && s.values[k] == Constructed(None)
    case GetPanic => true
    case NotValidPanic => false
    case CloseOfClosedPanic => false
  }

  ghost predicate Inv(s: State) {
    && (forall k :: k in s.values ==> EntryOk(s, k))
    && (forall c :: 0 <= c < |s.calls| ==> CallOk(s, c))
    && (forall o :: o in s.closed ==> o < |s.calls| && s.calls[o].pc.Finished())
  }

  /** What no action ever undoes. */
  ghost predicate Grows(s: State, t: State) {
    && |s.calls| <= |t.calls|
    && s.closed <= t.closed
    && (forall k :: k in s.values ==> k in t.values)
    && (forall k :: k in s.values && s.values[k].Constructed? ==> t.values[k] == s.values[k])
    && (forall c :: 0 <= c < |s.calls| ==> t.calls[c].key == s.calls[c].key)
    && (forall c :: 0 <= c < |s.calls| && s.calls[c].pc.Finished() ==> t.calls[c] == s.calls[c])
  }

  lemma {:induction false} InvPreserved(s: State, a: Action)
    requires Inv(s) && Enabled(s, a)
    ensures Inv(Next(s, a))
  {
    var t := Next(s, a);
    forall k | k in t.values ensures EntryOk(t, k) {
      if k in s.values { assert EntryOk(s, k); }
      if a.Step? { assert CallOk(s, a.call); }
    }
    forall c | 0 <= c < |t.calls| ensures CallOk(t, c) {
      CallPreserved(s, a, c);
    }
    forall o | o in t.closed ensures o < |t.calls| && t.calls[o].pc.Finished() {
      if o in s.closed { assert s.calls[o].pc.Finished(); }
    }
  }

  lemma {:induction false} CallPreserved(s: State, a: Action, c: nat)
    requires Inv(s) && Enabled(s, a)
    requires c < |Next(s, a).calls|
    ensures CallOk(Next(s, a), c)
  {
    if c < |s.calls| {
      assert CallOk(s, c);
      if a.Step? && a.call == c {
        OwnStepOk(s, c);
      } else {
        BystanderOk(s, a, c);
      }
    }
  }

  lemma {:induction false} OwnStepOk(s: State, c: nat)
    requires Inv(s) && Enabled(s, Step(c))
    ensures CallOk(Perform(s, c), c)
  {
    var k := s.calls[c].key;
    assert CallOk(s, c);
    if k in s.values {
      assert EntryOk(s, k);
    }
  }

  lemma {:induction false} BystanderOk(s: State, a: Action, c: nat)
    requires Inv(s) && Enabled(s, a)
    requires c < |s.calls| && !(a.Step? && a.call == c)
    ensures CallOk(Next(s, a), c)
  {
    if a.Step? {
      StepLeavesOthers(s, a.call, c);
    } else {
      assert CallOk(s, c);
      assert s.calls[c].pc.Waiting? ==> CallOk(s, s.calls[c].pc.maker);
    }
  }

  lemma {:induction false} StepLeavesOthers(s: State, d: nat, c: nat)
    requires Inv(s) && Enabled(s, Step(d)) && c < |s.calls| && c != d
    ensures CallOk(Perform(s, d), c)
  {
    assert CallOk(s, c) && CallOk(s, d);
    assert s.calls[c].pc.Waiting? ==> CallOk(s, s.calls[c].pc.maker);
  }

  lemma {:induction false} ActionGrows(s: State, a: Action)
    requires Inv(s) && Enabled(s, a)
    ensures Grows(s, Next(s, a))
  {
    if a.Step? {
      assert CallOk(s, a.call);
    }
  }

  lemma {:induction false} GrowsTransitive(s: State, t: State, u: State)
    requires Grows(s, t) && Grows(t, u)
    ensures Grows(s, u)
  {
  }

  // ----- every run -----

  lemma {:induction false} RunInvariant(states: seq<State>, actions: seq<Action>, i: nat)
    requires IsRun(states, actions) && i < |states|
    ensures Inv(states[i])
  {
    if i > 0 {
      RunInvariant(states, actions, i - 1);
      InvPreserved(states[i - 1], actions[i - 1]);
    }
  }

  lemma {:induction false} RunGrows(states: seq<State>, actions: seq<Action>, i: nat, j: nat)
    requires IsRun(states, actions) && i <= j < |states|
    ensures Grows(states[i], states[j])
    decreases j
  {
    if i < j {
      RunGrows(states, actions, i, j - 1);
      RunInvariant(states, actions, j - 1);
      ActionGrows(states[j - 1], actions[j - 1]);
      GrowsTransitive(states[i], states[j - 1], states[j]);
    }
  }

  /** The i-th action of the run starts a constructor for key k. */
  ghost predicate StartsConstructor(states: seq<State>, actions: seq<Action>, i: nat, k: Key)
    requires IsRun(states, actions) && i < |actions|
  {
    && actions[i].Step?
    && states[i].calls[actions[i].call].key == k
    && !states[i].calls[actions[i].call].pc.Constructing?
    && states[i + 1].calls[actions[i].call].pc.Constructing?
  }

  /** Each key's constructor is started at most once in a run. */
  lemma {:induction false} ConstructorRunsOnce(states: seq<State>, actions: seq<Action>, i: nat, j: nat, k: Key)
    requires IsRun(states, actions) && i < |actions| && j < |actions|
    requires StartsConstructor(states, actions, i, k) && StartsConstructor(states, actions, j, k)
    ensures i == j
  {
    if i < j {
      RunGrows(states, actions, i + 1, j);
    } else if j < i {
      RunGrows(states, actions, j + 1, i);
    }
  }

  /** All calls of a key that return, at whatever time, return the same value. */
  lemma {:induction false} CallsAgree(states: seq<State>, actions: seq<Action>, i: nat, c: nat, j: nat, d: nat)
    requires IsRun(states, actions) && i < |states| && j < |states|
    requires c < |states[i].calls| && states[i].calls[c].pc.Returned?
    requires d < |states[j].calls| && states[j].calls[d].pc.Returned?
    requires states[i].calls[c].key == states[j].calls[d].key
    ensures states[i].calls[c].pc.value == states[j].calls[d].pc.value
  {
    var last := |states| - 1;
    ResultStays(states, actions, i, c, last);
    ResultStays(states, actions, j, d, last);
  }

  lemma {:induction false} ResultStays(states: seq<State>, actions: seq<Action>, i: nat, c: nat, j: nat)
    requires IsRun(states, actions) && i <= j < |states|
    requires c < |states[i].calls| && states[i].calls[c].pc.Returned?
    ensures states[i].calls[c].key in states[j].values
    ensures states[j].values[states[i].calls[c].key] == Constructed(states[i].calls[c].pc.value)
  {
    RunInvariant(states, actions, i);
    assert CallOk(states[i], c);
    RunGrows(states, actions, i, j);
  }

  /** What the calls of a key return is what its one constructor returned ... */
  lemma {:induction false} CallsReturnConstructed(
      states: seq<State>, actions: seq<Action>, m: nat, o: nat, v: Option<Value>, i: nat, c: nat)
    requires IsRun(states, actions) && m < |actions| && i < |states|
    requires actions[m] == ConstructorReturns(o, v)
    requires c < |states[i].calls| && states[i].calls[c].pc.Returned?
    requires states[i].calls[c].key == states[m].calls[o].key
    ensures states[i].calls[c].pc.value == v
  {
    OwnerDecides(states, actions, m + 1, o, v, false, i, c);
  }

  /** ... and nil if it panicked. */
  lemma {:induction false} CallsReturnNilAfterPanic(
      states: seq<State>, actions: seq<Action>, m: nat, o: nat, i: nat, c: nat)
    requires IsRun(states, actions) && m < |actions| && i < |states|
    requires actions[m] == ConstructorPanics(o)
    requires c < |states[i].calls| && states[i].calls[c].pc.Returned?
    requires states[i].calls[c].key == states[m].calls[o].key
    ensures states[i].calls[c].pc.value == None
  {
    OwnerDecides(states, actions, m + 1, o, None, true, i, c);
  }

  lemma {:induction false} OwnerDecides(
      states: seq<State>, actions: seq<Action>, m: nat, o: nat, v: Option<Value>, p: bool, i: nat, c: nat)
    requires IsRun(states, actions) && m < |states| && i < |states|
    requires o < |states[m].calls| && states[m].calls[o].pc == Storing(v, p)
    requires c < |states[i].calls| && states[i].calls[c].pc.Returned?
    requires states[i].calls[c].key == states[m].calls[o].key
    ensures states[i].calls[c].pc.value == v
    decreases |states| - m
  {
    RunInvariant(states, actions, m);
    assert CallOk(states[m], o);
    if i <= m {
      ResultStays(states, actions, i, c, m);
      assert false;
    }
    if actions[m] == Step(o) {
      ResultStays(states, actions, i, c, |states| - 1);
      RunGrows(states, actions, m + 1, |states| - 1);
    } else {
      OwnerStaysStoring(states[m], actions[m], o);
      OwnerDecides(states, actions, m + 1, o, v, p, i, c);
    }
  }

  lemma {:induction false} OwnerStaysStoring(s: State, a: Action, o: nat)
    requires Enabled(s, a) && a != Step(o) && o < |s.calls| && s.calls[o].pc.Storing?
    ensures Next(s, a).calls[o] == s.calls[o]
  {
  }

  /** From the constructor's end on, its call has to store, to close, and to end in the same way. */
  lemma {:induction false} OwnerEnds(
      states: seq<State>, actions: seq<Action>, m: nat, o: nat, v: Option<Value>, p: bool, i: nat)
    requires IsRun(states, actions) && m <= i < |states|
    requires o < |states[m].calls| && states[m].calls[o].pc == Storing(v, p)
    ensures o < |states[i].calls|
    ensures states[i].calls[o].pc in {Storing(v, p), Closing(v, p), if p then ConstructorPanic else Returned(v)}
    decreases i
  {
    if m < i {
      OwnerEnds(states, actions, m, o, v, p, i - 1);
      RunInvariant(states, actions, i - 1);
      assert CallOk(states[i - 1], o);
    }
  }

  /** The call is on its way out after its constructor panicked. */
  predicate Panicking(pc: Pc) {
    pc.ConstructorPanic? || ((pc.Storing? || pc.Closing?) && pc.panicking)
  }

  lemma {:induction false} PanickingBegan(states: seq<State>, actions: seq<Action>, i: nat, o: nat)
    requires IsRun(states, actions) && i < |states|
    requires o < |states[i].calls| && Panicking(states[i].calls[o].pc)
    ensures exists m :: 0 <= m < i && actions[m] == ConstructorPanics(o)
  {
    if actions[i - 1] != ConstructorPanics(o) {
      PanickingBegan(states, actions, i - 1, o);
    }
  }

  lemma {:induction false} ReturningBegan(
      states: seq<State>, actions: seq<Action>, i: nat, o: nat, v: Option<Value>)
    requires IsRun(states, actions) && i < |states|
    requires o < |states[i].calls| && states[i].calls[o].pc in {Storing(v, false), Closing(v, false)}
    ensures exists m :: 0 <= m < i && actions[m] == ConstructorReturns(o, v)
  {
    if actions[i - 1] != ConstructorReturns(o, v) {
      ReturningBegan(states, actions, i - 1, o, v);
    }
  }

  /** A call whose constructor ended ends as the constructor did; it panics with it, and only then. */
  lemma {:induction false} PanicPropagates(states: seq<State>, actions: seq<Action>, i: nat, o: nat)
    requires IsRun(states, actions) && i < |states|
    requires o < |states[i].calls| && states[i].calls[o].pc.Finished()
    ensures states[i].calls[o].pc == ConstructorPanic <==> exists m :: 0 <= m < i && actions[m] == ConstructorPanics(o)
    ensures forall m, v :: 0 <= m < i && actions[m] == ConstructorReturns(o, v) ==> states[i].calls[o].pc == Returned(v)
  {
    if states[i].calls[o].pc == ConstructorPanic {
      PanickingBegan(states, actions, i, o);
    }
    forall m | 0 <= m < i && actions[m] == ConstructorPanics(o) ensures states[i].calls[o].pc == ConstructorPanic {
      OwnerEnds(states, actions, m + 1, o, None, true, i);
    }
    forall m, v | 0 <= m < i && actions[m] == ConstructorReturns(o, v) ensures states[i].calls[o].pc == Returned(v) {
      OwnerEnds(states, actions, m + 1, o, v, false, i);
    }
  }

  /** The m-th action ends a constructor of key k with value v, which is nil if it panicked. */
  ghost predicate EndsConstructor(
      states: seq<State>, actions: seq<Action>, m: nat, k: Key, v: Option<Value>)
    requires IsRun(states, actions) && m < |actions|
  {
    && (actions[m].ConstructorReturns? || actions[m].ConstructorPanics?)
    && states[m].calls[actions[m].call].key == k
    && v == if actions[m].ConstructorReturns? then actions[m].value else None
  }

  /** No call returns a value out of nowhere. */
  lemma {:induction false} ReturnedWasConstructed(states: seq<State>, actions: seq<Action>, i: nat, c: nat)
    requires IsRun(states, actions) && i < |states|
    requires c < |states[i].calls| && states[i].calls[c].pc.Returned?
    ensures exists m ::
      0 <= m < i && EndsConstructor(states, actions, m, states[i].calls[c].key, states[i].calls[c].pc.value)
  {
    RunInvariant(states, actions, i);
    assert CallOk(states[i], c);
    StoredWasConstructed(states, actions, i, states[i].calls[c].key);
  }

  lemma {:induction false} StoredWasConstructed(states: seq<State>, actions: seq<Action>, i: nat, k: Key)
    requires IsRun(states, actions) && i < |states|
    requires k in states[i].values && states[i].values[k].Constructed?
    ensures exists m :: 0 <= m < i && EndsConstructor(states, actions, m, k, states[i].values[k].value)
  {
    var s, a := states[i - 1], actions[i - 1];
    if k in s.values && s.values[k] == states[i].values[k] {
      StoredWasConstructed(states, actions, i - 1, k);
    } else {
      RunInvariant(states, actions, i - 1);
      assert CallOk(s, a.call);
      StoringWasConstructed(states, actions, i - 1, a.call);
    }
  }

  lemma {:induction false} StoringWasConstructed(states: seq<State>, actions: seq<Action>, i: nat, o: nat)
    requires IsRun(states, actions) && i < |states|
    requires o < |states[i].calls| && states[i].calls[o].pc.Storing?
    ensures exists m ::
      0 <= m < i && EndsConstructor(states, actions, m, states[i].calls[o].key, states[i].calls[o].pc.result)
  {
    var pc := states[i].calls[o].pc;
    RunInvariant(states, actions, i);
    assert CallOk(states[i], o);
    var m: nat;
    if pc.panicking {
      PanickingBegan(states, actions, i, o);
      m :| 0 <= m < i && actions[m] == ConstructorPanics(o);
    } else {
      ReturningBegan(states, actions, i, o, pc.result);
      m :| 0 <= m < i && actions[m] == ConstructorReturns(o, pc.result);
    }
    RunGrows(states, actions, m, i);
    assert EndsConstructor(states, actions, m, states[i].calls[o].key, pc.result);
  }

  /** Get panics exactly if the key's constructor has not been started. */
  lemma {:induction false} GetPanicsExactly(states: seq<State>, actions: seq<Action>, j: nat)
    requires IsRun(states, actions) && j < |actions|
    requires actions[j].Step? && states[j].calls[actions[j].call].pc.GetLoad?
    ensures states[j + 1].calls[actions[j].call].pc.GetPanic? <==>
      !exists m :: 0 <= m < j && StartsConstructor(states, actions, m, states[j].calls[actions[j].call].key)
  {
    PresentExactly(states, actions, j, states[j].calls[actions[j].call].key);
  }

  lemma {:induction false} PresentExactly(states: seq<State>, actions: seq<Action>, i: nat, k: Key)
    requires IsRun(states, actions) && i < |states|
    ensures k in states[i].values <==> exists m :: 0 <= m < i && StartsConstructor(states, actions, m, k)
  {
    if i > 0 {
      PresentExactly(states, actions, i - 1, k);
      RunInvariant(states, actions, i - 1);
      assert actions[i - 1].Step? ==> CallOk(states[i - 1], actions[i - 1].call);
      assert k in states[i].values <==> k in states[i - 1].values || StartsConstructor(states, actions, i - 1, k);
    }
  }

  /** The m-th action begins call c, of Once or of Get, on key k. */
  ghost predicate BeginsCall(states: seq<State>, actions: seq<Action>, m: nat, c: nat, once: bool, k: Key)
    requires IsRun(states, actions) && m < |actions|
  {
    && |states[m].calls| == c
    && match actions[m]
       case BeginOnce(key) => once && key == k
       case NestOnce(_, key) => once && key == k
       case BeginGet(key) => !once && key == k
       case NestGet(_, key) => !once && key == k
       case _ => false
  }

  /** Only calls of Get panic for want of a constructed value ... */
  lemma {:induction false} OnlyGetPanics(states: seq<State>, actions: seq<Action>, i: nat, c: nat)
    requires IsRun(states, actions) && i < |states|
    requires c < |states[i].calls| && (states[i].calls[c].pc.GetLoad? || states[i].calls[c].pc.GetPanic?)
    ensures exists m :: 0 <= m < i && BeginsCall(states, actions, m, c, false, states[i].calls[c].key)
  {
    if c < |states[i - 1].calls| {
      OnlyGetPanics(states, actions, i - 1, c);
    } else {
      assert BeginsCall(states, actions, i - 1, c, false, states[i].calls[c].key);
    }
  }

  /** Where only a call of Once gets to. */
  predicate InOnce(pc: Pc) {
    pc.OnceLoad? || pc.OnceLoadOrStore? || pc.Owner() || pc.ConstructorPanic?
  }

  /** ... and only calls of Once run a constructor, or panic with it. */
  lemma {:induction false} OnlyOnceConstructs(states: seq<State>, actions: seq<Action>, i: nat, c: nat)
    requires IsRun(states, actions) && i < |states|
    requires c < |states[i].calls| && InOnce(states[i].calls[c].pc)
    ensures exists m :: 0 <= m < i && BeginsCall(states, actions, m, c, true, states[i].calls[c].key)
  {
    if c < |states[i - 1].calls| {
      OnlyOnceConstructs(states, actions, i - 1, c);
    } else {
      assert BeginsCall(states, actions, i - 1, c, true, states[i].calls[c].key);
    }
  }

  /** The "still not valid" panic and a second close of a channel are unreachable. */
  lemma {:induction false} NoInternalPanic(states: seq<State>, actions: seq<Action>, i: nat, c: nat)
    requires IsRun(states, actions) && i < |states| && c < |states[i].calls|
    ensures !states[i].calls[c].pc.NotValidPanic? && !states[i].calls[c].pc.CloseOfClosedPanic?
  {
    RunInvariant(states, actions, i);
    assert CallOk(states[i], c);
  }

  /** Once a call of a key has returned, Get on that key does not panic. */
  lemma {:induction false} GetAfterOnce(states: seq<State>, actions: seq<Action>, i: nat, c: nat, j: nat)
    requires IsRun(states, actions) && i <= j < |actions|
    requires c < |states[i].calls| && states[i].calls[c].pc.Returned?
    requires actions[j].Step? && states[j].calls[actions[j].call].pc.GetLoad?
    requires states[j].calls[actions[j].call].key == states[i].calls[c].key
    ensures !states[j + 1].calls[actions[j].call].pc.GetPanic?
  {
    ResultStays(states, actions, i, c, j);
  }

  // ----- nobody waits forever -----

  /**
   * A blocked call waits for a channel that is closed already, or that the call which made it
   * still has to close; that call works on the same key and has a step to take, unless its
   * constructor waits for a call of its own.
   */
  lemma {:induction false} WaiterIsOwedAClose(states: seq<State>, actions: seq<Action>, i: nat, c: nat)
    requires IsRun(states, actions) && i < |states| && c < |states[i].calls|
    requires states[i].calls[c].pc.Waiting?
    ensures var s := states[i];
            var o := s.calls[c].pc.maker;
            && o < |s.calls| && s.calls[o].key == s.calls[c].key
            && (o in s.closed <==> !s.calls[o].pc.Owner())
            && (o in s.closed ==> Enabled(s, Step(c)))
            && (o !in s.closed ==>
                 Enabled(s, Step(o)) || Enabled(s, ConstructorPanics(o)) || AwaitsInner(s, o))
  {
    RunInvariant(states, actions, i);
    OwedAClose(states[i], c);
  }

  /** The constructor has called Once or Get, and that call has not ended. */
  ghost predicate AwaitsInner(s: State, c: nat) {
    && c < |s.calls| && s.calls[c].pc.Constructing? && s.calls[c].pc.inner.Some?
    && var n := s.calls[c].pc.inner.value;
       c < n < |s.calls| && !s.calls[n].pc.Finished()
  }

  lemma {:induction false} OwedAClose(s: State, c: nat)
    requires Inv(s) && c < |s.calls| && s.calls[c].pc.Waiting?
    ensures var o := s.calls[c].pc.maker;
            && o < |s.calls| && s.calls[o].key == s.calls[c].key
            && (o in s.closed <==> !s.calls[o].pc.Owner())
            && (o in s.closed ==> Enabled(s, Step(c)))
            && (o !in s.closed ==>
                 Enabled(s, Step(o)) || Enabled(s, ConstructorPanics(o)) || AwaitsInner(s, o))
  {
    assert CallOk(s, c);
    assert CallOk(s, s.calls[c].pc.maker);
  }

  /** Steps a call may still take. */
  function Fuel(pc: Pc): nat {
    match pc
    case OnceLoad => 6
    case OnceLoadOrStore => 5
    case GetLoad => 5
    case Constructing(_) => 3
    case Waiting(_) => 2
    case Storing(_, _) => 2
    case Closing(_, _) => 1
    case Reloading => 1
    case _ => 0
  }

  function TotalFuel(calls: seq<Call>): nat {
    if calls == [] then 0 else Fuel(calls[0].pc) + TotalFuel(calls[1..])
  }

  lemma {:induction false} TotalFuelUpdate(calls: seq<Call>, c: nat, call: Call)
    requires c < |calls|
    ensures TotalFuel(calls[c := call]) == TotalFuel(calls) - Fuel(calls[c].pc) + Fuel(call.pc)
  {
    if c > 0 {
      assert calls[c := call][1..] == calls[1..][c - 1 := call];
      TotalFuelUpdate(calls[1..], c - 1, call);
    }
  }

  predicate Begins(a: Action) {
    a.BeginOnce? || a.BeginGet? || a.NestOnce? || a.NestGet?
  }

  /** Every action of a begun call uses up fuel: without new calls a run cannot go on forever. */
  lemma {:induction false} ActionsUseFuel(s: State, a: Action)
    requires Enabled(s, a) && !Begins(a)
    ensures TotalFuel(Next(s, a).calls) < TotalFuel(s.calls)
  {
    TotalFuelUpdate(s.calls, a.call, Next(s, a).calls[a.call]);
  }

  /** No begun call can move any more. */
  ghost predicate Quiet(s: State) {
    forall a: Action :: !Begins(a) ==> !Enabled(s, a)
  }
}
