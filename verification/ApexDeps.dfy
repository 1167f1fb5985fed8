// apex/apex.go: apexDepsMutator marks everything that each APEX bundle contains.  The bundles'
// walks run in parallel; their marks may arrive in any order.
module ApexDeps {
  import opened Lists
  import opened DepWalk
  import opened ApexInfos

  /** An APEX bundle, an ApexModule, which may or may not have APEX variants, or anything else. */
  datatype Kind = Bundle(vndk: bool) | ApexModule(canHaveVariants: bool) | Other

  datatype Modules = Modules(
    g: Graph,
    kind: Mod -> Kind,
    name: Mod -> string,
    enabled: Mod -> bool,
    sameApex: Visit -> bool,  // the parent's DepIsInSameApex on this dependency
    minSdkVersion: Mod -> int,
    requiredSdks: Mod -> seq<SdkRef>,
    updatable: Mod -> bool,
    unique: Mod -> bool)      // UniqueApexVariations
  {
    /** The record that the bundle's mutator hands out. */
    function Info(a: Mod): ApexInfo {
      ApexInfo(name(a), minSdkVersion(a), updatable(a), requiredSdks(a), [name(a)])
    }

    /** The bundles for which the mutator walks. */
    predicate Walks(a: Mod) {
      enabled(a) && kind(a) == Bundle(false)
    }

    /** The visiting function's answer. */
    predicate Admits(v: Visit) {
      kind(v.child) == ApexModule(true) && sameApex(v)
    }

    function Visitor(): Visit -> bool {
      v => Admits(v)
    }

    ghost function Log(a: Mod, once: bool): seq<Visit>
      requires Acyclic(g)
    {
      WalkFrom(g, a, 0, Walk({}, []), DecideBy(Visitor()), once).log
    }
  }

  /** One admitted visit in the walk of one bundle. */
  datatype Event = Event(apex: Mod, visit: Visit)

  /** All admitted visits of all bundles' walks, in any order. */
  ghost predicate AllEvents(ms: Modules, once: bool, events: seq<Event>)
    requires Acyclic(ms.g)
  {
    forall a, v :: Event(a, v) in events <==>
      ms.Walks(a) && v in ms.Log(a, once) && Taken(ms.g, ms.Visitor(), v)
  }

  function OfApex(a: Mod): Event -> bool {
    (e: Event) => e.apex == a
  }

  function NotOfApex(a: Mod): Event -> bool {
    (e: Event) => e.apex != a
  }

  function TakenVisits(ms: Modules): Visit -> bool {
    v => Taken(ms.g, ms.Visitor(), v)
  }

  function InWalkOf(a: Mod): Visit -> Event {
    v => Event(a, v)
  }

  /** The events of one bundle's walk, in their order. */
  ghost function EventsOf(ms: Modules, once: bool, a: Mod): seq<Event>
    requires Acyclic(ms.g)
  {
    if ms.Walks(a)
    then MapSeq(Filter(ms.Log(a, once), TakenVisits(ms)), InWalkOf(a))
    else []
  }

  /** An execution: the walks of the bundles interleaved, each in its own order. */
  ghost predicate Interleaving(ms: Modules, once: bool, events: seq<Event>)
    requires Acyclic(ms.g)
  {
    forall a :: Filter(events, OfApex(a)) == EventsOf(ms, once, a)
  }

  /** The walks of the bundles one after the other. */
  ghost function InTurn(ms: Modules, once: bool, bundles: seq<Mod>): seq<Event>
    requires Acyclic(ms.g)
  {
    if bundles == [] then [] else EventsOf(ms, once, bundles[0]) + InTurn(ms, once, bundles[1..])
  }

  /** That is an execution too. */
  lemma {:induction false} InTurnInterleaves(ms: Modules, once: bool, bundles: seq<Mod>)
    requires Acyclic(ms.g) && NoDuplicates(bundles) && forall a :: ms.Walks(a) ==> a in bundles
    ensures Interleaving(ms, once, InTurn(ms, once, bundles))
  {
    forall a ensures Filter(InTurn(ms, once, bundles), OfApex(a)) == EventsOf(ms, once, a) {
      InTurnOf(ms, once, bundles, a);
    }
  }

  lemma {:induction false} InTurnOf(ms: Modules, once: bool, bundles: seq<Mod>, a: Mod)
    requires Acyclic(ms.g) && NoDuplicates(bundles)
    ensures Filter(InTurn(ms, once, bundles), OfApex(a)) == if a in bundles then EventsOf(ms, once, a) else []
  {
    if bundles != [] {
      var b := bundles[0];
      assert bundles == [b] + bundles[1..];
      InTurnOf(ms, once, bundles[1..], a);
      FilterConcat(EventsOf(ms, once, b), InTurn(ms, once, bundles[1..]), OfApex(a));
      EventsOfApex(ms, once, b);
      if a == b {
        FilterAll(EventsOf(ms, once, b), OfApex(a));
      } else {
        FilterNone(EventsOf(ms, once, b), OfApex(a));
      }
    }
  }

  lemma {:induction false} EventsOfApex(ms: Modules, once: bool, a: Mod)
    requires Acyclic(ms.g)
    ensures forall e :: e in EventsOf(ms, once, a) ==> e.apex == a
  {
    if ms.Walks(a) {
      MapSeqAt(Filter(ms.Log(a, once), TakenVisits(ms)), InWalkOf(a));
    }
  }

  lemma {:induction false} InterleavingIsAllEvents(ms: Modules, once: bool, events: seq<Event>)
    requires Acyclic(ms.g) && Interleaving(ms, once, events)
    ensures AllEvents(ms, once, events)
  {
    forall a, v ensures Event(a, v) in events <==>
      ms.Walks(a) && v in ms.Log(a, once) && Taken(ms.g, ms.Visitor(), v)
    {
      FilterMembers(events, OfApex(a));
      assert Filter(events, OfApex(a)) == EventsOf(ms, once, a);
      EventsOfMembers(ms, once, a, v);
    }
  }

  lemma {:induction false} EventsOfMembers(ms: Modules, once: bool, a: Mod, v: Visit)
    requires Acyclic(ms.g)
    ensures Event(a, v) in EventsOf(ms, once, a) <==>
      ms.Walks(a) && v in ms.Log(a, once) && Taken(ms.g, ms.Visitor(), v)
  {
    if ms.Walks(a) {
      FilterMembers(ms.Log(a, once), TakenVisits(ms));
      InWalkMembers(a, Filter(ms.Log(a, once), TakenVisits(ms)), v);
    }
  }

  lemma {:induction false} InWalkMembers(a: Mod, visits: seq<Visit>, v: Visit)
    ensures Event(a, v) in MapSeq(visits, InWalkOf(a)) <==> v in visits
  {
    MapSeqMembers(visits, InWalkOf(a), Event(a, v));
  }

  // ----- what the marks add up to -----

  datatype Marks = Marks(variations: map<Mod, seq<ApexInfo>>, names: map<string, map<string, bool>>)

  function VariationsOf(marks: Marks, m: Mod): seq<ApexInfo> {
    if m in marks.variations then marks.variations[m] else []
  }

  function Mark(ms: Modules, marks: Marks, e: Event): Marks {
    var info, child := ms.Info(e.apex), e.visit.child;
    Marks(
      marks.variations[child := WithApex(VariationsOf(marks, child), info)],
      UpdateNames(marks.names, info, ms.name(child), ms.kind(e.visit.parent).Bundle?))
  }

  function MarkAll(ms: Modules, events: seq<Event>): Marks {
    if events == [] then Marks(map[], map[])
    else Mark(ms, MarkAll(ms, events[..|events| - 1]), events[|events| - 1])
  }

  /** The variations of a module carry the names of the APEXes that marked it. */
  lemma {:induction false} MarkedNames(ms: Modules, events: seq<Event>, m: Mod, name: string)
    ensures DistinctNames(VariationsOf(MarkAll(ms, events), m))
    ensures HasName(VariationsOf(MarkAll(ms, events), m), name) <==>
      exists e :: e in events && e.visit.child == m && ms.name(e.apex) == name
  {
    if events != [] {
      var init, last := events[..|events| - 1], events[|events| - 1];
      assert events == init + [last];
      MarkedNames(ms, init, m, name);
      var before := VariationsOf(MarkAll(ms, init), m);
      if last.visit.child == m {
        var infos := WithApex(before, ms.Info(last.apex));
        assert infos == VariationsOf(MarkAll(ms, events), m);
        BuiltNames(before, ms.Info(last.apex), name);
      }
      assert last in events;
    }
  }

  lemma {:induction false} BuiltNames(infos: seq<ApexInfo>, apex: ApexInfo, name: string)
    requires DistinctNames(infos)
    ensures DistinctNames(WithApex(infos, apex))
    ensures HasName(WithApex(infos, apex), name) <==> HasName(infos, name) || apex.apexVariationName == name
  {
    var r := infos + [apex];
    if !HasName(infos, apex.apexVariationName) {
      assert r[|infos|].apexVariationName == apex.apexVariationName;
      assert forall i :: 0 <= i < |infos| ==> r[i] == infos[i];
    }
  }

  /** ... and each is the record of such an APEX. */
  lemma {:induction false} MarkedInfos(ms: Modules, events: seq<Event>, m: Mod, i: nat)
    requires i < |VariationsOf(MarkAll(ms, events), m)|
    ensures exists e :: e in events && e.visit.child == m && ms.Info(e.apex) == VariationsOf(MarkAll(ms, events), m)[i]
  {
    var init, last := events[..|events| - 1], events[|events| - 1];
    assert events == init + [last];
    if last.visit.child == m && i == |VariationsOf(MarkAll(ms, init), m)| {
      assert last in events;
    } else {
      MarkedInfos(ms, init, m, i);
    }
  }

  ghost predicate MarksDirect(ms: Modules, e: Event, apexName: string, moduleName: string) {
    ms.name(e.apex) == apexName && ms.name(e.visit.child) == moduleName && ms.kind(e.visit.parent).Bundle?
  }

  lemma {:induction false} MarkDirect(ms: Modules, marks: Marks, e: Event, apexName: string, moduleName: string)
    ensures IsDirect(Mark(ms, marks, e).names, apexName, moduleName) <==>
      IsDirect(marks.names, apexName, moduleName) || MarksDirect(ms, e, apexName, moduleName)
  {
    var k := ms.name(e.visit.child);
    var entry := if k in marks.names then marks.names[k] else map[];
    UpdateEntryReads(entry, ms.Info(e.apex), ms.kind(e.visit.parent).Bundle?, apexName);
  }

  lemma {:induction false} MarkedDirect(ms: Modules, events: seq<Event>, apexName: string, moduleName: string)
    ensures IsDirect(MarkAll(ms, events).names, apexName, moduleName) <==>
      exists e :: e in events && MarksDirect(ms, e, apexName, moduleName)
  {
    if events != [] {
      var init, last := events[..|events| - 1], events[|events| - 1];
      assert events == init + [last];
      MarkedDirect(ms, init, apexName, moduleName);
      MarkDirect(ms, MarkAll(ms, init), last, apexName, moduleName);
      assert last in events;
    }
  }

  /** The names of a bundle and of a module. */
  ghost predicate AreNamed(ms: Modules, a: Mod, m: Mod, apexName: string, moduleName: string) {
    ms.name(a) == apexName && ms.name(m) == moduleName
  }

  lemma {:induction false} MarkListed(ms: Modules, marks: Marks, e: Event, apexName: string, moduleName: string)
    ensures IsListed(Mark(ms, marks, e).names, apexName, moduleName) <==>
      IsListed(marks.names, apexName, moduleName) || AreNamed(ms, e.apex, e.visit.child, apexName, moduleName)
  {
    var k := ms.name(e.visit.child);
    var entry := if k in marks.names then marks.names[k] else map[];
    UpdateEntryKeys(entry, ms.Info(e.apex), ms.kind(e.visit.parent).Bundle?);
  }

  lemma {:induction false} MarkedListed(ms: Modules, events: seq<Event>, apexName: string, moduleName: string)
    ensures IsListed(MarkAll(ms, events).names, apexName, moduleName) <==>
      exists e :: e in events && AreNamed(ms, e.apex, e.visit.child, apexName, moduleName)
  {
    if events != [] {
      var init, last := events[..|events| - 1], events[|events| - 1];
      assert events == init + [last];
      MarkedListed(ms, init, apexName, moduleName);
      MarkListed(ms, MarkAll(ms, init), last, apexName, moduleName);
      assert last in events;
    }
  }

  /** The shared state and the closure that the mutator passes to WalkDeps. */
  class Marker {
    var variations: map<Mod, seq<ApexInfo>>
    var names: map<string, map<string, bool>>

    constructor ()
      ensures variations == map[] && names == map[]
    {
      variations, names := map[], map[];
    }

    method Visit(ms: Modules, a: Mod, v: Visit) returns (recurse: bool)
      requires ms.g.android(v.child) && ms.g.android(v.parent)
      modifies this
      ensures recurse <==> ms.kind(v.child) == ApexModule(true) && ms.sameApex(v)
      ensures recurse == Taken(ms.g, ms.Visitor(), v)
      ensures recurse ==> Marks(variations, names) == Mark(ms, old(Marks(variations, names)), Event(a, v))
      ensures !recurse ==> unchanged(this)
    {
      if ms.kind(v.child) != ApexModule(true) {
        return false;
      }
      if !ms.sameApex(v) {
        return false;
      }
      var directDep := ms.kind(v.parent).Bundle?;
      names := UpdateNames(names, ms.Info(a), ms.name(v.child), directDep);
      var known := if v.child in variations then variations[v.child] else [];
      variations := variations[v.child := WithApex(known, ms.Info(a))];
      return true;
    }
  }

  // ----- the closed form -----

  /** A dependency between android modules, on a module with APEX variants, that stays in the APEX. */
  ghost predicate StaysInApex(ms: Modules, v: Visit) {
    && Edge(v.child, v.tag) in ms.g.deps(v.parent)
    && ms.g.android(v.parent) && ms.g.android(v.child)
    && ms.kind(v.child) == ApexModule(true) && ms.sameApex(v)
  }

  /** One or more such dependencies, each starting where the one before ended, from `a` to `m`. */
  ghost predicate ApexPath(ms: Modules, a: Mod, path: seq<Visit>, m: Mod) {
    && path != []
    && path[0].parent == a
    && path[|path| - 1].child == m
    && (forall i, j :: 0 <= i < j < |path| && j == i + 1 ==> path[j].parent == path[i].child)
    && (forall i :: 0 <= i < |path| ==> StaysInApex(ms, path[i]))
  }

  /** `a` is an enabled bundle, not a VNDK one, and the module is in it. */
  ghost predicate Contains(ms: Modules, a: Mod, m: Mod) {
    ms.enabled(a) && ms.kind(a) == Bundle(false) && exists path :: ApexPath(ms, a, path, m)
  }

  lemma {:induction false} ChainIsPath(ms: Modules, a: Mod, path: seq<Visit>, m: Mod)
    requires path != []
    ensures Chain(ms.g, ms.Visitor(), a, path, m) <==> ApexPath(ms, a, path, m)
    decreases |path|
  {
    var n := |path| - 1;
    var init, v := path[..n], path[n];
    assert StaysInApex(ms, v) <==> IsVisitable(ms.g, v) && Taken(ms.g, ms.Visitor(), v);
    if n > 0 {
      ChainIsPath(ms, a, init, v.parent);
      assert forall i :: 0 <= i < n ==> path[i] == init[i];
    }
  }

  lemma {:induction false} EventMeansContains(ms: Modules, once: bool, events: seq<Event>, e: Event)
    requires Acyclic(ms.g) && AllEvents(ms, once, events) && e in events
    ensures Contains(ms, e.apex, e.visit.child) && StaysInApex(ms, e.visit)
    ensures Reached(ms.g, ms.Visitor(), e.apex, e.visit.parent)
  {
    assert Event(e.apex, e.visit) == e;
    WalkVisitsReached(ms.g, ms.Visitor(), e.apex, once, e.visit);
    var path :| Chain(ms.g, ms.Visitor(), e.apex, path, e.visit.parent);
    assert (path + [e.visit])[..|path|] == path;
    ChainIsPath(ms, e.apex, path + [e.visit], e.visit.child);
  }

  lemma {:induction false} ContainsMeansEvent(ms: Modules, once: bool, events: seq<Event>, a: Mod, m: Mod)
      returns (e: Event)
    requires Acyclic(ms.g) && AllEvents(ms, once, events) && Contains(ms, a, m)
    ensures e in events && e.apex == a && e.visit.child == m
  {
    var path :| ApexPath(ms, a, path, m);
    ChainIsPath(ms, a, path, m);
    e := Event(a, path[|path| - 1]);
    WalkVisitsReached(ms.g, ms.Visitor(), a, once, e.visit);
  }

  /**
   * In whatever order the visits of all bundles' walks occur, a module ends up registered under
   * exactly the names of the bundles that contain it.
   */
  lemma {:induction false} RegisteredExactly(ms: Modules, once: bool, events: seq<Event>, m: Mod, name: string)
    requires Acyclic(ms.g) && AllEvents(ms, once, events)
    ensures HasName(VariationsOf(MarkAll(ms, events), m), name) <==>
      exists a :: Contains(ms, a, m) && ms.name(a) == name
  {
    MarkedNames(ms, events, m, name);
    if e :| e in events && e.visit.child == m && ms.name(e.apex) == name {
      EventMeansContains(ms, once, events, e);
    }
    if a :| Contains(ms, a, m) && ms.name(a) == name {
      var e := ContainsMeansEvent(ms, once, events, a, m);
    }
  }

  /** The record of a bundle says what the bundle does, and lists the bundle alone. */
  ghost predicate IsRecordOf(ms: Modules, info: ApexInfo, a: Mod) {
    && info.apexVariationName == ms.name(a) && info.inApexes == [ms.name(a)]
    && info.minSdkVersion == ms.minSdkVersion(a) && info.requiredSdks == ms.requiredSdks(a)
    && info.updatable == ms.updatable(a)
  }

  /** The bundles agree in everything that their records say besides the name. */
  ghost predicate Agree(ms: Modules, a: Mod, b: Mod) {
    && ms.minSdkVersion(a) == ms.minSdkVersion(b) && ms.requiredSdks(a) == ms.requiredSdks(b)
    && ms.updatable(a) == ms.updatable(b)
  }

  /** Bundles of one name that contain the module agree. */
  ghost predicate OneRecordPerName(ms: Modules, m: Mod) {
    forall a, b :: Contains(ms, a, m) && Contains(ms, b, m) && ms.name(a) == ms.name(b) ==> Agree(ms, a, b)
  }

  /** Then a module's records are those of the bundles that contain it. */
  lemma {:induction false} InfosExactly(ms: Modules, once: bool, events: seq<Event>, m: Mod, info: ApexInfo)
    requires Acyclic(ms.g) && AllEvents(ms, once, events) && OneRecordPerName(ms, m)
    ensures info in VariationsOf(MarkAll(ms, events), m) <==>
      exists a :: Contains(ms, a, m) && IsRecordOf(ms, info, a)
  {
    var infos := VariationsOf(MarkAll(ms, events), m);
    if i :| 0 <= i < |infos| && infos[i] == info {
      var a := RecordHasBundle(ms, once, events, m, i);
    }
    if a :| Contains(ms, a, m) && IsRecordOf(ms, info, a) {
      ContainedIsRecorded(ms, once, events, m, info, a);
    }
  }

  lemma {:induction false} ContainedIsRecorded(
      ms: Modules, once: bool, events: seq<Event>, m: Mod, info: ApexInfo, a: Mod)
    requires Acyclic(ms.g) && AllEvents(ms, once, events) && OneRecordPerName(ms, m)
    requires Contains(ms, a, m) && IsRecordOf(ms, info, a)
    ensures info in VariationsOf(MarkAll(ms, events), m)
  {
    var infos := VariationsOf(MarkAll(ms, events), m);
    RegisteredExactly(ms, once, events, m, info.apexVariationName);
    var i :| 0 <= i < |infos| && infos[i].apexVariationName == info.apexVariationName;
    var b := RecordHasBundle(ms, once, events, m, i);
    RecordDetermined(ms, info, a, infos[i], b);
  }

  lemma {:induction false} RecordDetermined(ms: Modules, info: ApexInfo, a: Mod, info': ApexInfo, b: Mod)
    requires IsRecordOf(ms, info, a) && IsRecordOf(ms, info', b) && ms.name(a) == ms.name(b) && Agree(ms, a, b)
    ensures info == info'
  {
  }

  lemma {:induction false} RecordHasBundle(ms: Modules, once: bool, events: seq<Event>, m: Mod, i: nat) returns (a: Mod)
    requires Acyclic(ms.g) && AllEvents(ms, once, events) && i < |VariationsOf(MarkAll(ms, events), m)|
    ensures Contains(ms, a, m) && IsRecordOf(ms, VariationsOf(MarkAll(ms, events), m)[i], a)
  {
    MarkedInfos(ms, events, m, i);
    var e :| e in events && e.visit.child == m && ms.Info(e.apex) == VariationsOf(MarkAll(ms, events), m)[i];
    EventMeansContains(ms, once, events, e);
    a := e.apex;
  }

  /** What the mutators leave behind has distinct names and lists itself. */
  lemma {:induction false} MarkedAreRegistered(ms: Modules, events: seq<Event>, m: Mod)
    ensures Registered(VariationsOf(MarkAll(ms, events), m))
  {
    var infos := VariationsOf(MarkAll(ms, events), m);
    MarkedNames(ms, events, m, "");
    forall i | 0 <= i < |infos| ensures infos[i].inApexes == [infos[i].apexVariationName] {
      MarkedInfos(ms, events, m, i);
    }
  }

  // ----- when the order of the visits matters -----

  lemma {:induction false} RecordsStay(ms: Modules, before: seq<Event>, after: seq<Event>, m: Mod, info: ApexInfo)
    requires info in VariationsOf(MarkAll(ms, before), m)
    ensures info in VariationsOf(MarkAll(ms, before + after), m)
  {
    if after == [] {
      assert before + after == before;
    } else {
      var n := |after| - 1;
      RecordsStay(ms, before, after[..n], m, info);
      assert (before + after)[..|before + after| - 1] == before + after[..n];
    }
  }

  /** A bundle that marks a module before all others has its record there to the end. */
  lemma {:induction false} FirstWalkIsRecorded(ms: Modules, a: Mod, walk: seq<Event>, rest: seq<Event>, e: Event)
    requires (forall f :: f in walk ==> f.apex == a) && e in walk
    ensures ms.Info(a) in VariationsOf(MarkAll(ms, walk + rest), e.visit.child)
  {
    var m := e.visit.child;
    var infos := VariationsOf(MarkAll(ms, walk), m);
    MarkedNames(ms, walk, m, ms.name(a));
    var i :| 0 <= i < |infos| && infos[i].apexVariationName == ms.name(a);
    MarkedInfos(ms, walk, m, i);
    RecordsStay(ms, walk, rest, m, ms.Info(a));
  }

  /** The execution in which the walk of `a` comes first. */
  function WalkFirst(events: seq<Event>, a: Mod): seq<Event> {
    Filter(events, OfApex(a)) + Filter(events, NotOfApex(a))
  }

  lemma {:induction false} WalkFirstInterleaves(ms: Modules, once: bool, events: seq<Event>, a: Mod)
    requires Acyclic(ms.g) && Interleaving(ms, once, events)
    ensures Interleaving(ms, once, WalkFirst(events, a))
  {
    forall b ensures Filter(WalkFirst(events, a), OfApex(b)) == EventsOf(ms, once, b) {
      WalkFirstKeepsWalks(events, a, b);
    }
  }

  lemma {:induction false} WalkFirstKeepsWalks(events: seq<Event>, a: Mod, b: Mod)
    ensures Filter(WalkFirst(events, a), OfApex(b)) == Filter(events, OfApex(b))
  {
    var none := (e: Event) => false;
    FilterConcat(Filter(events, OfApex(a)), Filter(events, NotOfApex(a)), OfApex(b));
    if a == b {
      FilterTwice(events, OfApex(a), OfApex(b), OfApex(b));
      FilterTwice(events, NotOfApex(a), OfApex(b), none);
    } else {
      FilterTwice(events, OfApex(a), OfApex(b), none);
      FilterTwice(events, NotOfApex(a), OfApex(b), OfApex(b));
    }
    FilterNone(events, none);
  }

  ghost predicate SameRecords(ms: Modules, events: seq<Event>, events': seq<Event>, m: Mod) {
    SameElements(VariationsOf(MarkAll(ms, events), m), VariationsOf(MarkAll(ms, events'), m))
  }

  lemma {:induction false} OneRecordMeansSame(
      ms: Modules, once: bool, events: seq<Event>, once': bool, events': seq<Event>, m: Mod)
    requires Acyclic(ms.g) && AllEvents(ms, once, events) && AllEvents(ms, once', events') && OneRecordPerName(ms, m)
    ensures SameRecords(ms, events, events', m)
  {
    forall info: ApexInfo
      ensures info in VariationsOf(MarkAll(ms, events), m) <==> info in VariationsOf(MarkAll(ms, events'), m)
    {
      InfosExactly(ms, once, events, m, info);
      InfosExactly(ms, once', events', m, info);
    }
  }

  ghost predicate OrderIsIrrelevant(ms: Modules, once: bool, events: seq<Event>, m: Mod)
    requires Acyclic(ms.g)
  {
    forall events' :: Interleaving(ms, once, events') ==> SameRecords(ms, events, events', m)
  }

  /**
   * The set of a module's records is the same for every interleaving of the walks exactly if it
   * is one per name.
   */
  lemma {:induction false} OrderIsIrrelevantExactly(ms: Modules, once: bool, events: seq<Event>, m: Mod)
    requires Acyclic(ms.g) && Interleaving(ms, once, events)
    ensures OrderIsIrrelevant(ms, once, events, m) <==> OneRecordPerName(ms, m)
  {
    InterleavingIsAllEvents(ms, once, events);
    if OneRecordPerName(ms, m) {
      forall events' | Interleaving(ms, once, events') ensures SameRecords(ms, events, events', m) {
        InterleavingIsAllEvents(ms, once, events');
        OneRecordMeansSame(ms, once, events, once, events', m);
      }
    }
    if OrderIsIrrelevant(ms, once, events, m) {
      forall a, b | Contains(ms, a, m) && Contains(ms, b, m) && ms.name(a) == ms.name(b) ensures Agree(ms, a, b) {
        NamesakesAgree(ms, once, events, m, a, b);
      }
    }
  }

  lemma {:induction false} NamesakesAgree(ms: Modules, once: bool, events: seq<Event>, m: Mod, a: Mod, b: Mod)
    requires Acyclic(ms.g) && Interleaving(ms, once, events) && AllEvents(ms, once, events)
    requires OrderIsIrrelevant(ms, once, events, m)
    requires Contains(ms, a, m) && Contains(ms, b, m) && ms.name(a) == ms.name(b)
    ensures Agree(ms, a, b)
  {
    EachIsRecorded(ms, once, events, m, a);
    EachIsRecorded(ms, once, events, m, b);
    MarkedNames(ms, events, m, "");
    OneOfAName(VariationsOf(MarkAll(ms, events), m), ms.Info(a), ms.Info(b));
  }

  lemma {:induction false} EachIsRecorded(ms: Modules, once: bool, events: seq<Event>, m: Mod, a: Mod)
    requires Acyclic(ms.g) && Interleaving(ms, once, events) && AllEvents(ms, once, events)
    requires OrderIsIrrelevant(ms, once, events, m) && Contains(ms, a, m)
    ensures ms.Info(a) in VariationsOf(MarkAll(ms, events), m)
  {
    var e := ContainsMeansEvent(ms, once, events, a, m);
    FilterMembers(events, OfApex(a));
    FirstWalkIsRecorded(ms, a, Filter(events, OfApex(a)), Filter(events, NotOfApex(a)), e);
    WalkFirstInterleaves(ms, once, events, a);
    assert SameRecords(ms, events, WalkFirst(events, a), m);
  }

  /** A bundle is never the parent of an admitted visit except where the walk starts. */
  lemma {:induction false} BundleIsStart(ms: Modules, a: Mod, path: seq<Visit>, m: Mod)
    requires Chain(ms.g, ms.Visitor(), a, path, m) && ms.kind(m).Bundle?
    ensures m == a
  {
  }

  /** A dependency of an enabled bundle itself, not a VNDK one, that stays in the APEX. */
  ghost predicate DirectDep(ms: Modules, v: Visit, apexName: string, moduleName: string) {
    && ms.enabled(v.parent) && ms.kind(v.parent) == Bundle(false) && StaysInApex(ms, v)
    && ms.name(v.parent) == apexName && ms.name(v.child) == moduleName
  }

  /** DirectlyInApex holds exactly for the modules that the bundle itself depends on. */
  lemma {:induction false} DirectExactly(
      ms: Modules, once: bool, events: seq<Event>, apexName: string, moduleName: string)
    requires Acyclic(ms.g) && AllEvents(ms, once, events)
    ensures IsDirect(MarkAll(ms, events).names, apexName, moduleName) <==>
      exists v: Visit :: DirectDep(ms, v, apexName, moduleName)
  {
    MarkedDirect(ms, events, apexName, moduleName);
    if e :| e in events && MarksDirect(ms, e, apexName, moduleName) {
      EventMeansContains(ms, once, events, e);
      var path :| Chain(ms.g, ms.Visitor(), e.apex, path, e.visit.parent);
      BundleIsStart(ms, e.apex, path, e.visit.parent);
      assert DirectDep(ms, e.visit, apexName, moduleName);
    }
    if v: Visit :| DirectDep(ms, v, apexName, moduleName) {
      assert Chain(ms.g, ms.Visitor(), v.parent, [], v.parent);
      WalkVisitsReached(ms.g, ms.Visitor(), v.parent, once, v);
      assert MarksDirect(ms, Event(v.parent, v), apexName, moduleName);
    }
  }

  /** The map has an entry at all exactly for the modules that are built for an APEX of that name. */
  lemma {:induction false} ListedExactly(
      ms: Modules, once: bool, events: seq<Event>, apexName: string, moduleName: string)
    requires Acyclic(ms.g) && AllEvents(ms, once, events)
    ensures IsListed(MarkAll(ms, events).names, apexName, moduleName) <==>
      exists a, m :: Contains(ms, a, m) && AreNamed(ms, a, m, apexName, moduleName)
  {
    MarkedListed(ms, events, apexName, moduleName);
    if a, m :| Contains(ms, a, m) && AreNamed(ms, a, m, apexName, moduleName) {
      var e := ContainsMeansEvent(ms, once, events, a, m);
    } else if e :| e in events && AreNamed(ms, e.apex, e.visit.child, apexName, moduleName) {
      EventMeansContains(ms, once, events, e);
    }
  }
}
