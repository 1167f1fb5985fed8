// android/apex.go: mergeApexVariations and CreateApexVariations.  Registered APEXes that would
// build identically share one variation, which aliases make reachable under each APEX's name.
module ApexMerge {
  import opened Wrappers
  import opened Lists
  import opened Orders
  import opened ApexInfos
  import opened MergedNames
  import DepWalk
  import ApexDeps
  import ApexUnique

  function VariationName(i: ApexInfo): string {
    i.apexVariationName
  }

  // ----- the groups -----

  function Keys(l: seq<ApexInfo>): seq<string> {
    MapSeq(l, MergedName)
  }

  function Names(l: seq<ApexInfo>): seq<string> {
    MapSeq(l, VariationName)
  }

  /** The members of `l` with merged name `k`, in order. */
  function Group(l: seq<ApexInfo>, k: string): seq<ApexInfo> {
    if l == [] then []
    else Group(l[..|l| - 1], k) + (if MergedName(l[|l| - 1]) == k then [l[|l| - 1]] else [])
  }

  ghost predicate AnyUpdatable(l: seq<ApexInfo>) {
    exists i :: 0 <= i < |l| && l[i].updatable
  }

  /** The variation that stands for a group. */
  ghost predicate StandsFor(entry: ApexInfo, group: seq<ApexInfo>, k: string) {
    && group != []
    && entry.apexVariationName == k
    && entry.minSdkVersion == group[0].minSdkVersion
    && entry.requiredSdks == group[0].requiredSdks
    && entry.inApexes == group[0].inApexes + Names(group[1..])
    && (entry.updatable <==> AnyUpdatable(group))
  }

  /** One variation for each merged name, in the order of first occurrence. */
  ghost predicate IsMerge(l: seq<ApexInfo>, merged: seq<ApexInfo>) {
    var ks := FirstUnique(Keys(l));
    && |merged| == |ks|
    && forall i :: 0 <= i < |ks| ==> StandsFor(merged[i], Group(l, ks[i]), ks[i])
  }

  datatype Alias = Alias(name: string, target: string)

  function AliasOf(x: ApexInfo): Alias {
    Alias(x.apexVariationName, MergedName(x))
  }

  function Aliases(l: seq<ApexInfo>): seq<Alias> {
    MapSeq(l, AliasOf)
  }

  // ----- mergeApexVariations -----

  ghost predicate Indexes(seen: map<string, nat>, ks: seq<string>) {
    && (forall i :: 0 <= i < |ks| ==> ks[i] in seen && seen[ks[i]] == i)
    && (forall k :: k in seen ==> seen[k] < |ks| && ks[seen[k]] == k)
  }

  /** A variation takes in one more APEX ... */
  function Absorb(entry: ApexInfo, x: ApexInfo): ApexInfo {
    entry.(inApexes := entry.inApexes + [x.apexVariationName], updatable := entry.updatable || x.updatable)
  }

  /** ... or is made for the first APEX of its name. */
  function Found(x: ApexInfo): ApexInfo {
    x.(apexVariationName := MergedName(x))
  }

  method MergeApexVariations(apexVariations: seq<ApexInfo>) returns (merged: seq<ApexInfo>, aliases: seq<Alias>)
    ensures IsMerge(SortBy(apexVariations, VariationName), merged)
    ensures aliases == Aliases(SortBy(apexVariations, VariationName))
  {
    var sorted := SortBy(apexVariations, VariationName);
    merged, aliases := MergeSorted(sorted);
  }

  /** The loop's state after the records `l`. */
  ghost predicate Merging(l: seq<ApexInfo>, merged: seq<ApexInfo>, seen: map<string, nat>, aliases: seq<Alias>) {
    IsMerge(l, merged) && Indexes(seen, FirstUnique(Keys(l))) && aliases == Aliases(l)
  }

  method MergeSorted(sorted: seq<ApexInfo>) returns (merged: seq<ApexInfo>, aliases: seq<Alias>)
    ensures IsMerge(sorted, merged)
    ensures aliases == Aliases(sorted)
  {
    var seen: map<string, nat> := map[];
    merged, aliases := [], [];
    MergingNothing();
    ghost var done: seq<ApexInfo> := [];
    for i := 0 to |sorted|
      invariant done == sorted[..i]
      invariant Merging(done, merged, seen, aliases)
    {
      merged, seen, aliases := MergeOne(done, sorted[i], merged, seen, aliases);
      done := done + [sorted[i]];
      assert done == sorted[..i + 1];
    }
    assert done == sorted;
  }

  lemma {:induction false} MergingNothing()
    ensures Merging([], [], map[], [])
  {
    assert Keys([]) == [] && Aliases([]) == [];
  }

  /** The body of the loop; `l` is what came before. */
  method MergeOne(ghost l: seq<ApexInfo>, apexInfo: ApexInfo,
                  merged: seq<ApexInfo>, seen: map<string, nat>, aliases: seq<Alias>)
      returns (merged': seq<ApexInfo>, seen': map<string, nat>, aliases': seq<Alias>)
    requires Merging(l, merged, seen, aliases)
    ensures Merging(l + [apexInfo], merged', seen', aliases')
  {
    merged', seen' := merged, seen;
    var mergedName := MergedName(apexInfo);
    if mergedName in seen {
      MergeKnown(l, apexInfo, merged, seen);
      merged' := merged[seen[mergedName] := Absorb(merged[seen[mergedName]], apexInfo)];
    } else {
      MergeNew(l, apexInfo, merged, seen);
      seen' := seen[mergedName := |merged|];
      merged' := merged + [Found(apexInfo)];
    }
    MapSeqSnoc(l, apexInfo, AliasOf);
    aliases' := aliases + [Alias(apexInfo.apexVariationName, mergedName)];
  }

  lemma {:induction false} Snoc(l: seq<ApexInfo>, x: ApexInfo, k: string)
    ensures Keys(l + [x]) == Keys(l) + [MergedName(x)]
    ensures Names(l + [x]) == Names(l) + [x.apexVariationName]
    ensures Group(l + [x], k) == Group(l, k) + (if MergedName(x) == k then [x] else [])
  {
    MapSeqSnoc(l, x, MergedName);
    MapSeqSnoc(l, x, VariationName);
    assert (l + [x])[..|l|] == l;
  }

  lemma {:induction false} GroupOfUnknown(l: seq<ApexInfo>, k: string)
    ensures Group(l, k) == [] <==> k !in Keys(l)
  {
    if l != [] {
      GroupOfUnknown(l[..|l| - 1], k);
    }
  }

  lemma {:induction false} StandsForSnoc(entry: ApexInfo, group: seq<ApexInfo>, k: string, x: ApexInfo)
    requires StandsFor(entry, group, k)
    ensures StandsFor(Absorb(entry, x), group + [x], k)
  {
    var g := group + [x];
    assert g[0] == group[0];
    assert g[1..] == group[1..] + [x];
    Snoc(group[1..], x, k);
    assert AnyUpdatable(g) <==> AnyUpdatable(group) || x.updatable by {
      assert g[|group|] == x;
      assert forall i :: 0 <= i < |group| ==> g[i] == group[i];
    }
  }

  lemma {:induction false} StandsForSingle(x: ApexInfo)
    ensures StandsFor(Found(x), [x], MergedName(x))
  {
    assert [x][1..] == [];
    assert x.inApexes + [] == x.inApexes;
    assert [x][0] == x;
  }

  /** An entry after one more record: it absorbs a record of its name and ignores any other. */
  lemma {:induction false} EntryAfter(l: seq<ApexInfo>, x: ApexInfo, entry: ApexInfo, k: string)
    requires StandsFor(entry, Group(l, k), k)
    ensures StandsFor(if k == MergedName(x) then Absorb(entry, x) else entry, Group(l + [x], k), k)
  {
    Snoc(l, x, k);
    if k == MergedName(x) {
      StandsForSnoc(entry, Group(l, k), k, x);
    } else {
      assert Group(l, k) + [] == Group(l, k);
    }
  }

  lemma {:induction false} KnownKey(l: seq<ApexInfo>, x: ApexInfo)
    requires MergedName(x) in FirstUnique(Keys(l))
    ensures FirstUnique(Keys(l + [x])) == FirstUnique(Keys(l))
  {
    FirstUniqueElements(Keys(l));
    FirstUniqueSnoc(Keys(l), MergedName(x));
    Snoc(l, x, MergedName(x));
  }

  lemma {:induction false} MergeKnown(l: seq<ApexInfo>, x: ApexInfo, merged: seq<ApexInfo>, seen: map<string, nat>)
    requires IsMerge(l, merged) && Indexes(seen, FirstUnique(Keys(l))) && MergedName(x) in seen
    ensures FirstUnique(Keys(l + [x])) == FirstUnique(Keys(l))
    ensures seen[MergedName(x)] < |merged|
    ensures IsMerge(l + [x], merged[seen[MergedName(x)] := Absorb(merged[seen[MergedName(x)]], x)])
  {
    var j, ks := seen[MergedName(x)], FirstUnique(Keys(l));
    assert ks[j] == MergedName(x) && ks[j] in ks;
    KnownKey(l, x);
    var merged' := merged[j := Absorb(merged[j], x)];
    forall i | 0 <= i < |ks| ensures StandsFor(merged'[i], Group(l + [x], ks[i]), ks[i]) {
      assert ks[i] == MergedName(x) <==> i == j;
      EntryAfter(l, x, merged[i], ks[i]);
    }
  }

  lemma {:induction false} IndexNew(seen: map<string, nat>, ks: seq<string>, k: string)
    requires Indexes(seen, ks) && k !in seen
    ensures k !in ks && Indexes(seen[k := |ks|], ks + [k])
  {
  }

  lemma {:induction false} NewKey(l: seq<ApexInfo>, x: ApexInfo)
    requires MergedName(x) !in FirstUnique(Keys(l))
    ensures FirstUnique(Keys(l + [x])) == FirstUnique(Keys(l)) + [MergedName(x)]
    ensures Group(l + [x], MergedName(x)) == [x]
  {
    var k := MergedName(x);
    FirstUniqueElements(Keys(l));
    FirstUniqueSnoc(Keys(l), k);
    Snoc(l, x, k);
    GroupOfUnknown(l, k);
  }

  lemma {:induction false} MergeNew(l: seq<ApexInfo>, x: ApexInfo, merged: seq<ApexInfo>, seen: map<string, nat>)
    requires IsMerge(l, merged) && Indexes(seen, FirstUnique(Keys(l))) && MergedName(x) !in seen
    ensures IsMerge(l + [x], merged + [Found(x)])
    ensures Indexes(seen[MergedName(x) := |merged|], FirstUnique(Keys(l + [x])))
  {
    var k := MergedName(x);
    var ks := FirstUnique(Keys(l));
    IndexNew(seen, ks, k);
    NewKey(l, x);
    StandsForSingle(x);
    var merged' := merged + [Found(x)];
    forall i | 0 <= i < |ks| ensures StandsFor(merged'[i], Group(l + [x], ks[i]), ks[i]) {
      assert ks[i] in ks;
      EntryAfter(l, x, merged[i], ks[i]);
    }
  }

  // ----- CreateApexVariations -----

  /** The names given to CreateVariations, the ApexInfo of all but the first, and the aliases. */
  datatype Created = Created(variations: seq<string>, infos: seq<ApexInfo>, aliases: seq<Alias>)

  ghost predicate IsCreated(registered: seq<ApexInfo>, unique: bool, c: Created) {
    var sorted := SortBy(registered, VariationName);
    && c.variations == [""] + Names(c.infos)
    && if unique then c.infos == sorted && c.aliases == []
       else c.aliases == Aliases(sorted) && exists merged :: IsMerge(sorted, merged) && c.infos == SortBy(merged, VariationName)
  }

  /** `unique` is UniqueApexVariations or UniqueApexVariationsForDeps; None: nothing registered. */
  method CreateApexVariations(registered: seq<ApexInfo>, unique: bool) returns (r: Option<Created>)
    ensures r.None? <==> registered == []
    ensures r.Some? ==> IsCreated(registered, unique, r.value)
  {
    if |registered| == 0 {
      return None;
    }
    var infos, aliases := registered, [];
    if !unique {
      infos, aliases := MergeApexVariations(registered);
    }
    infos := SortBy(infos, VariationName);
    var variations := VariationNames(infos);
    r := Some(Created(variations, infos, aliases));
  }

  /** The original variation for the platform, and then one for each entry. */
  method VariationNames(infos: seq<ApexInfo>) returns (variations: seq<string>)
    ensures variations == [""] + Names(infos)
  {
    variations := [""];
    for i := 0 to |infos|
      invariant variations == [""] + Names(infos[..i])
    {
      assert infos[..i + 1] == infos[..i] + [infos[i]];
      MapSeqSnoc(infos[..i], infos[i], VariationName);
      variations := variations + [infos[i].apexVariationName];
    }
    assert infos[..|infos|] == infos;
  }

  // ----- the result is a function of the set of registered records -----

  lemma {:induction false} SortedSame(a: seq<ApexInfo>)
    ensures SameElements(SortBy(a, VariationName), a)
    ensures DistinctNames(a) ==> StrictlySortedBy(SortBy(a, VariationName), VariationName)
  {
    forall x ensures x in SortBy(a, VariationName) <==> x in a {
      SortMembers(a, VariationName, x);
    }
    if DistinctNames(a) {
      assert DistinctKeys(a, VariationName);
      DistinctKeysSortStrictly(a, VariationName);
    }
  }

  lemma {:induction false} SortIgnoresOrder(a: seq<ApexInfo>, b: seq<ApexInfo>)
    requires DistinctNames(a) && DistinctNames(b) && SameElements(a, b)
    ensures SortBy(a, VariationName) == SortBy(b, VariationName)
  {
    SortedSame(a);
    SortedSame(b);
    StrictlySortedUnique(SortBy(a, VariationName), SortBy(b, VariationName), VariationName);
  }

  lemma {:induction false} MergeIsDetermined(l: seq<ApexInfo>, a: seq<ApexInfo>, b: seq<ApexInfo>)
    requires IsMerge(l, a) && IsMerge(l, b)
    ensures a == b
  {
    var ks := FirstUnique(Keys(l));
    forall i | 0 <= i < |ks| ensures a[i] == b[i] {
      assert StandsFor(a[i], Group(l, ks[i]), ks[i]) && StandsFor(b[i], Group(l, ks[i]), ks[i]);
    }
  }

  /** The variations do not depend on the order of the BuildForApex calls. */
  lemma {:induction false} CreatedIgnoresOrder(a: seq<ApexInfo>, b: seq<ApexInfo>, unique: bool, c: Created, d: Created)
    requires DistinctNames(a) && DistinctNames(b) && SameElements(a, b)
    requires IsCreated(a, unique, c) && IsCreated(b, unique, d)
    ensures c == d
  {
    SortIgnoresOrder(a, b);
    if !unique {
      var l := SortBy(a, VariationName);
      var m :| IsMerge(l, m) && c.infos == SortBy(m, VariationName);
      var n :| IsMerge(l, n) && d.infos == SortBy(n, VariationName);
      MergeIsDetermined(l, m, n);
    }
  }

  /** What apex_deps, apex_unique and apexMutator make of a module, in this order. */
  ghost predicate IsVariants(ms: ApexDeps.Modules, marks: ApexDeps.Marks, m: DepWalk.Mod, r: Option<Created>)
    requires DepWalk.Acyclic(ms.g)
  {
    var registered := ApexDeps.VariationsOf(marks, m);
    && (r.Some? <==> ms.enabled(m) && ms.kind(m) == ApexDeps.ApexModule(true) && registered != [])
    && (r.Some? ==> IsCreated(registered, ms.unique(m) || ApexUnique.Unique(ms, marks, m), r.value))
  }

  /**
   * ... and so not on the order in which the parallel apex_deps mutators visit: each order leads
   * to its own records and its own flag, and to the same variations.
   */
  lemma {:induction false} VariantsIgnoreVisitOrder(
      ms: ApexDeps.Modules, once: bool, events: seq<ApexDeps.Event>, once': bool, events': seq<ApexDeps.Event>,
      m: DepWalk.Mod, r: Option<Created>, r': Option<Created>)
    requires DepWalk.Acyclic(ms.g)
    requires ApexDeps.AllEvents(ms, once, events) && ApexDeps.AllEvents(ms, once', events')
    requires ApexDeps.OneRecordPerName(ms, m)
    requires IsVariants(ms, ApexDeps.MarkAll(ms, events), m, r)
    requires IsVariants(ms, ApexDeps.MarkAll(ms, events'), m, r')
    ensures r == r'
  {
    var x := ApexDeps.VariationsOf(ApexDeps.MarkAll(ms, events), m);
    var y := ApexDeps.VariationsOf(ApexDeps.MarkAll(ms, events'), m);
    ApexDeps.MarkedNames(ms, events, m, "");
    ApexDeps.MarkedNames(ms, events', m, "");
    ApexDeps.OneRecordMeansSame(ms, once, events, once', events', m);
    ApexUnique.UniqueIgnoresVisitOrder(ms, once, events, once', events', m);
    EmptyTogether(x, y);
    if r.Some? {
      var unique := ms.unique(m) || ApexUnique.Unique(ms, ApexDeps.MarkAll(ms, events), m);
      CreatedIgnoresOrder(x, y, unique, r.value, r'.value);
    }
  }

  lemma {:induction false} EmptyTogether(a: seq<ApexInfo>, b: seq<ApexInfo>)
    requires SameElements(a, b)
    ensures a == [] <==> b == []
  {
    assert a != [] ==> a[0] in a;
    assert b != [] ==> b[0] in b;
  }

  // ----- the merged variations partition the APEX names -----

  lemma {:induction false} KeysMembers(l: seq<ApexInfo>, x: ApexInfo)
    requires x in l
    ensures MergedName(x) in Keys(l)
  {
    var i :| 0 <= i < |l| && l[i] == x;
    MapSeqAt(l, MergedName);
    assert Keys(l)[i] == MergedName(x);
  }

  lemma {:induction false} GroupMembers(l: seq<ApexInfo>, k: string, x: ApexInfo)
    ensures x in Group(l, k) <==> x in l && MergedName(x) == k
  {
    if l != [] {
      GroupMembers(l[..|l| - 1], k, x);
      assert l == l[..|l| - 1] + [l[|l| - 1]];
    }
  }

  lemma {:induction false} GroupDistinct(l: seq<ApexInfo>, k: string)
    requires DistinctNames(l)
    ensures DistinctNames(Group(l, k))
  {
    if l != [] {
      var init, last := l[..|l| - 1], l[|l| - 1];
      GroupDistinct(init, k);
      var g := Group(init, k);
      forall i | 0 <= i < |g| ensures g[i].apexVariationName != last.apexVariationName {
        GroupMembers(init, k, g[i]);
        assert g[i] in init;
      }
    }
  }

  /** A variation lists the names of its group ... */
  lemma {:induction false} EntryNames(l: seq<ApexInfo>, entry: ApexInfo, k: string)
    requires DistinctNames(l) && SelfNamed(l) && StandsFor(entry, Group(l, k), k)
    ensures entry.inApexes == Names(Group(l, k)) && NoDuplicates(entry.inApexes)
  {
    GroupDistinct(l, k);
    NamesUnique(Group(l, k));
    assert Group(l, k)[0] in l by {
      GroupMembers(l, k, Group(l, k)[0]);
    }
    HeadName(Group(l, k));
  }

  lemma {:induction false} NamesUnique(g: seq<ApexInfo>)
    requires DistinctNames(g)
    ensures NoDuplicates(Names(g))
  {
    MapSeqAt(g, VariationName);
  }

  lemma {:induction false} HeadName(g: seq<ApexInfo>)
    requires g != [] && g[0].inApexes == [g[0].apexVariationName]
    ensures g[0].inApexes + Names(g[1..]) == Names(g)
  {
    MapSeqAt(g, VariationName);
    MapSeqAt(g[1..], VariationName);
  }

  /** ... and agrees with each member. */
  lemma {:induction false} EntryMember(l: seq<ApexInfo>, entry: ApexInfo, k: string, x: ApexInfo)
    requires DistinctNames(l) && SelfNamed(l) && StandsFor(entry, Group(l, k), k)
    requires x in l && MergedName(x) == k
    ensures x.apexVariationName in entry.inApexes && entry.minSdkVersion == x.minSdkVersion
    ensures x.updatable ==> entry.updatable
  {
    var g := Group(l, k);
    EntryNames(l, entry, k);
    GroupMembers(l, k, x);
    GroupMembers(l, k, g[0]);
    MapSeqAt(g, VariationName);
    var i :| 0 <= i < |g| && g[i] == x;
    assert Names(g)[i] == x.apexVariationName;
    SameMergedName(x, g[0]);
  }

  lemma {:induction false} ListedIsInGroup(l: seq<ApexInfo>, k: string, name: string) returns (x: ApexInfo)
    requires name in Names(Group(l, k))
    ensures x in l && x.apexVariationName == name && MergedName(x) == k
  {
    var g := Group(l, k);
    MapSeqAt(g, VariationName);
    var i :| 0 <= i < |g| && Names(g)[i] == name;
    x := g[i];
    GroupMembers(l, k, x);
  }

  /** An APEX is listed by the variation of its merged name, and by no other. */
  lemma {:induction false} MergePartitions(l: seq<ApexInfo>, merged: seq<ApexInfo>, x: ApexInfo) returns (i: nat)
    requires DistinctNames(l) && SelfNamed(l) && IsMerge(l, merged) && x in l
    ensures i < |merged| && merged[i].apexVariationName == MergedName(x)
    ensures x.apexVariationName in merged[i].inApexes && merged[i].minSdkVersion == x.minSdkVersion
    ensures forall j :: 0 <= j < |merged| && j != i ==>
      merged[j].apexVariationName != MergedName(x) && x.apexVariationName !in merged[j].inApexes
  {
    var ks := FirstUnique(Keys(l));
    KeysMembers(l, x);
    FirstUniqueElements(Keys(l));
    i :| 0 <= i < |ks| && ks[i] == MergedName(x);
    EntryMember(l, merged[i], ks[i], x);
    forall j | 0 <= j < |merged| && j != i
      ensures merged[j].apexVariationName != MergedName(x) && x.apexVariationName !in merged[j].inApexes
    {
      EntryNames(l, merged[j], ks[j]);
      if x.apexVariationName in merged[j].inApexes {
        var y := ListedIsInGroup(l, ks[j], x.apexVariationName);
        OneOfAName(l, x, y);
      }
    }
  }

  lemma {:induction false} AliasMembers(l: seq<ApexInfo>, a: Alias)
    ensures a in Aliases(l) <==> exists x :: x in l && a == Alias(x.apexVariationName, MergedName(x))
  {
    MapSeqMembers(l, AliasOf, a);
    if i :| 0 <= i < |l| && AliasOf(l[i]) == a {
      assert l[i] in l;
    }
    if x :| x in l && a == Alias(x.apexVariationName, MergedName(x)) {
      var i :| 0 <= i < |l| && l[i] == x;
      assert AliasOf(l[i]) == a;
    }
  }

  lemma {:induction false} AliasOfName(l: seq<ApexInfo>, x: ApexInfo)
    requires DistinctNames(l) && x in l
    ensures Alias(x.apexVariationName, MergedName(x)) in Aliases(l)
    ensures forall a :: a in Aliases(l) && a.name == x.apexVariationName ==> a.target == MergedName(x)
  {
    AliasMembers(l, Alias(x.apexVariationName, MergedName(x)));
    forall a | a in Aliases(l) && a.name == x.apexVariationName ensures a.target == MergedName(x) {
      AliasMembers(l, a);
      var y :| y in l && a == Alias(y.apexVariationName, MergedName(y));
      OneOfAName(l, x, y);
    }
  }

  lemma {:induction false} SortedRegistered(l: seq<ApexInfo>)
    requires Registered(l)
    ensures Registered(SortBy(l, VariationName))
  {
    var s := SortBy(l, VariationName);
    SortedSame(l);
    forall i, j | 0 <= i < j < |s| ensures s[i].apexVariationName != s[j].apexVariationName {
      LessIrreflexive(s[i].apexVariationName);
      assert Less(VariationName(s[i]), VariationName(s[j]));
    }
    forall i | 0 <= i < |s| ensures s[i].inApexes == [s[i].apexVariationName] {
      assert s[i] in l;
    }
  }

  /** Of the created variations one lists the APEX; no other lists it or has that name. */
  lemma {:induction false} OneVariationLists(registered: seq<ApexInfo>, c: Created, x: ApexInfo)
      returns (entry: ApexInfo)
    requires Registered(registered) && IsCreated(registered, false, c) && x in registered
    ensures entry in c.infos && entry.apexVariationName == MergedName(x)
    ensures x.apexVariationName in entry.inApexes && entry.minSdkVersion == x.minSdkVersion
    ensures forall e :: e in c.infos ==>
      e.apexVariationName == entry.apexVariationName || x.apexVariationName in e.inApexes ==> e == entry
  {
    var l := SortBy(registered, VariationName);
    SortedSame(registered);
    SortedRegistered(registered);
    var merged :| IsMerge(l, merged) && c.infos == SortBy(merged, VariationName);
    SortedSame(merged);
    var i := MergePartitions(l, merged, x);
    entry := merged[i];
  }

  lemma {:induction false} CreatedName(c: Created, entry: ApexInfo)
    requires c.variations == [""] + Names(c.infos) && entry in c.infos
    ensures entry.apexVariationName in c.variations
  {
    MapSeqAt(c.infos, VariationName);
    var n :| 0 <= n < |c.infos| && c.infos[n] == entry;
    assert c.variations[n + 1] == entry.apexVariationName;
  }

  /**
   * Every registered APEX has an alias, to a variation that was created, lists the APEX and has its
   * minimum SDK version; no other created variation lists it or has that name.
   */
  lemma {:induction false} AliasLeadsToOneVariation(registered: seq<ApexInfo>, c: Created, x: ApexInfo)
      returns (entry: ApexInfo)
    requires Registered(registered) && IsCreated(registered, false, c) && x in registered
    ensures Alias(x.apexVariationName, entry.apexVariationName) in c.aliases
    ensures forall a :: a in c.aliases && a.name == x.apexVariationName ==> a.target == entry.apexVariationName
    ensures entry in c.infos && entry.apexVariationName in c.variations
    ensures x.apexVariationName in entry.inApexes && entry.minSdkVersion == x.minSdkVersion
    ensures forall e :: e in c.infos ==>
      e.apexVariationName == entry.apexVariationName || x.apexVariationName in e.inApexes ==> e == entry
  {
    entry := OneVariationLists(registered, c, x);
    CreatedName(c, entry);
    SortedSame(registered);
    SortedRegistered(registered);
    AliasOfName(SortBy(registered, VariationName), x);
  }

  /** A created variation lists each of its APEXes once, and is updatable if and only if one is. */
  lemma {:induction false} VariationIsItsGroup(registered: seq<ApexInfo>, c: Created, entry: ApexInfo)
    requires Registered(registered) && IsCreated(registered, false, c) && entry in c.infos
    ensures NoDuplicates(entry.inApexes)
    ensures forall name :: name in entry.inApexes <==>
      exists x :: x in registered && x.apexVariationName == name && MergedName(x) == entry.apexVariationName
    ensures entry.updatable <==>
      exists x :: x in registered && x.updatable && MergedName(x) == entry.apexVariationName
  {
    var l := SortBy(registered, VariationName);
    SortedSame(registered);
    SortedRegistered(registered);
    var merged :| IsMerge(l, merged) && c.infos == SortBy(merged, VariationName);
    SortedSame(merged);
    assert entry in merged;
    var i :| 0 <= i < |merged| && merged[i] == entry;
    var k := entry.apexVariationName;
    assert StandsFor(entry, Group(l, k), k);
    EntryNames(l, entry, k);
    forall name | name in entry.inApexes
      ensures exists x :: x in registered && x.apexVariationName == name && MergedName(x) == k
    {
      var x := ListedIsInGroup(l, k, name);
    }
    forall x | x in registered && MergedName(x) == k
      ensures x.apexVariationName in entry.inApexes && (x.updatable ==> entry.updatable)
    {
      EntryMember(l, entry, k, x);
    }
    if entry.updatable {
      var j :| 0 <= j < |Group(l, k)| && Group(l, k)[j].updatable;
      GroupMembers(l, k, Group(l, k)[j]);
    }
  }

  // ----- from the dependency graph to the variations -----

  /** Some created variation lists the APEX. */
  ghost predicate IsListed(c: Created, name: string) {
    exists i :: 0 <= i < |c.infos| && name in c.infos[i].inApexes
  }

  /** The created variations together list exactly the registered APEXes, merged or not. */
  lemma {:induction false} ListedExactly(registered: seq<ApexInfo>, unique: bool, c: Created, name: string)
    requires Registered(registered) && IsCreated(registered, unique, c)
    ensures IsListed(c, name) <==> HasName(registered, name)
  {
    if unique {
      SortedSame(registered);
      ListedAlone(registered, c.infos, name);
    } else {
      if i :| 0 <= i < |c.infos| && name in c.infos[i].inApexes {
        VariationIsItsGroup(registered, c, c.infos[i]);
        var x :| x in registered && x.apexVariationName == name;
        assert HasName(registered, name);
      }
      if i :| 0 <= i < |registered| && registered[i].apexVariationName == name {
        var entry := AliasLeadsToOneVariation(registered, c, registered[i]);
        assert IsListed(c, name);
      }
    }
  }

  lemma {:induction false} ListedAlone(registered: seq<ApexInfo>, infos: seq<ApexInfo>, name: string)
    requires SelfNamed(registered) && SameElements(infos, registered)
    ensures (exists i :: 0 <= i < |infos| && name in infos[i].inApexes) <==> HasName(registered, name)
  {
    if i :| 0 <= i < |infos| && name in infos[i].inApexes {
      assert infos[i] in infos;
      var j :| 0 <= j < |registered| && registered[j] == infos[i];
    }
    if j :| 0 <= j < |registered| && registered[j].apexVariationName == name {
      assert registered[j] in registered;
      var i :| 0 <= i < |infos| && infos[i] == registered[j];
    }
  }

  /**
   * After all three mutators a module has APEX variations exactly if it is enabled, can have them
   * and is in some APEX; the variations list the names of exactly the bundles that contain it.
   */
  lemma {:induction false} VariantsExactly(
      ms: ApexDeps.Modules, once: bool, events: seq<ApexDeps.Event>, m: DepWalk.Mod, r: Option<Created>)
    requires DepWalk.Acyclic(ms.g) && ApexDeps.AllEvents(ms, once, events)
    requires IsVariants(ms, ApexDeps.MarkAll(ms, events), m, r)
    ensures r.Some? <==>
      ms.enabled(m) && ms.kind(m) == ApexDeps.ApexModule(true) && exists a :: ApexDeps.Contains(ms, a, m)
    ensures r.Some? ==> forall name ::
      IsListed(r.value, name) <==> exists a :: ApexDeps.Contains(ms, a, m) && ms.name(a) == name
  {
    var registered := ApexDeps.VariationsOf(ApexDeps.MarkAll(ms, events), m);
    forall name: string
      ensures HasName(registered, name) <==> exists a :: ApexDeps.Contains(ms, a, m) && ms.name(a) == name
    {
      ApexDeps.RegisteredExactly(ms, once, events, m, name);
    }
    assert registered != [] ==> HasName(registered, registered[0].apexVariationName);
    if a :| ApexDeps.Contains(ms, a, m) {
      assert HasName(registered, ms.name(a));
    }
    if r.Some? {
      ApexDeps.MarkedAreRegistered(ms, events, m);
      var unique := ms.unique(m) || ApexUnique.Unique(ms, ApexDeps.MarkAll(ms, events), m);
      forall name: string ensures IsListed(r.value, name) <==> HasName(registered, name) {
        ListedExactly(registered, unique, r.value, name);
      }
    }
  }

  /** They are merged, and so have aliases, exactly if the module needs no unique variations. */
  lemma {:induction false} MergedExactly(
      ms: ApexDeps.Modules, once: bool, events: seq<ApexDeps.Event>, m: DepWalk.Mod, c: Created)
    requires DepWalk.Acyclic(ms.g) && ApexDeps.AllEvents(ms, once, events)
    requires IsVariants(ms, ApexDeps.MarkAll(ms, events), m, Some(c))
    ensures c.aliases == [] <==>
      ms.unique(m) || exists chain :: ApexUnique.GraphChain(ms, chain) && chain[0] == m
  {
    var registered := ApexDeps.VariationsOf(ApexDeps.MarkAll(ms, events), m);
    ApexUnique.UniqueFromGraph(ms, once, events, m);
    SortedSame(registered);
    EmptyTogether(SortBy(registered, VariationName), registered);
    MapSeqAt(SortBy(registered, VariationName), AliasOf);
  }
}
