// android/apex.go: the records that say in which APEXes a module is, and the two places where
// they are collected while the mutators run.
module ApexInfos {

  datatype SdkRef = SdkRef(name: string, version: string)

  datatype ApexInfo = ApexInfo(
    apexVariationName: string,
    minSdkVersion: int,
    updatable: bool,
    requiredSdks: seq<SdkRef>,
    inApexes: seq<string>)

  // ----- BuildForApex -----

  predicate HasName(infos: seq<ApexInfo>, name: string) {
    exists i :: 0 <= i < |infos| && infos[i].apexVariationName == name
  }

  /** The first record of a name stays; later ones are dropped. */
  function WithApex(infos: seq<ApexInfo>, apex: ApexInfo): seq<ApexInfo> {
    if HasName(infos, apex.apexVariationName) then infos else infos + [apex]
  }

  ghost predicate DistinctNames(infos: seq<ApexInfo>) {
    forall i, j :: 0 <= i < j < |infos| ==> infos[i].apexVariationName != infos[j].apexVariationName
  }

  /** A record that lists the APEX it stands for, as apexDepsMutator builds it. */
  ghost predicate SelfNamed(infos: seq<ApexInfo>) {
    forall i :: 0 <= i < |infos| ==> infos[i].inApexes == [infos[i].apexVariationName]
  }

  ghost predicate Registered(infos: seq<ApexInfo>) {
    DistinctNames(infos) && SelfNamed(infos)
  }

  lemma {:induction false} OneOfAName(infos: seq<ApexInfo>, x: ApexInfo, y: ApexInfo)
    requires DistinctNames(infos) && x in infos && y in infos && x.apexVariationName == y.apexVariationName
    ensures x == y
  {
    var i :| 0 <= i < |infos| && infos[i] == x;
    var j :| 0 <= j < |infos| && infos[j] == y;
  }

  /** ApexModuleBase. */
  class ApexModuleBase {
    var apexVariations: seq<ApexInfo>

    constructor ()
      ensures apexVariations == []
    {
      apexVariations := [];
    }

    method BuildForApex(apex: ApexInfo)
      modifies this
      ensures apexVariations == WithApex(old(apexVariations), apex)
      ensures DistinctNames(old(apexVariations)) ==> DistinctNames(apexVariations)
    {
      for i := 0 to |apexVariations|
        invariant apexVariations == old(apexVariations)
        invariant forall j :: 0 <= j < i ==> apexVariations[j].apexVariationName != apex.apexVariationName
      {
        if apexVariations[i].apexVariationName == apex.apexVariationName {
          return;
        }
      }
      apexVariations := apexVariations + [apex];
    }
  }

  // ----- apexNamesMap -----

  /** A missing entry of a Go map reads as false. */
  function Get(m: map<string, bool>, key: string): bool {
    key in m && m[key]
  }

  function SetInApexes(m: map<string, bool>, apex: ApexInfo, names: seq<string>, directDep: bool): map<string, bool>
    decreases |names|
  {
    if names == [] then m
    else SetInApexes(m[names[0] := Get(m, apex.apexVariationName) || directDep], apex, names[1..], directDep)
  }

  /** UpdateApexDependency on the entries of one module name. */
  function UpdateEntry(m: map<string, bool>, apex: ApexInfo, directDep: bool): map<string, bool> {
    var own := m[apex.apexVariationName := Get(m, apex.apexVariationName) || directDep];
    SetInApexes(own, apex, apex.inApexes, directDep)
  }

  lemma {:induction false} SetInApexesReads(
      m: map<string, bool>, apex: ApexInfo, names: seq<string>, directDep: bool, key: string)
    requires Get(m, apex.apexVariationName) == (Get(m, apex.apexVariationName) || directDep)
    ensures Get(SetInApexes(m, apex, names, directDep), key) ==
      if key in names then Get(m, apex.apexVariationName) else Get(m, key)
    decreases |names|
  {
    if names != [] {
      var m' := m[names[0] := Get(m, apex.apexVariationName) || directDep];
      SetInApexesReads(m', apex, names[1..], directDep, key);
      assert names == [names[0]] + names[1..];
    }
  }

  /** Every listed APEX gets the flag of the variation, which a direct dependency sets. */
  lemma {:induction false} UpdateEntryReads(m: map<string, bool>, apex: ApexInfo, directDep: bool, key: string)
    ensures Get(UpdateEntry(m, apex, directDep), key) ==
      if key == apex.apexVariationName || key in apex.inApexes
      then Get(m, apex.apexVariationName) || directDep
      else Get(m, key)
  {
    var own := m[apex.apexVariationName := Get(m, apex.apexVariationName) || directDep];
    SetInApexesReads(own, apex, apex.inApexes, directDep, key);
  }

  /** An update adds the variation's name and the APEXes it lists, and drops nothing. */
  lemma {:induction false} UpdateEntryKeys(m: map<string, bool>, apex: ApexInfo, directDep: bool)
    ensures UpdateEntry(m, apex, directDep).Keys ==
      m.Keys + {apex.apexVariationName} + set name | name in apex.inApexes
  {
    var own := m[apex.apexVariationName := Get(m, apex.apexVariationName) || directDep];
    SetInApexesKeys(own, apex, apex.inApexes, directDep);
  }

  lemma {:induction false} SetInApexesKeys(m: map<string, bool>, apex: ApexInfo, names: seq<string>, directDep: bool)
    ensures SetInApexes(m, apex, names, directDep).Keys == m.Keys + set name | name in names
    decreases |names|
  {
    if names != [] {
      SetInApexesKeys(m[names[0] := Get(m, apex.apexVariationName) || directDep], apex, names[1..], directDep);
      assert names == [names[0]] + names[1..];
    }
  }

  /**
   * A recorded direct dependency is never lost if and only if every listed APEX that has one is
   * covered by the variation's own flag or by this call.
   */
  lemma {:induction false} UpdateEntryLosesNothing(m: map<string, bool>, apex: ApexInfo, directDep: bool)
    ensures (forall key :: Get(m, key) ==> Get(UpdateEntry(m, apex, directDep), key)) <==>
      forall key :: key in apex.inApexes && Get(m, key) ==> Get(m, apex.apexVariationName) || directDep
  {
    forall key ensures Get(UpdateEntry(m, apex, directDep), key) ==
        if key == apex.apexVariationName || key in apex.inApexes
        then Get(m, apex.apexVariationName) || directDep
        else Get(m, key)
    {
      UpdateEntryReads(m, apex, directDep, key);
    }
  }

  /** A record that lists itself alone, which is all that apexDepsMutator passes, loses nothing. */
  lemma {:induction false} OwnNameLosesNothing(m: map<string, bool>, apex: ApexInfo, directDep: bool, key: string)
    requires apex.inApexes == [apex.apexVariationName] && Get(m, key)
    ensures Get(UpdateEntry(m, apex, directDep), key)
  {
    UpdateEntryReads(m, apex, directDep, key);
  }

  /** It can be lost: APEX "b" is listed by a variation "a" that has no direct dependency. */
  lemma {:induction false} UpdateEntryCanLose()
    ensures var a := ApexInfo("a", 0, false, [], ["b"]);
            Get(map["b" := true], "b") && !Get(UpdateEntry(map["b" := true], a, false), "b")
  {
    UpdateEntryReads(map["b" := true], ApexInfo("a", 0, false, [], ["b"]), false, "b");
  }

  /** The global map, keyed by module name and APEX name. */
  class ApexNames {
    var names: map<string, map<string, bool>>

    constructor ()
      ensures names == map[]
    {
      names := map[];
    }

    method UpdateApexDependency(apex: ApexInfo, moduleName: string, directDep: bool)
      modifies this
      ensures names == UpdateNames(old(names), apex, moduleName, directDep)
    {
      var entry := if moduleName in names then names[moduleName] else map[];
      entry := entry[apex.apexVariationName := Get(entry, apex.apexVariationName) || directDep];
      ghost var start := entry;
      for i := 0 to |apex.inApexes|
        invariant SetInApexes(entry, apex, apex.inApexes[i..], directDep) == SetInApexes(start, apex, apex.inApexes, directDep)
      {
        assert apex.inApexes[i..][1..] == apex.inApexes[i + 1..];
        entry := entry[apex.inApexes[i] := Get(entry, apex.apexVariationName) || directDep];
      }
      names := names[moduleName := entry];
    }

    method DirectlyInApex(apexName: string, moduleName: string) returns (r: bool)
      ensures r <==> moduleName in names && apexName in names[moduleName] && names[moduleName][apexName]
      ensures r == IsDirect(names, apexName, moduleName)
    {
      if moduleName in names {
        return Get(names[moduleName], apexName);
      }
      return false;
    }
  }

  function UpdateNames(
      names: map<string, map<string, bool>>, apex: ApexInfo, moduleName: string, directDep: bool)
      : map<string, map<string, bool>>
  {
    var entry := if moduleName in names then names[moduleName] else map[];
    names[moduleName := UpdateEntry(entry, apex, directDep)]
  }

  predicate IsDirect(names: map<string, map<string, bool>>, apexName: string, moduleName: string) {
    moduleName in names && Get(names[moduleName], apexName)
  }

  /** The module is built for the APEX, as a direct dependency or not. */
  predicate IsListed(names: map<string, map<string, bool>>, apexName: string, moduleName: string) {
    moduleName in names && apexName in names[moduleName]
  }
}
