// android/visibility.go: the rules in effect for a module, the enforcer's test, and the printed
// form of the effective rules, which other build files read back.
module EffectiveVisibility {
  import opened Wrappers
  import opened Lists
  import opened CleanPaths
  import opened Visibility
  import opened VisibilityLists

  // ----- looking up the rules of a module -----

  type RuleMap = map<Qualified, seq<Rule>>

  function LastSlash(s: string): (k: int)
    ensures -1 <= k < |s|
    ensures k >= 0 ==> s[k] == '/'
    ensures forall m :: k < m < |s| ==> s[m] != '/'
  {
    if s == [] then -1
    else if s[|s| - 1] == '/' then |s| - 1
    else LastSlash(s[..|s| - 1])
  }

  /** The containing package; "" is the root. */
  function ParentPackage(pkg: string): string {
    if LastSlash(pkg) == -1 then "" else pkg[..LastSlash(pkg)]
  }

  /** The default of the nearest package at or above `pkg`, or nil. */
  function NearestDefault(rules: RuleMap, pkg: string): Option<seq<Rule>>
    decreases |pkg|
  {
    if Qualified(pkg, "") in rules then Some(rules[Qualified(pkg, "")])
    else if pkg == "" then None
    else NearestDefault(rules, ParentPackage(pkg))
  }

  method PackageDefaultVisibility(rules: RuleMap, pkg: string) returns (r: Option<seq<Rule>>)
    ensures r == NearestDefault(rules, pkg)
  {
    var id := pkg;
    while true
      invariant NearestDefault(rules, id) == NearestDefault(rules, pkg)
      decreases |id|
    {
      if Qualified(id, "") in rules {
        return Some(rules[Qualified(id, "")]);
      }
      if id == "" {
        return None;
      }
      id := ParentPackage(id);
    }
  }

  function EffectiveRules(rules: RuleMap, q: Qualified): Option<seq<Rule>> {
    if q in rules then Some(rules[q]) else NearestDefault(rules, q.pkg)
  }

  /** What visibilityRuleEnforcer lets pass: m may depend on q. */
  predicate Admits(rules: RuleMap, q: Qualified, m: Qualified) {
    q.pkg == m.pkg || EffectiveRules(rules, q).None? || AnyMatches(EffectiveRules(rules, q).value, m)
  }

  ghost predicate AtOrAbove(p: string, pkg: string) {
    p == "" || Split(p) <= Split(pkg)
  }

  /** The nearest package at or above that has a default. */
  ghost predicate IsNearestDefault(rules: RuleMap, pkg: string, p: string) {
    && AtOrAbove(p, pkg) && Qualified(p, "") in rules
    && forall n :: AtOrAbove(n, pkg) && Qualified(n, "") in rules ==> AtOrAbove(n, p)
  }

  /** A package has one component more than the package that contains it. */
  lemma {:induction false} ParentComponents(pkg: string)
    ensures LastSlash(pkg) == -1 ==> Split(pkg) == [pkg]
    ensures LastSlash(pkg) >= 0 ==> Split(pkg) == Split(ParentPackage(pkg)) + [pkg[LastSlash(pkg) + 1..]]
  {
    var k := LastSlash(pkg);
    if k == -1 {
      SplitWhole(pkg);
    } else {
      var last := pkg[k + 1..];
      assert pkg == pkg[..k] + "/" + last;
      SplitConcat(pkg[..k], last);
      SplitWhole(last);
    }
  }

  lemma {:induction false} SameComponents(p: string, q: string)
    ensures Split(p) == Split(q) <==> p == q
  {
    JoinSplit(p);
    JoinSplit(q);
  }

  lemma {:induction false} ParentIsNextAbove(pkg: string, p: string)
    requires pkg != ""
    ensures AtOrAbove(p, pkg) <==> p == pkg || AtOrAbove(p, ParentPackage(pkg))
  {
    ParentComponents(pkg);
    SameComponents(p, pkg);
    if LastSlash(pkg) == -1 {
      PrefixOfSingle(Split(p), pkg);
      assert Split("") == [""];
      PrefixOfSingle(Split(p), "");
      SameComponents(p, "");
    } else {
      PrefixOfSnoc(Split(p), Split(ParentPackage(pkg)), pkg[LastSlash(pkg) + 1..]);
    }
  }

  lemma {:induction false} PrefixOfSingle(a: seq<string>, x: string)
    requires a != []
    ensures a <= [x] <==> a == [x]
  {
  }

  lemma {:induction false} PrefixOfSnoc(a: seq<string>, b: seq<string>, x: string)
    ensures a <= b + [x] <==> a <= b || a == b + [x]
  {
    if a <= b + [x] && |a| <= |b| {
      assert a == (b + [x])[..|a|] == b[..|a|];
    }
  }

  /** Nil if and only if no package at or above has a default. */
  lemma {:induction false} NoDefaultAbove(rules: RuleMap, pkg: string)
    ensures NearestDefault(rules, pkg).None? <==> forall p :: AtOrAbove(p, pkg) ==> Qualified(p, "") !in rules
    decreases |pkg|
  {
    if pkg == "" {
      forall p | AtOrAbove(p, "") ensures p == "" {
        JoinSplit(p);
        assert Split("") == [""];
        PrefixOfSingle(Split(p), "");
      }
    } else {
      NoDefaultAbove(rules, ParentPackage(pkg));
      forall p ensures AtOrAbove(p, pkg) <==> p == pkg || AtOrAbove(p, ParentPackage(pkg)) {
        ParentIsNextAbove(pkg, p);
      }
    }
  }

  /** A default found belongs to a package at or above, and nothing nearer has one. */
  lemma {:induction false} DefaultIsNearest(rules: RuleMap, pkg: string) returns (p: string)
    requires NearestDefault(rules, pkg).Some?
    ensures IsNearestDefault(rules, pkg, p) && NearestDefault(rules, pkg) == Some(rules[Qualified(p, "")])
    decreases |pkg|
  {
    if Qualified(pkg, "") in rules {
      p := pkg;
    } else {
      p := DefaultIsNearest(rules, ParentPackage(pkg));
      ParentIsNextAbove(pkg, p);
      forall n | AtOrAbove(n, pkg) && Qualified(n, "") in rules ensures AtOrAbove(n, p) {
        ParentIsNextAbove(pkg, n);
      }
    }
  }

  /** Two packages above the same one are both nearest only if they are the same. */
  lemma {:induction false} NearestIsUnique(rules: RuleMap, pkg: string, p: string, p': string)
    requires IsNearestDefault(rules, pkg, p) && IsNearestDefault(rules, pkg, p')
    ensures p == p'
  {
    assert AtOrAbove(p, p') && AtOrAbove(p', p);
    SameComponents(p, p');
    EmptyIsTop(p);
    EmptyIsTop(p');
  }

  lemma {:induction false} EmptyIsTop(p: string)
    ensures AtOrAbove(p, "") <==> p == ""
  {
    assert Split("") == [""];
    PrefixOfSingle(Split(p), "");
    SameComponents(p, "");
  }

  ghost predicate SomeCovers(rules: seq<Rule>, m: Qualified) {
    exists i :: 0 <= i < |rules| && Covers(rules[i], m)
  }

  /** The default of the nearest package that has one covers the module, or there is none. */
  ghost predicate DefaultAdmits(rules: RuleMap, pkg: string, m: Qualified) {
    forall p :: IsNearestDefault(rules, pkg, p) ==> SomeCovers(rules[Qualified(p, "")], m)
  }

  /**
   * Who may depend on a module: its own package; whom its own rules cover, if it has rules;
   * otherwise whom the default of the nearest package covers, and everybody if there is none.
   */
  lemma {:induction false} AdmitsExactly(rules: RuleMap, q: Qualified, m: Qualified)
    ensures Admits(rules, q, m) <==>
      q.pkg == m.pkg || (if q in rules then SomeCovers(rules[q], m) else DefaultAdmits(rules, q.pkg, m))
  {
    if q in rules {
      AnyMatchesExactly(rules[q], m);
    } else if NearestDefault(rules, q.pkg).Some? {
      var p := DefaultIsNearest(rules, q.pkg);
      AnyMatchesExactly(rules[Qualified(p, "")], m);
      forall p' | IsNearestDefault(rules, q.pkg, p') ensures p' == p {
        NearestIsUnique(rules, q.pkg, p, p');
      }
    } else {
      NoDefaultAbove(rules, q.pkg);
    }
  }

  /** effectiveVisibilityRules. */
  method Effective(rules: RuleMap, q: Qualified) returns (r: Option<seq<Rule>>)
    ensures r == EffectiveRules(rules, q)
  {
    if q in rules {
      return Some(rules[q]);
    }
    r := PackageDefaultVisibility(rules, q.pkg);
  }

  /** visibilityRuleEnforcer on one dependency; None is the panic of a nil rule. */
  method MayDepend(rules: RuleMap, q: Qualified, m: Qualified) returns (r: Option<bool>)
    ensures r.Some? ==> r.value == Admits(rules, q, m)
    ensures r.None? ==> q.pkg != m.pkg && EffectiveRules(rules, q).Some? && NilRule in EffectiveRules(rules, q).value
  {
    if q.pkg == m.pkg {
      return Some(true);
    }
    var rule := Effective(rules, q);
    if rule.None? {
      return Some(true);
    }
    AnyMatchesExactly(rule.value, m);
    r := CompositeMatches(rule.value, m);
  }

  // ----- EffectiveVisibilityRules -----

  /** The rules that are printed: the module's own package is added where it is not implied. */
  function Explicit(rule: seq<Rule>, q: Qualified): seq<Rule> {
    if AnyMatches(rule, q) then rule
    else (if rule == [PrivateRule] then [] else rule) + [PackageRule(q.pkg)]
  }

  function Strings(rules: seq<Rule>): seq<string> {
    MapSeq(rules, RuleString)
  }

  /** What is printed; without any rule that is nothing. */
  function Printed(rules: RuleMap, q: Qualified): seq<string> {
    match EffectiveRules(rules, q)
    case None => []
    case Some(rule) => Strings(Explicit(rule, q))
  }

  /** EffectiveVisibilityRules; None is the panic of a nil rule. */
  method EffectiveVisibilityRules(rules: RuleMap, q: Qualified) returns (r: Option<seq<string>>)
    ensures r.Some? ==> r.value == Printed(rules, q)
    ensures r.None? ==> EffectiveRules(rules, q).Some? && NilRule in EffectiveRules(rules, q).value
  {
    var found := Effective(rules, q);
    if found.None? {
      return Some([]);
    }
    var rule := found.value;
    AnyMatchesExactly(rule, q);
    var matches := CompositeMatches(rule, q);
    if matches.None? {
      return None;
    }
    if !matches.value {
      if |rule| == 1 && rule[0] == PrivateRule {
        rule := [];
      }
      rule := rule + [PackageRule(q.pkg)];
    }
    assert rule == Explicit(found.value, q);
    return Some(Strings(rule));
  }

  /** A rule whose printed form is read as the rule. */
  ghost predicate Readable(r: Rule) {
    match r
    case NilRule => false
    case PackageRule(p) => IsPackage(p) && p != "visibility"
    case SubpackagesRule(p) => IsPackage(p) && p != "visibility"
    case PublicRule => true
    case PrivateRule => true
  }

  ghost predicate AllReadable(rules: seq<Rule>) {
    forall i :: 0 <= i < |rules| ==> Readable(rules[i])
  }

  lemma {:induction false} WordIsPackage(w: string)
    requires IsName(w)
    ensures IsPackage(w)
  {
    SplitWhole(w);
  }

  lemma {:induction false} PrintedKeyword(pkg: string, name: string, p: string)
    requires pkg == "visibility" && IsName(name)
    ensures SplitRule("//" + pkg + ":" + name, p) == Some(Split2(pkg, name))
  {
    assert '/' !in pkg && ':' !in pkg;
    WordIsPackage(pkg);
    SplitNamed(pkg, name, p);
  }

  /** Exactly the readable rules are read back from their printed form. */
  lemma {:induction false} PrintedRuleIsRead(r: Rule, p: string)
    ensures RuleFor(RuleString(r), p) == Some(r) <==> Readable(r)
    ensures Readable(r) ==> !IsOverride(RuleString(r), p)
  {
    if Readable(r) {
      ReadablePrinted(r, p);
    } else if RuleFor(RuleString(r), p) == Some(r) {
      SplitHasPackage(RuleString(r), p);
    }
  }

  lemma {:induction false} SplitHasPackage(rule: string, p: string)
    requires "//" <= rule && SplitRule(rule, p).Some?
    ensures IsPackage(SplitRule(rule, p).value.pkg)
  {
    var body := rule[2..];
    assert body[..|body|] == body;
  }

  lemma {:induction false} ReadablePrinted(r: Rule, p: string)
    requires Readable(r)
    ensures RuleFor(RuleString(r), p) == Some(r) && !IsOverride(RuleString(r), p)
  {
    match r
    case PackageRule(pkg) => SplitPackage(pkg, p);
    case SubpackagesRule(pkg) =>
      assert IsName("__subpackages__");
      SplitNamed(pkg, "__subpackages__", p);
    case PublicRule =>
      assert IsName("public");
      PrintedKeyword("visibility", "public", p);
    case PrivateRule =>
      assert IsName("private");
      PrintedKeyword("visibility", "private", p);
  }

  lemma {:induction false} NoOverrideAmong(vs: seq<string>, p: string)
    requires forall i :: 0 <= i < |vs| ==> !IsOverride(vs[i], p)
    ensures !HasOverride(vs, p) && AfterOverride(vs, p) == vs
  {
    if vs != [] {
      var n := |vs| - 1;
      NoOverrideAmong(vs[..n], p);
      assert vs == vs[..n] + [vs[n]];
    }
  }

  lemma {:induction false} EntriesAreRead(vs: seq<string>, rules: seq<Rule>, p: string)
    requires |vs| == |rules| && forall i :: 0 <= i < |rules| ==> RuleFor(vs[i], p) == Some(rules[i])
    ensures RulesFor(vs, p) == rules
  {
    if vs != [] {
      var n := |vs| - 1;
      EntriesAreRead(vs[..n], rules[..n], p);
      assert rules == rules[..n] + [rules[n]];
    }
  }

  /** Printed rules are read back, in whatever package they are read. */
  lemma {:induction false} PrintedRulesParse(rules: seq<Rule>, p: string)
    requires AllReadable(rules)
    ensures ParsedRules(Strings(rules), p) == Some(Combined(rules))
  {
    var vs := Strings(rules);
    MapSeqAt(rules, RuleString);
    forall i | 0 <= i < |rules| ensures RuleFor(vs[i], p) == Some(rules[i]) && !IsOverride(vs[i], p) {
      PrintedRuleIsRead(rules[i], p);
    }
    NoOverrideAmong(vs, p);
    EntriesAreRead(vs, rules, p);
  }

  ghost predicate SameModules(rules: seq<Rule>, rule: seq<Rule>, q: Qualified) {
    forall m: Qualified :: AnyMatches(rules, m) <==> m.pkg == q.pkg || AnyMatches(rule, m)
  }

  lemma {:induction false} AppendMatches(rule: seq<Rule>, r: Rule, m: Qualified)
    ensures AnyMatches(rule + [r], m) <==> AnyMatches(rule, m) || Matches(r, m)
  {
    var all := rule + [r];
    assert all[|rule|] == r;
    assert forall i :: 0 <= i < |rule| ==> all[i] == rule[i];
  }

  lemma {:induction false} CombinedOfPackages(rules: seq<Rule>)
    requires AllPackages(rules)
    ensures Combined(rules) == rules
  {
  }

  /** Package and subpackage rules, with the own package added if need be. */
  lemma {:induction false} PackagesExplicit(rule: seq<Rule>, q: Qualified)
    requires AllPackages(rule)
    ensures SameModules(Combined(Explicit(rule, q)), rule, q)
  {
    var e := Explicit(rule, q);
    assert rule != [] ==> rule[0] != PrivateRule;
    CombinedOfPackages(e);
    forall m: Qualified ensures AnyMatches(e, m) <==> m.pkg == q.pkg || AnyMatches(rule, m) {
      if AnyMatches(rule, q) {
        if m.pkg == q.pkg {
          MatchesByPackage(rule, q, m);
        }
      } else {
        AppendMatches(rule, PackageRule(q.pkg), m);
      }
    }
  }

  /** Rules look at the package of a module alone. */
  lemma {:induction false} MatchesByPackage(rule: seq<Rule>, q: Qualified, m: Qualified)
    requires AnyMatches(rule, q) && m.pkg == q.pkg
    ensures AnyMatches(rule, m)
  {
    var i :| 0 <= i < |rule| && Matches(rule[i], q);
    assert Matches(rule[i], m);
  }

  lemma {:induction false} OnePrivateExplicit(q: Qualified)
    ensures SameModules(Combined(Explicit([PrivateRule], q)), [PrivateRule], q)
  {
    assert !AnyMatches([PrivateRule], q);
    var e := Explicit([PrivateRule], q);
    assert e == [] + [PackageRule(q.pkg)];
    CombinedOfPackages(e);
    forall m: Qualified ensures AnyMatches(e, m) <==> m.pkg == q.pkg || AnyMatches([PrivateRule], m) {
      AppendMatches([], PackageRule(q.pkg), m);
    }
  }

  lemma {:induction false} ManyPrivateExplicit(rule: seq<Rule>, q: Qualified)
    requires AllPrivate(rule) && |rule| >= 2
    ensures Combined(Explicit(rule, q)) == [PrivateRule]
    ensures !SameModules(Combined(Explicit(rule, q)), rule, q)
  {
    var e := Explicit(rule, q);
    assert !AnyMatches(rule, q);
    assert e == rule + [PackageRule(q.pkg)];
    assert e[0] == PrivateRule && e[|rule|] == PackageRule(q.pkg);
    assert !AnyMatches([PrivateRule], q);
  }

  /** Such a rule arises: two accepted lists with one private entry each, put one after the other. */
  lemma {:induction false} TwoPrivateArise(a: Source, b: Source, p: string)
    requires a.list == b.list == [RuleString(PrivateRule)]
    ensures AcceptedSource(a) && AcceptedSource(b)
    ensures ParsedRules(Flat([a, b]), p) == Some([PrivateRule, PrivateRule])
  {
    PrivateIsAccepted(a.list[0], a.pkg);
    PrivateIsAccepted(b.list[0], b.pkg);
    FlatOfTwo(a, b);
    StringsOfTwo(PrivateRule);
    PrintedPrivateParse([PrivateRule, PrivateRule], p);
  }

  lemma {:induction false} StringsOfTwo(r: Rule)
    ensures Strings([r, r]) == [RuleString(r)] + [RuleString(r)]
  {
    MapSeqAt([r, r], RuleString);
  }

  lemma {:induction false} PrintedPrivateParse(rules: seq<Rule>, p: string)
    requires AllPrivate(rules)
    ensures ParsedRules(Strings(rules), p) == Some(rules)
  {
    PrintedRulesParse(rules, p);
  }

  lemma {:induction false} FlatOfTwo(a: Source, b: Source)
    ensures Flat([a, b]) == a.list + b.list
  {
    assert [a, b][1..] == [b] && [b][1..] == [];
    assert Flat([b]) == b.list + [];
  }

  lemma {:induction false} PrivateIsAccepted(v: string, p: string)
    requires v == RuleString(PrivateRule)
    ensures Accepted([v], p)
  {
    assert IsName("private");
    PrintedKeyword("visibility", "private", p);
    KeywordsAreNotVendor();
    assert EntryOk([v], 0, p);
  }

  lemma {:induction false} ExplicitSameModules(rule: seq<Rule>, q: Qualified)
    requires Shaped(rule)
    ensures SameModules(Combined(Explicit(rule, q)), rule, q) <==> !(|rule| >= 2 && AllPrivate(rule))
  {
    if AllPackages(rule) {
      PackagesExplicit(rule, q);
      assert rule != [] ==> rule[0] != PrivateRule;
    } else if rule == [PublicRule] {
      assert Matches(rule[0], q);
      assert forall m: Qualified :: Matches(rule[0], m);
    } else if |rule| >= 2 {
      ManyPrivateExplicit(rule, q);
    } else {
      assert rule == [PrivateRule];
      OnePrivateExplicit(q);
    }
  }

  /**
   * Reading back the printed effective rules, from any package, gives a rule that matches exactly
   * the modules the enforcer admits, if and only if the rule does not hold two private entries.
   */
  lemma {:induction false} PrintedRulesRoundTrip(rule: seq<Rule>, q: Qualified, p: string)
    requires Shaped(rule) && AllReadable(rule) && Readable(PackageRule(q.pkg))
    ensures ParsedRules(Strings(Explicit(rule, q)), p).Some?
    ensures SameModules(ParsedRules(Strings(Explicit(rule, q)), p).value, rule, q) <==>
      !(|rule| >= 2 && AllPrivate(rule))
  {
    assert AllReadable(Explicit(rule, q));
    PrintedRulesParse(Explicit(rule, q), p);
    ExplicitSameModules(rule, q);
  }

  // ----- from checked lists to the enforcer -----

  /** The rule that the gatherer makes of lists that passed checkRules, in a package. */
  ghost predicate GatheredFrom(rule: seq<Rule>, pkg: string, sources: seq<Source>) {
    (forall i :: 0 <= i < |sources| ==> AcceptedSource(sources[i])) && ParsedRules(Flat(sources), pkg) == Some(rule)
  }

  ghost predicate Gathered(rules: RuleMap) {
    forall k :: k in rules ==>
      Readable(PackageRule(k.pkg)) && exists sources :: GatheredFrom(rules[k], k.pkg, sources)
  }

  /** A package that an entry names is well formed, or it is the package where the entry is read. */
  lemma {:induction false} MadeRuleIsReadable(v: string, pkg: string)
    requires Readable(PackageRule(pkg))
    ensures RuleFor(v, pkg).Some? && RuleFor(v, pkg).value != NilRule ==> Readable(RuleFor(v, pkg).value)
  {
    if "//" <= v && SplitRule(v, pkg).Some? {
      SplitHasPackage(v, pkg);
    }
  }

  lemma {:induction false} GatheredIsReadable(rule: seq<Rule>, pkg: string, sources: seq<Source>)
    requires GatheredFrom(rule, pkg, sources) && Readable(PackageRule(pkg))
    ensures Shaped(rule) && AllReadable(rule)
  {
    var made := RulesFor(AfterOverride(Flat(sources), pkg), pkg);
    AcceptedListsParseShaped(sources, pkg);
    NilRuleExactly(sources, pkg);
    MadeAreReadable(AfterOverride(Flat(sources), pkg), pkg);
    CombinedIsReadable(made);
  }

  lemma {:induction false} MadeAreReadable(list: seq<string>, pkg: string)
    requires Readable(PackageRule(pkg)) && NilRule !in RulesFor(list, pkg)
    ensures AllReadable(RulesFor(list, pkg))
  {
    var made := RulesFor(list, pkg);
    forall i | 0 <= i < |made| ensures Readable(made[i]) {
      var v := RulesForMembers(list, pkg, made[i]);
      MadeRuleIsReadable(v, pkg);
    }
  }

  lemma {:induction false} CombinedIsReadable(rules: seq<Rule>)
    requires AllReadable(rules)
    ensures AllReadable(Combined(rules))
  {
  }

  lemma {:induction false} EffectiveIsStored(rules: RuleMap, q: Qualified) returns (k: Qualified)
    requires EffectiveRules(rules, q).Some?
    ensures k in rules && EffectiveRules(rules, q) == Some(rules[k])
  {
    if q in rules {
      k := q;
    } else {
      var p := DefaultIsNearest(rules, q.pkg);
      k := Qualified(p, "");
    }
  }

  /** The enforcer never meets a nil rule in what was gathered from checked lists. */
  lemma {:induction false} GatheredHasNoNil(rules: RuleMap, q: Qualified)
    requires Gathered(rules) && EffectiveRules(rules, q).Some?
    ensures NilRule !in EffectiveRules(rules, q).value
  {
    var k := EffectiveIsStored(rules, q);
    var sources :| GatheredFrom(rules[k], k.pkg, sources);
    GatheredIsReadable(rules[k], k.pkg, sources);
  }

  /** The printed rules, read back in package `p`, match exactly what the enforcer admits. */
  ghost predicate PrintedAdmitTheSame(rules: RuleMap, q: Qualified, p: string) {
    MatchAdmitted(ListOf(ParsedRules(Printed(rules, q), p)), rules, q)
  }

  ghost predicate MatchAdmitted(read: seq<Rule>, rules: RuleMap, q: Qualified) {
    forall m: Qualified :: AnyMatches(read, m) <==> Admits(rules, q, m)
  }

  lemma {:induction false} SameModulesAreAdmitted(read: seq<Rule>, rules: RuleMap, q: Qualified)
    requires EffectiveRules(rules, q).Some?
    ensures MatchAdmitted(read, rules, q) <==> SameModules(read, EffectiveRules(rules, q).value, q)
  {
    var rule := EffectiveRules(rules, q).value;
    forall m: Qualified ensures Admits(rules, q, m) <==> m.pkg == q.pkg || AnyMatches(rule, m) {
    }
  }

  /** Everybody may depend on a module without any rule; nothing is printed for it, which admits nobody. */
  lemma {:induction false} NothingPrintedAdmitsNobody(rules: RuleMap, q: Qualified, p: string)
    requires EffectiveRules(rules, q).None?
    ensures !PrintedAdmitTheSame(rules, q, p)
  {
    assert Admits(rules, q, q);
    assert RulesFor(AfterOverride([], p), p) == [];
    assert !AnyMatches([], q);
  }

  /**
   * For rules gathered from checked lists, other build files admit exactly the modules that the
   * enforcer admits here if and only if there is an effective rule and it is not two or more
   * private entries.
   */
  lemma {:induction false} PrintedRulesAdmitTheSame(rules: RuleMap, q: Qualified, p: string)
    requires Gathered(rules) && Readable(PackageRule(q.pkg))
    ensures PrintedAdmitTheSame(rules, q, p) <==>
      match EffectiveRules(rules, q)
      case None => false
      case Some(rule) => !(|rule| >= 2 && AllPrivate(rule))
  {
    if EffectiveRules(rules, q).None? {
      NothingPrintedAdmitsNobody(rules, q, p);
    } else {
      var k := EffectiveIsStored(rules, q);
      var sources :| GatheredFrom(rules[k], k.pkg, sources);
      GatheredIsReadable(rules[k], k.pkg, sources);
      PrintedRulesRoundTrip(rules[k], q, p);
      SameModulesAreAdmitted(ParsedRules(Strings(Explicit(rules[k], q)), p).value, rules, q);
    }
  }
}
