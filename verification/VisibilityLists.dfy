// android/visibility.go: which lists checkRules accepts, and what parsing concatenations of accepted
// lists can give.
module VisibilityLists {
  import opened Wrappers
  import opened CleanPaths
  import opened Visibility

  // ----- checkRules -----

  predicate AllowedFromOutsideVendor(pkg: string, name: string) {
    if pkg == "vendor" then name == "__subpackages__" else !IsAncestor("vendor", pkg)
  }

  /** Packages in //vendor: vendor itself and what lies below it. */
  ghost predicate InVendor(pkg: string) {
    Split(pkg)[0] == "vendor"
  }

  lemma {:induction false} VendorIsFirst(pkg: string)
    ensures IsAncestor("vendor", pkg) <==> InVendor(pkg)
  {
    AncestorIsComponentPrefix("vendor", pkg);
    SplitWhole("vendor");
    assert ["vendor"] <= Split(pkg) <==> Split(pkg)[0] == "vendor";
  }

  /** Outside vendor, only the whole of vendor may be named. */
  lemma {:induction false} AllowedExactly(pkg: string, name: string)
    ensures AllowedFromOutsideVendor(pkg, name) <==>
      !InVendor(pkg) || (pkg == "vendor" && name == "__subpackages__")
  {
    VendorIsFirst(pkg);
    SplitWhole("vendor");
  }

  /** An entry that names a part of vendor, in a package outside vendor. */
  ghost predicate PeeksIntoVendor(currentPkg: string, s: Split2) {
    !InVendor(currentPkg) && InVendor(s.pkg) && !(s.pkg == "vendor" && s.name == "__subpackages__")
  }

  predicate IsKeyword(s: Split2) {
    s.pkg == "visibility"
  }

  /** What an accepted list may have at position i. */
  ghost predicate EntryOk(list: seq<string>, i: nat, pkg: string)
    requires i < |list|
  {
    match SplitRule(list[i], pkg)
    case None => false
    case Some(s) =>
      && (IsKeyword(s) ==> KeywordOk(list, i, pkg, s.name))
      && !PeeksIntoVendor(pkg, s)
  }

  /** override comes first; private and public are alone, but for a leading override. */
  predicate KeywordOk(list: seq<string>, i: nat, pkg: string, name: string)
    requires i < |list|
  {
    if name == "override" then i == 0
    else (name == "private" || name == "public") && RuleCount(list, i, pkg) == 1
  }

  function RuleCount(list: seq<string>, i: nat, pkg: string): int
    requires i <= |list|
  {
    |list| - (if i > 0 && IsOverride(list[0], pkg) then 1 else 0)
  }

  ghost predicate Accepted(list: seq<string>, pkg: string) {
    list != [] && AcceptedBefore(list, |list|, pkg)
  }

  datatype CheckError = EmptyList | Malformed | LegacyPublic | Unrecognized | OverrideNotFirst | CannotMix | OutsideVendor

  /** When entry `i`, with `count` rules left of the list's, is reported, and how. */
  ghost predicate Reports(pkg: string, v: string, i: nat, count: int, e: CheckError) {
    match SplitRule(v, pkg)
    case None => e == Malformed
    case Some(s) => (IsKeyword(s) && KeywordReports(s.name, i, count, e)) || (e == OutsideVendor && PeeksIntoVendor(pkg, s))
  }

  predicate KeywordReports(name: string, i: nat, count: int, e: CheckError) {
    match e
    case LegacyPublic => name == "legacy_public"
    case Unrecognized => name != "private" && name != "public" && name != "override" && name != "legacy_public"
    case OverrideNotFirst => name == "override" && i != 0
    case CannotMix => (name == "private" || name == "public") && count != 1
    case _ => false
  }

  /** The entries of the list that are no overrides before position i. */
  function CountBefore(list: seq<string>, i: nat, pkg: string): int
    requires i <= |list|
  {
    if i == 0 then |list| else CountBefore(list, i - 1, pkg) - (if IsOverride(list[i - 1], pkg) then 1 else 0)
  }

  ghost predicate ReportsAt(list: seq<string>, i: nat, pkg: string, e: CheckError)
    requires i < |list|
  {
    Reports(pkg, list[i], i, CountBefore(list, i, pkg), e)
  }

  /** The errors found among the first n entries. */
  ghost predicate ReportedBefore(list: seq<string>, n: nat, pkg: string, errors: seq<CheckError>)
    requires n <= |list|
  {
    forall e :: e in errors <==> exists i :: 0 <= i < n && ReportsAt(list, i, pkg, e)
  }

  lemma {:induction false} ReportedOneMore(
      list: seq<string>, n: nat, pkg: string, errors: seq<CheckError>, found: seq<CheckError>)
    requires n < |list| && ReportedBefore(list, n, pkg, errors)
    requires forall e :: e in found <==> Reports(pkg, list[n], n, CountBefore(list, n, pkg), e)
    ensures ReportedBefore(list, n + 1, pkg, errors + found)
  {
    forall e ensures e in errors + found <==> exists i :: 0 <= i < n + 1 && ReportsAt(list, i, pkg, e) {
      assert e in found <==> ReportsAt(list, n, pkg, e);
    }
  }

  ghost predicate AcceptedBefore(list: seq<string>, n: nat, pkg: string)
    requires n <= |list|
  {
    forall i :: 0 <= i < n ==> EntryOk(list, i, pkg)
  }

  lemma {:induction false} AcceptedOneMore(list: seq<string>, n: nat, pkg: string)
    requires n < |list|
    ensures AcceptedBefore(list, n + 1, pkg) <==> AcceptedBefore(list, n, pkg) && EntryOk(list, n, pkg)
  {
  }

  method CheckRules(currentPkg: string, visibility: seq<string>) returns (errors: seq<CheckError>)
    ensures errors == [] <==> Accepted(visibility, currentPkg)
    ensures visibility == [] ==> errors == [EmptyList]
    ensures visibility != [] ==> ReportedBefore(visibility, |visibility|, currentPkg, errors)
  {
    errors := [];
    var ruleCount := |visibility|;
    if ruleCount == 0 {
      return [EmptyList];
    }
    for i := 0 to |visibility|
      invariant errors == [] <==> AcceptedBefore(visibility, i, currentPkg)
      invariant errors == [] ==> ruleCount == RuleCount(visibility, i, currentPkg)
      invariant ruleCount == CountBefore(visibility, i, currentPkg)
      invariant ReportedBefore(visibility, i, currentPkg, errors)
    {
      var found, counted := CheckEntry(currentPkg, visibility[i], i, ruleCount);
      EntryCheck(visibility, i, currentPkg);
      AcceptedOneMore(visibility, i, currentPkg);
      ReportedOneMore(visibility, i, currentPkg, errors, found);
      ruleCount := counted;
      errors := errors + found;
    }
  }

  /** The body of the loop. */
  method CheckEntry(currentPkg: string, v: string, i: nat, count: int)
      returns (errors: seq<CheckError>, ruleCount: int)
    ensures ruleCount == count - (if IsOverride(v, currentPkg) then 1 else 0)
    ensures errors == [] <==> EntryPasses(currentPkg, v, i, count)
    ensures forall e :: e in errors <==> Reports(currentPkg, v, i, count, e)
  {
    errors, ruleCount := [], count;
    var split := SplitRule(v, currentPkg);
    if split.None? {
      return [Malformed], ruleCount;
    }
    if split.value.pkg == "visibility" {
      KeywordsAreNotVendor();
      var stop;
      errors, ruleCount, stop := CheckKeyword(split.value.name, i, count);
      if stop {
        return;
      }
    }
    var outside := CheckVendor(currentPkg, split.value);
    if outside {
      errors := errors + [OutsideVendor];
    }
  }

  /** The tests of a keyword; `stop` is the continue statement. */
  method CheckKeyword(name: string, i: nat, count: int) returns (errors: seq<CheckError>, ruleCount: int, stop: bool)
    ensures ruleCount == count - (if name == "override" then 1 else 0)
    ensures errors == [] <==> KeywordPasses(name, i, count)
    ensures forall e :: e in errors <==> KeywordReports(name, i, count, e)
    ensures stop ==> errors != []
  {
    errors, ruleCount, stop := [], count, false;
    if name == "private" || name == "public" {
    } else if name == "legacy_public" {
      return [LegacyPublic], ruleCount, true;
    } else if name == "override" {
      ruleCount := ruleCount - 1;
    } else {
      return [Unrecognized], ruleCount, true;
    }
    if name == "override" {
      if i != 0 {
        errors := [OverrideNotFirst];
      }
    } else if ruleCount != 1 {
      return [CannotMix], ruleCount, true;
    }
  }

  /** The last test of an entry. */
  method CheckVendor(currentPkg: string, s: Split2) returns (r: bool)
    ensures r <==> PeeksIntoVendor(currentPkg, s)
  {
    VendorIsFirst(currentPkg);
    AllowedExactly(s.pkg, s.name);
    r := !IsAncestor("vendor", currentPkg) && !AllowedFromOutsideVendor(s.pkg, s.name);
  }

  lemma {:induction false} KeywordsAreNotVendor()
    ensures !InVendor("visibility")
  {
    SplitWhole("visibility");
  }

  ghost predicate EntryPasses(pkg: string, v: string, i: nat, count: int) {
    match SplitRule(v, pkg)
    case None => false
    case Some(s) =>
      && (IsKeyword(s) ==> KeywordPasses(s.name, i, count))
      && !PeeksIntoVendor(pkg, s)
  }

  predicate KeywordPasses(name: string, i: nat, count: int) {
    if name == "override" then i == 0 else (name == "private" || name == "public") && count == 1
  }

  lemma {:induction false} EntryCheck(list: seq<string>, i: nat, pkg: string)
    requires i < |list|
    ensures EntryOk(list, i, pkg) <==> EntryPasses(pkg, list[i], i, RuleCount(list, i, pkg))
    ensures EntryOk(list, i, pkg) ==>
      RuleCount(list, i + 1, pkg) == RuleCount(list, i, pkg) - (if IsOverride(list[i], pkg) then 1 else 0)
  {
  }

  // ----- concatenations of accepted lists -----

  /** Only a rule without a package depends on where it is read. */
  lemma {:induction false} SplitElsewhere(v: string, p: string, q: string)
    requires SplitRule(v, p).Some?
    ensures SplitRule(v, q).Some? && SplitRule(v, q).value.name == SplitRule(v, p).value.name
    ensures SplitRule(v, q) == SplitRule(v, p) || (SplitRule(v, p).value.pkg == p && SplitRule(v, q).value.pkg == q)
  {
  }

  /** A rule without a package that is none of the keywords. */
  predicate Stray(v: string) {
    ":" <= v && IsName(v[1..]) && v[1..] != "private" && v[1..] != "public" && v[1..] != "override"
  }

  /** An entry of an accepted list makes a nil rule only if it is stray and read in //visibility. */
  lemma {:induction false} AcceptedMakesNil(list: seq<string>, i: nat, p: string, q: string)
    requires Accepted(list, p) && i < |list|
    ensures RuleFor(list[i], q) == Some(NilRule) <==> q == "visibility" && Stray(list[i])
  {
    assert EntryOk(list, i, p);
    SplitElsewhere(list[i], p, q);
    OneStart(list[i]);
  }

  lemma {:induction false} OneStart(v: string)
    ensures !("//" <= v && ":" <= v)
  {
    assert "//"[0] == '/' && ":"[0] == ':';
  }

  datatype Source = Source(pkg: string, list: seq<string>)

  ghost predicate AcceptedSource(s: Source) {
    Accepted(s.list, s.pkg)
  }

  function Flat(sources: seq<Source>): seq<string> {
    if sources == [] then [] else sources[0].list + Flat(sources[1..])
  }

  lemma {:induction false} FlatEntry(sources: seq<Source>, v: string) returns (k: nat)
    requires v in Flat(sources)
    ensures k < |sources| && v in sources[k].list
  {
    if v in sources[0].list {
      k := 0;
    } else {
      k := FlatEntry(sources[1..], v);
      k := k + 1;
    }
  }

  lemma {:induction false} AfterOverrideMembers(list: seq<string>, pkg: string, v: string)
    requires v in AfterOverride(list, pkg)
    ensures v in list
  {
    if v != list[|list| - 1] {
      AfterOverrideMembers(list[..|list| - 1], pkg, v);
    }
  }

  ghost predicate AllPrivate(rules: seq<Rule>) {
    forall i :: 0 <= i < |rules| ==> rules[i] == PrivateRule
  }

  ghost predicate AllPackages(rules: seq<Rule>) {
    forall i :: 0 <= i < |rules| ==> rules[i].PackageRule? || rules[i].SubpackagesRule?
  }

  ghost predicate Shaped(rules: seq<Rule>) {
    AllPrivate(rules) || rules == [PublicRule] || AllPackages(rules)
  }

  lemma {:induction false} CombinedIsShaped(rules: seq<Rule>)
    ensures Shaped(Combined(rules)) <==> NilRule !in rules || PrivateRule in rules || PublicRule in rules
  {
    assert forall i :: 0 <= i < |rules| ==> rules[i] in rules;
  }

  lemma {:induction false} FlatMakesNil(sources: seq<Source>, pkg: string, v: string)
    requires (forall i :: 0 <= i < |sources| ==> AcceptedSource(sources[i])) && v in Flat(sources)
    ensures RuleFor(v, pkg) == Some(NilRule) <==> pkg == "visibility" && Stray(v)
  {
    var k := FlatEntry(sources, v);
    var i :| 0 <= i < |sources[k].list| && sources[k].list[i] == v;
    AcceptedMakesNil(sources[k].list, i, sources[k].pkg, pkg);
  }

  /** Exactly when a concatenation of accepted lists makes a nil rule. */
  lemma {:induction false} NilRuleExactly(sources: seq<Source>, pkg: string)
    requires forall i :: 0 <= i < |sources| ==> AcceptedSource(sources[i])
    ensures NilRule in RulesFor(AfterOverride(Flat(sources), pkg), pkg) <==>
      pkg == "visibility" && exists v :: v in AfterOverride(Flat(sources), pkg) && Stray(v)
  {
    var after := AfterOverride(Flat(sources), pkg);
    if NilRule in RulesFor(after, pkg) {
      var v := RulesForMembers(after, pkg, NilRule);
      AfterOverrideMembers(Flat(sources), pkg, v);
      FlatMakesNil(sources, pkg, v);
    }
    if v :| pkg == "visibility" && v in after && Stray(v) {
      AfterOverrideMembers(Flat(sources), pkg, v);
      FlatMakesNil(sources, pkg, v);
      RulesForEntry(after, pkg, v);
    }
  }

  /**
   * Parsing a concatenation of accepted lists, as defaults expansion makes it, gives only private
   * rules, one public rule, or only package and subpackage rules; the one exception is a nil rule,
   * which can arise in the package "visibility" alone, and which a keyword hides.
   */
  lemma {:induction false} AcceptedListsParseShaped(sources: seq<Source>, pkg: string)
    requires forall i :: 0 <= i < |sources| ==> AcceptedSource(sources[i])
    ensures pkg != "visibility" ==> Shaped(ListOf(ParsedRules(Flat(sources), pkg)))
    ensures var after := AfterOverride(Flat(sources), pkg);
            Shaped(ListOf(ParsedRules(Flat(sources), pkg))) <==>
            || pkg != "visibility" || (forall v :: v in after ==> !Stray(v))
            || PrivateRule in RulesFor(after, pkg) || PublicRule in RulesFor(after, pkg)
  {
    NilRuleExactly(sources, pkg);
    CombinedIsShaped(RulesFor(AfterOverride(Flat(sources), pkg), pkg));
  }

  /** The exception: ":__pkg__", accepted in the package "a", read in the package "visibility". */
  lemma {:induction false} StrayEntryMakesNil()
    ensures AcceptedSource(Source("a", [":__pkg__"]))
    ensures RulesFor([":__pkg__"], "visibility") == [NilRule]
  {
    var v, a, b := ":__pkg__", "a", "visibility";
    StrayEntry(v, a);
    StrayEntry(v, b);
    SplitWhole(a);
    StrayAccepted(v, a);
    StrayNil(v, b);
  }

  lemma {:induction false} StrayEntry(v: string, p: string)
    requires v == ":__pkg__"
    ensures SplitRule(v, p) == Some(Split2(p, "__pkg__"))
  {
    OneStart(v);
    assert v[1..] == "__pkg__" && ":" <= v;
  }

  lemma {:induction false} StrayAccepted(v: string, p: string)
    requires SplitRule(v, p) == Some(Split2(p, "__pkg__")) && p == "a" && !InVendor(p)
    ensures Accepted([v], p)
  {
    assert EntryOk([v], 0, p);
  }

  lemma {:induction false} StrayNil(v: string, p: string)
    requires SplitRule(v, p) == Some(Split2(p, "__pkg__")) && p == "visibility"
    ensures RulesFor([v], p) == [NilRule]
  {
    assert RuleFor(v, p) == Some(NilRule);
    assert RulesFor([v][..0], p) == [];
  }

  lemma {:induction false} AfterLastOverride(a: seq<string>, o: string, b: seq<string>, pkg: string)
    requires IsOverride(o, pkg)
    ensures AfterOverride(a + [o] + b, pkg) == AfterOverride(b, pkg)
    decreases |b|
  {
    var all := a + [o] + b;
    if b == [] {
      assert all == a + [o] && all[|a|] == o;
    } else {
      var init, last := b[..|b| - 1], b[|b| - 1];
      assert all[|all| - 1] == last && all[..|all| - 1] == a + [o] + init;
      AfterLastOverride(a, o, init, pkg);
    }
  }

  /** What stands before an override does not matter, whatever it is. */
  lemma {:induction false} OverrideDiscards(a: seq<string>, o: string, b: seq<string>, pkg: string)
    requires IsOverride(o, pkg)
    ensures ListOf(ParsedRules(a + [o] + b, pkg)) == ListOf(ParsedRules(b, pkg))
  {
    AfterLastOverride(a, o, b, pkg);
  }
}
