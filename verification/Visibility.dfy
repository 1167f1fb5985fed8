// android/visibility.go: the rules that say which modules may depend on a module, and how a
// list of them is parsed.
module Visibility {
  import opened Wrappers
  import opened CleanPaths

  datatype Rule = NilRule | PackageRule(pkg: string) | SubpackagesRule(pkg: string) | PublicRule | PrivateRule

  /** qualifiedModuleName. */
  datatype Qualified = Qualified(pkg: string, name: string)

  // ----- splitRule -----

  /** [^/:]+(?:/[^/:]+)* : components without colons, none of them empty. */
  predicate IsPackage(s: string) {
    ':' !in s && forall i :: 0 <= i < |Split(s)| ==> Split(s)[i] != ""
  }

  /** [^/:]+ */
  predicate IsName(s: string) {
    s != "" && '/' !in s && ':' !in s
  }

  function FirstColon(s: string): (k: nat)
    ensures k <= |s|
    ensures ':' !in s[..k] && (k < |s| ==> s[k] == ':')
  {
    if s == [] || s[0] == ':' then 0
    else
      var k := 1 + FirstColon(s[1..]);
      assert s[..k] == [s[0]] + s[1..][..k - 1];
      k
  }

  datatype Split2 = Split2(pkg: string, name: string)

  /** package:name or package. */
  function SplitBody(body: string): Option<Split2> {
    var k := FirstColon(body);
    if !IsPackage(body[..k]) then None
    else if k == |body| then Some(Split2(body, "__pkg__"))
    else if IsName(body[k + 1..]) then Some(Split2(body[..k], body[k + 1..]))
    else None
  }

  /** //package:name, //package or :name; the missing part is the current package or "__pkg__". */
  function SplitRule(rule: string, currentPkg: string): Option<Split2> {
    if "//" <= rule then SplitBody(rule[2..])
    else if ":" <= rule && IsName(rule[1..]) then Some(Split2(currentPkg, rule[1..]))
    else None
  }

  lemma {:induction false} FirstColonOf(a: string, b: string)
    requires ':' !in a && (b == [] || b[0] == ':')
    ensures FirstColon(a + b) == |a|
  {
    if a == [] {
      assert a + b == b;
    } else {
      assert a[0] in a;
      assert (a + b)[0] == a[0] && (a + b)[1..] == a[1..] + b;
      FirstColonOf(a[1..], b);
    }
  }

  /** A printed package rule splits into its package and "__pkg__" ... */
  lemma {:induction false} SplitPackage(pkg: string, currentPkg: string)
    requires IsPackage(pkg)
    ensures SplitRule("//" + pkg, currentPkg) == Some(Split2(pkg, "__pkg__"))
  {
    FirstColonOf(pkg, "");
    assert pkg + "" == pkg;
    assert ("//" + pkg)[2..] == pkg;
    assert pkg[..|pkg|] == pkg;
  }

  /** ... and a rule with a name into its package and its name, from wherever it is read. */
  lemma {:induction false} SplitNamed(pkg: string, name: string, currentPkg: string)
    requires IsPackage(pkg) && IsName(name)
    ensures SplitRule("//" + pkg + ":" + name, currentPkg) == Some(Split2(pkg, name))
  {
    var rule := "//" + pkg + ":" + name;
    assert rule[2..] == pkg + ":" + name;
    SplitBodyNamed(pkg, name);
  }

  lemma {:induction false} SplitBodyNamed(pkg: string, name: string)
    requires IsPackage(pkg) && IsName(name)
    ensures SplitBody(pkg + ":" + name) == Some(Split2(pkg, name))
  {
    var body := pkg + ":" + name;
    assert body == pkg + (":" + name);
    FirstColonOf(pkg, ":" + name);
    assert body[..|pkg|] == pkg && body[|pkg| + 1..] == name;
  }

  /** A name: not empty, without slashes and colons. */
  ghost predicate IsWord(s: string) {
    s != "" && '/' !in s && ':' !in s
  }

  /** One or more words with slashes between them. */
  lemma {:induction false} PackagesAreWords(s: string)
    ensures IsPackage(s) <==>
      exists ws: seq<string> :: ws != [] && (forall i :: 0 <= i < |ws| ==> IsWord(ws[i])) && s == JoinSlash(ws)
  {
    if IsPackage(s) {
      var ws := Split(s);
      JoinSplit(s);
      forall i | 0 <= i < |ws| ensures IsWord(ws[i]) {
        JoinedHas(ws, i, ':');
      }
    }
    if ws: seq<string> :| ws != [] && (forall i :: 0 <= i < |ws| ==> IsWord(ws[i])) && s == JoinSlash(ws) {
      SplitJoin(ws);
      JoinedHasNot(ws, ':');
    }
  }

  lemma {:induction false} JoinedHas(ws: seq<string>, i: nat, c: char)
    requires i < |ws| && c !in JoinSlash(ws)
    ensures c !in ws[i]
  {
    if i > 0 {
      JoinedHas(ws[1..], i - 1, c);
    }
  }

  lemma {:induction false} JoinedHasNot(ws: seq<string>, c: char)
    requires c != '/' && forall i :: 0 <= i < |ws| ==> c !in ws[i]
    ensures c !in JoinSlash(ws)
  {
    if ws != [] {
      assert c !in ws[0];
      JoinedHasNot(ws[1..], c);
    }
  }

  /** The three forms of an entry, and the package and the name that each stands for. */
  ghost predicate Says(v: string, currentPkg: string, pkg: string, name: string) {
    || (IsPackage(pkg) && IsWord(name) && v == "//" + pkg + ":" + name)
    || (IsPackage(pkg) && name == "__pkg__" && v == "//" + pkg)
    || (pkg == currentPkg && IsWord(name) && v == ":" + name)
  }

  lemma {:induction false} SplitExactly(v: string, currentPkg: string, pkg: string, name: string)
    ensures SplitRule(v, currentPkg) == Some(Split2(pkg, name)) <==> Says(v, currentPkg, pkg, name)
  {
    if SplitRule(v, currentPkg) == Some(Split2(pkg, name)) {
      SplitSays(v, currentPkg, pkg, name);
    }
    if Says(v, currentPkg, pkg, name) {
      SaysSplit(v, currentPkg, pkg, name);
    }
  }

  lemma {:induction false} SaysSplit(v: string, currentPkg: string, pkg: string, name: string)
    requires Says(v, currentPkg, pkg, name)
    ensures SplitRule(v, currentPkg) == Some(Split2(pkg, name))
  {
    if v == "//" + pkg + ":" + name && IsPackage(pkg) && IsWord(name) {
      SplitNamed(pkg, name, currentPkg);
    } else if v == "//" + pkg && IsPackage(pkg) && name == "__pkg__" {
      SplitPackage(pkg, currentPkg);
    } else {
      assert v[0] == ':' && v[1..] == name;
    }
  }

  lemma {:induction false} SplitSays(v: string, currentPkg: string, pkg: string, name: string)
    requires SplitRule(v, currentPkg) == Some(Split2(pkg, name))
    ensures Says(v, currentPkg, pkg, name)
  {
    if "//" <= v {
      var body := v[2..];
      var k := FirstColon(body);
      assert v == "//" + body;
      assert k < |body| ==> body == body[..k] + ":" + body[k + 1..];
      assert body[..|body|] == body;
    } else {
      assert v == ":" + v[1..];
    }
  }

  // ----- what rules match -----

  predicate IsAncestor(p1: string, p2: string) {
    HasPrefix(p2 + "/", p1 + "/")
  }

  lemma {:induction false} JoinSplit(s: string)
    ensures JoinSlash(Split(s)) == s
  {
    if s != [] {
      var rest := Split(s[1..]);
      JoinSplit(s[1..]);
      if s[0] == '/' {
        assert ([""] + rest)[1..] == rest;
        assert s == "" + "/" + s[1..];
      } else {
        var es := [[s[0]] + rest[0]] + rest[1..];
        assert es[1..] == rest[1..];
        assert s == [s[0]] + s[1..];
        if |rest| > 1 {
          assert ([s[0]] + rest[0]) + "/" + JoinSlash(rest[1..]) == [s[0]] + (rest[0] + "/" + JoinSlash(rest[1..]));
        }
      }
    }
  }

  /** isAncestor means: the path's components are a prefix of the other's. */
  lemma {:induction false} AncestorIsComponentPrefix(p1: string, p2: string)
    ensures IsAncestor(p1, p2) <==> Split(p1) <= Split(p2)
  {
    SplitConcat(p2, "");
    assert p2 + "/" + "" == p2 + "/";
    if IsAncestor(p1, p2) {
      var rest := (p2 + "/")[|p1| + 1..];
      assert p2 + "/" == p1 + "/" + rest;
      SplitConcat(p1, rest);
      assert (Split(p2) + [""])[..|Split(p1)|] == Split(p1);
    }
    if Split(p1) <= Split(p2) {
      var rest := Split(p2)[|Split(p1)|..];
      assert Split(p2) == Split(p1) + rest;
      JoinSplit(p1);
      JoinSplit(p2);
      if rest == [] {
        assert Split(p1) + [] == Split(p1);
      } else {
        JoinSlashConcat(Split(p1), rest);
      }
    }
  }

  /** Asking a nil rule panics; CompositeMatches tells when that happens. */
  predicate Matches(r: Rule, m: Qualified) {
    match r
    case NilRule => false
    case PackageRule(p) => m.pkg == p
    case SubpackagesRule(p) => IsAncestor(p, m.pkg)
    case PublicRule => true
    case PrivateRule => false
  }

  /** Which modules a rule lets in. */
  ghost predicate Covers(r: Rule, m: Qualified) {
    || r.PublicRule?
    || (r.PackageRule? && m.pkg == r.pkg)
    || (r.SubpackagesRule? && Split(r.pkg) <= Split(m.pkg))
  }

  lemma {:induction false} MatchesExactly(r: Rule, m: Qualified)
    ensures Matches(r, m) <==> Covers(r, m)
  {
    if r.SubpackagesRule? {
      AncestorIsComponentPrefix(r.pkg, m.pkg);
    }
  }

  lemma {:induction false} AnyMatchesExactly(rules: seq<Rule>, m: Qualified)
    ensures AnyMatches(rules, m) <==> exists i :: 0 <= i < |rules| && Covers(rules[i], m)
  {
    forall i | 0 <= i < |rules| ensures Matches(rules[i], m) <==> Covers(rules[i], m) {
      MatchesExactly(rules[i], m);
    }
  }

  predicate AnyMatches(rules: seq<Rule>, m: Qualified) {
    exists i :: 0 <= i < |rules| && Matches(rules[i], m)
  }

  /** compositeRule.matches; None is the panic of a nil rule that no match precedes. */
  method CompositeMatches(rules: seq<Rule>, m: Qualified) returns (r: Option<bool>)
    ensures r.None? <==>
      exists i :: 0 <= i < |rules| && rules[i] == NilRule && forall j :: 0 <= j < i ==> !Covers(rules[j], m)
    ensures r.Some? ==> (r.value <==> exists i :: 0 <= i < |rules| && Covers(rules[i], m))
  {
    for i := 0 to |rules|
      invariant forall j :: 0 <= j < i ==> rules[j] != NilRule && !Covers(rules[j], m)
    {
      if rules[i] == NilRule {
        return None;
      }
      MatchesExactly(rules[i], m);
      if Matches(rules[i], m) {
        return Some(true);
      }
    }
    return Some(false);
  }

  function RuleString(r: Rule): string {
    match r
    case NilRule => ""
    case PackageRule(p) => "//" + p
    case SubpackagesRule(p) => "//" + p + ":" + "__subpackages__"
    case PublicRule => "//" + "visibility" + ":" + "public"
    case PrivateRule => "//" + "visibility" + ":" + "private"
  }

  // ----- parseRules -----

  predicate IsOverride(v: string, pkg: string) {
    SplitRule(v, pkg) == Some(Split2("visibility", "override"))
  }

  /** The rule an entry makes, if any; a keyword that is not known makes a nil rule. */
  function RuleFor(v: string, pkg: string): Option<Rule> {
    match SplitRule(v, pkg)
    case None => None
    case Some(s) => RuleOf(s)
  }

  function RuleOf(s: Split2): Option<Rule> {
    if s.pkg == "visibility" then
      if s.name == "private" then Some(PrivateRule)
      else if s.name == "public" then Some(PublicRule)
      else if s.name == "override" then None
      else Some(NilRule)
    else if s.name == "__pkg__" then Some(PackageRule(s.pkg))
    else if s.name == "__subpackages__" then Some(SubpackagesRule(s.pkg))
    else None
  }

  lemma {:induction false} RuleOfExactly(s: Split2)
    ensures forall p :: RuleOf(s) == Some(PackageRule(p)) <==> s == Split2(p, "__pkg__") && p != "visibility"
    ensures forall p :: RuleOf(s) == Some(SubpackagesRule(p)) <==> s == Split2(p, "__subpackages__") && p != "visibility"
    ensures RuleOf(s) == Some(PublicRule) <==> s == Split2("visibility", "public")
    ensures RuleOf(s) == Some(PrivateRule) <==> s == Split2("visibility", "private")
  {
    assert "__pkg__" != "__subpackages__" && "public" != "private";
  }

  /** What an entry makes, by what it says; anything else makes no rule, or a nil one. */
  lemma {:induction false} RuleForExactly(v: string, pkg: string, p: string)
    ensures RuleFor(v, pkg) == Some(PackageRule(p)) <==> Says(v, pkg, p, "__pkg__") && p != "visibility"
    ensures RuleFor(v, pkg) == Some(SubpackagesRule(p)) <==> Says(v, pkg, p, "__subpackages__") && p != "visibility"
    ensures RuleFor(v, pkg) == Some(PublicRule) <==> Says(v, pkg, "visibility", "public")
    ensures RuleFor(v, pkg) == Some(PrivateRule) <==> Says(v, pkg, "visibility", "private")
    ensures IsOverride(v, pkg) <==> Says(v, pkg, "visibility", "override")
  {
    SplitExactly(v, pkg, p, "__pkg__");
    SplitExactly(v, pkg, p, "__subpackages__");
    SplitExactly(v, pkg, "visibility", "public");
    SplitExactly(v, pkg, "visibility", "private");
    SplitExactly(v, pkg, "visibility", "override");
    if SplitRule(v, pkg).Some? {
      RuleOfExactly(SplitRule(v, pkg).value);
    }
  }

  function RulesFor(list: seq<string>, pkg: string): seq<Rule> {
    if list == [] then []
    else
      RulesFor(list[..|list| - 1], pkg) +
      (match RuleFor(list[|list| - 1], pkg) case None => [] case Some(r) => [r])
  }

  predicate HasOverride(list: seq<string>, pkg: string) {
    exists i :: 0 <= i < |list| && IsOverride(list[i], pkg)
  }

  /** The entries after the last override; all of them if there is none. */
  function AfterOverride(list: seq<string>, pkg: string): seq<string> {
    if list == [] then []
    else if IsOverride(list[|list| - 1], pkg) then []
    else AfterOverride(list[..|list| - 1], pkg) + [list[|list| - 1]]
  }

  /** What the rules after the last override come to. */
  function Combined(rules: seq<Rule>): seq<Rule> {
    if PrivateRule in rules && (exists i :: 0 <= i < |rules| && rules[i] != PrivateRule) then [PrivateRule]
    else if PublicRule in rules then [PublicRule]
    else rules
  }

  /** One private rule shuts everybody out; otherwise each rule lets in whom it covers. */
  lemma {:induction false} CombinedExactly(rules: seq<Rule>, m: Qualified)
    ensures AnyMatches(Combined(rules), m) <==>
      PrivateRule !in rules && exists i :: 0 <= i < |rules| && Covers(rules[i], m)
  {
    AnyMatchesExactly(Combined(rules), m);
    if PublicRule in rules {
      var i :| 0 <= i < |rules| && rules[i] == PublicRule;
      assert Covers(rules[i], m) && Covers([PublicRule][0], m);
    }
  }

  /** None is a nil compositeRule: an override and no rule after it. */
  function ParsedRules(list: seq<string>, pkg: string): Option<seq<Rule>> {
    var rules := RulesFor(AfterOverride(list, pkg), pkg);
    if rules == [] && HasOverride(list, pkg) then None else Some(Combined(rules))
  }

  /** The list built so far is nil after an override until a rule is appended. */
  function Collected(list: seq<string>, pkg: string): Option<seq<Rule>> {
    var rules := RulesFor(AfterOverride(list, pkg), pkg);
    if rules == [] && HasOverride(list, pkg) then None else Some(rules)
  }

  /** A nil slice has no elements. */
  function ListOf(rules: Option<seq<Rule>>): seq<Rule> {
    if rules.Some? then rules.value else []
  }

  ghost predicate FlagsFor(rules: seq<Rule>, hasPrivate: bool, hasPublic: bool, hasNonPrivate: bool) {
    && (hasPrivate <==> PrivateRule in rules)
    && (hasPublic <==> PublicRule in rules)
    && (hasNonPrivate <==> exists i :: 0 <= i < |rules| && rules[i] != PrivateRule)
  }

  method ParseRules(currentPkg: string, visibility: seq<string>) returns (r: Option<seq<Rule>>)
    ensures r == ParsedRules(visibility, currentPkg)
  {
    var rules: Option<seq<Rule>> := Some([]);
    var hasPrivateRule, hasPublicRule, hasNonPrivateRule := false, false, false;
    for i := 0 to |visibility|
      invariant rules == Collected(visibility[..i], currentPkg)
      invariant FlagsFor(RulesFor(AfterOverride(visibility[..i], currentPkg), currentPkg),
                         hasPrivateRule, hasPublicRule, hasNonPrivateRule)
    {
      var v := visibility[i];
      assert visibility[..i + 1] == visibility[..i] + [v];
      CollectedStep(visibility[..i], v, currentPkg);
      if IsOverride(v, currentPkg) {
        rules, hasPrivateRule, hasPublicRule, hasNonPrivateRule := None, false, false, false;
        continue;
      }
      var made := RuleFor(v, currentPkg);
      if made.None? {
        continue;
      }
      FlagsStep(RulesFor(AfterOverride(visibility[..i], currentPkg), currentPkg), made.value,
                hasPrivateRule, hasPublicRule, hasNonPrivateRule);
      if made.value == PublicRule {
        hasPublicRule := true;
      }
      if made.value == PrivateRule {
        hasPrivateRule := true;
      } else {
        hasNonPrivateRule := true;
      }
      rules := Some(ListOf(rules) + [made.value]);
    }
    assert visibility[..|visibility|] == visibility;
    if hasPrivateRule && hasNonPrivateRule {
      return Some([PrivateRule]);
    }
    if hasPublicRule {
      return Some([PublicRule]);
    }
    return rules;
  }

  lemma {:induction false} FlagsStep(rules: seq<Rule>, r: Rule, hasPrivate: bool, hasPublic: bool, hasNonPrivate: bool)
    requires FlagsFor(rules, hasPrivate, hasPublic, hasNonPrivate)
    ensures FlagsFor(rules + [r], hasPrivate || r == PrivateRule, hasPublic || r == PublicRule, hasNonPrivate || r != PrivateRule)
  {
    var all := rules + [r];
    assert all[|rules|] == r;
    assert forall i :: 0 <= i < |rules| ==> all[i] == rules[i];
  }

  lemma {:induction false} AfterStep(list: seq<string>, v: string, pkg: string)
    ensures HasOverride(list + [v], pkg) <==> HasOverride(list, pkg) || IsOverride(v, pkg)
    ensures RulesFor(AfterOverride(list + [v], pkg), pkg) ==
      if IsOverride(v, pkg) then []
      else RulesFor(AfterOverride(list, pkg), pkg) + (match RuleFor(v, pkg) case None => [] case Some(r) => [r])
  {
    var all := list + [v];
    assert all[..|list|] == list && all[|list|] == v;
    if !IsOverride(v, pkg) {
      var after := AfterOverride(list, pkg);
      assert (after + [v])[..|after|] == after;
    }
    assert forall i :: 0 <= i < |list| ==> all[i] == list[i];
  }

  /** One entry more: an override empties the list, a rule is appended, other entries do nothing. */
  lemma {:induction false} CollectedStep(list: seq<string>, v: string, pkg: string)
    ensures IsOverride(v, pkg) ==>
      Collected(list + [v], pkg) == None && RulesFor(AfterOverride(list + [v], pkg), pkg) == []
    ensures !IsOverride(v, pkg) && RuleFor(v, pkg).None? ==>
      Collected(list + [v], pkg) == Collected(list, pkg) &&
      RulesFor(AfterOverride(list + [v], pkg), pkg) == RulesFor(AfterOverride(list, pkg), pkg)
    ensures !IsOverride(v, pkg) && RuleFor(v, pkg).Some? ==>
      Collected(list + [v], pkg) == Some(ListOf(Collected(list, pkg)) + [RuleFor(v, pkg).value]) &&
      RulesFor(AfterOverride(list + [v], pkg), pkg) == RulesFor(AfterOverride(list, pkg), pkg) + [RuleFor(v, pkg).value]
  {
    AfterStep(list, v, pkg);
    var rules := RulesFor(AfterOverride(list, pkg), pkg);
    assert rules + [] == rules;
    assert ListOf(Collected(list, pkg)) == rules;
  }

  /** The entries after the last override. */
  lemma {:induction false} AfterOverrideExactly(list: seq<string>, pkg: string) returns (k: nat)
    ensures k <= |list| && AfterOverride(list, pkg) == list[k..]
    ensures k == 0 || IsOverride(list[k - 1], pkg)
    ensures forall i :: k <= i < |list| ==> !IsOverride(list[i], pkg)
  {
    if list == [] {
      k := 0;
    } else if IsOverride(list[|list| - 1], pkg) {
      k := |list|;
    } else {
      var init, last := list[..|list| - 1], list[|list| - 1];
      k := AfterOverrideExactly(init, pkg);
      assert list[k..] == init[k..] + [last];
      forall i | k <= i < |list| ensures !IsOverride(list[i], pkg) {
        assert i < |init| ==> list[i] == init[i];
      }
    }
  }

  lemma {:induction false} RulesForMembers(list: seq<string>, pkg: string, r: Rule) returns (v: string)
    requires r in RulesFor(list, pkg)
    ensures v in list && RuleFor(v, pkg) == Some(r)
  {
    var last := list[|list| - 1];
    if RuleFor(last, pkg) == Some(r) {
      v := last;
    } else {
      v := RulesForMembers(list[..|list| - 1], pkg, r);
    }
  }

  lemma {:induction false} RulesForEntry(list: seq<string>, pkg: string, v: string)
    requires v in list && RuleFor(v, pkg).Some?
    ensures RuleFor(v, pkg).value in RulesFor(list, pkg)
  {
    var n := |list| - 1;
    assert list == list[..n] + [list[n]];
    if v != list[n] {
      RulesForEntry(list[..n], pkg, v);
    }
  }

  ghost predicate MakesCovering(v: string, pkg: string, m: Qualified) {
    RuleFor(v, pkg).Some? && Covers(RuleFor(v, pkg).value, m)
  }

  /** Whom a parsed list lets in: no entry after the last override is private and one covers them. */
  lemma {:induction false} ParsedExactly(list: seq<string>, pkg: string, m: Qualified)
    ensures var after := AfterOverride(list, pkg);
            AnyMatches(ListOf(ParsedRules(list, pkg)), m) <==>
              && (forall v :: v in after ==> RuleFor(v, pkg) != Some(PrivateRule))
              && exists v :: v in after && MakesCovering(v, pkg, m)
  {
    var after := AfterOverride(list, pkg);
    var rules := RulesFor(after, pkg);
    CombinedExactly(rules, m);
    if PrivateRule in rules {
      var v := RulesForMembers(after, pkg, PrivateRule);
    }
    if v :| v in after && RuleFor(v, pkg) == Some(PrivateRule) {
      RulesForEntry(after, pkg, v);
    }
    if i :| 0 <= i < |rules| && Covers(rules[i], m) {
      var v := RulesForMembers(after, pkg, rules[i]);
      assert MakesCovering(v, pkg, m);
    }
    if v :| v in after && MakesCovering(v, pkg, m) {
      RulesForEntry(after, pkg, v);
    }
  }
}
