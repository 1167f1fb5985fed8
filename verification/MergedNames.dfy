// android/apex.go: mergedName, the key under which APEX variations are merged.
module MergedNames {
  import opened ApexInfos

  // ----- strconv.Itoa -----

  function Digit(d: nat): char
    requires d < 10
  {
    '0' + d as char
  }

  function Digits(n: nat): string {
    if n < 10 then [Digit(n)] else Digits(n / 10) + [Digit(n % 10)]
  }

  function Itoa(n: int): string {
    if n < 0 then "-" + Digits(-n) else Digits(n)
  }

  /** The number that a string of digits denotes. */
  ghost function Value(s: string): int {
    if s == [] then 0 else 10 * Value(s[..|s| - 1]) + (s[|s| - 1] as int - '0' as int)
  }

  lemma {:induction false} DigitDenotes(d: nat)
    requires d < 10
    ensures Digit(d) as int - '0' as int == d && '0' <= Digit(d) <= '9'
  {
  }

  lemma {:induction false} ValueSnoc(s: string, c: char)
    ensures Value(s + [c]) == 10 * Value(s) + (c as int - '0' as int)
  {
    assert (s + [c])[..|s|] == s;
  }

  lemma {:induction false} DigitsDenote(n: nat)
    ensures Value(Digits(n)) == n
    ensures Digits(n) != [] && forall c :: c in Digits(n) ==> '0' <= c <= '9'
  {
    if n < 10 {
      DigitDenotes(n);
      ValueSnoc([], Digit(n));
      assert [] + [Digit(n)] == [Digit(n)];
    } else {
      DigitsDenote(n / 10);
      DigitDenotes(n % 10);
      ValueSnoc(Digits(n / 10), Digit(n % 10));
    }
  }

  lemma {:induction false} ItoaInjective(a: int, b: int)
    requires Itoa(a) == Itoa(b)
    ensures a == b
  {
    DigitsDenote(if a < 0 then -a else a);
    DigitsDenote(if b < 0 then -b else b);
    assert Digits(if a < 0 then -a else a)[0] in Digits(if a < 0 then -a else a);
    assert Digits(if b < 0 then -b else b)[0] in Digits(if b < 0 then -b else b);
    assert a < 0 ==> Itoa(a)[0] == '-' && Itoa(a)[1..] == Digits(-a);
    assert b < 0 ==> Itoa(b)[0] == '-' && Itoa(b)[1..] == Digits(-b);
  }

  lemma {:induction false} ItoaHasNoUnderscore(n: int)
    ensures '_' !in Itoa(n)
  {
    DigitsDenote(if n < 0 then -n else n);
  }

  // ----- mergedName -----

  function SdkSuffix(sdks: seq<SdkRef>): string {
    if sdks == [] then "" else "_" + (sdks[0].name + ("_" + (sdks[0].version + SdkSuffix(sdks[1..]))))
  }

  function MergedName(i: ApexInfo): string {
    "apex" + Itoa(i.minSdkVersion) + SdkSuffix(i.requiredSdks)
  }

  function SdkPart(s: SdkRef): string {
    "_" + s.name + "_" + s.version
  }

  lemma {:induction false} SuffixParts(sdks: seq<SdkRef>)
    requires sdks != []
    ensures SdkSuffix(sdks) == SdkPart(sdks[0]) + SdkSuffix(sdks[1..])
  {
    var n, v, rest := sdks[0].name, sdks[0].version, SdkSuffix(sdks[1..]);
    assert "_" + (n + ("_" + (v + rest))) == "_" + n + "_" + v + rest;
  }

  lemma {:induction false} SuffixSnoc(sdks: seq<SdkRef>, s: SdkRef)
    ensures SdkSuffix(sdks + [s]) == SdkSuffix(sdks) + SdkPart(s)
  {
    var all := sdks + [s];
    SuffixParts(all);
    if sdks != [] {
      assert all[0] == sdks[0] && all[1..] == sdks[1..] + [s];
      SuffixParts(sdks);
      SuffixSnoc(sdks[1..], s);
    }
  }

  method BuildMergedName(i: ApexInfo) returns (name: string)
    ensures name == MergedName(i)
  {
    name := "apex" + Itoa(i.minSdkVersion);
    ghost var start := name;
    for k := 0 to |i.requiredSdks|
      invariant name == start + SdkSuffix(i.requiredSdks[..k])
    {
      var sdk := i.requiredSdks[k];
      assert i.requiredSdks[..k + 1] == i.requiredSdks[..k] + [sdk];
      SuffixSnoc(i.requiredSdks[..k], sdk);
      assert name + "_" + sdk.name + "_" + sdk.version == name + SdkPart(sdk);
      name := name + "_" + sdk.name + "_" + sdk.version;
    }
    assert i.requiredSdks[..|i.requiredSdks|] == i.requiredSdks;
  }

  /** A digit string without leading zeros. */
  lemma {:induction false} ItoaIsDecimal(n: nat)
    ensures Value(Itoa(n)) == n && (forall c :: c in Itoa(n) ==> '0' <= c <= '9')
    ensures Itoa(n) != [] && (Itoa(n)[0] == '0' <==> n == 0) && (n == 0 ==> Itoa(n) == "0")
    ensures n > 0 ==> Itoa(0 - n) == "-" + Itoa(n)
  {
    DigitsDenote(n);
    LeadingDigit(n);
  }

  lemma {:induction false} LeadingDigit(n: nat)
    ensures Digits(n) != [] && (Digits(n)[0] == '0' <==> n == 0)
  {
    if n >= 10 {
      LeadingDigit(n / 10);
    } else {
      DigitDenotes(n);
    }
  }

  /** Two strings cut at their first underscore. */
  lemma {:induction false} CutAtUnderscore(a: string, x: string, b: string, y: string)
    requires '_' !in a && '_' !in b
    requires (x == [] || x[0] == '_') && (y == [] || y[0] == '_')
    requires a + x == b + y
    ensures a == b && x == y
  {
    assert a != [] ==> a[0] in a;
    assert b != [] ==> b[0] in b;
    if a == [] {
      assert a + x == x;
    }
    if b == [] {
      assert b + y == y;
    }
    if a != [] && b != [] {
      assert (a + x)[0] == a[0] && (b + y)[0] == b[0];
      assert (a + x)[1..] == a[1..] + x && (b + y)[1..] == b[1..] + y;
      CutAtUnderscore(a[1..], x, b[1..], y);
      assert a == [a[0]] + a[1..] && b == [b[0]] + b[1..];
    }
  }

  /** Equal names mean equal minimum SDK versions and equal SDK suffixes, and conversely. */
  lemma {:induction false} SameMergedName(i: ApexInfo, j: ApexInfo)
    ensures MergedName(i) == MergedName(j) <==>
      i.minSdkVersion == j.minSdkVersion && SdkSuffix(i.requiredSdks) == SdkSuffix(j.requiredSdks)
  {
    if MergedName(i) == MergedName(j) {
      var a, x := Itoa(i.minSdkVersion), SdkSuffix(i.requiredSdks);
      var b, y := Itoa(j.minSdkVersion), SdkSuffix(j.requiredSdks);
      assert MergedName(i)[4..] == a + x && MergedName(j)[4..] == b + y;
      ItoaHasNoUnderscore(i.minSdkVersion);
      ItoaHasNoUnderscore(j.minSdkVersion);
      CutAtUnderscore(a, x, b, y);
      ItoaInjective(i.minSdkVersion, j.minSdkVersion);
    }
  }

  predicate Plain(sdks: seq<SdkRef>) {
    forall i :: 0 <= i < |sdks| ==> '_' !in sdks[i].name && '_' !in sdks[i].version
  }

  /** Names and versions without underscores can be read back from the suffix. */
  lemma {:induction false} SdkSuffixInjective(a: seq<SdkRef>, b: seq<SdkRef>)
    requires Plain(a) && Plain(b) && SdkSuffix(a) == SdkSuffix(b)
    ensures a == b
  {
    if a != [] && b != [] {
      var x, y := a[0], b[0];
      var ra, rb := x.version + SdkSuffix(a[1..]), y.version + SdkSuffix(b[1..]);
      assert SdkSuffix(a)[1..] == x.name + ("_" + ra) && SdkSuffix(b)[1..] == y.name + ("_" + rb);
      CutAtUnderscore(x.name, "_" + ra, y.name, "_" + rb);
      assert ("_" + ra)[1..] == ra && ("_" + rb)[1..] == rb;
      CutAtUnderscore(x.version, SdkSuffix(a[1..]), y.version, SdkSuffix(b[1..]));
      SdkSuffixInjective(a[1..], b[1..]);
      assert a == [a[0]] + a[1..] && b == [b[0]] + b[1..];
    }
  }

  // ----- which suffixes can be read back -----

  function Underscores(s: string): nat {
    if s == [] then 0 else (if s[0] == '_' then 1 else 0) + Underscores(s[1..])
  }

  lemma {:induction false} UnderscoresConcat(a: string, b: string)
    ensures Underscores(a + b) == Underscores(a) + Underscores(b)
  {
    if a == [] {
      assert a + b == b;
    } else {
      assert (a + b)[1..] == a[1..] + b;
      UnderscoresConcat(a[1..], b);
    }
  }

  lemma {:induction false} NoUnderscores(s: string)
    ensures Underscores(s) == 0 <==> '_' !in s
  {
    if s != [] {
      assert s == [s[0]] + s[1..];
      NoUnderscores(s[1..]);
    }
  }

  lemma {:induction false} SuffixHead(sdks: seq<SdkRef>)
    requires sdks != []
    ensures Underscores(SdkSuffix(sdks)) ==
      2 + Underscores(sdks[0].name) + Underscores(sdks[0].version) + Underscores(SdkSuffix(sdks[1..]))
  {
    var name, version, rest := sdks[0].name, sdks[0].version, SdkSuffix(sdks[1..]);
    UnderscoresConcat(version, rest);
    assert ("_" + (version + rest))[1..] == version + rest;
    UnderscoresConcat(name, "_" + (version + rest));
    assert SdkSuffix(sdks)[1..] == name + ("_" + (version + rest));
  }

  /** The suffix has two underscores for each SDK, and no more if and only if they are plain. */
  lemma {:induction false} SuffixUnderscores(sdks: seq<SdkRef>)
    ensures Underscores(SdkSuffix(sdks)) >= 2 * |sdks|
    ensures Underscores(SdkSuffix(sdks)) == 2 * |sdks| <==> Plain(sdks)
  {
    if sdks != [] {
      SuffixHead(sdks);
      SuffixUnderscores(sdks[1..]);
      NoUnderscores(sdks[0].name);
      NoUnderscores(sdks[0].version);
      PlainTail(sdks);
    }
  }

  lemma {:induction false} PlainTail(sdks: seq<SdkRef>)
    requires sdks != []
    ensures Plain(sdks) <==> '_' !in sdks[0].name && '_' !in sdks[0].version && Plain(sdks[1..])
  {
    assert sdks == [sdks[0]] + sdks[1..];
    forall i | 0 <= i < |sdks[1..]| ensures sdks[1..][i] == sdks[i + 1] {
    }
  }

  /** The underscore moved: another SDK with the same suffix. */
  lemma {:induction false} MovedUnderscore(s: SdkRef) returns (t: SdkRef)
    requires '_' in s.name || '_' in s.version
    ensures t != s && t.name + ("_" + t.version) == s.name + ("_" + s.version)
  {
    if '_' in s.name {
      var k :| 0 <= k < |s.name| && s.name[k] == '_';
      t := SdkRef(s.name[..k], s.name[k + 1..] + ("_" + s.version));
      assert s.name == s.name[..k] + "_" + s.name[k + 1..];
    } else {
      var k :| 0 <= k < |s.version| && s.version[k] == '_';
      t := SdkRef(s.name + ("_" + s.version[..k]), s.version[k + 1..]);
      assert s.version == s.version[..k] + "_" + s.version[k + 1..];
    }
  }

  lemma {:induction false} SuffixReplaced(sdks: seq<SdkRef>, i: nat, t: SdkRef)
    requires i < |sdks| && t.name + ("_" + t.version) == sdks[i].name + ("_" + sdks[i].version)
    ensures SdkSuffix(sdks[i := t]) == SdkSuffix(sdks)
  {
    var s := sdks[0];
    if i == 0 {
      var rest := SdkSuffix(sdks[1..]);
      assert sdks[0 := t][1..] == sdks[1..];
      assert s.name + ("_" + (s.version + rest)) == s.name + ("_" + s.version) + rest;
      assert t.name + ("_" + (t.version + rest)) == t.name + ("_" + t.version) + rest;
    } else {
      assert sdks[i := t][1..] == sdks[1..][i - 1 := t];
      SuffixReplaced(sdks[1..], i - 1, t);
    }
  }

  /** The suffix tells the SDKs from all other lists of that length exactly if they are plain. */
  lemma {:induction false} SuffixTellsSdks(a: seq<SdkRef>)
    ensures Plain(a) <==> forall b :: |b| == |a| && SdkSuffix(b) == SdkSuffix(a) ==> b == a
  {
    if Plain(a) {
      forall b | |b| == |a| && SdkSuffix(b) == SdkSuffix(a) ensures b == a {
        SuffixUnderscores(a);
        SuffixUnderscores(b);
        SdkSuffixInjective(a, b);
      }
    } else {
      var i :| 0 <= i < |a| && ('_' in a[i].name || '_' in a[i].version);
      var t := MovedUnderscore(a[i]);
      SuffixReplaced(a, i, t);
      assert a[i := t][i] != a[i];
    }
  }

  /** All but the first SDK read as part of the first one's version. */
  lemma {:induction false} SuffixOfOne(a: seq<SdkRef>)
    requires |a| >= 2
    ensures SdkSuffix([SdkRef(a[0].name, a[0].version + SdkSuffix(a[1..]))]) == SdkSuffix(a)
  {
    var b := [SdkRef(a[0].name, a[0].version + SdkSuffix(a[1..]))];
    assert b[1..] == [];
    assert b[0].version + SdkSuffix(b[1..]) == b[0].version;
  }

  /**
   * An APEX is merged only with APEXes of the same required SDKs, whatever those others require,
   * if and only if it requires none, or one without underscores.
   */
  lemma {:induction false} MergedNameTellsSdks(i: ApexInfo)
    ensures (forall j: ApexInfo :: MergedName(j) == MergedName(i) ==> j.requiredSdks == i.requiredSdks) <==>
      |i.requiredSdks| <= 1 && Plain(i.requiredSdks)
  {
    var a := i.requiredSdks;
    if |a| <= 1 && Plain(a) {
      forall j: ApexInfo | MergedName(j) == MergedName(i) ensures j.requiredSdks == a {
        SameMergedName(i, j);
        SuffixUnderscores(a);
        SuffixUnderscores(j.requiredSdks);
        SuffixLength(a, j.requiredSdks);
        SdkSuffixInjective(a, j.requiredSdks);
      }
    } else if |a| >= 2 {
      var b := [SdkRef(a[0].name, a[0].version + SdkSuffix(a[1..]))];
      SuffixOfOne(a);
      SameMergedName(i.(requiredSdks := b), i);
    } else {
      SuffixTellsSdks(a);
      var b :| |b| == |a| && SdkSuffix(b) == SdkSuffix(a) && b != a;
      SameMergedName(i.(requiredSdks := b), i);
    }
  }

  lemma {:induction false} SuffixLength(a: seq<SdkRef>, b: seq<SdkRef>)
    requires |a| <= 1 && Plain(a) && SdkSuffix(b) == SdkSuffix(a)
    ensures Plain(b)
  {
    SuffixUnderscores(a);
    SuffixUnderscores(b);
  }

  /** Two different SDKs, one merged name. */
  lemma {:induction false} UnderscoresCollide()
    ensures var i := ApexInfo("x", 29, false, [SdkRef("a_b", "c")], ["x"]);
            var j := ApexInfo("y", 29, false, [SdkRef("a", "b_c")], ["y"]);
            MergedName(i) == MergedName(j) && i.requiredSdks != j.requiredSdks
  {
    var a, b := [SdkRef("a_b", "c")], [SdkRef("a", "b_c")];
    assert a[1..] == [] && b[1..] == [];
    assert SdkSuffix(a) == "_a_b_c" && SdkSuffix(b) == "_a_b_c";
  }
}
