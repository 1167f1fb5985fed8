// android/paths.go: validateSafePath and the joins built on it.  The package filepath works on
// path strings; its Clean and Join are written here over the elements between the slashes.
module CleanPaths {
  import opened Wrappers

  // ----- path strings and their elements -----

  /** The parts of `s` between slashes; at least one, possibly empty. */
  function Split(s: string): (es: seq<string>)
    ensures es != []
    ensures forall i :: 0 <= i < |es| ==> '/' !in es[i]
  {
    if s == [] then [""]
    else
      var rest := Split(s[1..]);
      if s[0] == '/' then [""] + rest else [[s[0]] + rest[0]] + rest[1..]
  }

  /** strings.Join(es, "/"). */
  function JoinSlash(es: seq<string>): string {
    if es == [] then "" else if |es| == 1 then es[0] else es[0] + "/" + JoinSlash(es[1..])
  }

  lemma {:induction false} SplitConcat(a: string, b: string)
    ensures Split(a + "/" + b) == Split(a) + Split(b)
  {
    if a == [] {
      assert a + "/" + b == "/" + b;
      assert ("/" + b)[1..] == b;
    } else {
      var whole := a + "/" + b;
      assert whole[0] == a[0] && whole[1..] == a[1..] + "/" + b;
      SplitConcat(a[1..], b);
    }
  }

  lemma {:induction false} SplitWhole(e: string)
    requires '/' !in e
    ensures Split(e) == [e]
  {
    if e != [] {
      SplitWhole(e[1..]);
      assert e == [e[0]] + e[1..];
    }
  }

  /** An element that Clean keeps. */
  predicate Plain(e: string) {
    e != "" && e != "." && '/' !in e
  }

  lemma {:induction false} SplitJoin(es: seq<string>)
    requires es != [] && forall i :: 0 <= i < |es| ==> '/' !in es[i]
    ensures Split(JoinSlash(es)) == es
  {
    SplitWhole(es[0]);
    if |es| == 1 {
      assert es == [es[0]];
    } else {
      SplitConcat(es[0], JoinSlash(es[1..]));
      SplitJoin(es[1..]);
      assert es == [es[0]] + es[1..];
    }
  }

  lemma {:induction false} JoinSlashConcat(a: seq<string>, b: seq<string>)
    requires a != [] && b != []
    ensures JoinSlash(a + b) == JoinSlash(a) + "/" + JoinSlash(b)
  {
    if |a| == 1 {
      assert a + b == [a[0]] + b && (a + b)[1..] == b;
    } else {
      assert (a + b)[0] == a[0] && (a + b)[1..] == a[1..] + b;
      JoinSlashConcat(a[1..], b);
    }
  }

  // ----- filepath.Clean -----

  predicate Rooted(s: string) {
    s != [] && s[0] == '/'
  }

  /** One element read by Clean with `out` already written. */
  function Push(rooted: bool, out: seq<string>, e: string): seq<string> {
    if e == "" || e == "." then out
    else if e != ".." then out + [e]
    else if out != [] && out[|out| - 1] != ".." then out[..|out| - 1]
    else if rooted then out
    else out + [e]
  }

  function PushAll(rooted: bool, out: seq<string>, es: seq<string>): seq<string>
    decreases |es|
  {
    if es == [] then out else PushAll(rooted, Push(rooted, out, es[0]), es[1..])
  }

  /** The elements of the cleaned path. */
  function Elements(s: string): seq<string> {
    PushAll(Rooted(s), [], Split(s))
  }

  function Render(rooted: bool, es: seq<string>): string {
    if rooted then "/" + JoinSlash(es) else if es == [] then "." else JoinSlash(es)
  }

  function Clean(s: string): string {
    Render(Rooted(s), Elements(s))
  }

  function NonEmpty(es: seq<string>): seq<string> {
    if es == [] then [] else if es[0] == "" then NonEmpty(es[1..]) else [es[0]] + NonEmpty(es[1..])
  }

  /** filepath.Join. */
  function Join(paths: seq<string>): string {
    if NonEmpty(paths) == [] then "" else Clean(JoinSlash(NonEmpty(paths)))
  }

  /** A written path: plain elements, with ".." only in front of an unrooted one. */
  ghost predicate Written(rooted: bool, es: seq<string>) {
    && (forall i :: 0 <= i < |es| ==> Plain(es[i]))
    && (forall i :: 0 <= i < |es| && es[i] == ".." ==> !rooted)
    && (forall i :: 0 < i < |es| && es[i] == ".." ==> es[i - 1] == "..")
  }

  lemma {:induction false} PushAllWritten(rooted: bool, out: seq<string>, es: seq<string>)
    requires Written(rooted, out)
    requires forall i :: 0 <= i < |es| ==> '/' !in es[i]
    ensures Written(rooted, PushAll(rooted, out, es))
    decreases |es|
  {
    if es != [] {
      PushAllWritten(rooted, Push(rooted, out, es[0]), es[1..]);
    }
  }

  lemma {:induction false} PushAllConcat(rooted: bool, out: seq<string>, a: seq<string>, b: seq<string>)
    ensures PushAll(rooted, out, a + b) == PushAll(rooted, PushAll(rooted, out, a), b)
    decreases |a|
  {
    if a == [] {
      assert a + b == b;
    } else {
      assert (a + b)[0] == a[0] && (a + b)[1..] == a[1..] + b;
      PushAllConcat(rooted, Push(rooted, out, a[0]), a[1..], b);
    }
  }

  lemma {:induction false} ElementsWritten(s: string)
    ensures Written(Rooted(s), Elements(s))
  {
    PushAllWritten(Rooted(s), [], Split(s));
  }

  /** Reading written elements after written elements copies them, if no ".." intervenes. */
  lemma {:induction false} PushAllCopies(rooted: bool, out: seq<string>, es: seq<string>)
    requires Written(rooted, out + es)
    ensures PushAll(rooted, out, es) == out + es
    decreases |es|
  {
    if es == [] {
      assert out + es == out;
    } else {
      var n := |out|;
      assert (out + es)[n] == es[0];
      assert es[0] == ".." && out != [] ==> (out + es)[n - 1] == "..";
      assert out + es == (out + [es[0]]) + es[1..];
      PushAllCopies(rooted, out + [es[0]], es[1..]);
    }
  }

  /** Cleaning is idempotent on elements: a rendered path has the elements it was made of. */
  lemma {:induction false} ElementsOfRendered(rooted: bool, es: seq<string>)
    requires Written(rooted, es)
    ensures Rooted(Render(rooted, es)) == rooted
    ensures Elements(Render(rooted, es)) == es
  {
    var s := Render(rooted, es);
    if es == [] {
      assert rooted ==> s == "/";
      SplitConcat("", "");
      assert Split("/") == ["", ""];
      assert PushAll(true, [], ["", ""][1..]) == [];
      SplitWhole(".");
      assert PushAll(false, [], ["."][1..]) == [];
    } else {
      SplitJoin(es);
      JoinHead(es);
      assert [] + es == es;
      PushAllCopies(rooted, [], es);
      if rooted {
        assert s[1..] == JoinSlash(es);
        assert ([""] + es)[1..] == es;
      }
    }
  }

  lemma {:induction false} JoinHead(es: seq<string>)
    requires es != [] && Plain(es[0])
    ensures JoinSlash(es) != [] && JoinSlash(es)[0] == es[0][0] != '/'
  {
    assert es[0][0] in es[0];
  }

  // ----- validateSafePath -----

  predicate HasPrefix(s: string, prefix: string) {
    prefix <= s
  }

  /** What validateSafePath rejects in one component. */
  predicate Escapes(path: string) {
    var c := Clean(path);
    c == ".." || HasPrefix(c, "../") || HasPrefix(c, "/")
  }

  predicate AnyEscapes(components: seq<string>) {
    exists i :: 0 <= i < |components| && Escapes(components[i])
  }

  /** The string test means: rooted, or going up first. */
  lemma {:induction false} EscapesMeansGoesUp(path: string)
    ensures Escapes(path) <==> Rooted(path) || (Elements(path) != [] && Elements(path)[0] == "..")
  {
    var es, c := Elements(path), Clean(path);
    ElementsWritten(path);
    assert HasPrefix(c, "/") ==> c[0] == '/';
    assert Rooted(path) ==> HasPrefix(c, "/");
    if !Rooted(path) && es != [] {
      JoinHead(es);
      JoinStartsWithElement(es, "..");
    }
  }

  lemma {:induction false} JoinStartsWithElement(es: seq<string>, e: string)
    requires es != [] && (forall i :: 0 <= i < |es| ==> '/' !in es[i]) && '/' !in e
    ensures JoinSlash(es) == e || HasPrefix(JoinSlash(es), e + "/") <==> es[0] == e
  {
    var s := JoinSlash(es);
    SplitJoin(es);
    SplitWhole(e);
    assert |es| > 1 ==> HasPrefix(s, es[0] + "/");
    if HasPrefix(s, e + "/") {
      var rest := s[|e| + 1..];
      assert s == e + "/" + rest;
      SplitConcat(e, rest);
    }
  }

  // ----- why validated components stay inside -----

  /** The path goes neither up nor to the root. */
  ghost predicate StaysDown(es: seq<string>) {
    es != [] ==> es[0] != ".."
  }

  lemma {:induction false} UpIsNeverTakenBack(inner: seq<string>, es: seq<string>)
    requires inner != [] && inner[0] == ".."
    ensures PushAll(false, inner, es) != [] && PushAll(false, inner, es)[0] == ".."
    decreases |es|
  {
    if es != [] {
      UpIsNeverTakenBack(Push(false, inner, es[0]), es[1..]);
    }
  }

  /** Elements that stay down on their own stay above whatever was written before them. */
  lemma {:induction false} PushAllStaysAbove(rooted: bool, out: seq<string>, inner: seq<string>, es: seq<string>)
    requires StaysDown(inner) && Written(false, inner)
    requires forall i :: 0 <= i < |es| ==> '/' !in es[i]
    requires StaysDown(PushAll(false, inner, es))
    ensures PushAll(rooted, out + inner, es) == out + PushAll(false, inner, es)
    decreases |es|
  {
    if es != [] {
      var next := Push(false, inner, es[0]);
      if next != [] && next[0] == ".." {
        UpIsNeverTakenBack(next, es[1..]);
      }
      WrittenNoUp(inner);
      assert Push(rooted, out + inner, es[0]) == out + next;
      PushAllWritten(false, inner, [es[0]]);
      assert [es[0]][1..] == [];
      PushAllStaysAbove(rooted, out, next, es[1..]);
    }
  }

  lemma {:induction false} WrittenNoUp(es: seq<string>)
    requires Written(false, es) && StaysDown(es)
    ensures es != [] ==> es[|es| - 1] != ".."
  {
    if |es| > 1 {
      assert Written(false, es[..|es| - 1]);
      WrittenNoUp(es[..|es| - 1]);
    }
  }

  /** Appending a component that does not escape appends its elements. */
  lemma {:induction false} SlashAppends(base: string, rel: string)
    requires base != "" && !Escapes(rel)
    ensures Rooted(base + "/" + rel) == Rooted(base)
    ensures Elements(base + "/" + rel) == Elements(base) + Elements(rel)
  {
    EscapesMeansGoesUp(rel);
    SplitConcat(base, rel);
    var out := Elements(base);
    PushAllConcat(Rooted(base), [], Split(base), Split(rel));
    assert out + [] == out;
    PushAllStaysAbove(Rooted(base), out, [], Split(rel));
  }

  ghost function AllElements(paths: seq<string>): seq<string> {
    if paths == [] then [] else Elements(paths[0]) + AllElements(paths[1..])
  }

  ghost predicate NoneEscapes(paths: seq<string>) {
    forall i :: 0 <= i < |paths| ==> !Escapes(paths[i])
  }

  lemma {:induction false} NoneEscapesIff(paths: seq<string>)
    ensures AnyEscapes(paths) <==> !NoneEscapes(paths)
  {
  }

  lemma {:induction false} EmptyHasNoElements()
    ensures Elements("") == [] && Elements(".") == []
    ensures !Escapes("")
  {
    assert Split("") == [""];
    assert PushAll(false, [], [""][1..]) == [];
    SplitWhole(".");
    assert PushAll(false, [], ["."][1..]) == [];
  }

  lemma {:induction false} NonEmptyKeepsElements(paths: seq<string>)
    requires NoneEscapes(paths)
    ensures NoneEscapes(NonEmpty(paths)) && AllElements(NonEmpty(paths)) == AllElements(paths)
    ensures forall i :: 0 <= i < |NonEmpty(paths)| ==> NonEmpty(paths)[i] != ""
  {
    if paths != [] {
      EmptyHasNoElements();
      NonEmptyKeepsElements(paths[1..]);
    }
  }

  lemma {:induction false} SlashJoinStays(paths: seq<string>)
    requires paths != [] && NoneEscapes(paths) && forall i :: 0 <= i < |paths| ==> paths[i] != ""
    ensures !Rooted(JoinSlash(paths)) && !Escapes(JoinSlash(paths))
    ensures Elements(JoinSlash(paths)) == AllElements(paths)
  {
    EscapesMeansGoesUp(paths[0]);
    if |paths| > 1 {
      SlashJoinStays(paths[1..]);
      var rest := JoinSlash(paths[1..]);
      EscapesMeansGoesUp(rest);
      SlashAppends(paths[0], rest);
    }
    EscapesMeansGoesUp(JoinSlash(paths));
  }

  lemma {:induction false} CleanKeepsElements(s: string)
    ensures Rooted(Clean(s)) == Rooted(s) && Elements(Clean(s)) == Elements(s)
  {
    ElementsWritten(s);
    ElementsOfRendered(Rooted(s), Elements(s));
  }

  /**
   * The join of components that pass validateSafePath passes it again: its elements are the
   * elements of the components one after the other, none of which is taken back.
   */
  lemma {:induction false} SafeJoinIsSafe(components: seq<string>)
    requires !AnyEscapes(components)
    ensures !Escapes(Join(components))
    ensures Elements(Join(components)) == AllElements(components)
  {
    var kept := NonEmpty(components);
    NoneEscapesIff(components);
    NonEmptyKeepsElements(components);
    EmptyHasNoElements();
    if kept != [] {
      SlashJoinStays(kept);
      CleanKeepsElements(JoinSlash(kept));
      EscapesMeansGoesUp(JoinSlash(kept));
      EscapesMeansGoesUp(Join(components));
    }
  }

  // ----- chains of joins below a base -----

  /** basePath.withRel. */
  function WithRel(path: string, rel: string): string {
    Join([path, rel])
  }

  lemma {:induction false} WithRelAppends(base: string, rel: string)
    requires !Escapes(rel)
    ensures Rooted(WithRel(base, rel)) == Rooted(base)
    ensures Elements(WithRel(base, rel)) == Elements(base) + Elements(rel)
  {
    EscapesMeansGoesUp(rel);
    EmptyHasNoElements();
    NonEmptyPair(base, rel);
    if base != "" && rel != "" {
      assert [base, rel][1..] == [rel];
      assert JoinSlash([base, rel]) == base + "/" + rel;
      SlashAppends(base, rel);
      CleanKeepsElements(base + "/" + rel);
    } else {
      CleanKeepsElements(base);
      CleanKeepsElements(rel);
    }
  }

  lemma {:induction false} NonEmptyPair(base: string, rel: string)
    ensures NonEmpty([base, rel]) == (if base == "" then [] else [base]) + (if rel == "" then [] else [rel])
  {
    assert [base, rel][1..] == [rel];
    assert NonEmpty([rel]) == if rel == "" then [] else [rel];
  }

  /** validatePath: no component may hold a ninja variable; on error the path is "". */
  function ValidatedOrEmpty(components: seq<string>): string {
    if (exists i :: 0 <= i < |components| && '$' in components[i]) || AnyEscapes(components) then ""
    else Join(components)
  }

  /** A chain of OutputPath.Join calls; a rejected call reports an error and joins "". */
  function JoinChain(base: string, calls: seq<seq<string>>): string {
    if calls == [] then base
    else WithRel(JoinChain(base, calls[..|calls| - 1]), ValidatedOrEmpty(calls[|calls| - 1]))
  }

  /** No component has a dollar sign, is rooted or goes up first. */
  ghost predicate Acceptable(components: seq<string>) {
    forall i :: 0 <= i < |components| ==>
      && '$' !in components[i] && !Rooted(components[i])
      && (Elements(components[i]) != [] ==> Elements(components[i])[0] != "..")
  }

  lemma {:induction false} AcceptableExactly(components: seq<string>)
    ensures Acceptable(components) <==>
      !(exists i :: 0 <= i < |components| && '$' in components[i]) && !AnyEscapes(components)
  {
    NoneEscapesIff(components);
    forall i | 0 <= i < |components|
      ensures !Escapes(components[i]) <==>
        !Rooted(components[i]) && (Elements(components[i]) != [] ==> Elements(components[i])[0] != "..")
    {
      EscapesMeansGoesUp(components[i]);
    }
  }

  /** The elements that a chain of calls adds: those of all components of the acceptable calls. */
  ghost function ChainElements(calls: seq<seq<string>>): seq<string> {
    if calls == [] then []
    else ChainElements(calls[..|calls| - 1]) + CallElements(calls[|calls| - 1])
  }

  ghost function CallElements(components: seq<string>): seq<string> {
    if Acceptable(components) then AllElements(components) else []
  }

  lemma {:induction false} ConcatAssociates<T>(a: seq<T>, b: seq<T>, c: seq<T>)
    ensures (a + b) + c == a + (b + c)
  {
  }

  lemma {:induction false} CallAdds(path: string, components: seq<string>)
    ensures Rooted(WithRel(path, ValidatedOrEmpty(components))) == Rooted(path)
    ensures Elements(WithRel(path, ValidatedOrEmpty(components))) == Elements(path) + CallElements(components)
  {
    AcceptableExactly(components);
    if Acceptable(components) {
      SafeJoinIsSafe(components);
    } else {
      EmptyHasNoElements();
    }
    WithRelAppends(path, ValidatedOrEmpty(components));
  }

  /** Whatever the components are, a chain of Join calls never leaves its base. */
  lemma {:induction false} ChainStaysBelowBase(base: string, calls: seq<seq<string>>)
    ensures Rooted(JoinChain(base, calls)) == Rooted(base)
    ensures Elements(JoinChain(base, calls)) == Elements(base) + ChainElements(calls)
    decreases |calls|
  {
    if calls != [] {
      var init, last := calls[..|calls| - 1], calls[|calls| - 1];
      ChainStaysBelowBase(base, init);
      CallAdds(JoinChain(base, init), last);
      ConcatAssociates(Elements(base), ChainElements(init), CallElements(last));
    }
  }

  // ----- PathForOutput -----

  lemma {:induction false} JoinSlashEndsWith(a: seq<string>, b: seq<string>)
    requires b != []
    ensures |JoinSlash(b)| <= |JoinSlash(a + b)|
    ensures JoinSlash(a + b)[|JoinSlash(a + b)| - |JoinSlash(b)|..] == JoinSlash(b)
  {
    if a == [] {
      assert a + b == b;
    } else {
      assert (a + b)[0] == a[0] && (a + b)[1..] == a[1..] + b;
      JoinSlashEndsWith(a[1..], b);
    }
  }

  /** The last |path| characters of the full path, which PathForOutput stores as the path. */
  function StoredSuffix(fullPath: string, path: string): Option<string> {
    if |path| <= |fullPath| then Some(fullPath[|fullPath| - |path|..]) else None
  }

  /**
   * PathForOutput cuts the validated path off the end of buildDir joined with it.  The cut is in
   * range, and it gives the path back except for ".", which filepath.Join swallows: then the
   * stored path is the last character of the build directory.
   */
  lemma {:induction false} PathForOutputStoresPath(buildDir: string, components: seq<string>)
    ensures var path := ValidatedOrEmpty(components);
            var full := WithRel(buildDir, path);
            && StoredSuffix(full, path).Some?
            && (StoredSuffix(full, path) == Some(path) <==> path != "." || full[|full| - 1] == '.')
  {
    var path := ValidatedOrEmpty(components);
    var full := WithRel(buildDir, path);
    if path == "" {
      SuffixOfNothing(full);
    } else {
      FullPathElements(buildDir, components);
      ElementsWritten(path);
      ElementsWritten(buildDir);
      SuffixOfRendered(full, path, Rooted(buildDir), Elements(buildDir), Elements(path));
    }
  }

  lemma {:induction false} SuffixOfNothing(full: string)
    ensures StoredSuffix(full, "") == Some("")
  {
    assert full[|full|..] == "";
  }

  lemma {:induction false} SuffixOfRendered(full: string, path: string, rooted: bool, below: seq<string>, es: seq<string>)
    requires Written(false, es) && Written(rooted, below)
    requires path == Render(false, es) && full == Render(rooted, below + es)
    ensures StoredSuffix(full, path).Some? && full != ""
    ensures StoredSuffix(full, path) == Some(path) <==> path != "." || full[|full| - 1] == '.'
  {
    RenderedEndsWith(rooted, below, es);
    if es != [] {
      JoinHead(es);
    }
  }

  /** Both paths are rendered, the full one from the build directory's elements and the path's. */
  lemma {:induction false} FullPathElements(buildDir: string, components: seq<string>)
    requires ValidatedOrEmpty(components) != ""
    ensures var path := ValidatedOrEmpty(components);
            var full := WithRel(buildDir, path);
            && path == Render(false, Elements(path)) && !Rooted(path)
            && full == Render(Rooted(buildDir), Elements(buildDir) + Elements(path))
  {
    var path := Join(components);
    SafeJoinIsSafe(components);
    JoinIsClean(components);
    EscapesMeansGoesUp(path);
    WithRelAppends(buildDir, path);
    NonEmptyPair(buildDir, path);
    JoinIsClean([buildDir, path]);
  }

  lemma {:induction false} RenderedEndsWith(rooted: bool, below: seq<string>, es: seq<string>)
    requires Written(false, es) && Written(rooted, below)
    ensures var path, full := Render(false, es), Render(rooted, below + es);
            && |path| <= |full|
            && (full[|full| - |path|..] == path <==> path != "." || full[|full| - 1] == '.')
  {
    var path, full := Render(false, es), Render(rooted, below + es);
    if es != [] {
      JoinSlashEndsWith(below, es);
      SplitJoin(es);
      SplitWhole(".");
    } else {
      assert below + es == below;
      if below != [] {
        JoinHead(below);
      }
      assert full[|full| - 1..] == [full[|full| - 1]];
    }
  }

  /** A joined path is its elements written out. */
  lemma {:induction false} JoinIsClean(paths: seq<string>)
    requires NonEmpty(paths) != []
    ensures Join(paths) == Render(Rooted(Join(paths)), Elements(Join(paths))) != ""
  {
    var s := JoinSlash(NonEmpty(paths));
    CleanKeepsElements(s);
    ElementsWritten(s);
    if Elements(s) != [] {
      JoinHead(Elements(s));
    }
  }

  /** PathForOutput(".") with build directory "out" stores the path "t". */
  lemma {:induction false} PathForOutputDot()
    ensures ValidatedOrEmpty(["."]) == "."
    ensures WithRel("out", ".") == "out" && StoredSuffix("out", ".") == Some("t")
  {
    EmptyHasNoElements();
    EscapesMeansGoesUp(".");
    assert ["."][..0] == [] && ["."][1..] == [];
    assert !AnyEscapes(["."]);
    assert NonEmpty(["."]) == ["."];
    FullPathElements("out", ["."]);
    SplitWhole("out");
    assert PushAll(false, ["out"], ["out"][1..]) == ["out"];
    assert Elements("out") + [] == ["out"];
    assert "out"[2..] == "t";
  }
}
