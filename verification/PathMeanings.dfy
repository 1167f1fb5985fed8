// What path strings mean: where a walk along them leads.  filepath.Clean and Join keep that meaning,
// and validateSafePath (android/paths.go) rejects exactly the paths that lead outside.
module PathMeanings {
  import opened Wrappers
  import opened CleanPaths

  /** A place in a tree of directories, by the names that lead to it from the root. */
  type Place = seq<string>

  /** One step of a walk; the root is its own parent. */
  function Go(at: Place, e: string): Place {
    if e == "" || e == "." then at
    else if e != ".." then at + [e]
    else if at == [] then []
    else at[..|at| - 1]
  }

  function GoAll(at: Place, es: seq<string>): Place
    decreases |es|
  {
    if es == [] then at else GoAll(Go(at, es[0]), es[1..])
  }

  function Start(rooted: bool, cwd: Place): Place {
    if rooted then [] else cwd
  }

  /** The place that the path names in the directory `cwd`. */
  function Resolve(cwd: Place, path: string): Place {
    GoAll(Start(Rooted(path), cwd), Split(path))
  }

  lemma {:induction false} GoAllConcat(at: Place, a: seq<string>, b: seq<string>)
    ensures GoAll(at, a + b) == GoAll(GoAll(at, a), b)
    decreases |a|
  {
    if a == [] {
      assert a + b == b;
    } else {
      assert (a + b)[0] == a[0] && (a + b)[1..] == a[1..] + b;
      GoAllConcat(Go(at, a[0]), a[1..], b);
    }
  }

  lemma {:induction false} GoAllSnoc(at: Place, es: seq<string>, e: string)
    ensures GoAll(at, es + [e]) == Go(GoAll(at, es), e)
  {
    GoAllConcat(at, es, [e]);
    assert [e][1..] == [];
  }

  // ----- Clean keeps the meaning -----

  /** What Clean makes of one more element leads where the element leads. */
  lemma {:induction false} PushKeepsMeaning(rooted: bool, at: Place, out: seq<string>, e: string)
    requires Written(rooted, out) && (rooted ==> at == [])
    ensures GoAll(at, Push(rooted, out, e)) == Go(GoAll(at, out), e)
  {
    GoAllSnoc(at, out, e);
    if e == ".." && out != [] {
      var n := |out| - 1;
      assert out == out[..n] + [out[n]];
      GoAllSnoc(at, out[..n], out[n]);
    }
  }

  lemma {:induction false} PushAllKeepsMeaning(rooted: bool, at: Place, out: seq<string>, es: seq<string>)
    requires Written(rooted, out) && (rooted ==> at == [])
    requires forall i :: 0 <= i < |es| ==> '/' !in es[i]
    ensures GoAll(at, PushAll(rooted, out, es)) == GoAll(GoAll(at, out), es)
    decreases |es|
  {
    if es != [] {
      PushKeepsMeaning(rooted, at, out, es[0]);
      PushAllWritten(rooted, out, es[..1]);
      assert PushAll(rooted, out, es[..1]) == Push(rooted, out, es[0]);
      PushAllKeepsMeaning(rooted, at, Push(rooted, out, es[0]), es[1..]);
    }
  }

  lemma {:induction false} ElementsKeepMeaning(s: string, cwd: Place)
    ensures GoAll(Start(Rooted(s), cwd), Elements(s)) == Resolve(cwd, s)
  {
    PushAllKeepsMeaning(Rooted(s), Start(Rooted(s), cwd), [], Split(s));
  }

  lemma {:induction false} RenderedMeans(rooted: bool, es: seq<string>, cwd: Place)
    requires Written(rooted, es)
    ensures Resolve(cwd, Render(rooted, es)) == GoAll(Start(rooted, cwd), es)
  {
    ElementsOfRendered(rooted, es);
    ElementsKeepMeaning(Render(rooted, es), cwd);
  }

  /** From every directory the cleaned path leads where the path leads. */
  lemma {:induction false} CleanKeepsMeaning(s: string, cwd: Place)
    ensures Resolve(cwd, Clean(s)) == Resolve(cwd, s)
  {
    ElementsWritten(s);
    RenderedMeans(Rooted(s), Elements(s), cwd);
    ElementsKeepMeaning(s, cwd);
  }

  // ----- and that leaves one possible result -----

  /** The number of ".." in front. */
  function Ups(es: seq<string>): (k: nat)
    ensures k <= |es|
    ensures forall i :: 0 <= i < k ==> es[i] == ".."
    ensures k < |es| ==> es[k] != ".."
  {
    if es != [] && es[0] == ".." then 1 + Ups(es[1..]) else 0
  }

  lemma {:induction false} NamesAreAdded(at: Place, es: seq<string>)
    requires forall i :: 0 <= i < |es| ==> Plain(es[i]) && es[i] != ".."
    ensures GoAll(at, es) == at + es
    decreases |es|
  {
    if es != [] {
      NamesAreAdded(at + [es[0]], es[1..]);
      assert at + [es[0]] + es[1..] == at + es;
    }
  }

  lemma {:induction false} UpsGoUp(at: Place, es: seq<string>)
    requires |es| <= |at| && forall i :: 0 <= i < |es| ==> es[i] == ".."
    ensures GoAll(at, es) == at[..|at| - |es|]
    decreases |es|
  {
    if es != [] {
      UpsGoUp(at[..|at| - 1], es[1..]);
    }
  }

  lemma {:induction false} NoUpBehind(es: seq<string>, i: nat)
    requires Written(false, es) && Ups(es) <= i < |es|
    ensures es[i] != ".."
  {
    if i > Ups(es) {
      NoUpBehind(es, i - 1);
    }
  }

  lemma {:induction false} WrittenMeans(at: Place, es: seq<string>)
    requires Written(false, es) && Ups(es) <= |at|
    ensures GoAll(at, es) == at[..|at| - Ups(es)] + es[Ups(es)..]
  {
    var k := Ups(es);
    assert es == es[..k] + es[k..];
    GoAllConcat(at, es[..k], es[k..]);
    UpsGoUp(at, es[..k]);
    forall i | 0 <= i < |es[k..]| ensures Plain(es[k..][i]) && es[k..][i] != ".." {
      NoUpBehind(es, k + i);
    }
    NamesAreAdded(at[..|at| - k], es[k..]);
  }

  function Blanks(n: nat): Place {
    seq(n, i => "")
  }

  lemma {:induction false} FewerBlanks(a: nat, xs: seq<string>, b: nat, ys: seq<string>)
    requires Blanks(a) + xs == Blanks(b) + ys && "" !in ys
    ensures a <= b
  {
    var s := Blanks(a) + xs;
    assert forall i :: 0 <= i < a ==> s[i] == "";
    assert b < |s| ==> s[b] == ys[0] != "";
    assert a <= |s|;
  }

  lemma {:induction false} BlanksMean(n: nat, es: seq<string>)
    requires Written(false, es) && Ups(es) <= n
    ensures GoAll(Blanks(n), es) == Blanks(n - Ups(es)) + es[Ups(es)..] && "" !in es[Ups(es)..]
  {
    WrittenMeans(Blanks(n), es);
    assert Blanks(n)[..n - Ups(es)] == Blanks(n - Ups(es));
  }

  /** Written paths that lead to the same places go up equally far ... */
  lemma {:induction false} SameUps(es: seq<string>, fs: seq<string>, n: nat)
    requires Written(false, es) && Written(false, fs) && Ups(es) <= n && Ups(fs) <= n
    requires GoAll(Blanks(n), es) == GoAll(Blanks(n), fs)
    ensures Ups(es) <= Ups(fs)
  {
    BlanksMean(n, es);
    BlanksMean(n, fs);
    FewerBlanks(n - Ups(fs), fs[Ups(fs)..], n - Ups(es), es[Ups(es)..]);
  }

  /** ... and are the same. */
  lemma {:induction false} SameMeaningSameElements(rooted: bool, es: seq<string>, fs: seq<string>)
    requires Written(rooted, es) && Written(rooted, fs)
    requires forall cwd: Place :: GoAll(Start(rooted, cwd), es) == GoAll(Start(rooted, cwd), fs)
    ensures es == fs
  {
    if rooted {
      NamesAreAdded([], es);
      NamesAreAdded([], fs);
      assert GoAll(Start(rooted, []), es) == GoAll(Start(rooted, []), fs);
      assert [] + es == es && [] + fs == fs;
    } else {
      var at := Blanks(|es| + |fs|);
      assert GoAll(Start(rooted, at), es) == GoAll(Start(rooted, at), fs);
      SameUps(es, fs, |at|);
      SameUps(fs, es, |at|);
      SameNames(es, fs, at);
    }
  }

  lemma {:induction false} SameNames(es: seq<string>, fs: seq<string>, at: Place)
    requires Written(false, es) && Written(false, fs) && Ups(es) == Ups(fs) <= |at|
    requires GoAll(at, es) == GoAll(at, fs)
    ensures es == fs
  {
    WrittenMeans(at, es);
    WrittenMeans(at, fs);
    var k := Ups(es);
    SameRest(at[..|at| - k], es[k..], fs[k..]);
    assert es[..k] == fs[..k];
    assert es == es[..k] + es[k..] && fs == fs[..k] + fs[k..];
  }

  lemma {:induction false} SameRest(low: Place, a: seq<string>, b: seq<string>)
    requires low + a == low + b
    ensures a == b
  {
    assert a == (low + a)[|low|..] && b == (low + b)[|low|..];
  }

  /** A path in its shortest form: "/", or ".", or elements with slashes between them, ".." in front. */
  ghost predicate IsClean(r: string) {
    exists es :: Written(Rooted(r), es) && r == Render(Rooted(r), es)
  }

  ghost predicate SameMeaning(r: string, s: string) {
    Rooted(r) == Rooted(s) && forall cwd: Place :: Resolve(cwd, r) == Resolve(cwd, s)
  }

  /** Clean gives the one path in that form with the same meaning. */
  lemma {:induction false} CleanExactly(s: string, r: string)
    ensures r == Clean(s) <==> IsClean(r) && SameMeaning(r, s)
  {
    CleanKeepsElements(s);
    ElementsWritten(s);
    if r == Clean(s) {
      forall cwd: Place ensures Resolve(cwd, r) == Resolve(cwd, s) {
        CleanKeepsMeaning(s, cwd);
      }
    }
    if IsClean(r) && SameMeaning(r, s) {
      var rooted := Rooted(r);
      var es :| Written(rooted, es) && r == Render(rooted, es);
      forall cwd: Place ensures GoAll(Start(rooted, cwd), es) == GoAll(Start(rooted, cwd), Elements(s)) {
        RenderedMeans(rooted, es, cwd);
        ElementsKeepMeaning(s, cwd);
        assert Resolve(cwd, r) == Resolve(cwd, s);
      }
      SameMeaningSameElements(rooted, es, Elements(s));
    }
  }

  // ----- Join walks the paths in turn -----

  function InTurn(at: Place, paths: seq<string>): Place
    decreases |paths|
  {
    if paths == [] then at else InTurn(GoAll(at, Split(paths[0])), paths[1..])
  }

  /** Joined paths are rooted if the first of them that is not empty is. */
  function JoinRooted(paths: seq<string>): bool {
    paths != [] && if paths[0] == "" then JoinRooted(paths[1..]) else Rooted(paths[0])
  }

  lemma {:induction false} NonEmptyMeans(at: Place, paths: seq<string>)
    ensures InTurn(at, NonEmpty(paths)) == InTurn(at, paths)
    ensures NonEmpty(paths) != [] ==> Rooted(NonEmpty(paths)[0]) == JoinRooted(paths) && NonEmpty(paths)[0] != ""
    ensures NonEmpty(paths) == [] ==> !JoinRooted(paths)
    decreases |paths|
  {
    if paths != [] {
      NonEmptyMeans(GoAll(at, Split(paths[0])), paths[1..]);
      if paths[0] == "" {
        assert [""][1..] == [];
        assert GoAll(at, [""]) == at;
      } else {
        assert NonEmpty(paths)[1..] == NonEmpty(paths[1..]);
      }
    }
  }

  lemma {:induction false} SlashJoinMeans(at: Place, paths: seq<string>)
    requires paths != []
    ensures GoAll(at, Split(JoinSlash(paths))) == InTurn(at, paths)
    decreases |paths|
  {
    var rest := paths[1..];
    if rest == [] {
      assert paths == [paths[0]];
    } else {
      SplitConcat(paths[0], JoinSlash(rest));
      GoAllConcat(at, Split(paths[0]), Split(JoinSlash(rest)));
      SlashJoinMeans(GoAll(at, Split(paths[0])), rest);
    }
  }

  /** filepath.Join leads where the paths lead one after the other; a later root does not count. */
  lemma {:induction false} JoinMeans(paths: seq<string>, cwd: Place)
    ensures Rooted(Join(paths)) == JoinRooted(paths)
    ensures Resolve(cwd, Join(paths)) == InTurn(Start(JoinRooted(paths), cwd), paths)
  {
    var kept := NonEmpty(paths);
    NonEmptyMeans(Start(JoinRooted(paths), cwd), paths);
    if kept == [] {
      assert GoAll(cwd, [""]) == GoAll(cwd, [""][1..]);
    } else {
      JoinSlashRooted(kept);
      CleanKeepsElements(JoinSlash(kept));
      CleanKeepsMeaning(JoinSlash(kept), cwd);
      SlashJoinMeans(Start(JoinRooted(paths), cwd), kept);
    }
  }

  lemma {:induction false} JoinSlashRooted(paths: seq<string>)
    requires paths != [] && paths[0] != ""
    ensures Rooted(JoinSlash(paths)) == Rooted(paths[0])
  {
    if |paths| > 1 {
      assert JoinSlash(paths)[0] == paths[0][0];
    }
  }

  // ----- validateSafePath rejects what leads outside -----

  /** From every directory the path leads to that directory or below it. */
  ghost predicate StaysInside(path: string) {
    !Rooted(path) && forall cwd: Place :: cwd <= Resolve(cwd, path)
  }

  lemma {:induction false} EscapesExactly(path: string)
    ensures Escapes(path) <==> !StaysInside(path)
  {
    EscapesMeansGoesUp(path);
    if !Rooted(path) {
      if Elements(path) == [] || Elements(path)[0] != ".." {
        DownStaysInside(path);
      } else {
        UpLeadsOutside(path);
      }
    }
  }

  lemma {:induction false} DownStaysInside(path: string)
    requires !Rooted(path) && (Elements(path) == [] || Elements(path)[0] != "..")
    ensures StaysInside(path)
  {
    ElementsWritten(path);
    forall cwd: Place ensures cwd <= Resolve(cwd, path) {
      ElementsKeepMeaning(path, cwd);
      WrittenMeans(cwd, Elements(path));
    }
  }

  lemma {:induction false} UpLeadsOutside(path: string)
    requires !Rooted(path) && Elements(path) != [] && Elements(path)[0] == ".."
    ensures !StaysInside(path)
  {
    var es := Elements(path);
    var cwd := Blanks(Ups(es));
    ElementsWritten(path);
    ElementsKeepMeaning(path, cwd);
    AllTheWayUp(es);
    NoBlankPrefix(cwd, Resolve(cwd, path));
  }

  lemma {:induction false} AllTheWayUp(es: seq<string>)
    requires Written(false, es)
    ensures "" !in GoAll(Blanks(Ups(es)), es)
  {
    BlanksMean(Ups(es), es);
  }

  lemma {:induction false} NoBlankPrefix(cwd: Place, r: Place)
    requires cwd != [] && cwd[0] == "" && "" !in r
    ensures !(cwd <= r)
  {
    assert r != [] ==> r[0] in r;
  }

  /** The whole of it: an error exactly if some component leads outside, otherwise a path that does not. */
  lemma {:induction false} ValidatedExactly(components: seq<string>)
    ensures AnyEscapes(components) <==> exists i :: 0 <= i < |components| && !StaysInside(components[i])
    ensures !AnyEscapes(components) ==> StaysInside(Join(components))
  {
    NoneEscapesIff(components);
    forall i | 0 <= i < |components| ensures Escapes(components[i]) <==> !StaysInside(components[i]) {
      EscapesExactly(components[i]);
    }
    if !AnyEscapes(components) {
      SafeJoinIsSafe(components);
      EscapesExactly(Join(components));
    }
  }

  /** Following `path` is following the components one after the other, from anywhere. */
  ghost predicate LeadsThrough(path: string, components: seq<string>) {
    forall cwd: Place :: Resolve(cwd, path) == InTurn(cwd, components)
  }

  lemma {:induction false} JoinLeadsThrough(components: seq<string>)
    requires !AnyEscapes(components)
    ensures StaysInside(Join(components)) && LeadsThrough(Join(components), components)
  {
    ValidatedExactly(components);
    forall cwd: Place ensures Resolve(cwd, Join(components)) == InTurn(cwd, components) {
      JoinMeans(components, cwd);
    }
  }

  method ValidateSafePath(components: seq<string>) returns (r: Option<string>)
    ensures r.None? <==> exists i :: 0 <= i < |components| && !StaysInside(components[i])
    ensures r.Some? ==> r.value == Join(components)
    ensures r.Some? ==> StaysInside(r.value) && LeadsThrough(r.value, components)
  {
    for i := 0 to |components|
      invariant forall j :: 0 <= j < i ==> StaysInside(components[j])
    {
      EscapesExactly(components[i]);
      if Escapes(components[i]) {
        return None;
      }
    }
    ValidatedExactly(components);
    JoinLeadsThrough(components);
    r := Some(Join(components));
  }

  /** An element and ".." after it cancel. */
  lemma {:induction false} UpCancels(s: string, e: string)
    requires s != "" && Plain(e) && e != ".."
    ensures Clean(s + "/" + e + "/" + "..") == Clean(s)
  {
    var t := s + "/" + e + "/" + "..";
    assert Rooted(t) == Rooted(s);
    SplitConcat(s, e);
    SplitConcat(s + "/" + e, "..");
    SplitWhole(e);
    SplitWhole("..");
    forall cwd: Place ensures Resolve(cwd, t) == Resolve(cwd, s) {
      var at := Start(Rooted(s), cwd);
      GoAllSnoc(at, Split(s) + [e], "..");
      GoAllSnoc(at, Split(s), e);
    }
    CleanExactly(s, Clean(s));
    assert forall cwd: Place :: Resolve(cwd, Clean(s)) == Resolve(cwd, t);
    CleanExactly(t, Clean(s));
  }
}
