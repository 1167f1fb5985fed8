// android/paths.go: DirectorySortedPaths.  The entries below a directory are found in a sorted
// list by two binary searches, on strings.
module DirectoryPaths {
  import opened Lists
  import opened Orders
  import opened CleanPaths

  // ----- prefixed strings are contiguous in string order -----

  lemma {:induction false} PrefixIsNotGreater(prefix: string, s: string)
    requires HasPrefix(s, prefix)
    ensures s == prefix || Less(prefix, s)
  {
    if prefix != [] {
      PrefixIsNotGreater(prefix[1..], s[1..]);
      assert prefix == [prefix[0]] + prefix[1..] && s == [s[0]] + s[1..];
    }
  }

  /** Above a prefix, a string with the prefix is below every string without it. */
  lemma {:induction false} PrefixedComeFirst(prefix: string, a: string, b: string)
    requires Less(prefix, a) && !HasPrefix(a, prefix) && HasPrefix(b, prefix)
    ensures Less(b, a)
  {
    if prefix[0] == a[0] {
      assert prefix == [prefix[0]] + prefix[1..] && a == [a[0]] + a[1..];
      PrefixedComeFirst(prefix[1..], a[1..], b[1..]);
    }
  }

  // ----- the two searches -----

  /** PathsToDirectorySortedPaths. */
  function ToDirectorySortedPaths<T>(paths: seq<T>, str: T -> string): seq<T> {
    SortBy(paths, str)
  }

  function DirectoryPrefix(dir: string): string {
    Clean(dir) + "/"
  }

  /** What the two searches select: the prefix itself, as an entry, is passed over. */
  predicate Selected(prefix: string, s: string) {
    HasPrefix(s, prefix) && s != prefix
  }

  method PathsInDirectory<T>(p: seq<T>, str: T -> string, dir: string) returns (r: seq<T>)
    requires SortedBy(p, str)
    ensures r == Filter(p, x => Selected(DirectoryPrefix(dir), str(x)))
  {
    var prefix := DirectoryPrefix(dir);
    r := SearchPrefix(p, str, prefix);
  }

  method SearchPrefix<T>(p: seq<T>, str: T -> string, prefix: string) returns (r: seq<T>)
    requires SortedBy(p, str)
    ensures r == Filter(p, x => Selected(prefix, str(x)))
  {
    var start := SearchAbove(p, str, prefix);
    var ret := p[start..];
    assert forall i :: start <= i < |p| ==> ret[i - start] == p[i];
    var end := SearchUnprefixed(ret, str, prefix);
    r := ret[..end];
    SearchesSelect(p, str, prefix, start, end);
    assert r == p[start..start + end];
  }

  method SearchAbove<T>(p: seq<T>, str: T -> string, prefix: string) returns (start: nat)
    requires SortedBy(p, str)
    ensures start <= |p|
    ensures forall i :: 0 <= i < |p| ==> (Less(prefix, str(p[i])) <==> start <= i)
  {
    AboveIsMonotone(p, str, prefix);
    var above := (i: nat) => i < |p| && Less(prefix, str(p[i]));
    start := Search(|p|, above);
    assert forall i :: 0 <= i < |p| ==> (above(i) <==> Less(prefix, str(p[i])));
  }

  method SearchUnprefixed<T>(p: seq<T>, str: T -> string, prefix: string) returns (end: nat)
    requires SortedBy(p, str)
    requires forall i :: 0 <= i < |p| ==> Less(prefix, str(p[i]))
    ensures end <= |p|
    ensures forall i :: 0 <= i < |p| ==> (HasPrefix(str(p[i]), prefix) <==> i < end)
  {
    UnprefixedIsMonotone(p, str, prefix);
    var outside := (i: nat) => i < |p| && !HasPrefix(str(p[i]), prefix);
    end := Search(|p|, outside);
    assert forall i :: 0 <= i < |p| ==> (outside(i) <==> !HasPrefix(str(p[i]), prefix));
  }

  lemma {:induction false} AboveIsMonotone<T>(p: seq<T>, str: T -> string, prefix: string)
    requires SortedBy(p, str)
    ensures forall i, j :: 0 <= i < j < |p| && Less(prefix, str(p[i])) ==> Less(prefix, str(p[j]))
  {
    forall i, j | 0 <= i < j < |p| && Less(prefix, str(p[i])) ensures Less(prefix, str(p[j])) {
      LessTotal(str(p[i]), str(p[j]));
      if str(p[i]) != str(p[j]) {
        LessTransitive(prefix, str(p[i]), str(p[j]));
      }
    }
  }

  lemma {:induction false} UnprefixedIsMonotone<T>(p: seq<T>, str: T -> string, prefix: string)
    requires SortedBy(p, str)
    requires forall i :: 0 <= i < |p| ==> Less(prefix, str(p[i]))
    ensures forall i, j :: 0 <= i < j < |p| && !HasPrefix(str(p[i]), prefix) ==> !HasPrefix(str(p[j]), prefix)
  {
    forall i, j | 0 <= i < j < |p| && !HasPrefix(str(p[i]), prefix) ensures !HasPrefix(str(p[j]), prefix) {
      if HasPrefix(str(p[j]), prefix) {
        PrefixedComeFirst(prefix, str(p[i]), str(p[j]));
      }
    }
  }

  lemma {:induction false} SearchesSelect<T>(p: seq<T>, str: T -> string, prefix: string, start: nat, end: nat)
    requires start + end <= |p|
    requires forall i :: 0 <= i < |p| ==> (Less(prefix, str(p[i])) <==> start <= i)
    requires forall i :: start <= i < |p| ==> (HasPrefix(str(p[i]), prefix) <==> i < start + end)
    ensures Filter(p, x => Selected(prefix, str(x))) == p[start..start + end]
  {
    forall i | 0 <= i < |p| ensures Selected(prefix, str(p[i])) <==> start <= i < start + end {
      LessIrreflexive(prefix);
      if HasPrefix(str(p[i]), prefix) {
        PrefixIsNotGreater(prefix, str(p[i]));
      }
    }
    FilterIsSlice(p, x => Selected(prefix, str(x)), start, start + end);
  }

  // ----- what the selection means -----

  /**
   * PathsInDirectory returns the entries with the directory prefix, all of them, if and only if
   * no entry is the prefix itself, that is the directory's path with a slash at its end.
   */
  lemma {:induction false} SelectsAllPrefixed<T(!new)>(p: seq<T>, str: T -> string, dir: string)
    ensures var prefix := DirectoryPrefix(dir);
            Filter(p, x => Selected(prefix, str(x))) == Filter(p, x => HasPrefix(str(x), prefix))
            <==> forall x :: x in p ==> str(x) != prefix
  {
    var prefix := DirectoryPrefix(dir);
    var selected := (x: T) => Selected(prefix, str(x));
    var prefixed := (x: T) => HasPrefix(str(x), prefix);
    FilterMembers(p, selected);
    FilterMembers(p, prefixed);
    if forall x :: x in p ==> str(x) != prefix {
      FilterAgrees(p, selected, prefixed);
    } else {
      var x :| x in p && str(x) == prefix;
      assert x in Filter(p, prefixed) && x !in Filter(p, selected);
    }
  }

  /** Sorting first changes no selection, but for its order. */
  lemma {:induction false} SortedSelection<T(!new)>(paths: seq<T>, str: T -> string, keep: T -> bool)
    ensures SortedBy(ToDirectorySortedPaths(paths, str), str)
    ensures multiset(Filter(ToDirectorySortedPaths(paths, str), keep)) == multiset(Filter(paths, keep))
  {
    SortBySorts(paths, str);
    FilterPermutes(SortBy(paths, str), paths, keep);
  }

  /** `s` lies strictly below the directory. */
  ghost predicate Below(dir: string, s: string) {
    Rooted(s) == Rooted(dir) && Elements(dir) < Elements(s)
  }

  /** On joined elements, "has the prefix with a slash" is "has the elements as a proper prefix". */
  lemma {:induction false} SlashPrefixIsElementPrefix(dir: seq<string>, es: seq<string>)
    requires dir != [] && es != []
    requires (forall i :: 0 <= i < |dir| ==> '/' !in dir[i]) && (forall i :: 0 <= i < |es| ==> '/' !in es[i])
    ensures HasPrefix(JoinSlash(es), JoinSlash(dir) + "/") <==> dir < es
  {
    var d, s := JoinSlash(dir), JoinSlash(es);
    SplitJoin(dir);
    SplitJoin(es);
    if HasPrefix(s, d + "/") {
      var rest := s[|d| + 1..];
      assert s == d + "/" + rest;
      SplitConcat(d, rest);
    }
    if dir < es {
      assert es == dir + es[|dir|..];
      JoinSlashConcat(dir, es[|dir|..]);
    }
  }

  /** ... and the path is longer than that prefix. */
  lemma {:induction false} SlashPrefixIsProper(dir: seq<string>, es: seq<string>)
    requires dir != [] && Written(false, es) && dir < es
    ensures JoinSlash(es) != JoinSlash(dir) + "/"
  {
    var rest := es[|dir|..];
    assert es == dir + rest;
    JoinSlashConcat(dir, rest);
    assert rest[0] == es[|dir|];
    JoinHead(rest);
  }

  lemma {:induction false} UnrootedSelected(dir: seq<string>, es: seq<string>)
    requires Written(false, dir) && Written(false, es)
    ensures Selected(Render(false, dir) + "/", Render(false, es)) <==> dir != [] && dir < es
  {
    if es != [] {
      if dir != [] {
        SlashPrefixIsElementPrefix(dir, es);
        if dir < es {
          SlashPrefixIsProper(dir, es);
        }
      } else {
        JoinStartsWithElement(es, ".");
      }
    }
  }

  lemma {:induction false} RootedSelected(dir: seq<string>, es: seq<string>)
    requires Written(true, dir) && Written(true, es)
    ensures Selected(Render(true, dir) + "/", Render(true, es)) <==> dir != [] && dir < es
  {
    var d, s := JoinSlash(dir), JoinSlash(es);
    var prefix := ("/" + d) + "/";
    assert prefix[1..] == d + "/" && ("/" + s)[1..] == s;
    assert HasPrefix("/" + s, prefix) <==> HasPrefix(s, d + "/");
    if es != [] {
      JoinHead(es);
      if dir != [] {
        SlashPrefixIsElementPrefix(dir, es);
        if dir < es {
          SlashPrefixIsProper(dir, es);
        }
      }
    }
  }

  lemma {:induction false} RenderHead(rooted: bool, es: seq<string>)
    requires Written(rooted, es)
    ensures Render(rooted, es) != [] && (Render(rooted, es)[0] == '/' <==> rooted)
  {
    if es != [] {
      JoinHead(es);
    }
  }

  /**
   * For cleaned paths the prefix test is the right one exactly when the directory has elements:
   * for "." and "/" nothing is found although everything of that kind is below.
   */
  lemma {:induction false} PrefixMeansBelow(dir: string, s: string)
    requires Clean(s) == s
    ensures Selected(DirectoryPrefix(dir), s) <==> Elements(dir) != [] && Below(dir, s)
  {
    ElementsWritten(dir);
    ElementsWritten(s);
    RenderHead(Rooted(dir), Elements(dir));
    RenderHead(Rooted(s), Elements(s));
    assert DirectoryPrefix(dir)[0] == Clean(dir)[0];
    if Rooted(dir) && Rooted(s) {
      RootedSelected(Elements(dir), Elements(s));
    } else if !Rooted(dir) && !Rooted(s) {
      UnrootedSelected(Elements(dir), Elements(s));
    }
  }

  /** For "." the searches find nothing: "a" is below ".", but does not start with "./". */
  lemma {:induction false} CurrentDirectoryFindsNothing()
    ensures Below(".", "a") && !Selected(DirectoryPrefix("."), "a")
  {
    EmptyHasNoElements();
    SplitWhole("a");
    assert PushAll(false, ["a"], ["a"][1..]) == ["a"];
    assert Elements("a") == ["a"];
    PrefixMeansBelow(".", "a");
  }
}
