// android/paths.go: maybeRelErr, the path that leads from a directory to a target below it.
module RelativePaths {
  import opened Wrappers
  import opened CleanPaths

  /** maybeRelErr; None if the target is not at or below the base. */
  function MaybeRel(base: string, target: string): Option<string> {
    if Rooted(base) != Rooted(target) || !(Elements(base) <= Elements(target)) then None
    else
      var rest := Elements(target)[|Elements(base)|..];
      if rest != [] && rest[0] == ".." then None else Some(Render(false, rest))
  }

  /** Joined to the base, the path gives the target, without leaving the base on the way. */
  ghost predicate LeadsTo(base: string, rel: string, target: string) {
    !Escapes(rel) && WithRel(base, rel) == Clean(target)
  }

  /** The target is at or below the base. */
  ghost predicate Inside(base: string, target: string) {
    exists rel :: LeadsTo(base, rel, target)
  }

  /** Behind other elements a path that does not start with ".." has none. */
  lemma {:induction false} WrittenBehind(rooted: bool, es: seq<string>, rest: seq<string>)
    requires Written(rooted, es + rest) && (rest != [] ==> rest[0] != "..")
    ensures Written(false, rest)
  {
    var all := es + rest;
    assert forall i :: 0 <= i < |rest| ==> rest[i] == all[|es| + i];
    forall i | 0 < i < |rest| && rest[i] == ".." ensures rest[i - 1] == ".." {
      assert all[|es| + i] == "..";
      assert all[|es| + i - 1] == rest[i - 1];
    }
  }

  lemma {:induction false} RelLeadsToTarget(base: string, target: string)
    requires MaybeRel(base, target).Some?
    ensures LeadsTo(base, MaybeRel(base, target).value, target)
    ensures Clean(MaybeRel(base, target).value) == MaybeRel(base, target).value
  {
    var es, ts := Elements(base), Elements(target);
    var rest := ts[|es|..];
    assert ts == es + rest;
    ElementsWritten(target);
    WrittenBehind(Rooted(target), es, rest);
    var rel := Render(false, rest);
    ElementsOfRendered(false, rest);
    EscapesMeansGoesUp(rel);
    WithRelAppends(base, rel);
    RenderedIsNotEmpty(rest);
    NonEmptyPair(base, rel);
    JoinIsClean([base, rel]);
  }

  lemma {:induction false} RenderedIsNotEmpty(es: seq<string>)
    requires Written(false, es)
    ensures Render(false, es) != ""
  {
    if es != [] {
      JoinHead(es);
    }
  }

  lemma {:induction false} LeadingPathIsRel(base: string, rel: string, target: string)
    requires LeadsTo(base, rel, target)
    ensures MaybeRel(base, target) == Some(Clean(rel))
  {
    WithRelAppends(base, rel);
    CleanKeepsElements(target);
    EscapesMeansGoesUp(rel);
    assert Elements(target)[|Elements(base)|..] == Elements(rel);
  }

  /** The result is the clean path that leads to the target, and there is one for targets inside. */
  lemma {:induction false} MaybeRelExactly(base: string, target: string)
    ensures MaybeRel(base, target).Some? <==> Inside(base, target)
    ensures forall rel :: MaybeRel(base, target) == Some(rel) <==> LeadsTo(base, rel, target) && Clean(rel) == rel
  {
    if MaybeRel(base, target).Some? {
      RelLeadsToTarget(base, target);
    }
    forall rel | LeadsTo(base, rel, target) ensures MaybeRel(base, target) == Some(Clean(rel)) {
      LeadingPathIsRel(base, rel, target);
    }
  }
}
