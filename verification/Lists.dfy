// The list helpers of android/paths.go and android/util.go: keep-first and keep-last
// deduplication, both done in place on a slice, and reversal.
module Lists {

  // ----- specification functions -----

  /** Elements of `s` in reverse order. */
  function Reverse<T>(s: seq<T>): (r: seq<T>)
    ensures |r| == |s|
    ensures forall i :: 0 <= i < |s| ==> r[i] == s[|s| - 1 - i]
  {
    if s == [] then [] else Reverse(s[1..]) + [s[0]]
  }

  /** Each element of `s` once, at the place of its first copy. */
  function FirstUnique<T(==)>(s: seq<T>): seq<T> {
    if s == [] then []
    else
      var init, last := s[..|s| - 1], s[|s| - 1];
      if last in init then FirstUnique(init) else FirstUnique(init) + [last]
  }

  /** Each element of `s` once, at the place of its last copy. */
  function LastUnique<T(==)>(s: seq<T>): seq<T> {
    if s == [] then []
    else if s[0] in s[1..] then LastUnique(s[1..])
    else [s[0]] + LastUnique(s[1..])
  }

  ghost predicate NoDuplicates<T>(s: seq<T>) {
    forall i, j :: 0 <= i < j < |s| ==> s[i] != s[j]
  }

  ghost predicate SameElements<T(!new)>(a: seq<T>, b: seq<T>) {
    forall x :: x in a <==> x in b
  }

  function Without<T(==)>(s: seq<T>, x: T): (r: seq<T>)
    ensures |r| <= |s|
  {
    if s == [] then []
    else if s[0] == x then Without(s[1..], x)
    else [s[0]] + Without(s[1..], x)
  }

  /** Every copy of `x` in `s` has a copy of `y` somewhere after it. */
  ghost predicate Follows<T>(s: seq<T>, x: T, y: T) {
    forall i :: 0 <= i < |s| && s[i] == x ==> exists j :: i < j < |s| && s[j] == y
  }

  /** The images of the elements, in order. */
  function MapSeq<T, U>(s: seq<T>, f: T -> U): seq<U> {
    if s == [] then [] else MapSeq(s[..|s| - 1], f) + [f(s[|s| - 1])]
  }

  /** The elements for which `keep` holds, in order. */
  function Filter<T>(s: seq<T>, keep: T -> bool): seq<T> {
    if s == [] then [] else (if keep(s[0]) then [s[0]] else []) + Filter(s[1..], keep)
  }

  // ----- facts about reversal -----

  lemma ReverseConcat<T>(a: seq<T>, b: seq<T>)
    ensures Reverse(a + b) == Reverse(b) + Reverse(a)
  {
  }

  lemma ReverseTwice<T>(s: seq<T>)
    ensures Reverse(Reverse(s)) == s
  {
  }

  lemma {:induction false} ReverseSameElements<T>(s: seq<T>)
    ensures forall x :: x in Reverse(s) <==> x in s
  {
    forall x | x in s ensures x in Reverse(s) {
      var i :| 0 <= i < |s| && s[i] == x;
      assert Reverse(s)[|s| - 1 - i] == x;
    }
  }

  // ----- facts about mapping and filtering -----

  lemma {:induction false} MapSeqAt<T, U>(s: seq<T>, f: T -> U)
    ensures |MapSeq(s, f)| == |s|
    ensures forall i :: 0 <= i < |s| ==> MapSeq(s, f)[i] == f(s[i])
  {
    if s != [] {
      MapSeqAt(s[..|s| - 1], f);
    }
  }

  lemma {:induction false} MapSeqSnoc<T, U>(s: seq<T>, x: T, f: T -> U)
    ensures MapSeq(s + [x], f) == MapSeq(s, f) + [f(x)]
  {
    assert (s + [x])[..|s|] == s;
  }

  lemma {:induction false} MapSeqMembers<T, U>(s: seq<T>, f: T -> U, y: U)
    ensures y in MapSeq(s, f) <==> exists i :: 0 <= i < |s| && f(s[i]) == y
  {
    MapSeqAt(s, f);
    if i :| 0 <= i < |s| && f(s[i]) == y {
      assert MapSeq(s, f)[i] == y;
    }
  }

  /** If the kept elements are those of one stretch, the filter is that stretch. */
  lemma {:induction false} FilterIsSlice<T>(s: seq<T>, keep: T -> bool, lo: nat, hi: nat)
    requires lo <= hi <= |s|
    requires forall i :: 0 <= i < |s| ==> (keep(s[i]) <==> lo <= i < hi)
    ensures Filter(s, keep) == s[lo..hi]
  {
    var low, mid, high := s[..lo], s[lo..hi], s[hi..];
    assert s == low + mid + high;
    FilterConcat(low + mid, high, keep);
    FilterConcat(low, mid, keep);
    FilterNone(low, keep);
    FilterAll(mid, keep);
    FilterNone(high, keep);
  }

  lemma {:induction false} FilterMembers<T(!new)>(s: seq<T>, keep: T -> bool)
    ensures forall x :: x in Filter(s, keep) <==> x in s && keep(x)
  {
    if s != [] {
      FilterMembers(s[1..], keep);
      assert s == [s[0]] + s[1..];
    }
  }

  lemma {:induction false} FilterMultiset<T>(s: seq<T>, keep: T -> bool, x: T)
    ensures multiset(Filter(s, keep))[x] == if keep(x) then multiset(s)[x] else 0
  {
    if s != [] {
      FilterMultiset(s[1..], keep, x);
      assert s == [s[0]] + s[1..];
    }
  }

  lemma {:induction false} FilterAgrees<T>(s: seq<T>, f: T -> bool, g: T -> bool)
    requires forall x :: x in s ==> f(x) == g(x)
    ensures Filter(s, f) == Filter(s, g)
  {
    if s != [] {
      FilterAgrees(s[1..], f, g);
    }
  }

  lemma {:induction false} FilterConcat<T>(a: seq<T>, b: seq<T>, keep: T -> bool)
    ensures Filter(a + b, keep) == Filter(a, keep) + Filter(b, keep)
  {
    if a == [] {
      assert a + b == b;
    } else {
      var head, x, y := if keep(a[0]) then [a[0]] else [], Filter(a[1..], keep), Filter(b, keep);
      assert (a + b)[1..] == a[1..] + b && (a + b)[0] == a[0];
      FilterConcat(a[1..], b, keep);
      assert head + (x + y) == (head + x) + y;
    }
  }

  lemma {:induction false} FilterNone<T>(s: seq<T>, keep: T -> bool)
    requires forall x :: x in s ==> !keep(x)
    ensures Filter(s, keep) == []
  {
    if s != [] {
      FilterNone(s[1..], keep);
    }
  }

  lemma {:induction false} FilterAll<T>(s: seq<T>, keep: T -> bool)
    requires forall x :: x in s ==> keep(x)
    ensures Filter(s, keep) == s
  {
    if s != [] {
      FilterAll(s[1..], keep);
    }
  }

  /** Two filters, one after the other. */
  lemma {:induction false} FilterTwice<T>(s: seq<T>, f: T -> bool, g: T -> bool, both: T -> bool)
    requires forall x :: x in s ==> both(x) == (f(x) && g(x))
    ensures Filter(Filter(s, f), g) == Filter(s, both)
  {
    if s != [] {
      assert s[0] in s;
      FilterTwice(s[1..], f, g, both);
      var head := if f(s[0]) then [s[0]] else [];
      FilterConcat(head, Filter(s[1..], f), g);
    }
  }

  lemma {:induction false} FilterPermutes<T(!new)>(a: seq<T>, b: seq<T>, keep: T -> bool)
    requires multiset(a) == multiset(b)
    ensures multiset(Filter(a, keep)) == multiset(Filter(b, keep))
  {
    forall x: T ensures multiset(Filter(a, keep))[x] == multiset(Filter(b, keep))[x] {
      FilterMultiset(a, keep, x);
      FilterMultiset(b, keep, x);
    }
  }

  // ----- facts about keep-first -----

  lemma {:induction false} FirstUniqueSnoc<T(!new)>(s: seq<T>, x: T)
    ensures FirstUnique(s + [x]) == if x in s then FirstUnique(s) else FirstUnique(s) + [x]
  {
    assert (s + [x])[..|s|] == s;
  }

  lemma {:induction false} FirstUniqueElements<T(!new)>(s: seq<T>)
    ensures SameElements(FirstUnique(s), s)
    ensures NoDuplicates(FirstUnique(s))
  {
    if s != [] {
      FirstUniqueElements(s[..|s| - 1]);
      assert s == s[..|s| - 1] + [s[|s| - 1]];
    }
  }

  /** Appending elements that are already there changes nothing. */
  lemma {:induction false} FirstUniqueAbsorb<T(!new)>(s: seq<T>, t: seq<T>)
    requires forall x :: x in t ==> x in s
    ensures FirstUnique(s + t) == FirstUnique(s)
  {
    if t == [] {
      assert s + t == s;
    } else {
      var init, last := t[..|t| - 1], t[|t| - 1];
      assert s + t == (s + init) + [last];
      assert forall x :: x in init ==> x in t;
      assert last in t;
      FirstUniqueSnoc(s + init, last);
      FirstUniqueAbsorb(s, init);
    }
  }

  /** What keep-first makes of a list depends only on what it makes of its prefix. */
  lemma {:induction false} FirstUniqueCongruence<T(!new)>(a: seq<T>, b: seq<T>, t: seq<T>)
    requires FirstUnique(a) == FirstUnique(b)
    ensures FirstUnique(a + t) == FirstUnique(b + t)
  {
    if t == [] {
      assert a + t == a && b + t == b;
    } else {
      var init, last := t[..|t| - 1], t[|t| - 1];
      assert a + t == (a + init) + [last];
      assert b + t == (b + init) + [last];
      FirstUniqueSnoc(a + init, last);
      FirstUniqueSnoc(b + init, last);
      FirstUniqueCongruence(a, b, init);
      assert last in a + init <==> last in b + init by {
        FirstUniqueElements(a);
        FirstUniqueElements(b);
        assert last in FirstUnique(a) <==> last in FirstUnique(b);
      }
    }
  }

  lemma {:induction false} FirstUniqueAppend<T(!new)>(list: seq<T>, before: seq<T>, head: seq<T>, tail: seq<T>)
    requires FirstUnique(list) == FirstUnique(before + head)
    ensures FirstUnique(list + tail) == FirstUnique(before + (head + tail))
  {
    FirstUniqueCongruence(list, before + head, tail);
    assert (before + head) + tail == before + (head + tail);
  }

  // ----- facts about keep-last -----

  /** Keep-last is keep-first seen in a mirror. */
  lemma {:induction false} LastUniqueMirrorsFirstUnique<T(!new)>(s: seq<T>)
    ensures LastUnique(s) == Reverse(FirstUnique(Reverse(s)))
  {
    if s != [] {
      LastUniqueMirrorsFirstUnique(s[1..]);
      ReverseSameElements(s[1..]);
      FirstUniqueSnoc(Reverse(s[1..]), s[0]);
      ReverseConcat(FirstUnique(Reverse(s[1..])), [s[0]]);
      assert Reverse([s[0]]) == [s[0]];
    }
  }

  lemma {:induction false} LastUniqueElements<T(!new)>(s: seq<T>)
    ensures SameElements(LastUnique(s), s)
    ensures NoDuplicates(LastUnique(s))
  {
    if s != [] {
      LastUniqueElements(s[1..]);
      assert s == [s[0]] + s[1..];
    }
  }

  lemma {:induction false} WithoutElements<T(!new)>(s: seq<T>, x: T, y: T)
    ensures y in Without(s, x) <==> y in s && y != x
  {
    if s != [] {
      WithoutElements(s[1..], x, y);
      assert s == [s[0]] + s[1..];
    }
  }

  /** A copy that recurs later may be dropped. */
  lemma {:induction false} LastUniqueDropEarlier<T(!new)>(s: seq<T>, x: T, t: seq<T>)
    ensures LastUnique(s + [x] + t) == LastUnique(Without(s, x) + [x] + t)
  {
    if s == [] {
      assert Without(s, x) == s;
    } else {
      var full, rest := s + [x] + t, s[1..] + [x] + t;
      assert full[0] == s[0] && full[1..] == rest;
      LastUniqueDropEarlier(s[1..], x, t);
      if s[0] == x {
        assert x in rest;
      } else {
        var w := Without(s[1..], x);
        var shorter, shorterRest := [s[0]] + w + [x] + t, w + [x] + t;
        assert shorter[0] == s[0] && shorter[1..] == shorterRest;
        assert s[0] in rest <==> s[0] in shorterRest by {
          WithoutElements(s[1..], x, s[0]);
        }
      }
    }
  }

  lemma {:induction false} LastUniqueOfUnique<T(!new)>(s: seq<T>)
    requires NoDuplicates(s)
    ensures LastUnique(s) == s
  {
    if s != [] {
      assert NoDuplicates(s[1..]);
      assert s[0] !in s[1..];
      LastUniqueOfUnique(s[1..]);
    }
  }

  /** The last position of `x` in `s`. */
  ghost function LastIndex<T>(s: seq<T>, x: T): (i: nat)
    requires x in s
    ensures i < |s| && s[i] == x
    ensures forall m :: i < m < |s| ==> s[m] != x
  {
    assert s == s[..|s| - 1] + [s[|s| - 1]];
    if s[|s| - 1] == x then |s| - 1 else LastIndex(s[..|s| - 1], x)
  }

  /** Keep-last keeps the order of last copies. */
  lemma {:induction false} LastUniqueKeepsLastOrder<T(!new)>(s: seq<T>, i: nat, j: nat)
    requires i < j < |LastUnique(s)|
    ensures LastUnique(s)[i] in s && LastUnique(s)[j] in s
    ensures LastIndex(s, LastUnique(s)[i]) < LastIndex(s, LastUnique(s)[j])
  {
    var q := LastUnique(s[1..]);
    if s[0] in s[1..] {
      LastUniqueKeepsLastOrder(s[1..], i, j);
      OrderShift(s, q[i], q[j]);
    } else {
      assert LastUnique(s) == [s[0]] + q;
      if i > 0 {
        assert LastUnique(s)[i] == q[i - 1] && LastUnique(s)[j] == q[j - 1];
        LastUniqueKeepsLastOrder(s[1..], i - 1, j - 1);
        OrderShift(s, q[i - 1], q[j - 1]);
      } else {
        LastUniqueElements(s[1..]);
        assert q[j - 1] in s[1..];
        HeadIsFirst(s, q[j - 1]);
      }
    }
  }

  lemma {:induction false} OrderShift<T(!new)>(s: seq<T>, x: T, y: T)
    requires s != [] && x in s[1..] && y in s[1..] && LastIndex(s[1..], x) < LastIndex(s[1..], y)
    ensures x in s && y in s && LastIndex(s, x) < LastIndex(s, y)
  {
    LastIndexShift(s, x);
    LastIndexShift(s, y);
  }

  lemma {:induction false} HeadIsFirst<T(!new)>(s: seq<T>, y: T)
    requires s != [] && s[0] !in s[1..] && y in s[1..]
    ensures y in s && LastIndex(s, s[0]) < LastIndex(s, y)
  {
    LastIndexShift(s, y);
    assert forall m :: 1 <= m < |s| ==> s[m] in s[1..];
  }

  ghost predicate InLastOrder<T(!new)>(s: seq<T>, r: seq<T>) {
    forall i, j :: 0 <= i < j < |r| ==> r[i] in s && r[j] in s && LastIndex(s, r[i]) < LastIndex(s, r[j])
  }

  /** ... and with the elements and the lack of duplicates that leaves only one possible result. */
  lemma {:induction false} LastUniqueDetermined<T(!new)>(s: seq<T>, r: seq<T>)
    requires SameElements(r, s) && NoDuplicates(r) && InLastOrder(s, r)
    ensures r == LastUnique(s)
  {
    LastUniqueElements(s);
    forall i, j | 0 <= i < j < |LastUnique(s)|
      ensures LastUnique(s)[i] in s && LastUnique(s)[j] in s
      ensures LastIndex(s, LastUnique(s)[i]) < LastIndex(s, LastUnique(s)[j])
    {
      LastUniqueKeepsLastOrder(s, i, j);
    }
    LastOrderUnique(s, r, LastUnique(s));
  }

  lemma {:induction false} LastOrderUnique<T(!new)>(s: seq<T>, a: seq<T>, b: seq<T>)
    requires SameElements(a, b) && NoDuplicates(a) && NoDuplicates(b)
    requires InLastOrder(s, a) && InLastOrder(s, b)
    ensures a == b
  {
    assert a != [] ==> a[0] in a;
    assert b != [] ==> b[0] in b;
    if a != [] {
      LastOrderHead(s, a, b);
      SameTails(a, b);
      LastOrderUnique(s, a[1..], b[1..]);
      assert a == [a[0]] + a[1..] && b == [b[0]] + b[1..];
    }
  }

  lemma {:induction false} LastOrderHead<T(!new)>(s: seq<T>, a: seq<T>, b: seq<T>)
    requires a != [] && b != [] && a[0] in b && b[0] in a
    requires InLastOrder(s, a) && InLastOrder(s, b)
    ensures a[0] == b[0]
  {
    var i :| 0 <= i < |b| && b[i] == a[0];
    var j :| 0 <= j < |a| && a[j] == b[0];
  }

  lemma {:induction false} SameTails<T(!new)>(a: seq<T>, b: seq<T>)
    requires a != [] && b != [] && a[0] == b[0]
    requires SameElements(a, b) && NoDuplicates(a) && NoDuplicates(b)
    ensures SameElements(a[1..], b[1..])
  {
    assert a == [a[0]] + a[1..] && b == [b[0]] + b[1..];
    forall x ensures x in a[1..] <==> x in b[1..] {
      assert x in a <==> x in b;
    }
  }

  lemma {:induction false} LastIndexShift<T(!new)>(s: seq<T>, x: T)
    requires s != [] && x in s[1..]
    ensures LastIndex(s, x) == LastIndex(s[1..], x) + 1
  {
    var k := LastIndex(s[1..], x);
    assert s[k + 1] == x;
    assert forall m :: k + 1 < m < |s| ==> s[m] == s[1..][m - 1];
  }

  lemma {:induction false} FollowsConcat<T(!new)>(a: seq<T>, b: seq<T>, x: T, y: T)
    ensures Follows(a + b, x, y) <==> Follows(b, x, y) && (Follows(a, x, y) || y in b)
  {
    var s := a + b;
    if Follows(b, x, y) && (Follows(a, x, y) || y in b) {
      forall i | 0 <= i < |s| && s[i] == x ensures exists j :: i < j < |s| && s[j] == y {
        FollowedInConcat(a, b, x, y, i);
      }
    }
    if Follows(s, x, y) {
      forall i | 0 <= i < |b| && b[i] == x ensures exists j :: i < j < |b| && b[j] == y {
        assert s[i + |a|] == x;
        var j :| i + |a| < j < |s| && s[j] == y;
        assert b[j - |a|] == y;
      }
      if y !in b {
        forall m | |a| <= m < |s| ensures s[m] != y {
          assert s[m] == b[m - |a|] && b[m - |a|] in b;
        }
        forall i | 0 <= i < |a| && a[i] == x ensures exists j :: i < j < |a| && a[j] == y {
          assert s[i] == x;
          var j :| i < j < |s| && s[j] == y;
          assert a[j] == y;
        }
      }
    }
  }

  lemma {:induction false} FollowedInConcat<T(!new)>(a: seq<T>, b: seq<T>, x: T, y: T, i: nat)
    requires Follows(b, x, y) && (Follows(a, x, y) || y in b)
    requires i < |a + b| && (a + b)[i] == x
    ensures exists j :: i < j < |a + b| && (a + b)[j] == y
  {
    var s := a + b;
    if i >= |a| {
      var j :| i - |a| < j < |b| && b[j] == y;
      assert s[j + |a|] == y;
    } else if y in b {
      var j :| 0 <= j < |b| && b[j] == y;
      assert s[j + |a|] == y;
    } else {
      var j :| i < j < |a| && a[j] == y;
      assert s[j] == y;
    }
  }

  /** Keep-last puts x before y if and only if every copy of x has a y after it. */
  lemma {:induction false} LastUniqueFollows<T(!new)>(s: seq<T>, x: T, y: T, i: nat, j: nat)
    requires i < |LastUnique(s)| && LastUnique(s)[i] == x
    requires j < |LastUnique(s)| && LastUnique(s)[j] == y
    ensures i < j <==> Follows(s, x, y)
  {
    LastUniqueElements(s);
    assert x in s && y in s;
    if i < j {
      LastUniqueKeepsLastOrder(s, i, j);
      assert s[LastIndex(s, y)] == y;
    } else if j < i {
      LastUniqueKeepsLastOrder(s, j, i);
      assert s[LastIndex(s, x)] == x;
    } else {
      assert s[LastIndex(s, x)] == x;
    }
  }

  // ----- the in-place algorithms -----

  /** The inner loop: is a[i] among the elements kept so far? */
  method FoundBefore<T(==)>(a: array<T>, k: nat, i: nat) returns (found: bool)
    requires k <= i < a.Length
    ensures found <==> a[i] in a[..k]
  {
    for j := 0 to k
      invariant a[i] !in a[..j]
    {
      if a[i] == a[j] {
        return true;
      }
    }
    return false;
  }

  /** FirstUniquePaths / FirstUniqueStrings: the kept elements are a[..k]. */
  method FirstUniqueInPlace<T(==,!new)>(a: array<T>) returns (k: nat)
    modifies a
    ensures k <= a.Length
    ensures a[..k] == FirstUnique(old(a[..]))
  {
    ghost var was := a[..];
    k := 0;
    for i := 0 to a.Length
      invariant k <= i
      invariant a[..k] == FirstUnique(was[..i])
      invariant a[i..] == was[i..]
    {
      FirstUniqueSnoc(was[..i], was[i]);
      assert was[..i + 1] == was[..i] + [was[i]];
      assert a[i] == a[i..][0] == was[i];
      FirstUniqueElements(was[..i]);
      var found := FoundBefore(a, k, i);
      if !found {
        a[k] := a[i];
        k := k + 1;
      }
      assert a[i + 1..] == was[i + 1..];
    }
    assert was[..a.Length] == was;
  }

  /**
   * LastUniquePaths / LastUniqueStrings: the kept elements are a[totalSkip..].  The inner
   * loop shifts the survivors of a[totalSkip..i] to the right over the dropped copies.
   */
  method LastUniqueInPlace<T(==,!new)>(a: array<T>) returns (totalSkip: nat)
    modifies a
    ensures totalSkip <= a.Length
    ensures a[totalSkip..] == LastUnique(old(a[..]))
  {
    totalSkip := 0;
    StartsUncompacted(a[..]);
    var i := a.Length - 1;
    while i >= totalSkip
      invariant totalSkip - 1 <= i < a.Length
      invariant totalSkip <= a.Length
      invariant Remaining(old(a[..]), a[..], totalSkip, i + 1)
      decreases i - totalSkip
    {
      ghost var before := a[..];
      var skip := DropEarlierCopies(a, totalSkip, i);
      OuterStep(old(a[..]), before, a[..], totalSkip, skip, i);
      totalSkip := totalSkip + skip;
      i := i - 1;
    }
    EndsCompacted(old(a[..]), a[..], totalSkip);
    assert a[..][totalSkip..] == a[totalSkip..];
  }

  /** s[i..] holds no duplicates and shares nothing with the unfinished part s[lo..i]. */
  ghost predicate Compacted<T(!new)>(s: seq<T>, lo: nat, i: nat)
    requires i <= |s|
  {
    && NoDuplicates(s[i..])
    && forall m, n :: lo <= m < i <= n < |s| ==> s[m] != s[n]
  }

  /** What is left to do on `s` from `lo` on gives keep-last of the list it was. */
  ghost predicate Remaining<T(!new)>(was: seq<T>, s: seq<T>, lo: nat, i: nat) {
    lo <= i <= |s| && Compacted(s, lo, i) && LastUnique(s[lo..]) == LastUnique(was)
  }

  lemma {:induction false} StartsUncompacted<T(!new)>(s: seq<T>)
    ensures Remaining(s, s, 0, |s|)
  {
    assert s[0..] == s;
  }

  lemma {:induction false} EndsCompacted<T(!new)>(was: seq<T>, s: seq<T>, lo: nat)
    requires Remaining(was, s, lo, lo)
    ensures s[lo..] == LastUnique(was)
  {
    LastUniqueOfUnique(s[lo..]);
  }

  /** The inner loop: drop the copies of a[i] from a[lo..i], moving the rest against a[i]. */
  method DropEarlierCopies<T(==,!new)>(a: array<T>, lo: nat, i: nat) returns (skip: nat)
    requires lo <= i < a.Length
    modifies a
    ensures lo + skip <= i
    ensures a[lo + skip..i] == Without(old(a[lo..i]), old(a[i]))
    ensures a[i..] == old(a[i..])
  {
    ghost var was := a[..];
    skip := 0;
    var j := i - 1;
    while j >= lo
      invariant lo - 1 <= j < i && j + skip < i
      invariant Dropping(was, a[..], lo, j + 1, skip, i)
    {
      DroppingAt(was, a[..], lo, j, skip, i);
      ghost var before := a[..];
      if a[i] == a[j] {
        skip := skip + 1;
      } else {
        a[j + skip] := a[j];
        assert a[..] == before[j + skip := before[j]];
      }
      j := j - 1;
    }
    assert a[..][lo + skip..i] == a[lo + skip..i] && a[..][i..] == a[i..];
    assert was[lo..i] == old(a[lo..i]) && was[i..] == old(a[i..]);
  }

  /** The inner loop at `j`: everything below is as it was, s[j + skip..i] is what was kept of s[j..i]. */
  ghost predicate Dropping<T(!new)>(was: seq<T>, s: seq<T>, lo: nat, j: nat, skip: nat, i: nat) {
    && lo <= j && j + skip <= i < |was| == |s|
    && s[lo..j] == was[lo..j]
    && s[j + skip..i] == Without(was[j..i], was[i])
    && s[i..] == was[i..]
  }

  /** One step of it, for a copy and for any other element. */
  lemma {:induction false} DroppingAt<T(!new)>(was: seq<T>, s: seq<T>, lo: nat, j: nat, skip: nat, i: nat)
    requires lo <= j && Dropping(was, s, lo, j + 1, skip, i)
    ensures s[j] == was[j] && s[i] == was[i]
    ensures s[j] == s[i] ==> Dropping(was, s, lo, j, skip + 1, i)
    ensures s[j] != s[i] ==> Dropping(was, s[j + skip := s[j]], lo, j, skip, i)
  {
    assert s[j] == s[lo..j + 1][j - lo] && was[j] == was[lo..j + 1][j - lo];
    assert s[i] == s[i..][0] && was[i] == was[i..][0];
    assert was[j..i][1..] == was[j + 1..i];
    SamePrefix(was, s, lo, j);
    if s[j] != s[i] {
      KeepOne(was, s, lo, j, skip, i);
    }
  }

  lemma {:induction false} SamePrefix<T>(was: seq<T>, s: seq<T>, lo: nat, j: nat)
    requires lo <= j < |s| == |was| && s[lo..j + 1] == was[lo..j + 1]
    ensures s[lo..j] == was[lo..j]
  {
    forall m | lo <= m < j ensures s[m] == was[m] {
      assert s[lo..j + 1][m - lo] == was[lo..j + 1][m - lo];
    }
  }

  lemma {:induction false} KeepOne<T(!new)>(was: seq<T>, s: seq<T>, lo: nat, j: nat, skip: nat, i: nat)
    requires lo <= j && Dropping(was, s, lo, j + 1, skip, i) && s[lo..j] == was[lo..j]
    requires s[j] == was[j] != was[i] && was[j..i][1..] == was[j + 1..i]
    ensures Dropping(was, s[j + skip := s[j]], lo, j, skip, i)
  {
    var t := s[j + skip := s[j]];
    assert t[lo..j] == s[lo..j] && t[i..] == s[i..];
    UpdatedHead(s, j + skip, i, s[j]);
    assert s[j + skip + 1..i] == s[j + 1 + skip..i];
  }

  lemma {:induction false} UpdatedHead<T>(s: seq<T>, lo: nat, hi: nat, x: T)
    requires lo < hi <= |s|
    ensures s[lo := x][lo..hi] == [x] + s[lo + 1..hi]
  {
  }

  lemma {:induction false} OuterStep<T(!new)>(was: seq<T>, before: seq<T>, after: seq<T>, lo: nat, skip: nat, i: nat)
    requires lo <= i < |before| == |after| && lo + skip <= i
    requires after[lo + skip..i] == Without(before[lo..i], before[i])
    requires after[i..] == before[i..]
    requires Remaining(was, before, lo, i + 1)
    ensures Remaining(was, after, lo + skip, i)
  {
    StaysCompacted(before, after, lo, skip, i);
    DroppedCopies(before, after, lo, skip, i);
  }

  lemma {:induction false} StaysCompacted<T(!new)>(before: seq<T>, after: seq<T>, lo: nat, skip: nat, i: nat)
    requires lo <= i < |before| == |after| && lo + skip <= i
    requires after[lo + skip..i] == Without(before[lo..i], before[i])
    requires after[i..] == before[i..] && Compacted(before, lo, i + 1)
    ensures Compacted(after, lo + skip, i)
  {
    var low, x, high := before[lo..i], before[i], before[i + 1..];
    var low' := after[lo + skip..i];
    assert after[i..] == [x] + high;
    assert forall n :: i <= n < |after| ==> after[n] == after[i..][n - i] == before[n];
    assert forall m :: 0 <= m < |high| ==> high[m] == after[i..][m + 1];
    forall m, n | lo + skip <= m < i <= n < |after| ensures after[m] != after[n] {
      assert after[m] == low'[m - lo - skip];
      WithoutElements(low, x, after[m]);
    }
  }

  lemma {:induction false} DroppedCopies<T(!new)>(before: seq<T>, after: seq<T>, lo: nat, skip: nat, i: nat)
    requires lo <= i < |before| == |after| && lo + skip <= i
    requires after[lo + skip..i] == Without(before[lo..i], before[i])
    requires after[i..] == before[i..]
    ensures LastUnique(after[lo + skip..]) == LastUnique(before[lo..])
  {
    var low, x, high := before[lo..i], before[i], before[i + 1..];
    assert before[i..] == [x] + high;
    assert before[lo..] == low + [x] + high;
    assert after[lo + skip..] == after[lo + skip..i] + after[i..];
    assert after[lo + skip..] == Without(low, x) + [x] + high;
    LastUniqueDropEarlier(low, x, high);
  }

  /** reversePathsInPlace on the slice a[..n]. */
  method ReverseInPlace<T>(a: array<T>, n: nat)
    requires n <= a.Length
    modifies a
    ensures a[..n] == Reverse(old(a[..n]))
    ensures a[n..] == old(a[n..])
  {
    ghost var was := a[..n];
    var i, j := 0, n - 1;
    while i < j
      invariant 0 <= i && j == n - 1 - i && i <= j + 1
      invariant forall m :: 0 <= m < i ==> a[m] == was[n - 1 - m]
      invariant forall m :: i <= m <= j ==> a[m] == was[m]
      invariant forall m :: j < m < n ==> a[m] == was[n - 1 - m]
      invariant a[n..] == old(a[n..])
    {
      a[i], a[j] := a[j], a[i];
      i, j := i + 1, j - 1;
    }
    forall m | 0 <= m < n ensures a[..n][m] == Reverse(was)[m] {
      assert a[m] == was[n - 1 - m];
    }
  }

  /** ReversePaths and reverseDepSets: a reversed copy. */
  method ReversedCopy<T>(list: seq<T>) returns (ret: seq<T>)
    ensures ret == Reverse(list)
  {
    ret := [];
    for i := 0 to |list|
      invariant |ret| == i
      invariant forall m :: 0 <= m < i ==> ret[m] == list[|list| - 1 - m]
    {
      ret := ret + [list[|list| - 1 - i]];
    }
  }
}
