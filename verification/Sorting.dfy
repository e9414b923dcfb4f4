/** Python's sorted() on strings. */
module Sorting {
  import opened Text

  predicate AtMost(a: string, b: string) {
    !StrLess(b, a)
  }

  ghost predicate Sorted(ss: seq<string>) {
    forall i, j | 0 <= i < j < |ss| :: AtMost(ss[i], ss[j])
  }

  lemma AtMostTrans(a: string, b: string, c: string)
    requires AtMost(a, b) && AtMost(b, c)
    ensures AtMost(a, c)
  {
    if StrLess(c, a) {
      StrLessTotal(a, b);
      if a == b {
      } else {
        StrLessTrans(c, a, b);
      }
    }
  }

  function Insert(x: string, ss: seq<string>): (r: seq<string>)
    ensures multiset(r) == multiset(ss) + multiset{x}
  {
    if ss == [] || AtMost(x, ss[0]) then [x] + ss
    else
      assert ss == [ss[0]] + ss[1..];
      [ss[0]] + Insert(x, ss[1..])
  }

  function SortStrings(ss: seq<string>): (r: seq<string>)
    ensures multiset(r) == multiset(ss)
  {
    if ss == [] then []
    else
      assert ss == [ss[0]] + ss[1..];
      Insert(ss[0], SortStrings(ss[1..]))
  }

  lemma {:induction false} InsertSorted(x: string, ss: seq<string>)
    requires Sorted(ss)
    ensures Sorted(Insert(x, ss))
  {
    if ss == [] {
    } else if AtMost(x, ss[0]) {
      forall j | 0 <= j < |ss|
        ensures AtMost(x, ss[j])
      {
        if j > 0 {
          AtMostTrans(x, ss[0], ss[j]);
        }
      }
    } else {
      InsertSorted(x, ss[1..]);
      StrLessTotal(x, ss[0]);
      var r := Insert(x, ss[1..]);
      assert AtMost(ss[0], x) by {
        if StrLess(x, ss[0]) {
          StrLessIrreflexive(x);
          StrLessTrans(x, ss[0], x);
        }
      }
      forall j | 0 <= j < |r|
        ensures AtMost(ss[0], r[j])
      {
        assert r[j] in multiset(r);
        assert r[j] == x || r[j] in ss[1..];
      }
    }
  }

  lemma {:induction false} SortSorted(ss: seq<string>)
    ensures Sorted(SortStrings(ss))
  {
    if ss != [] {
      SortSorted(ss[1..]);
      InsertSorted(ss[0], SortStrings(ss[1..]));
    }
  }

  lemma AtMostAntisymmetric(a: string, b: string)
    requires AtMost(a, b) && AtMost(b, a)
    ensures a == b
  {
    StrLessTotal(a, b);
  }

  lemma SameLeast(a: seq<string>, b: seq<string>)
    requires Sorted(a) && Sorted(b) && multiset(a) == multiset(b) && a != [] && b != []
    ensures a[0] == b[0]
  {
    assert a[0] in multiset(b) && b[0] in multiset(a);
    StrLessIrreflexive(a[0]);
    StrLessIrreflexive(b[0]);
    AtMostAntisymmetric(a[0], b[0]);
  }

  lemma SameRest(a: seq<string>, b: seq<string>)
    requires a != [] && b != [] && a[0] == b[0] && multiset(a) == multiset(b)
    ensures multiset(a[1..]) == multiset(b[1..])
  {
    assert a == [a[0]] + a[1..] && b == [b[0]] + b[1..];
    assert multiset(a[1..]) == multiset(a) - multiset{a[0]} == multiset(b[1..]);
  }

  /** A sorted arrangement of given strings is unique. */
  lemma {:induction false} SortedUnique(a: seq<string>, b: seq<string>)
    requires Sorted(a) && Sorted(b) && multiset(a) == multiset(b)
    ensures a == b
  {
    assert |multiset(a)| == |a| && |multiset(b)| == |b|;
    if a != [] {
      SameLeast(a, b);
      SameRest(a, b);
      SortedUnique(a[1..], b[1..]);
      assert a == [a[0]] + a[1..] && b == [b[0]] + b[1..];
    }
  }

  lemma SortOfPermutation(a: seq<string>, b: seq<string>)
    requires multiset(a) == multiset(b)
    ensures SortStrings(a) == SortStrings(b)
  {
    SortSorted(a);
    SortSorted(b);
    SortedUnique(SortStrings(a), SortStrings(b));
  }

  ghost predicate NoDuplicates(ss: seq<string>) {
    forall i, j | 0 <= i < j < |ss| :: ss[i] != ss[j]
  }

  lemma {:induction false} NoDuplicatesCount(ss: seq<string>, x: string)
    requires NoDuplicates(ss)
    ensures multiset(ss)[x] == if x in ss then 1 else 0
  {
    if ss != [] {
      assert ss == [ss[0]] + ss[1..];
      NoDuplicatesCount(ss[1..], x);
    }
  }

  /** Lists without repetitions that hold the same strings sort alike. */
  lemma SortOfSet(a: seq<string>, b: seq<string>)
    requires NoDuplicates(a) && NoDuplicates(b)
    requires forall x :: x in a <==> x in b
    ensures SortStrings(a) == SortStrings(b)
  {
    forall x: string
      ensures multiset(a)[x] == multiset(b)[x]
    {
      NoDuplicatesCount(a, x);
      NoDuplicatesCount(b, x);
    }
    SortOfPermutation(a, b);
  }

  lemma SortKeepsMembers(ss: seq<string>, x: string)
    ensures x in SortStrings(ss) <==> x in ss
  {
    assert x in SortStrings(ss) <==> x in multiset(SortStrings(ss));
    assert x in ss <==> x in multiset(ss);
  }
}
