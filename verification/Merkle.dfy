/** The checkpoint root: a binary tree that duplicates the last node of an odd level.
    The shape is treated for any node type and any way of combining two children;
    AuditLog instantiates it with SHA-256 over concatenated hex digests. */
module Merkle {

  /** The right child of the i-th parent: the left one again at the end of an odd level. */
  function RightOf<T>(level: seq<T>, i: nat): T
    requires 2 * i < |level|
  {
    if 2 * i + 1 < |level| then level[2 * i + 1] else level[2 * i]
  }

  /** The level above. */
  function Up<T>(join: (T, T) -> T, level: seq<T>): (r: seq<T>)
    ensures |r| == (|level| + 1) / 2
    ensures forall i | 0 <= i < |r| :: r[i] == join(level[2 * i], RightOf(level, i))
  {
    seq((|level| + 1) / 2, i requires 0 <= i < (|level| + 1) / 2 => join(level[2 * i], RightOf(level, i)))
  }

  /** All levels, leaves first. */
  function Levels<T>(join: (T, T) -> T, level: seq<T>): (r: seq<seq<T>>)
    requires level != []
    ensures r != [] && |r[|r| - 1]| == 1
    decreases |level|
  {
    if |level| == 1 then [level] else [level] + Levels(join, Up(join, level))
  }

  function Root<T>(join: (T, T) -> T, level: seq<T>): T
    requires level != []
  {
    var levels := Levels(join, level);
    levels[|levels| - 1][0]
  }

  // ----- climbing and descending ----------------------------------------------

  function UpN<T>(join: (T, T) -> T, level: seq<T>, k: nat): seq<T>
    decreases k
  {
    if k == 0 then level else UpN(join, Up(join, level), k - 1)
  }

  function Height(n: nat): nat {
    if n <= 1 then 0 else 1 + Height((n + 1) / 2)
  }

  lemma {:induction false} UpNAdd<T>(join: (T, T) -> T, level: seq<T>, j: nat, k: nat)
    ensures UpN(join, level, j + k) == UpN(join, UpN(join, level, j), k)
    decreases j
  {
    if j > 0 {
      UpNAdd(join, Up(join, level), j - 1, k);
    }
  }

  lemma {:induction false} RootIsTop<T>(join: (T, T) -> T, level: seq<T>)
    requires level != []
    ensures UpN(join, level, Height(|level|)) == [Root(join, level)]
    decreases |level|
  {
    if |level| > 1 {
      RootIsTop(join, Up(join, level));
    } else {
      assert level == [level[0]];
    }
  }

  /** Every pair joined on the way from these nodes to the root. */
  ghost function Pairs<T>(join: (T, T) -> T, level: seq<T>): set<(T, T)>
    decreases |level|
  {
    if |level| <= 1 then {}
    else (set i | 0 <= i < (|level| + 1) / 2 :: (level[2 * i], RightOf(level, i))) + Pairs(join, Up(join, level))
  }

  ghost predicate InjectiveOn<T(!new)>(join: (T, T) -> T, pairs: set<(T, T)>) {
    forall p, q {:trigger join(p.0, p.1), join(q.0, q.1)} |
      p in pairs && q in pairs && join(p.0, p.1) == join(q.0, q.1) :: p == q
  }

  ghost predicate Distinct<T>(level: seq<T>) {
    forall i, j | 0 <= i < j < |level| :: level[i] != level[j]
  }

  lemma PairIn<T>(join: (T, T) -> T, level: seq<T>, i: nat)
    requires |level| > 1 && 2 * i < |level|
    ensures (level[2 * i], RightOf(level, i)) in Pairs(join, level)
  {
  }

  // ----- padding --------------------------------------------------------------------------

  /** Which leaf stands at each place of the full tree over n leaves: all of them in order,
      then what the odd levels repeat. */
  function Places(n: nat): (r: seq<nat>)
    requires n > 0
    ensures forall i | 0 <= i < |r| :: r[i] < n
  {
    if n == 1 then [0]
    else
      var up := Places((n + 1) / 2);
      seq(2 * |up|, i requires 0 <= i < 2 * |up| =>
        if i % 2 == 0 || 2 * up[i / 2] + 1 >= n then 2 * up[i / 2] else 2 * up[i / 2] + 1)
  }

  lemma {:induction false} PlacesInOrder(n: nat)
    requires n > 0
    ensures |Places(n)| >= n && forall i | 0 <= i < n :: Places(n)[i] == i
  {
    if n > 1 {
      PlacesInOrder((n + 1) / 2);
      forall i | 0 <= i < n
        ensures i < |Places(n)| && Places(n)[i] == i
      {
        assert Places((n + 1) / 2)[i / 2] == i / 2;
      }
    }
  }

  lemma {:induction false} PlacesByHeight(n: nat, m: nat)
    requires n > 0 && m > 0 && Height(n) == Height(m)
    ensures |Places(n)| == |Places(m)|
  {
    if n > 1 && m > 1 {
      PlacesByHeight((n + 1) / 2, (m + 1) / 2);
    }
  }

  lemma {:induction false} HigherIsLonger(n: nat, m: nat)
    requires n > 0 && m > 0 && Height(n) < Height(m)
    ensures |Places(n)| < |Places(m)|
  {
    PlacesInOrder((m + 1) / 2);
    if n > 1 {
      HigherIsLonger((n + 1) / 2, (m + 1) / 2);
    }
  }

  function Padded<T>(level: seq<T>): (r: seq<T>)
    requires level != []
    ensures |r| == |Places(|level|)| && forall i | 0 <= i < |r| :: r[i] == level[Places(|level|)[i]]
  {
    seq(|Places(|level|)|, i requires 0 <= i < |Places(|level|)| => level[Places(|level|)[i]])
  }

  lemma PlacesUp(n: nat, i: nat)
    requires n > 1 && i < |Places((n + 1) / 2)|
    ensures
      var j := Places((n + 1) / 2)[i];
      && |Places(n)| == 2 * |Places((n + 1) / 2)| && Places(n)[2 * i] == 2 * j
      && Places(n)[2 * i + 1] == if 2 * j + 1 < n then 2 * j + 1 else 2 * j
  {
    assert (2 * i) / 2 == i && (2 * i + 1) / 2 == i && (2 * i) % 2 == 0 && (2 * i + 1) % 2 == 1;
  }

  /** The two padded leaves at the i-th pair of places. */
  function PairAt<T>(a: seq<T>, i: nat): (T, T)
    requires 2 * i + 1 < |a|
  {
    (a[2 * i], a[2 * i + 1])
  }

  lemma PaddedPair<T>(a: seq<T>, i: nat, j: nat)
    requires |a| > 1 && i < |Places((|a| + 1) / 2)| && j == Places((|a| + 1) / 2)[i]
    ensures |Padded(a)| == 2 * |Places((|a| + 1) / 2)| && 2 * j < |a|
    ensures PairAt(Padded(a), i) == (a[2 * j], RightOf(a, j))
  {
    PlacesUp(|a|, i);
  }

  lemma ParentOfPair<T>(join: (T, T) -> T, a: seq<T>, i: nat, j: nat)
    requires |a| > 1 && i < |Padded(Up(join, a))| && j == Places(|Up(join, a)|)[i]
    ensures 2 * j < |a| && Padded(Up(join, a))[i] == join(a[2 * j], RightOf(a, j))
  {
  }

  /** A padded level pairs up to the padded level above. */
  lemma PaddedUp<T>(join: (T, T) -> T, a: seq<T>, i: nat)
    requires |a| > 1 && i < |Padded(Up(join, a))|
    ensures |Padded(a)| == 2 * |Padded(Up(join, a))| && PairAt(Padded(a), i) in Pairs(join, a)
    ensures Padded(Up(join, a))[i] == join(PairAt(Padded(a), i).0, PairAt(Padded(a), i).1)
  {
    var j := Places(|Up(join, a)|)[i];
    PaddedPair(a, i, j);
    ParentOfPair(join, a, i, j);
    PairIn(join, a, j);
  }

  lemma PairsDecide<T(!new)>(join: (T, T) -> T, a: seq<T>, b: seq<T>, i: nat, pairs: set<(T, T)>)
    requires |a| > 1 && |b| > 1 && i < |Padded(Up(join, a))| && i < |Padded(Up(join, b))|
    requires Pairs(join, a) <= pairs && Pairs(join, b) <= pairs && InjectiveOn(join, pairs)
    ensures 2 * i + 1 < |Padded(a)| && 2 * i + 1 < |Padded(b)|
    ensures Padded(Up(join, a))[i] == Padded(Up(join, b))[i] <==> PairAt(Padded(a), i) == PairAt(Padded(b), i)
  {
    PaddedUp(join, a, i);
    PaddedUp(join, b, i);
    var x, y := PairAt(Padded(a), i), PairAt(Padded(b), i);
    assert join(x.0, x.1) == join(y.0, y.1) ==> x == y;
  }

  lemma PaddedStep<T(!new)>(join: (T, T) -> T, a: seq<T>, b: seq<T>, pairs: set<(T, T)>)
    requires |a| > 1 && |b| > 1 && Height(|a|) == Height(|b|)
    requires Pairs(join, a) <= pairs && Pairs(join, b) <= pairs && InjectiveOn(join, pairs)
    ensures Padded(Up(join, a)) == Padded(Up(join, b)) <==> Padded(a) == Padded(b)
  {
    var p, q := Padded(Up(join, a)), Padded(Up(join, b));
    PlacesByHeight((|a| + 1) / 2, (|b| + 1) / 2);
    PlacesByHeight(|a|, |b|);
    PlacesInOrder((|a| + 1) / 2);
    PaddedUp(join, a, 0);
    forall i | 0 <= i < |p|
      ensures p[i] == q[i] <==> PairAt(Padded(a), i) == PairAt(Padded(b), i)
    {
      PairsDecide(join, a, b, i, pairs);
    }
    PairwiseEqual(p, q, Padded(a), Padded(b));
  }

  lemma PairwiseEqual<T>(p: seq<T>, q: seq<T>, x: seq<T>, y: seq<T>)
    requires |p| == |q| && |x| == |y| == 2 * |p|
    requires forall i | 0 <= i < |p| :: p[i] == q[i] <==> PairAt(x, i) == PairAt(y, i)
    ensures p == q <==> x == y
  {
    if p == q {
      forall k | 0 <= k < |x|
        ensures x[k] == y[k]
      {
        assert p[k / 2] == q[k / 2] && PairAt(x, k / 2) == PairAt(y, k / 2);
      }
    }
    if x == y {
      assert forall i | 0 <= i < |p| :: p[i] == q[i];
    }
  }

  /** Between trees of one height equal roots mean equal padded leaves. */
  lemma {:induction false} PaddedExactly<T(!new)>(join: (T, T) -> T, a: seq<T>, b: seq<T>, pairs: set<(T, T)>)
    requires a != [] && b != [] && Height(|a|) == Height(|b|)
    requires Pairs(join, a) <= pairs && Pairs(join, b) <= pairs && InjectiveOn(join, pairs)
    ensures Root(join, a) == Root(join, b) <==> Padded(a) == Padded(b)
    decreases |a|
  {
    if |a| > 1 {
      PaddedExactly(join, Up(join, a), Up(join, b), pairs);
      PaddedStep(join, a, b, pairs);
    } else {
      assert Padded(a) == a == [a[0]] && Padded(b) == b == [b[0]];
    }
  }

  // ----- trees of different height --------------------------------------------------------

  /** What climbing k levels keeps. */
  lemma {:induction false} ClimbKeeps<T>(join: (T, T) -> T, a: seq<T>, k: nat)
    requires a != [] && k <= Height(|a|)
    ensures var u := UpN(join, a, k);
      u != [] && Height(|u|) == Height(|a|) - k && Pairs(join, u) <= Pairs(join, a) && Root(join, u) == Root(join, a)
    decreases k
  {
    if k > 0 {
      ClimbKeeps(join, Up(join, a), k - 1);
    }
  }

  /** Anything above the leaves joins a recorded pair. */
  lemma {:induction false} InteriorPair<T>(join: (T, T) -> T, a: seq<T>, k: nat, i: nat) returns (p: (T, T))
    requires 0 < k <= Height(|a|) && i < |UpN(join, a, k)|
    ensures p in Pairs(join, a) && UpN(join, a, k)[i] == join(p.0, p.1)
    decreases k
  {
    if k == 1 {
      p := (a[2 * i], RightOf(a, i));
      PairIn(join, a, i);
    } else {
      p := InteriorPair(join, Up(join, a), k - 1, i);
    }
  }

  /** A node that no recorded pair joins to. */
  ghost predicate NotInterior<T(!new)>(join: (T, T) -> T, leaf: T, pairs: set<(T, T)>) {
    forall p {:trigger join(p.0, p.1)} | p in pairs :: join(p.0, p.1) != leaf
  }

  lemma PaddedHead<T>(a: seq<T>)
    requires a != []
    ensures Padded(a) != [] && Padded(a)[0] == a[0]
  {
    PlacesInOrder(|a|);
  }

  /** Leaves are no interior nodes, so equal roots sit at equal heights. */
  lemma SameHeight<T(!new)>(join: (T, T) -> T, a: seq<T>, b: seq<T>, pairs: set<(T, T)>)
    requires a != [] && b != [] && Height(|a|) >= Height(|b|)
    requires Pairs(join, a) <= pairs && Pairs(join, b) <= pairs && InjectiveOn(join, pairs)
    requires NotInterior(join, b[0], pairs) && Root(join, a) == Root(join, b)
    ensures Height(|a|) == Height(|b|)
  {
    var d := Height(|a|) - Height(|b|);
    var cut := UpN(join, a, d);
    ClimbKeeps(join, a, d);
    PaddedExactly(join, cut, b, pairs);
    PaddedHead(cut);
    PaddedHead(b);
    assert cut[0] == b[0];
    if d > 0 {
      var p := InteriorPair(join, a, d, 0);
    }
  }

  /** For leaves that are no interior nodes: equal roots mean equal padded leaves. */
  lemma RootExactly<T(!new)>(join: (T, T) -> T, a: seq<T>, b: seq<T>, pairs: set<(T, T)>)
    requires a != [] && b != []
    requires Pairs(join, a) <= pairs && Pairs(join, b) <= pairs && InjectiveOn(join, pairs)
    requires NotInterior(join, a[0], pairs) && NotInterior(join, b[0], pairs)
    ensures Root(join, a) == Root(join, b) <==> Padded(a) == Padded(b)
  {
    if Height(|a|) == Height(|b|) {
      PaddedExactly(join, a, b, pairs);
    } else if Height(|a|) > Height(|b|) {
      HigherIsLonger(|b|, |a|);
      if Root(join, a) == Root(join, b) {
        SameHeight(join, a, b, pairs);
      }
    } else {
      HigherIsLonger(|a|, |b|);
      if Root(join, a) == Root(join, b) {
        SameHeight(join, b, a, pairs);
      }
    }
  }

  lemma PaddedPrefix<T>(a: seq<T>, b: seq<T>)
    requires a != [] && |a| <= |b| && Padded(a) == Padded(b)
    ensures a == b[..|a|]
    ensures |a| < |b| ==> !Distinct(b)
  {
    PlacesInOrder(|a|);
    PlacesInOrder(|b|);
    assert forall i | 0 <= i < |a| :: a[i] == Padded(a)[i] == Padded(b)[i] == b[i];
    if |a| < |b| {
      var i := Places(|a|)[|a|];
      assert b[|a|] == Padded(b)[|a|] == Padded(a)[|a|] == a[i] == b[i];
    }
  }

  /** For pairwise distinct leaves that are no interior nodes, the root determines the
      list of leaves, length included. */
  lemma RootDetermines<T(!new)>(join: (T, T) -> T, a: seq<T>, b: seq<T>, pairs: set<(T, T)>)
    requires a != [] && b != [] && Distinct(a) && Distinct(b)
    requires Pairs(join, a) <= pairs && Pairs(join, b) <= pairs && InjectiveOn(join, pairs)
    requires NotInterior(join, a[0], pairs) && NotInterior(join, b[0], pairs)
    requires Root(join, a) == Root(join, b)
    ensures a == b
  {
    RootExactly(join, a, b, pairs);
    if |a| <= |b| {
      PaddedPrefix(a, b);
    } else {
      PaddedPrefix(b, a);
    }
  }

  /** Without distinctness the root determines less: repeating the last of an odd
      number (above one) of leaves never changes it. */
  lemma DuplicationIsInvisible<T>(join: (T, T) -> T, a: seq<T>)
    requires |a| % 2 == 1 && |a| > 1
    ensures Root(join, a + [a[|a| - 1]]) == Root(join, a)
  {
    var b := a + [a[|a| - 1]];
    assert Up(join, b) == Up(join, a) by {
      forall i | 0 <= i < (|a| + 1) / 2
        ensures b[2 * i] == a[2 * i] && RightOf(b, i) == RightOf(a, i)
      {
      }
    }
  }
}
