/** The linear chain over audit event ids. */
module AuditTrace {
  import opened Hashing

  /** An element of the id list: a string, or a value of another type. */
  datatype EventId = Text(id: string) | NotAString

  const GENESIS_PREIMAGE := "chain:genesis"

  predicate Counts(e: EventId) {
    e.Text? && e.id != ""
  }

  /** The ids that take part, in order. */
  function Ids(events: seq<EventId>): (ids: seq<string>)
    ensures forall i | 0 <= i < |ids| :: ids[i] != ""
  {
    if events == [] then []
    else
      var before, last := Ids(events[..|events| - 1]), events[|events| - 1];
      if Counts(last) then before + [last.id] else before
  }

  /** The chain over ids alone. */
  function Fold(h: HashFn, ids: seq<string>): Digest {
    if ids == [] then h(GENESIS_PREIMAGE) else h(Fold(h, ids[..|ids| - 1]) + ids[|ids| - 1])
  }

  method ComputeChainRoot(h: HashFn, events: seq<EventId>) returns (running: Digest)
    ensures running == Fold(h, Ids(events))
  {
    running := h(GENESIS_PREIMAGE);
    for n := 0 to |events|
      invariant running == Fold(h, Ids(events[..n]))
    {
      assert events[..n + 1][..n] == events[..n];
      if events[n].Text? && events[n].id != "" {
        ghost var ids := Ids(events[..n]) + [events[n].id];
        assert ids[..|ids| - 1] == Ids(events[..n]);
        assert Ids(events[..n + 1]) == ids;
        running := h(running + events[n].id);
      }
    }
    assert events[..|events|] == events;
  }

  ghost function Inputs(h: HashFn, ids: seq<string>): set<string> {
    if ids == [] then {GENESIS_PREIMAGE}
    else {Fold(h, ids[..|ids| - 1]) + ids[|ids| - 1]} + Inputs(h, ids[..|ids| - 1])
  }

  lemma {:induction false} FoldInjective(h: HashFn, a: seq<string>, b: seq<string>, inputs: set<string>)
    requires (forall i | 0 <= i < |a| :: a[i] != "") && (forall i | 0 <= i < |b| :: b[i] != "")
    requires Inputs(h, a) + Inputs(h, b) <= inputs && CollisionFree(h, inputs)
    requires Fold(h, a) == Fold(h, b)
    ensures a == b
  {
    if a != [] && b != [] {
      var x, y := a[..|a| - 1], b[..|b| - 1];
      var p, q := Fold(h, x) + a[|a| - 1], Fold(h, y) + b[|b| - 1];
      assert p == q;
      assert Fold(h, x) == p[..64] && Fold(h, y) == q[..64];
      assert a[|a| - 1] == p[64..] && b[|b| - 1] == q[64..];
      FoldInjective(h, x, y, inputs);
      assert a == x + [a[|a| - 1]] && b == y + [b[|b| - 1]];
    }
  }

  /** Equal chain roots mean equal sequences of non-empty ids; skipped elements are the
      only thing the root forgets. */
  lemma ChainRootCommits(h: HashFn, a: seq<EventId>, b: seq<EventId>)
    requires CollisionFree(h, Inputs(h, Ids(a)) + Inputs(h, Ids(b)))
    ensures Fold(h, Ids(a)) == Fold(h, Ids(b)) <==> Ids(a) == Ids(b)
  {
    if Fold(h, Ids(a)) == Fold(h, Ids(b)) {
      FoldInjective(h, Ids(a), Ids(b), Inputs(h, Ids(a)) + Inputs(h, Ids(b)));
    }
  }
}
