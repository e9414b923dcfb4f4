/** The admin timelock as a state machine on values: queue, execute, cancel, set_delay,
    renounce, and what every run of them keeps. TimelockRegistry implements it in place. */
module Timelock {
  import opened Wrappers

  /** The action's parameters and the executor's reply: any values, never looked into. */
  type Params
  type Reply

  datatype State = Pending | Executed | Cancelled

  datatype TimelockError =
    | RenouncedError | UnknownAction | AlreadySettled | NotReady | InvalidDelay | ValueError | ExecutorRaised

  datatype Action = Action(actionId: int, actionType: string, params: Params, queuedAt: int, readyAt: int, state: State,
                                 executedAt: Option<int>, cancelledAt: Option<int>, cancelReason: Option<string>,
                                 result: Option<Reply>)

  /** What the injected executor does when called: the set_delay calls it makes, in
      order, and then whether it returns or raises. */
  datatype Outcome = Returned(delays: seq<int>, value: Reply) | Raised(delays: seq<int>)

  datatype Registry =
    Registry(actions: map<int, Action>, nextId: int, minDelay: int, renounced: bool, renouncedAt: Option<int>)

  function Start(minDelay: int): Registry {
    Registry(map[], 1, minDelay, false, None)
  }

  // ----- the operations -----------------------------------------------------------------

  function Get(s: Registry, id: int): Result<Action, TimelockError> {
    if id in s.actions then Ok(s.actions[id]) else Err(UnknownAction)
  }

  function Fresh(s: Registry, actionType: string, params: Params, now: int): Action {
    Action(s.nextId, actionType, params, now, now + s.minDelay, Pending, None, None, None, None)
  }

  /** None stands for an argument of the wrong Python type. */
  function Queue(s: Registry, actionType: Option<string>, params: Option<Params>, now: int)
    : (Registry, Result<Action, TimelockError>)
  {
    if s.renounced then (s, Err(RenouncedError))
    else if actionType.None? || actionType.value == "" || params.None? then (s, Err(ValueError))
    else
      var a := Fresh(s, actionType.value, params.value, now);
      (s.(actions := s.actions[a.actionId := a], nextId := s.nextId + 1), Ok(a))
  }

  function SetDelay(s: Registry, newDelay: int): (Registry, Result<int, TimelockError>) {
    if s.renounced then (s, Err(RenouncedError))
    else if newDelay < 0 then (s, Err(ValueError))
    else if newDelay < s.minDelay then (s, Err(InvalidDelay))
    else (s.(minDelay := newDelay), Ok(newDelay))
  }

  function SetDelays(s: Registry, delays: seq<int>): Registry
    decreases |delays|
  {
    if delays == [] then s else SetDelays(SetDelay(s, delays[0]).0, delays[1..])
  }

  /** Why execute() refuses before the executor is called; None if it does not. */
  function Refusal(s: Registry, id: int, now: int): Option<TimelockError> {
    if s.renounced then Some(RenouncedError)
    else if id !in s.actions then Some(UnknownAction)
    else if s.actions[id].state != Pending then Some(AlreadySettled)
    else if now < s.actions[id].readyAt then Some(NotReady)
    else None
  }

  function Settled(a: Action, now: int, value: Reply): Action {
    Action(a.actionId, a.actionType, a.params, a.queuedAt, a.readyAt, Executed, Some(now), None, None, Some(value))
  }

  function Execute(s: Registry, id: int, now: int, outcome: Outcome)
    : (Registry, Result<Action, TimelockError>)
  {
    if Refusal(s, id, now).Some? then (s, Err(Refusal(s, id, now).value))
    else
      var s1 := SetDelays(s, outcome.delays);
      match outcome
      case Raised(_) => (s1, Err(ExecutorRaised))
      case Returned(_, value) =>
        var a := Settled(s.actions[id], now, value);
        (s1.(actions := s1.actions[id := a]), Ok(a))
  }

  function Dropped(a: Action, now: int, reason: Option<string>): Action {
    Action(a.actionId, a.actionType, a.params, a.queuedAt, a.readyAt, Cancelled, None, Some(now), reason, None)
  }

  function Cancel(s: Registry, id: int, reason: Option<string>, now: int)
    : (Registry, Result<Action, TimelockError>)
  {
    if id !in s.actions then (s, Err(UnknownAction))
    else if s.actions[id].state == Executed then (s, Err(AlreadySettled))
    else if s.actions[id].state == Cancelled then (s, Ok(s.actions[id]))
    else
      var a := Dropped(s.actions[id], now, reason);
      (s.(actions := s.actions[id := a]), Ok(a))
  }

  const RENOUNCE_REASON: Option<string> := Some("renounce")

  function DropIfPending(a: Action, now: int): Action {
    if a.state == Pending then Dropped(a, now, RENOUNCE_REASON) else a
  }

  function DropAll(actions: map<int, Action>, now: int): map<int, Action> {
    map id | id in actions :: DropIfPending(actions[id], now)
  }

  function Renounce(s: Registry, now: int): Registry {
    if s.renounced then s
    else s.(actions := DropAll(s.actions, now), renounced := true, renouncedAt := Some(now))
  }

  // ----- runs -----------------------------------------------------------------------------

  datatype Event =
    | DoQueue(actionType: Option<string>, params: Option<Params>, now: int)
    | DoExecute(id: int, now: int, outcome: Outcome)
    | DoCancel(id: int, reason: Option<string>, now: int)
    | DoSetDelay(newDelay: int)
    | DoRenounce(now: int)

  function Step(s: Registry, e: Event): Registry {
    match e
    case DoQueue(actionType, params, now) => Queue(s, actionType, params, now).0
    case DoExecute(id, now, outcome) => Execute(s, id, now, outcome).0
    case DoCancel(id, reason, now) => Cancel(s, id, reason, now).0
    case DoSetDelay(newDelay) => SetDelay(s, newDelay).0
    case DoRenounce(now) => Renounce(s, now)
  }

  function Run(s: Registry, es: seq<Event>): Registry
    decreases |es|
  {
    if es == [] then s else Step(Run(s, es[..|es| - 1]), es[|es| - 1])
  }

  // ----- what every run keeps ---------------------------------------------------------------

  /** An action's times fit its state. */
  predicate ActionOk(a: Action, id: int, floor: int) {
    && a.actionId == id && a.actionType != "" && a.readyAt - a.queuedAt >= floor
    && (a.state == Executed <==> a.executedAt.Some?) && (a.state == Executed <==> a.result.Some?)
    && (a.state == Cancelled <==> a.cancelledAt.Some?)
    && (a.executedAt.Some? ==> a.executedAt.value >= a.readyAt)
  }

  /** `floor` is the delay the registry was constructed with. */
  ghost predicate Inv(s: Registry, floor: int) {
    && 0 <= floor <= s.minDelay && s.nextId >= 1
    && (forall id :: id in s.actions <==> 1 <= id < s.nextId)
    && (forall id | id in s.actions :: ActionOk(s.actions[id], id, floor))
    && (s.renounced <==> s.renouncedAt.Some?)
    && (s.renounced ==> forall id | id in s.actions :: s.actions[id].state != Pending)
  }

  lemma {:induction false} SetDelaysOnlyRaises(s: Registry, delays: seq<int>)
    ensures SetDelays(s, delays) == s.(minDelay := SetDelays(s, delays).minDelay)
    ensures SetDelays(s, delays).minDelay >= s.minDelay
    decreases |delays|
  {
    if delays != [] {
      SetDelaysOnlyRaises(SetDelay(s, delays[0]).0, delays[1..]);
    }
  }

  lemma ExecuteKeepsInv(s: Registry, id: int, now: int, outcome: Outcome, floor: int)
    requires Inv(s, floor)
    ensures Inv(Execute(s, id, now, outcome).0, floor)
  {
    SetDelaysOnlyRaises(s, outcome.delays);
  }

  lemma StepKeepsInv(s: Registry, e: Event, floor: int)
    requires Inv(s, floor)
    ensures Inv(Step(s, e), floor)
  {
    match e
    case DoExecute(id, now, outcome) => ExecuteKeepsInv(s, id, now, outcome, floor);
    case _ =>
  }

  /** Over every run: ids are exactly 1 .. nextId - 1, an executed action ran no earlier
      than its ready time, which lies at least the initial delay after it was queued, and
      after renounce nothing is pending. */
  lemma {:induction false} ReachableIsSound(floor: int, es: seq<Event>)
    requires floor >= 0
    ensures Inv(Run(Start(floor), es), floor)
    decreases |es|
  {
    if es != [] {
      ReachableIsSound(floor, es[..|es| - 1]);
      StepKeepsInv(Run(Start(floor), es[..|es| - 1]), es[|es| - 1], floor);
    }
  }

  /** What may become of one action: its terms stay, and once settled it stays as it is. */
  ghost predicate Evolves(a: Action, b: Action) {
    && b.actionId == a.actionId && b.actionType == a.actionType && b.params == a.params
    && b.queuedAt == a.queuedAt && b.readyAt == a.readyAt
    && (a.state == Pending || b == a)
    && (b.state == Pending ==> b == a)
  }

  ghost predicate RegistryEvolves(s: Registry, t: Registry) {
    && t.nextId >= s.nextId && t.minDelay >= s.minDelay && (s.renounced ==> t.renounced)
    && forall id | id in s.actions :: id in t.actions && Evolves(s.actions[id], t.actions[id])
  }

  lemma StepEvolves(s: Registry, e: Event, floor: int)
    requires Inv(s, floor)
    ensures RegistryEvolves(s, Step(s, e))
  {
    match e
    case DoExecute(id, now, outcome) => SetDelaysOnlyRaises(s, outcome.delays);
    case _ =>
  }

  lemma EvolvesTransitive(r: Registry, s: Registry, t: Registry)
    requires RegistryEvolves(r, s) && RegistryEvolves(s, t)
    ensures RegistryEvolves(r, t)
  {
    forall id | id in r.actions
      ensures id in t.actions && Evolves(r.actions[id], t.actions[id])
    {
      assert id in s.actions && Evolves(r.actions[id], s.actions[id]);
      assert Evolves(s.actions[id], t.actions[id]);
    }
  }

  /** From any point of any run on: the delay never shrinks, no action disappears or
      changes its terms, and settled actions never change. */
  lemma {:induction false} RunEvolves(s: Registry, es: seq<Event>, floor: int)
    requires Inv(s, floor)
    ensures Inv(Run(s, es), floor) && RegistryEvolves(s, Run(s, es))
    decreases |es|
  {
    if es != [] {
      var before := Run(s, es[..|es| - 1]);
      RunEvolves(s, es[..|es| - 1], floor);
      StepEvolves(before, es[|es| - 1], floor);
      StepKeepsInv(before, es[|es| - 1], floor);
      EvolvesTransitive(s, before, Run(s, es));
    }
  }

  lemma RenouncedStep(s: Registry, e: Event, floor: int)
    requires Inv(s, floor) && s.renounced
    ensures Step(s, e) == s
  {
  }

  /** Renouncing is final: no later event changes anything at all. */
  lemma {:induction false} RenouncedForever(s: Registry, es: seq<Event>, floor: int)
    requires Inv(s, floor) && s.renounced
    ensures Run(s, es) == s
    decreases |es|
  {
    if es != [] {
      RenouncedForever(s, es[..|es| - 1], floor);
      RenouncedStep(s, es[|es| - 1], floor);
    }
  }

  /** A failing executor changes nothing but what its own set_delay calls did, and the
      action can be tried again at any later time. */
  lemma FailureCanBeRetried(s: Registry, id: int, now: int, delays: seq<int>, later: int, outcome: Outcome)
    requires Refusal(s, id, now).None? && later >= now
    ensures var s1 := Execute(s, id, now, Raised(delays)).0;
            && Execute(s, id, now, Raised(delays)).1 == Err(ExecutorRaised)
            && s1 == s.(minDelay := s1.minDelay) && s1.minDelay >= s.minDelay
            && Refusal(s1, id, later).None?
            && (outcome.Returned?
                ==> Execute(s1, id, later, outcome).1 == Ok(Settled(s.actions[id], later, outcome.value)))
  {
    SetDelaysOnlyRaises(s, delays);
  }

  // ----- the history of one execution ----------------------------------------------------------

  /** Does event k of the run execute action id? */
  predicate ExecutesAt(s: Registry, es: seq<Event>, k: nat, id: int)
    requires k < |es|
  {
    && es[k].DoExecute? && es[k].id == id && es[k].outcome.Returned?
    && Refusal(Run(s, es[..k]), id, es[k].now).None?
  }

  predicate QueuesAt(s: Registry, es: seq<Event>, k: nat, id: int)
    requires k < |es|
  {
    es[k].DoQueue? && Run(s, es[..k]).nextId == id
          && Queue(Run(s, es[..k]), es[k].actionType, es[k].params, es[k].now).1.Ok?
  }

  lemma PrefixOf<T>(es: seq<T>, n: nat, k: nat)
    requires k <= n <= |es|
    ensures es[..n][..k] == es[..k]
  {
  }

  /** Every action in the registry was queued by an event of the run, with the terms it has. */
  lemma {:induction false} QueuedBefore(floor: int, es: seq<Event>, id: int) returns (k: nat)
    requires floor >= 0 && id in Run(Start(floor), es).actions
    ensures k < |es| && QueuesAt(Start(floor), es, k, id)
    ensures var a := Run(Start(floor), es).actions[id];
            && es[k].actionType == Some(a.actionType) && es[k].params == Some(a.params) && es[k].now == a.queuedAt
            && a.readyAt == a.queuedAt + Run(Start(floor), es[..k]).minDelay
    decreases |es|
  {
    var n := |es| - 1;
    var before := Run(Start(floor), es[..n]);
    ReachableIsSound(floor, es[..n]);
    if id in before.actions {
      k := QueuedBefore(floor, es[..n], id);
      PrefixOf(es, n, k);
      StepEvolves(before, es[n], floor);
    } else {
      k := n;
      OnlyQueueAdds(before, es[n], id);
    }
  }

  lemma OnlyQueueAdds(s: Registry, e: Event, id: int)
    requires id !in s.actions && id in Step(s, e).actions
    ensures e.DoQueue? && s.nextId == id && Queue(s, e.actionType, e.params, e.now).1.Ok?
    ensures Step(s, e).actions[id] == Fresh(s, e.actionType.value, e.params.value, e.now)
  {
    if e.DoExecute? {
      SetDelaysOnlyRaises(s, e.outcome.delays);
    }
  }

  lemma OnlyExecuteExecutes(s: Registry, e: Event, id: int)
    requires id in Step(s, e).actions && Step(s, e).actions[id].state == Executed
    requires id in s.actions ==> s.actions[id].state != Executed
    ensures e.DoExecute? && e.id == id && e.outcome.Returned? && Refusal(s, id, e.now).None?
    ensures id in s.actions && Step(s, e).actions[id] == Settled(s.actions[id], e.now, e.outcome.value)
  {
    if e.DoExecute? {
      SetDelaysOnlyRaises(s, e.outcome.delays);
    }
  }

  lemma {:induction false} RunAppend(s: Registry, a: seq<Event>, b: seq<Event>)
    ensures Run(s, a + b) == Run(Run(s, a), b)
    decreases |b|
  {
    if b == [] {
      assert a + b == a;
    } else {
      RunAppend(s, a, b[..|b| - 1]);
      assert (a + b)[..|a + b| - 1] == a + b[..|b| - 1];
    }
  }

  lemma AfterExecuting(s: Registry, es: seq<Event>, i: nat, id: int)
    requires i < |es| && ExecutesAt(s, es, i, id)
    ensures var t := Run(s, es[..i + 1]); id in t.actions && t.actions[id].state == Executed
  {
    assert es[..i + 1][..i] == es[..i];
    SetDelaysOnlyRaises(Run(s, es[..i]), es[i].outcome.delays);
  }

  lemma StaysExecuted(floor: int, es: seq<Event>, i: nat, j: nat, id: int)
    requires floor >= 0 && i < j <= |es| && ExecutesAt(Start(floor), es, i, id)
    ensures var t := Run(Start(floor), es[..j]); id in t.actions && t.actions[id].state == Executed
  {
    AfterExecuting(Start(floor), es, i, id);
    ReachableIsSound(floor, es[..i + 1]);
    RunEvolves(Run(Start(floor), es[..i + 1]), es[i + 1..j], floor);
    RunAppend(Start(floor), es[..i + 1], es[i + 1..j]);
    assert es[..i + 1] + es[i + 1..j] == es[..j];
  }

  lemma NotTwice(floor: int, es: seq<Event>, i: nat, j: nat, id: int)
    requires floor >= 0 && i < j < |es| && ExecutesAt(Start(floor), es, i, id)
    ensures !ExecutesAt(Start(floor), es, j, id)
  {
    StaysExecuted(floor, es, i, j, id);
  }

  lemma {:induction false} ExecutedBefore(floor: int, es: seq<Event>, id: int) returns (j: nat)
    requires floor >= 0 && id in Run(Start(floor), es).actions && Run(Start(floor), es).actions[id].state == Executed
    ensures j < |es| && ExecutesAt(Start(floor), es, j, id)
    ensures Run(Start(floor), es).actions[id].executedAt == Some(es[j].now)
    decreases |es|
  {
    var n := |es| - 1;
    var before := Run(Start(floor), es[..n]);
    ReachableIsSound(floor, es[..n]);
    if id in before.actions && before.actions[id].state == Executed {
      j := ExecutedBefore(floor, es[..n], id);
      PrefixOf(es, n, j);
      StepEvolves(before, es[n], floor);
    } else {
      j := n;
      OnlyExecuteExecutes(before, es[n], id);
    }
  }

  /** Every executed action was executed by exactly one event of the run. */
  lemma ExecutedOnce(floor: int, es: seq<Event>, id: int) returns (j: nat)
    requires floor >= 0 && id in Run(Start(floor), es).actions && Run(Start(floor), es).actions[id].state == Executed
    ensures j < |es| && ExecutesAt(Start(floor), es, j, id)
    ensures Run(Start(floor), es).actions[id].executedAt == Some(es[j].now)
    ensures forall i: nat | i < |es| && i != j :: !ExecutesAt(Start(floor), es, i, id)
  {
    j := ExecutedBefore(floor, es, id);
    forall i: nat | i < |es| && i != j
      ensures !ExecutesAt(Start(floor), es, i, id)
    {
      if j < i {
        NotTwice(floor, es, j, i, id);
      } else if ExecutesAt(Start(floor), es, i, id) {
        NotTwice(floor, es, i, j, id);
      }
    }
  }

  /** The promise of the module: an action that ran was queued, by an earlier event and
      with the same terms, at least the delay of that moment before, hence at least the
      initial delay before; and it ran once. */
  lemma NothingRunsUnannounced(floor: int, es: seq<Event>, j: nat, id: int) returns (i: nat)
    requires floor >= 0 && j < |es| && ExecutesAt(Start(floor), es, j, id)
    ensures i < j && QueuesAt(Start(floor), es, i, id)
    ensures es[j].now >= es[i].now + Run(Start(floor), es[..i]).minDelay >= es[i].now + floor
    ensures var a := Run(Start(floor), es[..j]).actions[id];
            es[i].actionType == Some(a.actionType) && es[i].params == Some(a.params)
  {
    i := QueuedBefore(floor, es[..j], id);
    PrefixOf(es, j, i);
    ReachableIsSound(floor, es[..i]);
  }
}
