/** The timelock registry object, updated in place. */
module TimelockRegistry {
  import opened Wrappers
  import opened Timelock
  import opened TimelockEffects

  class TimelockRegistry {
    var actions: map<int, Action>
    var nextId: int
    var minDelay: int
    var renounced: bool
    var renouncedAt: Option<int>

    /** The registry's state as the value the state machine works on. */
    function View(): Registry
      reads this
    {
      Registry(actions, nextId, minDelay, renounced, renouncedAt)
    }

    constructor (minDelay: int)
      requires minDelay >= 0
      ensures View() == Start(minDelay)
      ensures Inv(View(), minDelay)
    {
      actions, nextId, this.minDelay, renounced, renouncedAt := map[], 1, minDelay, false, None;
    }

    /** Construction raises for a negative delay. */
    static method Create(minDelay: int) returns (r: Result<TimelockRegistry, TimelockError>)
      ensures if minDelay < 0 then r == Err(ValueError)
              else r.Ok? && fresh(r.value) && r.value.View() == Start(minDelay)
    {
      if minDelay < 0 {
        return Err(ValueError);
      }
      var registry := new TimelockRegistry(minDelay);
      return Ok(registry);
    }

    method Queue(actionType: Option<string>, params: Option<Params>, now: int)
      returns (r: Result<Action, TimelockError>)
      modifies this
      ensures (View(), r) == Timelock.Queue(old(View()), actionType, params, now)
      ensures Queues(old(View()), actionType, params, now, View(), r)
    {
      QueueDoes(View(), actionType, params, now);
      if renounced {
        return Err(RenouncedError);
      }
      if actionType.None? || actionType.value == "" {
        return Err(ValueError);
      }
      if params.None? {
        return Err(ValueError);
      }
      var id := nextId;
      nextId := nextId + 1;
      var action := Action(id, actionType.value, params.value, now, now + minDelay, Pending, None, None, None, None);
      actions := actions[id := action];
      return Ok(action);
    }

    /** `outcome` is what the injected executor does if it gets called. */
    method Execute(id: int, now: int, outcome: Outcome) returns (r: Result<Action, TimelockError>)
      modifies this
      ensures (View(), r) == Timelock.Execute(old(View()), id, now, outcome)
      ensures Executes(old(View()), id, now, outcome, View(), r)
    {
      ExecuteDoes(View(), id, now, outcome);
      if renounced {
        return Err(RenouncedError);
      }
      if id !in actions {
        return Err(UnknownAction);
      }
      var action := actions[id];
      if action.state != Pending {
        return Err(AlreadySettled);
      }
      if now < action.readyAt {
        return Err(NotReady);
      }
      CallExecutor(outcome.delays);
      if outcome.Raised? {
        return Err(ExecutorRaised);
      }
      var settled := Settled(action, now, outcome.value);
      actions := actions[id := settled];
      return Ok(settled);
    }

    /** The executor's effect on the registry: its set_delay calls, one after the other. */
    method CallExecutor(delays: seq<int>)
      modifies this
      ensures View() == SetDelays(old(View()), delays)
      ensures View() == old(View()).(minDelay := minDelay)
      decreases |delays|
    {
      SetDelaysOnlyRaises(View(), delays);
      if delays != [] {
        var _ := SetDelay(delays[0]);
        CallExecutor(delays[1..]);
      }
    }

    method Cancel(id: int, reason: Option<string>, now: int) returns (r: Result<Action, TimelockError>)
      modifies this
      ensures (View(), r) == Timelock.Cancel(old(View()), id, reason, now)
      ensures Cancels(old(View()), id, reason, now, View(), r)
    {
      CancelDoes(View(), id, reason, now);
      if id !in actions {
        return Err(UnknownAction);
      }
      var action := actions[id];
      if action.state == Executed {
        return Err(AlreadySettled);
      }
      if action.state == Cancelled {
        return Ok(action);
      }
      var cancelled := Dropped(action, now, reason);
      actions := actions[id := cancelled];
      return Ok(cancelled);
    }

    method SetDelay(newDelay: int) returns (r: Result<int, TimelockError>)
      modifies this
      ensures (View(), r) == Timelock.SetDelay(old(View()), newDelay)
      ensures SetsDelay(old(View()), newDelay, View(), r)
    {
      SetDelayDoes(View(), newDelay);
      if renounced {
        return Err(RenouncedError);
      }
      if newDelay < 0 {
        return Err(ValueError);
      }
      if newDelay < minDelay {
        return Err(InvalidDelay);
      }
      minDelay := newDelay;
      return Ok(newDelay);
    }

    /** The loop meets the ids in insertion order, which is 1 .. nextId - 1. */
    method Renounce(now: int)
      requires nextId >= 1 && forall id :: id in actions <==> 1 <= id < nextId
      modifies this
      ensures View() == Timelock.Renounce(old(View()), now)
      ensures Renounces(old(View()), now, View())
    {
      RenounceDoes(View(), now);
      if renounced {
        return;
      }
      renounced := true;
      renouncedAt := Some(now);
      var id := 1;
      while id < nextId
        invariant 1 <= id <= nextId && nextId == old(nextId) && minDelay == old(minDelay)
        invariant renounced && renouncedAt == Some(now)
        invariant actions.Keys == old(actions).Keys
        invariant forall k | k in actions ::
                    actions[k] == if k < id then DropIfPending(old(actions)[k], now) else old(actions)[k]
      {
        if actions[id].state == Pending {
          actions := actions[id := Dropped(actions[id], now, RENOUNCE_REASON)];
        }
        id := id + 1;
      }
      assert actions == DropAll(old(actions), now);
    }

    /** The pending actions, in the order they were queued. */
    method ListPending() returns (pending: seq<Action>)
      requires nextId >= 1 && forall id :: id in actions <==> 1 <= id < nextId
      requires forall id | id in actions :: actions[id].actionId == id
      ensures forall id ::
                (id in actions && actions[id].state == Pending)
                <==> exists i | 0 <= i < |pending| :: pending[i].actionId == id
      ensures forall i | 0 <= i < |pending| ::
                pending[i].actionId in actions && pending[i] == actions[pending[i].actionId]
      ensures forall i, j | 0 <= i < j < |pending| :: pending[i].actionId < pending[j].actionId
    {
      pending := [];
      var id := 1;
      while id < nextId
        invariant 1 <= id <= nextId
        invariant forall i | 0 <= i < |pending| ::
                    pending[i].actionId < id && pending[i].actionId in actions
                          && pending[i] == actions[pending[i].actionId]
        invariant forall i | 0 <= i < |pending| :: pending[i].state == Pending
        invariant forall i, j | 0 <= i < j < |pending| :: pending[i].actionId < pending[j].actionId
        invariant forall k | 1 <= k < id && actions[k].state == Pending ::
                    exists i | 0 <= i < |pending| :: pending[i].actionId == k
      {
        if actions[id].state == Pending {
          ghost var before := pending;
          pending := pending + [actions[id]];
          assert pending[|before|].actionId == id;
          assert forall i | 0 <= i < |before| :: pending[i] == before[i];
        }
        id := id + 1;
      }
    }
  }
}
