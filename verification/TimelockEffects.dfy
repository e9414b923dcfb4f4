/** What each operation of the timelock does to the registry, field by field, and what
    becomes of cancelled actions over runs. */
module TimelockEffects {
  import opened Wrappers
  import opened Timelock

  /** All actions but one, and everything besides the actions, are as before. */
  ghost predicate OthersSame(s: Registry, t: Registry, id: int) {
    && t.minDelay == s.minDelay && t.renounced == s.renounced && t.renouncedAt == s.renouncedAt
    && forall k | k != id :: (k in t.actions <==> k in s.actions) && (k in s.actions ==> t.actions[k] == s.actions[k])
  }

  ghost predicate SameTerms(a: Action, b: Action) {
    && b.actionId == a.actionId && b.actionType == a.actionType && b.params == a.params
    && b.queuedAt == a.queuedAt && b.readyAt == a.readyAt
  }

  // ----- queue -------------------------------------------------------------------------------------

  /** A new action under the next id, pending, ready after the delay; or a refusal. */
  ghost predicate Queues(s: Registry, actionType: Option<string>, params: Option<Params>, now: int,
                         t: Registry, r: Result<Action, TimelockError>)
  {
    if s.renounced then t == s && r == Err(RenouncedError)
    else if actionType == None || actionType == Some("") || params == None then t == s && r == Err(ValueError)
    else
      && r.Ok? && OthersSame(s, t, s.nextId) && t.nextId == s.nextId + 1
      && s.nextId in t.actions && t.actions[s.nextId] == r.value
      && var a := r.value;
      && a.actionId == s.nextId && Some(a.actionType) == actionType && Some(a.params) == params
      && a.queuedAt == now && a.readyAt - now == s.minDelay && a.state == Pending
      && a.executedAt == None && a.cancelledAt == None && a.cancelReason == None && a.result == None
  }

  lemma QueueDoes(s: Registry, actionType: Option<string>, params: Option<Params>, now: int)
    ensures var q := Queue(s, actionType, params, now); Queues(s, actionType, params, now, q.0, q.1)
  {
  }

  // ----- cancel ------------------------------------------------------------------------------------

  /** A pending action becomes cancelled, now and for this reason; a cancelled one is returned
      as it is; any other call is refused. */
  ghost predicate Cancels(s: Registry, id: int, reason: Option<string>, now: int,
                          t: Registry, r: Result<Action, TimelockError>)
  {
    if id !in s.actions then t == s && r == Err(UnknownAction)
    else if s.actions[id].state == Executed then t == s && r == Err(AlreadySettled)
    else if s.actions[id].state == Cancelled then t == s && r == Ok(s.actions[id])
    else
      && r.Ok? && OthersSame(s, t, id) && t.nextId == s.nextId && id in t.actions && t.actions[id] == r.value
      && var a := r.value;
      && SameTerms(s.actions[id], a) && a.state == Cancelled && a.cancelledAt == Some(now) && a.cancelReason == reason
      && a.executedAt == None && a.result == None
  }

  lemma CancelDoes(s: Registry, id: int, reason: Option<string>, now: int)
    ensures var c := Cancel(s, id, reason, now); Cancels(s, id, reason, now, c.0, c.1)
  {
  }

  // ----- set_delay ---------------------------------------------------------------------------------

  /** The delay is the new one and nothing else changes, or the call is refused. */
  ghost predicate SetsDelay(s: Registry, newDelay: int, t: Registry, r: Result<int, TimelockError>) {
    if s.renounced then t == s && r == Err(RenouncedError)
    else if newDelay < 0 then t == s && r == Err(ValueError)
    else if newDelay < s.minDelay then t == s && r == Err(InvalidDelay)
    else
      && r == Ok(newDelay) && t.minDelay == newDelay && t.actions == s.actions && t.nextId == s.nextId
      && t.renounced == s.renounced && t.renouncedAt == s.renouncedAt
  }

  lemma SetDelayDoes(s: Registry, newDelay: int)
    ensures var d := SetDelay(s, newDelay); SetsDelay(s, newDelay, d.0, d.1)
  {
  }

  /** The largest delay of a list that is accepted one after the other. */
  lemma {:induction false} DelaysReach(s: Registry, delays: seq<int>)
    requires !s.renounced && s.minDelay >= 0
    ensures
      var d := SetDelays(s, delays).minDelay;
      && (d == s.minDelay || d in delays) && d >= s.minDelay && forall i | 0 <= i < |delays| :: delays[i] <= d
    decreases |delays|
  {
    if delays != [] {
      DelaysReach(SetDelay(s, delays[0]).0, delays[1..]);
      SetDelaysOnlyRaises(SetDelay(s, delays[0]).0, delays[1..]);
    }
  }

  // ----- execute -----------------------------------------------------------------------------------

  /** A ready pending action becomes executed, now and with the executor's reply, unless the
      executor raises; then only its own set_delay calls remain. */
  ghost predicate Executes(s: Registry, id: int, now: int, outcome: Outcome,
                           t: Registry, r: Result<Action, TimelockError>)
  {
    if s.renounced then t == s && r == Err(RenouncedError)
    else if id !in s.actions then t == s && r == Err(UnknownAction)
    else if s.actions[id].state != Pending then t == s && r == Err(AlreadySettled)
    else if now < s.actions[id].readyAt then t == s && r == Err(NotReady)
    else if outcome.Raised? then r == Err(ExecutorRaised) && t == s.(minDelay := t.minDelay)
    else
      && r.Ok? && OthersSame(s, t.(minDelay := s.minDelay), id) && t.nextId == s.nextId
      && id in t.actions && t.actions[id] == r.value
      && var a := r.value;
      && SameTerms(s.actions[id], a) && a.state == Executed && a.executedAt == Some(now)
      && a.result == Some(outcome.value) && a.cancelledAt == None && a.cancelReason == None
  }

  lemma ExecuteDoes(s: Registry, id: int, now: int, outcome: Outcome)
    ensures var e := Execute(s, id, now, outcome); Executes(s, id, now, outcome, e.0, e.1)
    ensures Refusal(s, id, now) == None ==> Execute(s, id, now, outcome).0.minDelay
                                            == SetDelays(s, outcome.delays).minDelay
  {
    SetDelaysOnlyRaises(s, outcome.delays);
  }

  // ----- renounce ----------------------------------------------------------------------------------

  /** Every pending action is cancelled with reason renounce, all others stay. */
  ghost predicate Renounces(s: Registry, now: int, t: Registry) {
    if s.renounced then t == s
    else
      && t.renounced && t.renouncedAt == Some(now) && t.minDelay == s.minDelay && t.nextId == s.nextId
      && t.actions.Keys == s.actions.Keys
      && forall id | id in s.actions ::
           var a := t.actions[id];
           if s.actions[id].state == Pending then
             && SameTerms(s.actions[id], a) && a.state == Cancelled && a.cancelledAt == Some(now)
             && a.cancelReason == Some("renounce") && a.executedAt == None && a.result == None
           else a == s.actions[id]
  }

  lemma RenounceDoes(s: Registry, now: int)
    ensures Renounces(s, now, Renounce(s, now))
  {
  }

  // ----- cancelled actions over runs -------------------------------------------------------------------

  /** Event k of the run cancels the action, by itself or by renouncing. */
  ghost predicate CancelsAt(s: Registry, es: seq<Event>, k: nat, id: int)
    requires k < |es|
  {
    var before := Run(s, es[..k]);
    && id in before.actions && before.actions[id].state == Pending
    && ((es[k].DoCancel? && es[k].id == id) || (es[k].DoRenounce? && !before.renounced))
  }

  lemma AfterCancelling(s: Registry, es: seq<Event>, k: nat, id: int)
    requires k < |es| && CancelsAt(s, es, k, id)
    ensures
      var t := Run(s, es[..k + 1]);
      && id in t.actions && t.actions[id].state == Cancelled && t.actions[id].cancelledAt == Some(es[k].now)
      && t.actions[id].cancelReason == if es[k].DoCancel? then es[k].reason else Some("renounce")
  {
    assert es[..k + 1][..k] == es[..k];
    var before := Run(s, es[..k]);
    if es[k].DoCancel? {
      CancelDoes(before, id, es[k].reason, es[k].now);
    } else {
      RenounceDoes(before, es[k].now);
    }
  }

  /** What was settled before some event is the same after any later ones. */
  lemma StaysSettled(floor: int, es: seq<Event>, i: nat, j: nat, id: int)
    requires floor >= 0 && i <= j <= |es|
    requires var t := Run(Start(floor), es[..i]); id in t.actions && t.actions[id].state != Pending
    ensures var t := Run(Start(floor), es[..j]);
            id in t.actions && t.actions[id] == Run(Start(floor), es[..i]).actions[id]
  {
    ReachableIsSound(floor, es[..i]);
    RunEvolves(Run(Start(floor), es[..i]), es[i..j], floor);
    RunAppend(Start(floor), es[..i], es[i..j]);
    assert es[..i] + es[i..j] == es[..j];
  }

  /** A cancelled action is never executed, neither before nor after. */
  lemma CancelledNeverRuns(floor: int, es: seq<Event>, k: nat, j: nat, id: int)
    requires floor >= 0 && k < |es| && j < |es| && CancelsAt(Start(floor), es, k, id)
    ensures !ExecutesAt(Start(floor), es, j, id)
  {
    if j < k {
      if ExecutesAt(Start(floor), es, j, id) {
        StaysExecuted(floor, es, j, k, id);
      }
    } else if j > k {
      AfterCancelling(Start(floor), es, k, id);
      StaysSettled(floor, es, k + 1, j, id);
    }
  }

  lemma OnlyCancelCancels(s: Registry, e: Event, id: int)
    requires id in Step(s, e).actions && Step(s, e).actions[id].state == Cancelled
    requires id in s.actions ==> s.actions[id].state != Cancelled
    ensures id in s.actions && s.actions[id].state == Pending
    ensures (e.DoCancel? && e.id == id) || (e.DoRenounce? && !s.renounced)
  {
    if e.DoExecute? {
      SetDelaysOnlyRaises(s, e.outcome.delays);
    }
  }

  /** Every cancelled action was cancelled by an event of the run, at its time and for its
      reason. */
  lemma {:induction false} CancelledBefore(floor: int, es: seq<Event>, id: int) returns (k: nat)
    requires floor >= 0 && id in Run(Start(floor), es).actions && Run(Start(floor), es).actions[id].state == Cancelled
    ensures k < |es| && CancelsAt(Start(floor), es, k, id)
    ensures Run(Start(floor), es).actions[id].cancelledAt == Some(es[k].now)
    ensures Run(Start(floor), es).actions[id].cancelReason
            == if es[k].DoCancel? then es[k].reason else Some("renounce")
    decreases |es|
  {
    var n := |es| - 1;
    var before := Run(Start(floor), es[..n]);
    ReachableIsSound(floor, es[..n]);
    if id in before.actions && before.actions[id].state == Cancelled {
      k := CancelledBefore(floor, es[..n], id);
      PrefixOf(es, n, k);
      StepEvolves(before, es[n], floor);
    } else {
      k := n;
      OnlyCancelCancels(before, es[n], id);
      AfterCancelling(Start(floor), es, n, id);
      assert es[..n + 1] == es;
    }
  }
}
