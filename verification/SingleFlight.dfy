/** Any number of callers of the idempotency registry, interleaved at its lock sections. */
module SingleFlight {
  // A lock section holds no await, so each is one step.  An operation runs between its caller's two
  // sections; a cancelled owner is an operation that failed, a cancelled waiter leaves on its own.

  import opened G = Registry

  datatype Outcome =
    | Fresh(future: nat, result: string)
    | Raised(future: nat, error: string)
    | Reused(future: nat, result: string)
    | ReusedError(future: nat, error: string)
    | Refused(why: Admission)
    | Cancelled

  datatype Status = Running(future: nat) | Waiting(future: nat) | Returned(outcome: Outcome)

  datatype Call = Call(compound: Compound, fingerprint: string, status: Status)

  datatype System = System(registry: Registry, calls: map<nat, Call>, now: real)

  datatype Action =
    | Enter(caller: nat, compound: Compound, fingerprint: string)
    | OpSucceeded(caller: nat, result: string, keep: bool)
    | OpFailed(caller: nat, error: string)
    | WaiterResumes(caller: nat)
    | WaiterCancelled(caller: nat)
    | Tick(elapsed: real)

  predicate IsRunning(s: System, caller: nat) {
    caller in s.calls && s.calls[caller].status.Running?
    && s.calls[caller].status.future < |s.registry.futures|
  }

  predicate IsWaiting(s: System, caller: nat) {
    caller in s.calls && s.calls[caller].status.Waiting?
    && s.calls[caller].status.future < |s.registry.futures|
  }

  function Admitted(admission: Admission): Status {
    match admission
    case Own(f) => Running(f)
    case Join(f) => Waiting(f)
    case _ => Returned(Refused(admission))
  }

  function Answered(s: System, caller: nat, status: Status): System
    requires caller in s.calls
  {
    s.(calls := s.calls[caller := s.calls[caller].(status := status)])
  }

  /** A step an action cannot take leaves the system as it is. */
  function Step(s: System, a: Action): System {
    match a
    case Enter(caller, compound, fingerprint) =>
      if caller in s.calls then s
      else
        var (registry, admission) := G.Enter(s.registry, s.now, caller, compound, fingerprint);
        s.(registry := registry, calls := s.calls[caller := Call(compound, fingerprint, Admitted(admission))])
    case OpSucceeded(caller, result, keep) =>
      if !IsRunning(s, caller) then s
      else
        var f := s.calls[caller].status.future;
        Answered(s, caller, Returned(Fresh(f, result))).(registry := Succeed(s.registry, s.now, f, result, keep))
    case OpFailed(caller, error) =>
      if !IsRunning(s, caller) then s
      else
        var f := s.calls[caller].status.future;
        Answered(s, caller, Returned(Raised(f, error))).(registry := Fail(s.registry, s.now, f, error))
    case WaiterResumes(caller) =>
      if !IsWaiting(s, caller) then s
      else
        var f := s.calls[caller].status.future;
        (match s.registry.futures[f].state
         case Pending => s
         case Done(result) => Answered(s, caller, Returned(Reused(f, result)))
         case Failed(error) => Answered(s, caller, Returned(ReusedError(f, error))))
    case WaiterCancelled(caller) =>
      if !IsWaiting(s, caller) then s else Answered(s, caller, Returned(Cancelled))
    case Tick(elapsed) => if elapsed < 0.0 then s else s.(now := s.now + elapsed)
  }

  function StatusOf(s: System, caller: nat): Status
    requires caller in s.calls
  {
    s.calls[caller].status
  }

  function Start(capacity: nat, ttl: real, now: real): System {
    System(G.Registry(capacity, ttl, [], []), map[], now)
  }

  function Run(s: System, actions: seq<Action>): System {
    if actions == [] then s else Step(Run(s, actions[..|actions| - 1]), actions[|actions| - 1])
  }

  ghost predicate Reachable(s: System) {
    exists capacity: nat, ttl, now, actions :: capacity > 0 && s == Run(Start(capacity, ttl, now), actions)
  }

  // ---- the invariant

  predicate Asks(future: Future, call: Call) {
    future.compound == call.compound && future.fingerprint == call.fingerprint
  }

  /** What a call's status says about the future it names. */
  ghost predicate CallOk(futures: seq<Future>, caller: nat, call: Call) {
    match call.status
    case Running(f) =>
      f < |futures| && Asks(futures[f], call) && futures[f].owner == caller && futures[f].state.Pending?
    case Waiting(f) => f < |futures| && Asks(futures[f], call)
    case Returned(Fresh(f, result)) =>
      f < |futures| && Asks(futures[f], call) && futures[f].owner == caller && futures[f].state == Done(result)
    case Returned(Raised(f, error)) =>
      f < |futures| && Asks(futures[f], call) && futures[f].owner == caller && futures[f].state == Failed(error)
    case Returned(Reused(f, result)) => f < |futures| && Asks(futures[f], call) && futures[f].state == Done(result)
    case Returned(ReusedError(f, error)) => f < |futures| && Asks(futures[f], call) && futures[f].state == Failed(error)
    case Returned(_) => true
  }

  function OwnerStatus(f: nat, state: FutureState): Status {
    match state
    case Pending => Running(f)
    case Done(result) => Returned(Fresh(f, result))
    case Failed(error) => Returned(Raised(f, error))
  }

  ghost predicate OwnerOk(s: System, f: nat)
    requires f < |s.registry.futures|
  {
    var future := s.registry.futures[f];
    future.owner in s.calls && s.calls[future.owner].status == OwnerStatus(f, future.state)
  }

  ghost predicate Invariant(s: System) {
    && RegistryOk(s.registry)
    && (forall caller <- s.calls :: CallOk(s.registry.futures, caller, s.calls[caller]))
    && (forall f: nat :: f < |s.registry.futures| ==> OwnerOk(s, f))
  }

  lemma EnterGrowsFutures(r: Registry, now: real, caller: nat, compound: Compound, fingerprint: string)
    ensures var (after, admission) := G.Enter(r, now, caller, compound, fingerprint);
            && after.capacity == r.capacity && after.ttl == r.ttl
            && after.futures
            == (if admission.Own? then r.futures + [Future(compound, fingerprint, caller, Pending, now)] else r.futures)
            && (admission.Own? ==> admission.future == |r.futures|)
  {
  }

  lemma EnterKeepsInvariant(s: System, caller: nat, compound: Compound, fingerprint: string)
    requires Invariant(s) && caller !in s.calls
    ensures Invariant(Step(s, Enter(caller, compound, fingerprint)))
  {
    var after := Step(s, Enter(caller, compound, fingerprint));
    EnterKeepsOk(s.registry, s.now, caller, compound, fingerprint);
    EnterGrowsFutures(s.registry, s.now, caller, compound, fingerprint);
    AdmissionMeaning(s.registry, s.now, caller, compound, fingerprint);
    var futures := after.registry.futures;
    var admission := G.Enter(s.registry, s.now, caller, compound, fingerprint).1;
    if admission.Join? {
      var e :| e in s.registry.entries && e.compound == compound && e.fingerprint == fingerprint
               && e.future == admission.future;
      assert EntryOk(s.registry, e);
    }
    forall c <- after.calls ensures CallOk(futures, c, after.calls[c]) {
      if c != caller {
        assert CallOk(s.registry.futures, c, s.calls[c]);
      }
    }
    forall f: nat | f < |futures| ensures OwnerOk(after, f) {
      if f < |s.registry.futures| {
        assert OwnerOk(s, f);
      }
    }
  }

  /** An operation in flight settles its own future and answers its own caller. */
  lemma SettleKeepsCalls(s: System, caller: nat, state: FutureState, after: System)
    requires Invariant(s) && IsRunning(s, caller) && !state.Pending?
    requires var f := s.calls[caller].status.future;
             && after.registry.futures == Settle(s.registry.futures, f, state, s.now)
             && after.calls == s.calls[caller := s.calls[caller].(status := OwnerStatus(f, state))]
    requires RegistryOk(after.registry)
    ensures Invariant(after)
  {
    var f := s.calls[caller].status.future;
    assert CallOk(s.registry.futures, caller, s.calls[caller]);
    forall c <- after.calls ensures CallOk(after.registry.futures, c, after.calls[c]) {
      assert CallOk(s.registry.futures, c, s.calls[c]);
    }
    forall g: nat | g < |after.registry.futures| ensures OwnerOk(after, g) {
      assert OwnerOk(s, g);
    }
  }

  lemma OperationKeepsInvariant(s: System, caller: nat, result: string, keep: bool, error: string)
    requires Invariant(s)
    ensures Invariant(Step(s, OpSucceeded(caller, result, keep)))
    ensures Invariant(Step(s, OpFailed(caller, error)))
  {
    if IsRunning(s, caller) {
      var f := s.calls[caller].status.future;
      assert CallOk(s.registry.futures, caller, s.calls[caller]);
      SucceedKeepsOk(s.registry, s.now, f, result, keep);
      SettleKeepsCalls(s, caller, Done(result), Step(s, OpSucceeded(caller, result, keep)));
      FailKeepsOk(s.registry, s.now, f, error);
      SettleKeepsCalls(s, caller, Failed(error), Step(s, OpFailed(caller, error)));
    }
  }

  lemma WaiterKeepsInvariant(s: System, caller: nat)
    requires Invariant(s)
    ensures Invariant(Step(s, WaiterResumes(caller)))
    ensures Invariant(Step(s, WaiterCancelled(caller)))
  {
    if IsWaiting(s, caller) {
      assert CallOk(s.registry.futures, caller, s.calls[caller]);
      WaiterLeaves(s, caller, Step(s, WaiterResumes(caller)));
      WaiterLeaves(s, caller, Step(s, WaiterCancelled(caller)));
    }
  }

  lemma WaiterLeaves(s: System, caller: nat, after: System)
    requires Invariant(s) && IsWaiting(s, caller)
    requires after == s.(calls := after.calls) && caller in after.calls
    requires after.calls == s.calls[caller := after.calls[caller]]
    requires CallOk(s.registry.futures, caller, after.calls[caller])
    ensures Invariant(after)
  {
    forall f: nat | f < |after.registry.futures| ensures OwnerOk(after, f) {
      assert OwnerOk(s, f);
    }
  }

  lemma StepKeepsInvariant(s: System, a: Action)
    requires Invariant(s)
    ensures Invariant(Step(s, a))
  {
    match a
    case Enter(caller, compound, fingerprint) =>
      if caller !in s.calls {
        EnterKeepsInvariant(s, caller, compound, fingerprint);
      }
    case OpSucceeded(caller, result, keep) => OperationKeepsInvariant(s, caller, result, keep, "");
    case OpFailed(caller, error) => OperationKeepsInvariant(s, caller, "", false, error);
    case WaiterResumes(caller) => WaiterKeepsInvariant(s, caller);
    case WaiterCancelled(caller) => WaiterKeepsInvariant(s, caller);
    case Tick(elapsed) =>
      forall f: nat | f < |s.registry.futures| ensures OwnerOk(Step(s, a), f) {
        assert OwnerOk(s, f);
      }
  }

  lemma {:induction false} RunKeepsInvariant(s: System, actions: seq<Action>)
    requires Invariant(s)
    ensures Invariant(Run(s, actions))
  {
    if actions != [] {
      RunKeepsInvariant(s, actions[..|actions| - 1]);
      StepKeepsInvariant(Run(s, actions[..|actions| - 1]), actions[|actions| - 1]);
    }
  }

  lemma ReachableInvariant(s: System)
    requires Reachable(s)
    ensures Invariant(s)
  {
    var capacity: nat, ttl, now, actions :| capacity > 0 && s == Run(Start(capacity, ttl, now), actions);
    RunKeepsInvariant(Start(capacity, ttl, now), actions);
  }

  // ---- what every reachable system promises

  /** At most one operation is in flight for a principal and key. */
  lemma AtMostOneInFlight(s: System, a: nat, b: nat)
    requires Reachable(s) && a in s.calls && b in s.calls
    requires s.calls[a].status.Running? && s.calls[b].status.Running?
    requires s.calls[a].compound == s.calls[b].compound
    ensures a == b
  {
    ReachableInvariant(s);
    assert CallOk(s.registry.futures, a, s.calls[a]) && CallOk(s.registry.futures, b, s.calls[b]);
    FindsOwn(s.registry, s.calls[a].status.future);
    FindsOwn(s.registry, s.calls[b].status.future);
  }

  /** An entry is in flight exactly while its owner runs, and a running owner finds its own entry. */
  lemma EntryPendingIffOwnerRuns(s: System, e: Entry, caller: nat)
    requires Reachable(s)
    ensures e in s.registry.entries ==>
              && e.future < |s.registry.futures|
              && var future := s.registry.futures[e.future];
                 && future.owner in s.calls
                 && (!Settled(s.registry.futures, e) <==> s.calls[future.owner].status == Running(e.future))
    ensures caller in s.calls && s.calls[caller].status.Running? ==>
              var i := Find(s.registry.entries, s.calls[caller].compound);
              && i < |s.registry.entries|
              && s.registry.entries[i].future == s.calls[caller].status.future
              && s.registry.entries[i].fingerprint == s.calls[caller].fingerprint
  {
    ReachableInvariant(s);
    if e in s.registry.entries {
      assert EntryOk(s.registry, e);
      assert OwnerOk(s, e.future);
    }
    if caller in s.calls && s.calls[caller].status.Running? {
      assert CallOk(s.registry.futures, caller, s.calls[caller]);
      FindsOwn(s.registry, s.calls[caller].status.future);
    }
  }

  /** A reused answer is the very answer its owner got, and the owner asked with the same principal, key and body. */
  lemma ReusedFromTheOwner(s: System, caller: nat)
    requires Reachable(s) && caller in s.calls && s.calls[caller].status.Returned?
    ensures match s.calls[caller].status.outcome
            case Reused(f, result) =>
              exists owner <- s.calls :: owner != caller
                && s.calls[owner] == s.calls[caller].(status := Returned(Fresh(f, result)))
            case ReusedError(f, error) =>
              exists owner <- s.calls :: owner != caller
                && s.calls[owner] == s.calls[caller].(status := Returned(Raised(f, error)))
            case _ => true
  {
    ReachableInvariant(s);
    assert CallOk(s.registry.futures, caller, s.calls[caller]);
    match s.calls[caller].status.outcome
    case Reused(f, _) =>
      var owner := s.registry.futures[f].owner;
      assert OwnerOk(s, f) && CallOk(s.registry.futures, owner, s.calls[owner]);
    case ReusedError(f, _) =>
      var owner := s.registry.futures[f].owner;
      assert OwnerOk(s, f) && CallOk(s.registry.futures, owner, s.calls[owner]);
    case _ =>
  }

  /** Waiters on the same operation all get the same answer as each other and as its owner. */
  lemma CoWaitersAgree(s: System, a: nat, b: nat)
    requires Reachable(s) && a in s.calls && b in s.calls
    requires s.calls[a].status.Returned? && s.calls[b].status.Returned?
    ensures match (s.calls[a].status.outcome, s.calls[b].status.outcome)
            case (Reused(f, x), Reused(g, y)) => f == g ==> x == y
            case (Reused(f, x), Fresh(g, y)) => f == g ==> x == y
            case (ReusedError(f, x), ReusedError(g, y)) => f == g ==> x == y
            case (ReusedError(f, x), Raised(g, y)) => f == g ==> x == y
            case (Reused(f, _), ReusedError(g, _)) => f != g
            case (Reused(f, _), Raised(g, _)) => f != g
            case (ReusedError(f, _), Fresh(g, _)) => f != g
            case _ => true
  {
    ReachableInvariant(s);
    assert CallOk(s.registry.futures, a, s.calls[a]) && CallOk(s.registry.futures, b, s.calls[b]);
  }

  /**
   No waiter is stranded: the operation it waits for has ended, and then the waiter's next step returns
   what its owner got, or the owner still runs that very operation, and any end of it ends the wait.
   */
  lemma NoWaiterIsStranded(s: System, caller: nat, result: string, keep: bool, error: string)
    requires Reachable(s) && caller in s.calls && s.calls[caller].status.Waiting?
    ensures var f := s.calls[caller].status.future;
            && f < |s.registry.futures|
            && var owner := s.registry.futures[f].owner;
               && owner in s.calls && Asks(s.registry.futures[f], s.calls[owner])
               && match s.registry.futures[f].state
                  case Done(x) => StatusOf(Step(s, WaiterResumes(caller)), caller) == Returned(Reused(f, x))
                  case Failed(x) => StatusOf(Step(s, WaiterResumes(caller)), caller) == Returned(ReusedError(f, x))
                  case Pending =>
                    && s.calls[owner].status == Running(f)
                    && StatusOf(Step(Step(s, OpSucceeded(owner, result, keep)), WaiterResumes(caller)), caller)
                       == Returned(Reused(f, result))
                    && StatusOf(Step(Step(s, OpFailed(owner, error)), WaiterResumes(caller)), caller)
                       == Returned(ReusedError(f, error))
  {
    ReachableInvariant(s);
    assert CallOk(s.registry.futures, caller, s.calls[caller]);
    var f := s.calls[caller].status.future;
    var owner := s.registry.futures[f].owner;
    assert OwnerOk(s, f);
    assert CallOk(s.registry.futures, owner, s.calls[owner]);
    if s.registry.futures[f].state.Pending? {
      SuccessWakes(s, caller, owner, f, result, keep);
      FailureWakes(s, caller, owner, f, error);
    }
  }

  lemma SuccessWakes(s: System, caller: nat, owner: nat, f: nat, result: string, keep: bool)
    requires caller in s.calls && owner in s.calls && f < |s.registry.futures|
    requires s.calls[caller].status == Waiting(f) && s.calls[owner].status == Running(f)
    requires s.registry.futures[f].state.Pending?
    ensures StatusOf(Step(Step(s, OpSucceeded(owner, result, keep)), WaiterResumes(caller)), caller)
         == Returned(Reused(f, result))
  {
  }

  lemma FailureWakes(s: System, caller: nat, owner: nat, f: nat, error: string)
    requires caller in s.calls && owner in s.calls && f < |s.registry.futures|
    requires s.calls[caller].status == Waiting(f) && s.calls[owner].status == Running(f)
    requires s.registry.futures[f].state.Pending?
    ensures StatusOf(Step(Step(s, OpFailed(owner, error)), WaiterResumes(caller)), caller)
         == Returned(ReusedError(f, error))
  {
  }

  /** A new call is told the registry is saturated exactly when its key is absent and every slot is in flight. */
  lemma SaturatedExactlyWhenAllInFlight(s: System, caller: nat, compound: Compound, fingerprint: string)
    requires Reachable(s) && caller !in s.calls
    ensures |s.registry.entries| <= s.registry.capacity
    ensures Step(s, Enter(caller, compound, fingerprint)).calls[caller].status == Returned(Refused(Saturated)) <==>
              && |s.registry.entries| == s.registry.capacity
              && forall e <- s.registry.entries :: e.compound != compound && !Settled(s.registry.futures, e)
  {
    ReachableInvariant(s);
    AdmissionMeaning(s.registry, s.now, caller, compound, fingerprint);
  }

  /** An accepted result is held, due to expire one TTL after its completion; any other is forgotten at once. */
  lemma OnlyAcceptedResultsAreHeld(s: System, caller: nat, result: string, keep: bool, error: string)
    requires Reachable(s) && IsRunning(s, caller)
    ensures var f := s.calls[caller].status.future;
            var after := Step(s, OpSucceeded(caller, result, keep)).registry;
            && (Holds(after.entries, f) <==> keep)
            && (forall e <- after.entries :: e.future == f ==>
                  after.futures[f].state == Done(result) && e.expiresAt == s.now + after.ttl)
            && !Holds(Step(s, OpFailed(caller, error)).registry.entries, f)
  {
    ReachableInvariant(s);
    var r := s.registry;
    var f := s.calls[caller].status.future;
    assert CallOk(r.futures, caller, s.calls[caller]);
    FindsOwn(r, f);
    PoppingOwn(r, f);
    if keep {
      var after := Succeed(r, s.now, f, result, keep);
      SucceedKeepsOk(r, s.now, f, result, keep);
      assert after.entries[|after.entries| - 1].future == f;
      forall e <- after.entries | e.future == f ensures e.expiresAt == s.now + r.ttl {
        assert EntryOk(after, e);
      }
    }
  }

  // ---- when an accepted result may be produced again

  /** The step that let go of future f: its TTL had passed, or it was evicted with nothing idle before it. */
  ghost predicate LetGo(s: System, a: Action, f: nat) {
    && a.Enter?
    && f < |s.registry.futures|
    && exists e <- s.registry.entries ::
         && e.future == f && Settled(s.registry.futures, e)
         && (s.now >= s.registry.futures[f].completedAt + s.registry.ttl
             || FairlyEvicted(s.registry.(entries := Purge(s.registry.entries, s.registry.futures, s.now)),
                              a.compound, e))
  }

  lemma SettleKeepsOtherEntries(s: System, caller: nat, result: string, keep: bool, error: string, f: nat)
    requires Invariant(s) && IsRunning(s, caller) && Holds(s.registry.entries, f)
    requires s.calls[caller].status.future != f
    ensures Holds(Step(s, OpSucceeded(caller, result, keep)).registry.entries, f)
    ensures Holds(Step(s, OpFailed(caller, error)).registry.entries, f)
  {
    var r := s.registry;
    var g := s.calls[caller].status.future;
    assert CallOk(r.futures, caller, s.calls[caller]);
    PoppingKeepsOthers(r, g, f);
    var e :| e in Pop(r.entries, r.futures[g].compound) && e.future == f;
    assert e in Succeed(r, s.now, g, result, keep).entries;
  }

  lemma PoppingKeepsOthers(r: Registry, g: nat, f: nat)
    requires RegistryOk(r) && g < |r.futures| && r.futures[g].state.Pending? && g != f && Holds(r.entries, f)
    ensures Holds(Pop(r.entries, r.futures[g].compound), f)
  {
    PoppingOwn(r, g);
    var e :| e in r.entries && e.future == f;
    assert e in Pop(r.entries, r.futures[g].compound);
  }

  lemma StepKeepsOrLetsGo(s: System, a: Action, f: nat)
    requires Invariant(s) && f < |s.registry.futures| && s.registry.futures[f].state.Done?
    ensures var after := Step(s, a).registry;
            && after.ttl == s.registry.ttl
            && f < |after.futures| && after.futures[f] == s.registry.futures[f]
            && (Holds(s.registry.entries, f) ==> Holds(after.entries, f) || LetGo(s, a, f))
  {
    match a
    case Enter(caller, compound, fingerprint) =>
      if caller !in s.calls {
        EnterGrowsFutures(s.registry, s.now, caller, compound, fingerprint);
        if Holds(s.registry.entries, f) && !Holds(Step(s, a).registry.entries, f) {
          var e :| e in s.registry.entries && e.future == f;
          assert EntryOk(s.registry, e);
          EnterRemovesFairly(s.registry, s.now, caller, compound, fingerprint, e);
        }
      }
    case OpSucceeded(caller, result, keep) =>
      if IsRunning(s, caller) {
        assert CallOk(s.registry.futures, caller, s.calls[caller]);
        if Holds(s.registry.entries, f) {
          SettleKeepsOtherEntries(s, caller, result, keep, "", f);
        }
      }
    case OpFailed(caller, error) =>
      if IsRunning(s, caller) {
        assert CallOk(s.registry.futures, caller, s.calls[caller]);
        if Holds(s.registry.entries, f) {
          SettleKeepsOtherEntries(s, caller, "", false, error, f);
        }
      }
    case _ =>
  }

  /** The caller is running the operation of that key. */
  predicate RunsKey(s: System, caller: nat, compound: Compound) {
    caller in s.calls && s.calls[caller].status.Running? && s.calls[caller].compound == compound
  }

  /** While a key's operation runs, no settled entry of that key is held. */
  lemma RunningIsNotHeld(s: System, caller: nat, e: Entry)
    requires Invariant(s) && RunsKey(s, caller, e.compound)
    requires e.future < |s.registry.futures| && s.registry.futures[e.future].compound == e.compound
    requires s.registry.futures[e.future].state.Done?
    ensures !Holds(s.registry.entries, e.future)
  {
    assert CallOk(s.registry.futures, caller, s.calls[caller]);
    FindsOwn(s.registry, s.calls[caller].status.future);
    forall d <- s.registry.entries ensures d.future != e.future {
      assert EntryOk(s.registry, d);
    }
  }

  /** An operation in flight is never purged or evicted: only its own completion ends its entry. */
  lemma InFlightStays(s: System, a: Action, e: Entry)
    requires Reachable(s) && e in s.registry.entries && !Settled(s.registry.futures, e)
    ensures Holds(Step(s, a).registry.entries, e.future)
            || ((a.OpSucceeded? || a.OpFailed?) && a.caller in s.calls
                && s.calls[a.caller].status == Running(e.future))
  {
    ReachableInvariant(s);
    match a
    case Enter(caller, compound, fingerprint) =>
      if caller !in s.calls && !Holds(Step(s, a).registry.entries, e.future) {
        EnterRemovesFairly(s.registry, s.now, caller, compound, fingerprint, e);
      }
    case OpSucceeded(caller, result, keep) =>
      if IsRunning(s, caller) && s.calls[caller].status.future != e.future {
        SettleKeepsOtherEntries(s, caller, result, keep, "", e.future);
      }
    case OpFailed(caller, error) =>
      if IsRunning(s, caller) && s.calls[caller].status.future != e.future {
        SettleKeepsOtherEntries(s, caller, "", false, error, e.future);
      }
    case _ =>
  }
}
