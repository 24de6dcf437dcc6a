/** The client's module variables as an object that the scheduler and the cache update in place. */
module RecoveryClient {
  import opened Wrappers
  import opened R = Recovery

  class Page {
    var authenticated: bool
    var sessionRevision: nat
    var snapshotRevision: nat
    var snapshots: map<string, Cached>
    var snapshotRequests: map<string, Request>
    var issued: nat
    var recoveryPromise: Option<nat>
    var recoverySequence: nat
    var queuedRecovery: Option<string>
    var lastRecoveryKey: Option<string>
    var lastRecoveryAt: int

    ghost function View(): Client
      reads this
    {
      Client(authenticated, sessionRevision, snapshotRevision, snapshots, snapshotRequests, issued,
             recoveryPromise, recoverySequence, queuedRecovery, lastRecoveryKey, lastRecoveryAt)
    }

    constructor ()
      ensures View() == R.Fresh()
    {
      authenticated, sessionRevision, snapshotRevision, issued := false, 0, 0, 0;
      snapshots, snapshotRequests := map[], map[];
      recoveryPromise, recoverySequence, queuedRecovery, lastRecoveryKey, lastRecoveryAt := None, 0, None, None, 0;
    }

    method InvalidateSnapshots()
      modifies this`snapshotRevision, this`snapshots, this`snapshotRequests
      ensures View() == Invalidate(old(View()))
    {
      snapshotRevision := snapshotRevision + 1;
      snapshots := map[];
      snapshotRequests := map[];
    }

    method ScheduleProjectionRecovery(key: string, now: int) returns (verdict: Verdict)
      modifies this
      ensures (View(), verdict) == Schedule(old(View()), key, now)
    {
      if !authenticated {
        return SignedOut;
      }
      if lastRecoveryKey == Some(key) && now - lastRecoveryAt < DUPLICATE_WINDOW_MS {
        return Duplicate;
      }
      if recoveryPromise.Some? {
        queuedRecovery := Some(key);
        return Queued;
      }
      lastRecoveryKey := Some(key);
      lastRecoveryAt := now;
      recoverySequence := recoverySequence + 1;
      InvalidateSnapshots();
      recoveryPromise := Some(recoverySequence);
      return Started(recoverySequence);
    }

    /** The recovery's `finally`. */
    method RecoveryEnds(recoveryId: nat, now: int)
      modifies this
      ensures View() == Finish(old(View()), recoveryId, now)
    {
      if recoverySequence != recoveryId {
        return;
      }
      recoveryPromise := None;
      var queued := queuedRecovery;
      queuedRecovery := None;
      if queued.Some? && authenticated {
        var _ := ScheduleProjectionRecovery(queued.value, now);
      }
    }

    method EnterApp()
      modifies this
      ensures View() == Enter(old(View()))
    {
      authenticated := true;
      InvalidateSnapshots();
    }

    method ResetPrivateState()
      modifies this
      ensures View() == Reset(old(View()))
    {
      sessionRevision := sessionRevision + 1;
      InvalidateSnapshots();
      authenticated := false;
      recoverySequence := recoverySequence + 1;
      recoveryPromise := None;
      queuedRecovery := None;
      lastRecoveryKey := None;
      lastRecoveryAt := 0;
    }

    /** Ends in the cached projection, in the request under way that the caller joins, or in a new request. */
    method LoadSnapshot(mission: string, force: bool) returns (cached: Option<Projection>, request: Option<Request>)
      modifies this`snapshotRequests, this`issued
      ensures View() == Load(old(View()), mission, force)
      ensures cached == if !force && mission in snapshots then Some(snapshots[mission].projection) else None
      ensures request == if cached.Some? then None
                         else if MustFetch(old(View()), mission, force) then Some(NewRequest(old(View()), mission))
                         else Some(old(snapshotRequests)[mission])
    {
      if !force && mission in snapshots {
        return Some(snapshots[mission].projection), None;
      }
      if mission in snapshotRequests && !force {
        return None, Some(snapshotRequests[mission]);
      }
      var pending := Request(issued, mission, snapshotRevision, sessionRevision, authenticated);
      issued := issued + 1;
      snapshotRequests := snapshotRequests[mission := pending];
      return None, Some(pending);
    }

    /** The continuation of a request: its projection, or nothing when it failed or was superseded. */
    method SnapshotArrives(request: Request, reply: Reply) returns (projection: Option<Projection>)
      modifies this`snapshots
      ensures View() == Arrive(old(View()), request, reply)
      ensures projection.Some? <==> !reply.Failure? && Current(old(View()), request)
      ensures projection.Some? ==> projection.value == ProjectionOf(reply)
    {
      if reply.Failure? {
        return None;
      }
      var body := if reply.Answer? then Body(reply.text) else Unavailable;
      if !authenticated || request.snapshotRevision != snapshotRevision || request.sessionRevision != sessionRevision {
        return None;
      }
      snapshots := snapshots[request.mission := Cached(body, request)];
      return Some(body);
    }

    method RequestSettles(request: Request)
      modifies this`snapshotRequests
      ensures View() == Settle(old(View()), request)
    {
      if request.mission in snapshotRequests && snapshotRequests[request.mission] == request {
        snapshotRequests := snapshotRequests - {request.mission};
      }
    }
  }
}
