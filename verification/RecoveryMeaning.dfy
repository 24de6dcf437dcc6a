/** What the client's cache, its requests and its recoveries hold, in terms of what was asked and what arrived. */
module RecoveryMeaning {
  import opened Wrappers
  import opened R = Recovery
  import opened RecoveryLaws

  /** Issued under the present revisions. */
  predicate Fits(c: Client, q: Request) {
    q.snapshotRevision == c.snapshotRevision && q.sessionRevision == c.sessionRevision
  }

  /** An arrival that the cache may hold for the mission: no failure, to a request of the present revisions. */
  predicate Serves(c: Client, a: Arrival, mission: string) {
    c.authenticated && !a.reply.Failure? && a.request.mission == mission && Fits(c, a.request)
  }

  predicate Asks(c: Client, q: Request, mission: string) {
    q.mission == mission && Fits(c, q)
  }

  function NewestAnswer(arrivals: seq<Arrival>, c: Client, mission: string): Option<Arrival> {
    if arrivals == [] then None
    else
      var n := |arrivals| - 1;
      if Serves(c, arrivals[n], mission) then Some(arrivals[n]) else NewestAnswer(arrivals[..n], c, mission)
  }

  function NewestRequest(requested: seq<Request>, c: Client, mission: string): Option<Request> {
    if requested == [] then None
    else
      var n := |requested| - 1;
      if Asks(c, requested[n], mission) then Some(requested[n])
      else NewestRequest(requested[..n], c, mission)
  }

  /** What is cached for a mission is what this arrival said. */
  predicate Holds(c: Client, mission: string, a: Arrival) {
    && mission in c.snapshots && c.snapshots[mission].request == a.request
    && (a.reply.Answer? ==> c.snapshots[mission].projection == Body(a.reply.text))
    && (a.reply.Absent? ==> c.snapshots[mission].projection == Unavailable)
  }

  predicate UnderWay(s: System, q: Request) {
    q in s.inFlight || q in s.settling
  }

  ghost predicate CacheOk(s: System, mission: string) {
    match NewestAnswer(s.arrivals, s.client, mission)
    case None => mission !in s.client.snapshots
    case Some(a) => Holds(s.client, mission, a)
  }

  ghost predicate JoinOk(s: System, mission: string) {
    match NewestRequest(s.requested, s.client, mission)
    case None => mission !in s.client.requests
    case Some(q) =>
      if UnderWay(s, q) then mission in s.client.requests && s.client.requests[mission] == q
      else mission !in s.client.requests
  }

  ghost predicate PastOk(s: System) {
    && (forall a <- s.arrivals :: a.request.snapshotRevision <= s.client.snapshotRevision)
    && (forall q <- s.requested :: q.snapshotRevision <= s.client.snapshotRevision && q.id < s.client.issued)
    && (forall q <- s.inFlight + s.settling :: q in s.requested)
    && s.inFlight !! s.settling
  }

  ghost predicate History(s: System) {
    PastOk(s) && forall mission :: CacheOk(s, mission) && JoinOk(s, mission)
  }

  // ---- every step keeps it

  predicate SameRevisions(c: Client, d: Client) {
    c.authenticated == d.authenticated && c.snapshotRevision == d.snapshotRevision
    && c.sessionRevision == d.sessionRevision
  }

  lemma {:induction false} AnswerUnmoved(arrivals: seq<Arrival>, c: Client, d: Client, mission: string)
    requires SameRevisions(c, d)
    ensures NewestAnswer(arrivals, c, mission) == NewestAnswer(arrivals, d, mission)
  {
    if arrivals != [] {
      AnswerUnmoved(arrivals[..|arrivals| - 1], c, d, mission);
    }
  }

  lemma {:induction false} RequestUnmoved(requested: seq<Request>, c: Client, d: Client, mission: string)
    requires SameRevisions(c, d)
    ensures NewestRequest(requested, c, mission) == NewestRequest(requested, d, mission)
  {
    if requested != [] {
      RequestUnmoved(requested[..|requested| - 1], c, d, mission);
    }
  }

  lemma {:induction false} NoAnswerYet(arrivals: seq<Arrival>, c: Client, mission: string)
    requires forall a <- arrivals :: a.request.snapshotRevision < c.snapshotRevision
    ensures NewestAnswer(arrivals, c, mission) == None
  {
    if arrivals != [] {
      assert arrivals[|arrivals| - 1] in arrivals;
      NoAnswerYet(arrivals[..|arrivals| - 1], c, mission);
    }
  }

  lemma {:induction false} NoRequestYet(requested: seq<Request>, c: Client, mission: string)
    requires forall q <- requested :: q.snapshotRevision < c.snapshotRevision
    ensures NewestRequest(requested, c, mission) == None
  {
    if requested != [] {
      assert requested[|requested| - 1] in requested;
      NoRequestYet(requested[..|requested| - 1], c, mission);
    }
  }

  /** A step that leaves cache, requests and revisions alone. */
  predicate Untouched(s: System, t: System) {
    && SameRevisions(s.client, t.client) && t.client.issued == s.client.issued
    && t.client.snapshots == s.client.snapshots && t.client.requests == s.client.requests
    && t.arrivals == s.arrivals && t.requested == s.requested
    && t.inFlight == s.inFlight && t.settling == s.settling
  }

  /** A step that drops them and moves to the next revision. */
  predicate Wiped(s: System, t: System) {
    && t.client.snapshotRevision == s.client.snapshotRevision + 1 && t.client.issued == s.client.issued
    && t.client.snapshots == map[] && t.client.requests == map[]
    && t.arrivals == s.arrivals && t.requested == s.requested
    && t.inFlight == s.inFlight && t.settling == s.settling
  }

  lemma UntouchedKeeps(s: System, t: System)
    requires History(s) && Untouched(s, t)
    ensures History(t)
  {
    forall mission ensures CacheOk(t, mission) && JoinOk(t, mission) {
      AnswerUnmoved(s.arrivals, s.client, t.client, mission);
      RequestUnmoved(s.requested, s.client, t.client, mission);
      assert CacheOk(s, mission) && JoinOk(s, mission);
    }
  }

  lemma WipedKeeps(s: System, t: System)
    requires History(s) && Wiped(s, t)
    ensures History(t)
  {
    forall mission ensures CacheOk(t, mission) && JoinOk(t, mission) {
      NoAnswerYet(t.arrivals, t.client, mission);
      NoRequestYet(t.requested, t.client, mission);
    }
  }

  lemma AskingSteps(s: System, key: string)
    ensures Untouched(s, Step(s, Ask(key))) || Wiped(s, Step(s, Ask(key)))
  {
  }

  lemma EndingSteps(s: System, id: nat)
    ensures Untouched(s, Step(s, RecoveryEnds(id))) || Wiped(s, Step(s, RecoveryEnds(id)))
  {
    if id in s.running && s.client.sequence == id && s.client.queued.Some? {
      var idle := s.client.(promise := None, queued := None);
      assert Untouched(s, s.(client := idle));
      assert Untouched(s, s.(client := R.Schedule(idle, s.client.queued.value, s.now).0))
          || Wiped(s, s.(client := R.Schedule(idle, s.client.queued.value, s.now).0));
    }
  }

  lemma SigningSteps(s: System)
    ensures Wiped(s, Step(s, SignIn)) && Wiped(s, Step(s, SignOut))
  {
  }

  lemma SchedulingSteps(s: System, a: Action)
    requires a.Tick? || a.SignIn? || a.SignOut? || a.Ask? || a.RecoveryEnds?
    ensures Untouched(s, Step(s, a)) || Wiped(s, Step(s, a))
  {
    match a
    case Ask(key) => AskingSteps(s, key);
    case RecoveryEnds(id) => EndingSteps(s, id);
    case Tick(elapsed) => assert Step(s, a) == s.(now := s.now + elapsed);
    case _ => SigningSteps(s);
  }

  lemma LoadKeepsHistory(s: System, mission: string, force: bool)
    requires Invariant(s) && History(s)
    ensures History(Step(s, LoadSnapshot(mission, force)))
  {
    if MustFetch(s.client, mission, force) {
      var q, t := NewRequest(s.client, mission), Step(s, LoadSnapshot(mission, force));
      forall m ensures CacheOk(t, m) && JoinOk(t, m) {
        assert CacheOk(s, m) && JoinOk(s, m);
        AnswerUnmoved(s.arrivals, s.client, t.client, m);
        RequestUnmoved(s.requested, s.client, t.client, m);
        assert (s.requested + [q])[..|s.requested|] == s.requested;
        assert UnderWay(t, q);
        NewestWasRequested(s.requested, s.client, m);
      }
    }
  }

  lemma {:induction false} NewestWasRequested(requested: seq<Request>, c: Client, mission: string)
    ensures NewestRequest(requested, c, mission).Some? ==> NewestRequest(requested, c, mission).value in requested
  {
    if requested != [] {
      NewestWasRequested(requested[..|requested| - 1], c, mission);
    }
  }

  lemma ArriveKeepsHistory(s: System, q: Request, reply: Reply)
    requires Invariant(s) && History(s)
    ensures History(Step(s, SnapshotArrives(q, reply)))
  {
    if q in s.inFlight {
      var t := Step(s, SnapshotArrives(q, reply));
      assert q in s.inFlight + s.settling;
      forall m ensures CacheOk(t, m) && JoinOk(t, m) {
        assert CacheOk(s, m) && JoinOk(s, m);
        AnswerUnmoved(s.arrivals, s.client, t.client, m);
        RequestUnmoved(s.requested, s.client, t.client, m);
        assert t.arrivals[..|s.arrivals|] == s.arrivals;
        assert forall r :: UnderWay(t, r) <==> UnderWay(s, r);
      }
      assert t.inFlight + t.settling == s.inFlight + s.settling;
    }
  }

  lemma SettleKeepsHistory(s: System, q: Request)
    requires Invariant(s) && History(s)
    ensures History(Step(s, RequestSettles(q)))
  {
    if q in s.settling {
      var t := Step(s, RequestSettles(q));
      forall m ensures CacheOk(t, m) && JoinOk(t, m) {
        assert CacheOk(s, m) && JoinOk(s, m);
        AnswerUnmoved(s.arrivals, s.client, t.client, m);
        RequestUnmoved(s.requested, s.client, t.client, m);
      }
    }
  }

  lemma StepKeepsHistory(s: System, a: Action)
    requires Invariant(s) && History(s)
    ensures History(Step(s, a))
  {
    match a
    case LoadSnapshot(mission, force) => LoadKeepsHistory(s, mission, force);
    case SnapshotArrives(q, reply) => ArriveKeepsHistory(s, q, reply);
    case RequestSettles(q) => SettleKeepsHistory(s, q);
    case _ =>
      SchedulingSteps(s, a);
      if Untouched(s, Step(s, a)) {
        UntouchedKeeps(s, Step(s, a));
      } else {
        WipedKeeps(s, Step(s, a));
      }
  }

  lemma {:induction false} RunKeepsHistory(now: int, actions: seq<Action>)
    ensures Invariant(Run(Initial(now), actions)) && History(Run(Initial(now), actions))
  {
    if actions != [] {
      var n := |actions| - 1;
      RunKeepsHistory(now, actions[..n]);
      StepKeepsInvariant(Run(Initial(now), actions[..n]), actions[n]);
      StepKeepsHistory(Run(Initial(now), actions[..n]), actions[n]);
    }
  }

  lemma ReachableHistory(s: System)
    requires Reachable(s)
    ensures Invariant(s) && History(s)
  {
    var now, actions :| s == Run(Initial(now), actions);
    RunKeepsHistory(now, actions);
  }

  // ---- what it means for those who load snapshots

  ghost predicate LastAnswer(arrivals: seq<Arrival>, c: Client, mission: string, i: nat) {
    && i < |arrivals| && Serves(c, arrivals[i], mission)
    && forall j :: i < j < |arrivals| ==> !Serves(c, arrivals[j], mission)
  }

  ghost predicate LastRequest(requested: seq<Request>, c: Client, mission: string, i: nat) {
    && i < |requested| && Asks(c, requested[i], mission)
    && forall j :: i < j < |requested| ==> !Asks(c, requested[j], mission)
  }

  lemma {:induction false} AnswerFound(arrivals: seq<Arrival>, c: Client, mission: string)
    ensures NewestAnswer(arrivals, c, mission).Some? <==> exists a <- arrivals :: Serves(c, a, mission)
  {
    if arrivals != [] {
      var n := |arrivals| - 1;
      AnswerFound(arrivals[..n], c, mission);
      assert forall a :: a in arrivals <==> a in arrivals[..n] || a == arrivals[n];
    }
  }

  lemma {:induction false} AnswerIsLast(arrivals: seq<Arrival>, c: Client, mission: string, i: nat)
    requires LastAnswer(arrivals, c, mission, i)
    ensures NewestAnswer(arrivals, c, mission) == Some(arrivals[i])
  {
    var n := |arrivals| - 1;
    if i < n {
      AnswerIsLast(arrivals[..n], c, mission, i);
    }
  }

  lemma {:induction false} RequestFound(requested: seq<Request>, c: Client, mission: string)
    ensures NewestRequest(requested, c, mission).Some? <==> exists i: nat :: LastRequest(requested, c, mission, i)
  {
    if requested != [] {
      var n := |requested| - 1;
      if Asks(c, requested[n], mission) {
        assert LastRequest(requested, c, mission, n);
      } else {
        RequestFound(requested[..n], c, mission);
        if i: nat :| LastRequest(requested[..n], c, mission, i) {
          assert LastRequest(requested, c, mission, i);
        }
        if i: nat :| LastRequest(requested, c, mission, i) {
          assert LastRequest(requested[..n], c, mission, i);
        }
      }
    }
  }

  lemma {:induction false} RequestIsLast(requested: seq<Request>, c: Client, mission: string, i: nat)
    requires LastRequest(requested, c, mission, i)
    ensures NewestRequest(requested, c, mission) == Some(requested[i])
  {
    var n := |requested| - 1;
    if i < n {
      RequestIsLast(requested[..n], c, mission, i);
    }
  }

  /**
   In every reachable state the cache holds a snapshot of a mission exactly when the user is signed in and an
   answer to a request of the present revisions has come, and then it holds what the last such answer said:
   the text, or that the mission is unavailable when it was not found.  A failed request leaves nothing.
   */
  lemma CacheHoldsTheNewestAnswer(s: System, mission: string)
    requires Reachable(s)
    ensures mission in s.client.snapshots <==> exists a <- s.arrivals :: Serves(s.client, a, mission)
    ensures forall i: nat :: LastAnswer(s.arrivals, s.client, mission, i) ==> Holds(s.client, mission, s.arrivals[i])
  {
    ReachableHistory(s);
    assert CacheOk(s, mission);
    AnswerFound(s.arrivals, s.client, mission);
    forall i: nat | LastAnswer(s.arrivals, s.client, mission, i)
      ensures Holds(s.client, mission, s.arrivals[i])
    {
      AnswerIsLast(s.arrivals, s.client, mission, i);
    }
  }

  /** A caller joins exactly the last request for the mission under the present revisions, while it is under way. */
  lemma JoinedIsTheNewestRequest(s: System, mission: string)
    requires Reachable(s)
    ensures mission in s.client.requests <==>
              exists i: nat :: LastRequest(s.requested, s.client, mission, i) && UnderWay(s, s.requested[i])
    ensures forall i: nat :: LastRequest(s.requested, s.client, mission, i) && mission in s.client.requests ==>
              s.client.requests[mission] == s.requested[i]
  {
    ReachableHistory(s);
    assert JoinOk(s, mission);
    RequestFound(s.requested, s.client, mission);
    forall i: nat | LastRequest(s.requested, s.client, mission, i)
      ensures NewestRequest(s.requested, s.client, mission) == Some(s.requested[i])
    {
      RequestIsLast(s.requested, s.client, mission, i);
    }
  }

  /** An answer, or a request under way, is there for whoever loads the mission's snapshot. */
  ghost predicate Served(s: System, mission: string) {
    || (exists a <- s.arrivals :: Serves(s.client, a, mission))
    || (exists i: nat :: LastRequest(s.requested, s.client, mission, i) && UnderWay(s, s.requested[i]))
  }

  lemma ServedMeaning(s: System, mission: string)
    requires Reachable(s)
    ensures Served(s, mission) <==> mission in s.client.snapshots || mission in s.client.requests
  {
    CacheHoldsTheNewestAnswer(s, mission);
    JoinedIsTheNewestRequest(s, mission);
  }

  /** A request never made before, for this mission, under the present revisions and login state. */
  predicate NewFetch(s: System, next: System, mission: string) {
    && |next.requested| == |s.requested| + 1 && next.requested[..|s.requested|] == s.requested
    && var q := next.requested[|s.requested|];
       && q !in s.requested && q.mission == mission && Fits(s.client, q)
       && q.authenticated == s.client.authenticated && next.inFlight == s.inFlight + {q}
  }

  /**
   Loading a snapshot sends a new request exactly when it is forced, or when neither an answer nor a request
   under way serves it; otherwise nothing is sent.  Either way the cache is left alone.
   */
  lemma FetchedExactlyWhenUnserved(s: System, mission: string, force: bool)
    requires Reachable(s)
    ensures var next := Step(s, LoadSnapshot(mission, force));
            && next.client.snapshots == s.client.snapshots
            && if force || !Served(s, mission) then NewFetch(s, next, mission) else next == s
  {
    ReachableHistory(s);
    ServedMeaning(s, mission);
    var q := NewRequest(s.client, mission);
    assert (s.requested + [q])[..|s.requested|] == s.requested;
  }

  // ---- what it means for those who ask for a recovery

  /** The last recovery started bears this key, belongs to this session, and is under two seconds old. */
  predicate JustStarted(s: System, key: string) {
    s.starts != []
    && var last := s.starts[|s.starts| - 1];
       last.key == key && last.session == s.client.sessionRevision && s.now - last.at < 2000
  }

  /** The last recovery started belongs to this session and is still running. */
  predicate Recovering(s: System) {
    s.starts != []
    && var last := s.starts[|s.starts| - 1];
       last.session == s.client.sessionRevision && last.id in s.running
  }

  lemma RecoveringIsPromised(s: System)
    requires Invariant(s)
    ensures Recovering(s) <==> s.client.promise.Some?
  {
    if s.starts != [] {
      assert s.starts[|s.starts| - 1] in s.starts;
    }
  }

  /**
   What asking for a recovery does, in every reachable state: nothing when signed out or when its key just
   started one; while one runs, it is kept as the next, in place of any kept before; and otherwise one starts
   at once, under a new revision, with an empty cache.
   */
  lemma AskMeaning(s: System, key: string)
    requires Reachable(s)
    ensures var next := Step(s, Ask(key));
            if !s.client.authenticated || JustStarted(s, key) then next == s
            else if Recovering(s) then next == s.(client := s.client.(queued := Some(key)))
            else StartedOneMore(s, next, key) && next.client.requests == map[] && Recovering(next)
  {
    ReachableOk(s);
    if s.client.authenticated {
      DroppedExactlyWhenJustStarted(s, key);
    }
    RecoveringIsPromised(s);
    StepKeepsInvariant(s, Ask(key));
    RecoveringIsPromised(Step(s, Ask(key)));
  }

  /** A recovery that ends with nothing kept starts no other, and leaves none running in this session. */
  lemma EndWithoutQueue(s: System, id: nat)
    requires Reachable(s) && id in s.running && s.client.queued.None?
    ensures var next := Step(s, RecoveryEnds(id));
            next.starts == s.starts && next.running == s.running - {id}
            && (Recovering(next) <==> Recovering(s) && s.starts[|s.starts| - 1].id != id)
            && next.client.snapshots == s.client.snapshots && next.client.requests == s.client.requests
  {
    ReachableOk(s);
    RecoveringIsPromised(s);
    StepKeepsInvariant(s, RecoveryEnds(id));
    RecoveringIsPromised(Step(s, RecoveryEnds(id)));
  }

  /** The last of the run's sign-ins and sign-outs is a sign-in. */
  predicate LastSignedIn(actions: seq<Action>) {
    actions != []
    && var n := |actions| - 1;
       actions[n].SignIn? || (!actions[n].SignOut? && LastSignedIn(actions[..n]))
  }

  lemma OnlySigningSigns(s: System, a: Action)
    ensures Step(s, a).client.authenticated == (a.SignIn? || (!a.SignOut? && s.client.authenticated))
  {
    match a
    case RecoveryEnds(id) => EndingSteps(s, id);
    case _ =>
  }

  lemma {:induction false} SignedInExactlyAfterSignIn(now: int, actions: seq<Action>)
    ensures Run(Initial(now), actions).client.authenticated <==> LastSignedIn(actions)
  {
    if actions != [] {
      var n := |actions| - 1;
      SignedInExactlyAfterSignIn(now, actions[..n]);
      OnlySigningSigns(Run(Initial(now), actions[..n]), actions[n]);
    }
  }

  /**
   Signing out forgets everything at once: the cache, the requests others could join, the recovery and the
   one kept behind it.  No request made so far is of the present revisions any longer, so that none of their
   answers will be cached, and no recovery started so far makes a later one a duplicate.
   */
  lemma SignOutForgets(s: System, q: Request, key: string)
    requires Reachable(s) && q in s.requested
    ensures var next := Step(s, SignOut);
            && !next.client.authenticated && next.client.snapshots == map[] && next.client.requests == map[]
            && !Recovering(next) && next.client.queued.None? && !JustStarted(next, key)
            && !Fits(next.client, q)
  {
    ReachableHistory(s);
    StepKeepsInvariant(s, SignOut);
    RecoveringIsPromised(Step(s, SignOut));
    if s.starts != [] {
      assert s.starts[|s.starts| - 1] in s.starts;
    }
  }
}
