/** Every run of the client: user, stream and network events in any order, under a clock that never goes back. */
module RecoveryLaws {
  import opened Wrappers
  import opened R = Recovery

  /** A recovery that was started, with the revisions it left behind. */
  datatype Start = Start(key: string, at: int, session: nat, revision: nat, id: nat)

  /** What came of a request. */
  datatype Arrival = Arrival(request: Request, reply: Reply)

  /** The client and the work under way, with the starts, requests and arrivals there have been. */
  datatype System = System(
    client: Client,
    now: int,
    running: set<nat>,
    inFlight: set<Request>,
    settling: set<Request>,
    starts: seq<Start>,
    requested: seq<Request>,
    arrivals: seq<Arrival>)

  datatype Action =
    | Tick(elapsed: nat)
    | SignIn
    | SignOut
    | Ask(key: string)
    | RecoveryEnds(id: nat)
    | LoadSnapshot(mission: string, force: bool)
    | SnapshotArrives(request: Request, reply: Reply)
    | RequestSettles(request: Request)

  function Initial(now: int): System {
    System(R.Fresh(), now, {}, {}, {}, [], [], [])
  }

  predicate Starts(before: Client, after: Client) {
    after.promise.Some? && after.promise != before.promise && after.lastKey.Some?
  }

  /** The system once its client has moved on, with the recovery that started running and on record. */
  function Moved(s: System, after: Client): System {
    if Starts(s.client, after) then
      s.(client := after,
         running := s.running + {after.promise.value},
         starts := s.starts + [Start(after.lastKey.value, s.now, after.sessionRevision, after.snapshotRevision,
                                     after.promise.value)])
    else
      s.(client := after)
  }

  /** A step an action cannot take leaves the system as it is. */
  function Step(s: System, a: Action): System {
    match a
    case Tick(elapsed) => s.(now := s.now + elapsed)
    case SignIn => Moved(s, R.Enter(s.client))
    case SignOut => Moved(s, R.Reset(s.client))
    case Ask(key) => Moved(s, R.Schedule(s.client, key, s.now).0)
    case RecoveryEnds(id) =>
      if id !in s.running then s else Moved(s.(running := s.running - {id}), R.Finish(s.client, id, s.now))
    case LoadSnapshot(mission, force) =>
      var after := R.Load(s.client, mission, force);
      if MustFetch(s.client, mission, force)
      then s.(client := after, inFlight := s.inFlight + {NewRequest(s.client, mission)},
              requested := s.requested + [NewRequest(s.client, mission)])
      else s.(client := after)
    case SnapshotArrives(q, reply) =>
      if q !in s.inFlight then s
      else s.(client := R.Arrive(s.client, q, reply), inFlight := s.inFlight - {q}, settling := s.settling + {q},
              arrivals := s.arrivals + [Arrival(q, reply)])
    case RequestSettles(q) =>
      if q !in s.settling then s else s.(client := R.Settle(s.client, q), settling := s.settling - {q})
  }

  function Run(s: System, actions: seq<Action>): System {
    if actions == [] then s else Step(Run(s, actions[..|actions| - 1]), actions[|actions| - 1])
  }

  ghost predicate Reachable(s: System) {
    exists now, actions :: s == Run(Initial(now), actions)
  }

  // ---- the invariant

  /** The fence: the cache and the requests under way belong to the present revisions and session. */
  ghost predicate FenceOk(c: Client) {
    && (forall m <- c.snapshots :: c.snapshots[m].request.mission == m && Current(c, c.snapshots[m].request)
                                   && c.snapshots[m].request.authenticated)
    && (forall m <- c.requests :: c.requests[m].mission == m && c.requests[m].snapshotRevision == c.snapshotRevision
                                  && c.requests[m].sessionRevision == c.sessionRevision)
  }

  /** A request of the present revisions was issued in the present login state. */
  predicate RequestOk(c: Client, q: Request) {
    && q.id < c.issued
    && q.snapshotRevision <= c.snapshotRevision && q.sessionRevision <= c.sessionRevision
    && (q.snapshotRevision == c.snapshotRevision && q.sessionRevision == c.sessionRevision
        ==> q.authenticated == c.authenticated)
  }

  ghost predicate RequestsOk(s: System) {
    && (forall q <- s.inFlight + s.settling :: RequestOk(s.client, q))
    && (forall m <- s.client.requests :: s.client.requests[m] in s.inFlight + s.settling)
  }

  predicate DrainStarts(c: Client, now: int) {
    c.queued.Some? ==>
      c.promise.Some? && !(c.lastKey == c.queued && now - c.lastAt < DUPLICATE_WINDOW_MS)
  }

  ghost predicate SchedulerOk(s: System) {
    && (s.client.promise.Some? ==> s.client.authenticated && s.client.promise.value == s.client.sequence)
    && DrainStarts(s.client, s.now)
    && (forall id <- s.running :: id <= s.client.sequence)
    && (s.client.sequence in s.running <==> s.client.promise.Some?)
  }

  ghost predicate LastStartOk(s: System) {
    match s.client.lastKey
    case Some(key) =>
      && s.starts != []
      && var last := s.starts[|s.starts| - 1];
         last.key == key && last.at == s.client.lastAt && last.session == s.client.sessionRevision
         && last.id == s.client.sequence
    case None => s.client.promise.None? && (forall start <- s.starts :: start.session < s.client.sessionRevision)
  }

  /** Of two neighbouring starts, the later has a new id and revision, and does not repeat the key too soon. */
  predicate Spaced(a: Start, b: Start) {
    && a.at <= b.at && a.session <= b.session && a.revision < b.revision && a.id < b.id
    && (a.session == b.session && a.key == b.key ==> b.at - a.at >= DUPLICATE_WINDOW_MS)
  }

  ghost predicate StartsOk(s: System) {
    && (forall start <- s.starts :: start.at <= s.now && start.session <= s.client.sessionRevision
                                    && start.revision <= s.client.snapshotRevision && start.id <= s.client.sequence)
    && (forall i :: 0 < i < |s.starts| ==> Spaced(s.starts[i - 1], s.starts[i]))
  }

  ghost predicate Invariant(s: System) {
    FenceOk(s.client) && RequestsOk(s) && SchedulerOk(s) && LastStartOk(s) && StartsOk(s)
  }

  /** Starting a recovery, whether asked for directly or drained from the queue. */
  lemma StartKeepsInvariant(s: System, key: string, was: Client)
    requires Invariant(s) && s.client.authenticated && s.client.promise.None? && s.client.queued.None?
    requires !(s.client.lastKey == Some(key) && s.now - s.client.lastAt < DUPLICATE_WINDOW_MS)
    requires was.promise.Some? ==> was.promise.value <= s.client.sequence
    ensures var after := R.Schedule(s.client, key, s.now).0;
            && Starts(was, after)
            && Invariant(Moved(s.(client := was), after))
  {
    var after := R.Schedule(s.client, key, s.now).0;
    var next := Moved(s.(client := was), after);
    assert after.promise == Some(s.client.sequence + 1);
    assert FenceOk(after);
    assert RequestsOk(next);
    assert SchedulerOk(next);
    assert LastStartOk(next);
    assert s.starts != [] ==> s.starts[|s.starts| - 1] in s.starts;
    assert StartsOk(next);
  }

  lemma AskKeepsInvariant(s: System, key: string)
    requires Invariant(s)
    ensures Invariant(Step(s, Ask(key)))
  {
    if R.Schedule(s.client, key, s.now).1.Started? {
      StartKeepsInvariant(s, key, s.client);
    }
  }

  lemma EndKeepsInvariant(s: System, id: nat)
    requires Invariant(s)
    ensures Invariant(Step(s, RecoveryEnds(id)))
  {
    if id in s.running {
      var c := s.client;
      if c.sequence == id {
        var idle := s.(running := s.running - {id}, client := c.(promise := None, queued := None));
        assert Invariant(idle);
        if c.queued.Some? {
          StartKeepsInvariant(idle, c.queued.value, c);
        }
      }
    }
  }

  lemma SigningKeepsInvariant(s: System)
    requires Invariant(s)
    ensures Invariant(Step(s, SignIn)) && Invariant(Step(s, SignOut))
  {
  }

  lemma LoadKeepsInvariant(s: System, mission: string, force: bool)
    requires Invariant(s)
    ensures Invariant(Step(s, LoadSnapshot(mission, force)))
  {
    if MustFetch(s.client, mission, force) {
      var q, next := NewRequest(s.client, mission), Step(s, LoadSnapshot(mission, force));
      assert next.inFlight + next.settling == s.inFlight + s.settling + {q};
      assert RequestOk(next.client, q);
      assert forall p <- s.inFlight + s.settling :: RequestOk(s.client, p);
      assert RequestsOk(next);
      assert FenceOk(next.client);
    }
  }

  lemma ArriveKeepsInvariant(s: System, q: Request, reply: Reply)
    requires Invariant(s)
    ensures Invariant(Step(s, SnapshotArrives(q, reply)))
  {
    if q in s.inFlight {
      var next := Step(s, SnapshotArrives(q, reply));
      assert next.inFlight + next.settling == s.inFlight + s.settling;
      assert RequestOk(s.client, q);
      assert FenceOk(next.client);
    }
  }

  lemma SettleKeepsInvariant(s: System, q: Request)
    requires Invariant(s)
    ensures Invariant(Step(s, RequestSettles(q)))
  {
    if q in s.settling {
      var next := Step(s, RequestSettles(q));
      assert forall p <- next.inFlight + next.settling :: RequestOk(s.client, p);
      assert forall m <- next.client.requests :: next.client.requests[m] != q;
    }
  }

  lemma StepKeepsInvariant(s: System, a: Action)
    requires Invariant(s)
    ensures Invariant(Step(s, a))
  {
    match a
    case Tick(elapsed) =>
    case SignIn => SigningKeepsInvariant(s);
    case SignOut => SigningKeepsInvariant(s);
    case Ask(key) => AskKeepsInvariant(s, key);
    case RecoveryEnds(id) => EndKeepsInvariant(s, id);
    case LoadSnapshot(mission, force) => LoadKeepsInvariant(s, mission, force);
    case SnapshotArrives(q, reply) => ArriveKeepsInvariant(s, q, reply);
    case RequestSettles(q) => SettleKeepsInvariant(s, q);
  }

  lemma {:induction false} RunKeepsInvariant(s: System, actions: seq<Action>)
    requires Invariant(s)
    ensures Invariant(Run(s, actions))
  {
    if actions != [] {
      RunKeepsInvariant(s, actions[..|actions| - 1]);
      StepKeepsInvariant(Run(s, actions[..|actions| - 1]), actions[|actions| - 1]);
    }
  }

  lemma ReachableOk(s: System)
    requires Reachable(s)
    ensures Invariant(s)
  {
    var now, actions :| s == Run(Initial(now), actions);
    RunKeepsInvariant(Initial(now), actions);
  }

  // ---- what it means for the client

  /**
   In every reachable state a cached snapshot was requested, for its own mission, under the present
   snapshot and session revisions, while signed in, and after every recovery started so far; and a
   caller who joins a request under way joins one of the present revisions.
   */
  lemma CacheIsFenced(s: System, m: string)
    requires Reachable(s)
    ensures m in s.client.snapshots ==>
              var q := s.client.snapshots[m].request;
              && q.mission == m && q.authenticated && Current(s.client, q)
              && (forall start <- s.starts :: q.snapshotRevision >= start.revision)
    ensures m in s.client.requests ==>
              var q := s.client.requests[m];
              && q.mission == m && q.snapshotRevision == s.client.snapshotRevision
              && q.sessionRevision == s.client.sessionRevision && q in s.inFlight + s.settling
  {
    ReachableOk(s);
  }

  /** The recovery promise, when there is one, is that of the newest recovery, which is still running. */
  lemma PromiseIsTheNewestRecovery(s: System)
    requires Reachable(s)
    ensures s.client.promise.Some? <==> s.client.sequence in s.running
    ensures s.client.promise.Some? ==>
              && s.client.promise.value == s.client.sequence && s.client.authenticated
              && s.starts != [] && s.starts[|s.starts| - 1].id == s.client.sequence
  {
    ReachableOk(s);
  }

  /** A recovery that a sign-out superseded changes nothing when it ends. */
  lemma SupersededRecoveryIsInert(s: System, id: nat)
    requires Reachable(s) && id in s.running && s.client.promise != Some(id)
    ensures Step(s, RecoveryEnds(id)) == s.(running := s.running - {id})
  {
    ReachableOk(s);
    assert s.client.sequence != id;
    assert R.Finish(s.client, id, s.now) == s.client;
  }

  /** A request is dropped exactly when the newest start of this session bears its key and is under two seconds old. */
  lemma DroppedExactlyWhenJustStarted(s: System, key: string)
    requires Reachable(s) && s.client.authenticated
    ensures R.Schedule(s.client, key, s.now).1 == Duplicate <==>
              && s.starts != []
              && var last := s.starts[|s.starts| - 1];
                 last.key == key && last.session == s.client.sessionRevision && s.now - last.at < DUPLICATE_WINDOW_MS
  {
    ReachableOk(s);
    if s.starts != [] {
      assert s.starts[|s.starts| - 1] in s.starts;
    }
  }

  /** Neighbouring starts have new ids and revisions and, of one key in one session, are two seconds apart. */
  lemma StartsOfAKeyAreApart(s: System, i: nat)
    requires Reachable(s) && i + 1 < |s.starts|
    ensures Spaced(s.starts[i], s.starts[i + 1])
  {
    ReachableOk(s);
    assert Spaced(s.starts[i + 1 - 1], s.starts[i + 1]);
  }

  lemma {:induction false} StartsAreOrdered(s: System, i: nat, j: nat)
    requires Reachable(s) && i <= j < |s.starts|
    ensures s.starts[i].at <= s.starts[j].at && s.starts[i].session <= s.starts[j].session
    decreases j - i
  {
    if i < j {
      StartsOfAKeyAreApart(s, j - 1);
      StartsAreOrdered(s, i, j - 1);
    }
  }

  /**
   Repeating a key costs two refetches within two seconds only when another key's recovery started in
   between: of two such starts in one session, the later directly follows a start of another key.
   */
  lemma SoonRepeatedOnlyAfterAnotherKey(s: System, i: nat, j: nat)
    requires Reachable(s) && i < j < |s.starts|
    requires s.starts[i].key == s.starts[j].key && s.starts[i].session == s.starts[j].session
    requires s.starts[j].at - s.starts[i].at < DUPLICATE_WINDOW_MS
    ensures i < j - 1 && s.starts[j - 1].key != s.starts[j].key
  {
    StartsAreOrdered(s, i, j - 1);
    StartsOfAKeyAreApart(s, j - 1);
  }

  /** The state after a run in which no recovery is running or queued, and key did not start the last one. */
  ghost predicate IdleAfter(now: int, actions: seq<Action>, s: System, key: string) {
    && s == Run(Initial(now), actions)
    && s.now == now && s.client.authenticated && s.client.sessionRevision == 0
    && s.client.promise == None && s.client.queued == None && s.client.lastKey != Some(key)
  }

  lemma SignedIn(now: int, key: string) returns (actions: seq<Action>, s: System)
    ensures IdleAfter(now, actions, s, key)
    ensures s.starts == [] && s.client.snapshotRevision == 1 && s.client.sequence == 0
  {
    actions := [SignIn];
    s := Step(Initial(now), SignIn);
    assert actions[..0] == [];
  }

  lemma AskedOnce(now: int, actions: seq<Action>, s: System, key: string, other: string)
    returns (longer: seq<Action>, after: System)
    requires IdleAfter(now, actions, s, key) && other != key
    ensures IdleAfter(now, longer, after, other) && Reachable(after)
    ensures var id, revision := s.client.sequence + 1, s.client.snapshotRevision + 1;
            && after.starts == s.starts + [Start(key, now, 0, revision, id)]
            && after.client.sequence == id && after.client.snapshotRevision == revision
  {
    var asked := actions + [Ask(key)];
    longer := asked + [RecoveryEnds(s.client.sequence + 1)];
    assert asked[..|actions|] == actions && longer[..|asked|] == asked;
    after := Run(Initial(now), longer);
  }

  /** That does happen: two keys that alternate start a recovery each time, at one and the same instant. */
  lemma AlternatingKeysStartAtOnce(a: string, b: string, now: int) returns (s: System)
    requires a != b
    ensures Reachable(s) && s.client.authenticated
    ensures s.starts == [Start(a, now, 0, 2, 1), Start(b, now, 0, 3, 2), Start(a, now, 0, 4, 3)]
  {
    var none, s0 := SignedIn(now, a);
    var once, s1 := AskedOnce(now, none, s0, a, b);
    var twice, s2 := AskedOnce(now, once, s1, b, a);
    var _, s3 := AskedOnce(now, twice, s2, a, b);
    s := s3;
  }

  // ---- a queued request is served

  /** The key of the newest request that the actions put in the queue. */
  function LatestQueued(s: System, actions: seq<Action>): Option<string> {
    if actions == [] then s.client.queued
    else
      var n := |actions| - 1;
      var before := Run(s, actions[..n]);
      if actions[n].Ask? && R.Schedule(before.client, actions[n].key, before.now).1 == Queued
      then Some(actions[n].key) else LatestQueued(s, actions[..n])
  }

  predicate Undisturbed(actions: seq<Action>, id: nat) {
    forall a <- actions :: a != SignOut && a != RecoveryEnds(id)
  }

  lemma WaitStep(s: System, a: Action, id: nat)
    requires Invariant(s) && s.client.promise == Some(id) && a != SignOut && a != RecoveryEnds(id)
    ensures var next := Step(s, a);
            && next.client.promise == Some(id) && next.starts == s.starts
            && next.client.queued == if a.Ask? && R.Schedule(s.client, a.key, s.now).1 == Queued then Some(a.key)
                                     else s.client.queued
  {
  }

  lemma {:induction false} Wait(s: System, actions: seq<Action>, id: nat)
    requires Invariant(s) && s.client.promise == Some(id) && Undisturbed(actions, id)
    ensures var next := Run(s, actions);
            && Invariant(next) && next.client.promise == Some(id) && next.starts == s.starts
            && next.client.queued == LatestQueued(s, actions)
            && (s.client.queued.Some? ==> next.client.queued.Some?)
  {
    RunKeepsInvariant(s, actions);
    if actions != [] {
      var n := |actions| - 1;
      assert forall a <- actions[..n] :: a in actions;
      assert actions[n] in actions;
      Wait(s, actions[..n], id);
      WaitStep(Run(s, actions[..n]), actions[n], id);
    }
  }

  /** One recovery more was started, for that key, under a new revision; the queue and the cache are empty. */
  predicate StartedOneMore(before: System, after: System, key: string) {
    var id := before.client.sequence + 1;
    && after.starts == before.starts + [Start(key, before.now, before.client.sessionRevision,
                                              before.client.snapshotRevision + 1, id)]
    && after.client.promise == Some(id) && after.client.queued == None && after.client.snapshots == map[]
  }

  /**
   A request queued behind a recovery is never lost: however long it waits, and whatever else is asked
   for meanwhile, unless the user signs out the end of that recovery starts another one, and only one,
   at once, for the newest request in the queue.
   */
  lemma QueuedRequestIsServed(s: System, key: string, meanwhile: seq<Action>)
    requires Reachable(s) && R.Schedule(s.client, key, s.now).1 == Queued
    requires Undisturbed(meanwhile, s.client.sequence)
    ensures var queued := Step(s, Ask(key));
            var before := Run(queued, meanwhile);
            var after := Step(before, RecoveryEnds(s.client.sequence));
            var wanted := LatestQueued(queued, meanwhile);
            wanted.Some? && before.starts == s.starts && StartedOneMore(before, after, wanted.value)
  {
    ReachableOk(s);
    AskQueues(s, key);
    ServedAfterWaiting(Step(s, Ask(key)), meanwhile, s.client.sequence);
  }

  lemma AskQueues(s: System, key: string)
    requires Invariant(s) && R.Schedule(s.client, key, s.now).1 == Queued
    ensures var queued := Step(s, Ask(key));
            && Invariant(queued) && queued.starts == s.starts
            && queued.client.promise == Some(s.client.sequence) && queued.client.queued == Some(key)
  {
    StepKeepsInvariant(s, Ask(key));
  }

  lemma ServedAfterWaiting(queued: System, meanwhile: seq<Action>, id: nat)
    requires Invariant(queued) && queued.client.promise == Some(id) && queued.client.queued.Some?
    requires Undisturbed(meanwhile, id)
    ensures var before := Run(queued, meanwhile);
            var after := Step(before, RecoveryEnds(id));
            var wanted := LatestQueued(queued, meanwhile);
            wanted.Some? && before.starts == queued.starts && StartedOneMore(before, after, wanted.value)
  {
    Wait(queued, meanwhile, id);
    DrainStep(Run(queued, meanwhile), id);
  }

  lemma DrainStep(s: System, id: nat)
    requires Invariant(s) && s.client.promise == Some(id) && s.client.queued.Some?
    ensures StartedOneMore(s, Step(s, RecoveryEnds(id)), s.client.queued.value)
  {
    assert id in s.running;
  }
}
