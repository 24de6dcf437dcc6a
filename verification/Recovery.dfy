/**
 The browser client's projection cache and its recovery scheduler.

 Whatever makes the client distrust its projections schedules a recovery, which drops the snapshot
 cache and refetches.  One recovery runs at a time; a request made meanwhile is kept in a one-place
 queue; a request that repeats the newest start within two seconds is a duplicate.
 */
module Recovery {
  import opened Wrappers

  const DUPLICATE_WINDOW_MS := 2000

  /** A snapshot request, with the revisions and the login state it was issued under. */
  datatype Request = Request(id: nat, mission: string, snapshotRevision: nat, sessionRevision: nat, authenticated: bool)

  datatype Projection = Body(text: string) | Unavailable

  /** A cached projection, beside the request that fetched it. */
  datatype Cached = Cached(projection: Projection, request: Request)

  /** What the network made of a request. */
  datatype Reply = Answer(text: string) | Absent | Failure

  datatype Client = Client(
    authenticated: bool,
    sessionRevision: nat,
    snapshotRevision: nat,
    snapshots: map<string, Cached>,
    requests: map<string, Request>,
    issued: nat,
    promise: Option<nat>,
    sequence: nat,
    queued: Option<string>,
    lastKey: Option<string>,
    lastAt: int)

  datatype Verdict = SignedOut | Duplicate | Queued | Started(id: nat)

  function Fresh(): Client {
    Client(false, 0, 0, map[], map[], 0, None, 0, None, None, 0)
  }

  function Invalidate(c: Client): Client {
    c.(snapshotRevision := c.snapshotRevision + 1, snapshots := map[], requests := map[])
  }

  function Schedule(c: Client, key: string, now: int): (Client, Verdict) {
    if !c.authenticated then (c, SignedOut)
    else if c.lastKey == Some(key) && now - c.lastAt < DUPLICATE_WINDOW_MS then (c, Duplicate)
    else if c.promise.Some? then (c.(queued := Some(key)), Queued)
    else
      var id := c.sequence + 1;
      (Invalidate(c).(lastKey := Some(key), lastAt := now, sequence := id, promise := Some(id)), Started(id))
  }

  /** A recovery has run its course: nothing if it was superseded, else the queue is drained. */
  function Finish(c: Client, id: nat, now: int): Client {
    if c.sequence != id then c
    else
      var idle := c.(promise := None, queued := None);
      if c.queued.Some? && c.authenticated then Schedule(idle, c.queued.value, now).0 else idle
  }

  function Enter(c: Client): Client {
    Invalidate(c.(authenticated := true))
  }

  function Reset(c: Client): Client {
    Invalidate(c.(sessionRevision := c.sessionRevision + 1))
    .(authenticated := false, sequence := c.sequence + 1, promise := None, queued := None, lastKey := None, lastAt := 0)
  }

  function NewRequest(c: Client, mission: string): Request {
    Request(c.issued, mission, c.snapshotRevision, c.sessionRevision, c.authenticated)
  }

  /** Is a fetch needed, or does the cache or a request under way serve it? */
  predicate MustFetch(c: Client, mission: string, force: bool) {
    force || (mission !in c.snapshots && mission !in c.requests)
  }

  function Load(c: Client, mission: string, force: bool): Client {
    if !MustFetch(c, mission, force) then c
    else c.(requests := c.requests[mission := NewRequest(c, mission)], issued := c.issued + 1)
  }

  predicate Current(c: Client, q: Request) {
    c.authenticated && q.snapshotRevision == c.snapshotRevision && q.sessionRevision == c.sessionRevision
  }

  function ProjectionOf(reply: Reply): Projection
    requires !reply.Failure?
  {
    if reply.Answer? then Body(reply.text) else Unavailable
  }

  function Arrive(c: Client, q: Request, reply: Reply): Client {
    if reply.Failure? || !Current(c, q) then c
    else c.(snapshots := c.snapshots[q.mission := Cached(ProjectionOf(reply), q)])
  }

  function Settle(c: Client, q: Request): Client {
    if q.mission in c.requests && c.requests[q.mission] == q then c.(requests := c.requests - {q.mission}) else c
  }
}
