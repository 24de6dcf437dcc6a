/**
 The bounded, expiring session registry as a value: what each call makes of it, and what it answers.

 Every call but the revoking ones first drops what has expired, `get` only when it is given a name and
 the token check only when both its arguments are.

 Issuing makes room by evicting the session that was issued first, and draws names until one is free.
 */
module Sessions {
  import opened Wrappers

  datatype Session = Session(id: string, csrf: string, issuedAt: real, expiresAt: real)

  /** The sessions are in insertion order, as the dictionary keeps them. */
  datatype Store = Store(ttl: nat, maxSessions: nat, sessions: seq<Session>)

  datatype Call =
    | Issue(draws: seq<string>, csrf: string)
    | Get(id: Option<string>)
    | CheckCsrf(id: Option<string>, candidate: Option<string>)
    | Revoke(id: Option<string>)
    | RevokeAll
    | Len

  datatype Answer =
    | Given(session: Session)
    | Found(found: Option<Session>)
    | Flag(flag: bool)
    | Count(count: nat)
    | Nothing

  function Purge(sessions: seq<Session>, now: real): seq<Session> {
    if sessions == [] then []
    else if sessions[0].expiresAt <= now then Purge(sessions[1..], now)
    else [sessions[0]] + Purge(sessions[1..], now)
  }

  function Pop(sessions: seq<Session>, id: string): seq<Session> {
    if sessions == [] then []
    else if sessions[0].id == id then sessions[1..]
    else [sessions[0]] + Pop(sessions[1..], id)
  }

  function Lookup(sessions: seq<Session>, id: string): Option<Session> {
    if sessions == [] then None
    else if sessions[0].id == id then Some(sessions[0])
    else Lookup(sessions[1..], id)
  }

  /** The first session of least issue time. */
  function Oldest(sessions: seq<Session>): (i: nat)
    requires sessions != []
    ensures i < |sessions|
    ensures forall j :: 0 <= j < |sessions| ==> sessions[i].issuedAt <= sessions[j].issuedAt
    ensures forall j :: 0 <= j < i ==> sessions[i].issuedAt < sessions[j].issuedAt
  {
    var last := |sessions| - 1;
    if last == 0 then 0
    else
      var i := Oldest(sessions[..last]);
      assert forall j :: 0 <= j < last ==> sessions[..last][j] == sessions[j];
      if sessions[last].issuedAt < sessions[i].issuedAt then last else i
  }

  lemma {:induction false} PopShrinks(sessions: seq<Session>, id: string)
    ensures |Pop(sessions, id)| == if Lookup(sessions, id).Some? then |sessions| - 1 else |sessions|
    ensures Lookup(sessions, id).Some? <==> exists i :: 0 <= i < |sessions| && sessions[i].id == id
  {
    if sessions != [] {
      PopShrinks(sessions[1..], id);
      if Lookup(sessions[1..], id).Some? {
        var i :| 0 <= i < |sessions[1..]| && sessions[1..][i].id == id;
        assert sessions[i + 1].id == id;
      }
    }
  }

  function MakeRoom(sessions: seq<Session>, maxSessions: nat): seq<Session>
    requires maxSessions >= 1
    decreases |sessions|
  {
    if |sessions| < maxSessions then sessions
    else
      var oldest := sessions[Oldest(sessions)];
      PopShrinks(sessions, oldest.id);
      MakeRoom(Pop(sessions, oldest.id), maxSessions)
  }

  function Ids(sessions: seq<Session>): set<string> {
    set s <- sessions :: s.id
  }

  /** The position of the first draw that no stored session bears. */
  function FirstFresh(draws: seq<string>, taken: set<string>): nat {
    if draws == [] || draws[0] !in taken then 0 else 1 + FirstFresh(draws[1..], taken)
  }

  /** What remains when a new session is about to be added. */
  function Kept(store: Store, now: real): seq<Session>
    requires store.maxSessions >= 1
  {
    MakeRoom(Purge(store.sessions, now), store.maxSessions)
  }

  /** The random source yields non-empty identifiers, and a fresh one sooner or later. */
  predicate CanDraw(draws: seq<string>, taken: set<string>) {
    "" !in draws && FirstFresh(draws, taken) < |draws|
  }

  /** A session identifier that is absent or empty is never looked up. */
  predicate Named(id: Option<string>) {
    id.Some? && id.value != ""
  }

  function Find(sessions: seq<Session>, id: Option<string>): Option<Session> {
    if Named(id) then Lookup(sessions, id.value) else None
  }

  predicate CsrfHolds(session: Option<Session>, candidate: Option<string>) {
    Named(candidate) && session.Some? && session.value.csrf == candidate.value
  }

  function NewSession(store: Store, now: real, draws: seq<string>, csrf: string): Session
    requires store.maxSessions >= 1 && CanDraw(draws, Ids(Kept(store, now)))
  {
    Session(draws[FirstFresh(draws, Ids(Kept(store, now)))], csrf, now, now + store.ttl as real)
  }

  /** What a call leaves in the store, and what it answers. */
  function Perform(store: Store, now: real, call: Call): (Store, Answer)
    requires store.maxSessions >= 1
  {
    var live := Purge(store.sessions, now);
    match call
    case Issue(draws, csrf) =>
      if !CanDraw(draws, Ids(Kept(store, now))) then (store, Nothing)
      else
        var session := NewSession(store, now, draws, csrf);
        (store.(sessions := Kept(store, now) + [session]), Given(session))
    case Get(id) => (if Named(id) then store.(sessions := live) else store, Found(Find(live, id)))
    case CheckCsrf(id, candidate) =>
      (if Named(id) && Named(candidate) then store.(sessions := live) else store,
       Flag(CsrfHolds(Find(live, id), candidate)))
    case Revoke(id) =>
      (if Named(id) then store.(sessions := Pop(store.sessions, id.value)) else store,
       Flag(Find(store.sessions, id).Some?))
    case RevokeAll => (store.(sessions := []), Count(|store.sessions|))
    case Len => (store.(sessions := live), Count(|live|))
  }

  ghost predicate IdsDistinct(sessions: seq<Session>) {
    forall i, j :: 0 <= i < j < |sessions| ==> sessions[i].id != sessions[j].id
  }

  ghost predicate StoreOk(store: Store) {
    && store.ttl >= 1 && store.maxSessions >= 1
    && |store.sessions| <= store.maxSessions
    && IdsDistinct(store.sessions)
    && (forall s <- store.sessions :: s.id != "")
  }

  // ---- purging

  lemma {:induction false} PurgeMembers(sessions: seq<Session>, now: real)
    ensures |Purge(sessions, now)| <= |sessions|
    ensures forall s :: s in Purge(sessions, now) <==> s in sessions && s.expiresAt > now
  {
    if sessions != [] {
      PurgeMembers(sessions[1..], now);
      assert sessions == [sessions[0]] + sessions[1..];
    }
  }

  lemma {:induction false} PurgeDistinct(sessions: seq<Session>, now: real)
    requires IdsDistinct(sessions)
    ensures IdsDistinct(Purge(sessions, now))
  {
    if sessions != [] {
      PurgeDistinct(sessions[1..], now);
      PurgeMembers(sessions[1..], now);
      var rest := Purge(sessions[1..], now);
      forall i | 0 <= i < |rest| ensures rest[i].id != sessions[0].id {
        assert rest[i] in sessions[1..];
      }
    }
  }

  lemma {:induction false} PurgeAll(sessions: seq<Session>, now: real)
    requires forall s <- sessions :: s.expiresAt > now
    ensures Purge(sessions, now) == sessions
  {
    if sessions != [] {
      assert sessions == [sessions[0]] + sessions[1..];
      PurgeAll(sessions[1..], now);
    }
  }

  /** Purging late does what purging early and again would have done. */
  lemma {:induction false} PurgeTwice(sessions: seq<Session>, early: real, late: real)
    requires early <= late
    ensures Purge(Purge(sessions, early), late) == Purge(sessions, late)
  {
    if sessions != [] {
      PurgeTwice(sessions[1..], early, late);
      if sessions[0].expiresAt > early {
        var purged := Purge(sessions, early);
        assert purged[0] == sessions[0] && purged[1..] == Purge(sessions[1..], early);
      }
    }
  }

  lemma {:induction false} PurgeConcat(a: seq<Session>, b: seq<Session>, now: real)
    ensures Purge(a + b, now) == Purge(a, now) + Purge(b, now)
  {
    if a == [] {
      assert a + b == b;
    } else {
      var head := if a[0].expiresAt <= now then [] else [a[0]];
      assert (a + b)[0] == a[0] && (a + b)[1..] == a[1..] + b;
      PurgeConcat(a[1..], b, now);
      assert head + Purge(a[1..], now) + Purge(b, now) == head + (Purge(a[1..], now) + Purge(b, now));
    }
  }

  // ---- looking up and popping

  lemma {:induction false} LookupMeaning(sessions: seq<Session>, id: string, s: Session)
    requires IdsDistinct(sessions)
    ensures Lookup(sessions, id) == Some(s) <==> s in sessions && s.id == id
  {
    if sessions != [] {
      LookupMeaning(sessions[1..], id, s);
      assert s in sessions <==> s == sessions[0] || s in sessions[1..];
    }
  }

  lemma DistinctCons(head: Session, tail: seq<Session>)
    ensures IdsDistinct([head] + tail) <==> IdsDistinct(tail) && forall s <- tail :: s.id != head.id
  {
    var all := [head] + tail;
    assert all[1..] == tail;
    if IdsDistinct(all) {
      forall i, j | 0 <= i < j < |tail| ensures tail[i].id != tail[j].id {
        assert all[i + 1].id != all[j + 1].id;
      }
      forall i | 0 <= i < |tail| ensures tail[i].id != head.id {
        assert all[0].id != all[i + 1].id;
      }
    }
  }

  lemma {:induction false} PopMembers(sessions: seq<Session>, id: string)
    requires IdsDistinct(sessions)
    ensures IdsDistinct(Pop(sessions, id))
    ensures forall s :: s in Pop(sessions, id) <==> s in sessions && s.id != id
  {
    if sessions != [] {
      var head, tail := sessions[0], sessions[1..];
      assert sessions == [head] + tail;
      DistinctCons(head, tail);
      if head.id != id {
        PopMembers(tail, id);
        DistinctCons(head, Pop(tail, id));
      }
    }
  }

  lemma {:induction false} PurgePop(sessions: seq<Session>, id: string, now: real)
    requires IdsDistinct(sessions)
    ensures Purge(Pop(sessions, id), now) == Pop(Purge(sessions, now), id)
  {
    if sessions != [] {
      PurgePop(sessions[1..], id, now);
      if sessions[0].id == id && sessions[0].expiresAt <= now {
        PurgeMembers(sessions[1..], now);
        PopAbsent(Purge(sessions[1..], now), id);
      }
    }
  }

  lemma {:induction false} PopAbsent(sessions: seq<Session>, id: string)
    requires forall s <- sessions :: s.id != id
    ensures Pop(sessions, id) == sessions && Lookup(sessions, id) == None
  {
    if sessions != [] {
      assert sessions == [sessions[0]] + sessions[1..];
      PopAbsent(sessions[1..], id);
    }
  }

  // ---- making room

  /** One session too many costs the oldest its place, and no other. */
  lemma MakeRoomEvicts(sessions: seq<Session>, maxSessions: nat)
    requires maxSessions >= 1 && |sessions| <= maxSessions && IdsDistinct(sessions)
    ensures var kept := MakeRoom(sessions, maxSessions);
            && |kept| < maxSessions && IdsDistinct(kept)
            && kept == (if |sessions| < maxSessions then sessions else Pop(sessions, sessions[Oldest(sessions)].id))
            && (forall s <- kept :: s in sessions)
  {
    if |sessions| == maxSessions {
      var oldest := sessions[Oldest(sessions)];
      PopShrinks(sessions, oldest.id);
      PopMembers(sessions, oldest.id);
    }
  }

  lemma {:induction false} FirstFreshMeaning(draws: seq<string>, taken: set<string>)
    ensures FirstFresh(draws, taken) <= |draws|
    ensures forall i :: 0 <= i < FirstFresh(draws, taken) ==> draws[i] in taken
    ensures FirstFresh(draws, taken) < |draws| ==> draws[FirstFresh(draws, taken)] !in taken
  {
    if draws != [] && draws[0] in taken {
      FirstFreshMeaning(draws[1..], taken);
    }
  }

  /** Every call keeps the registry within its bound, its identifiers distinct and non-empty. */
  lemma IssueKeepsOk(store: Store, now: real, draws: seq<string>, csrf: string)
    requires StoreOk(store) && CanDraw(draws, Ids(Kept(store, now)))
    ensures StoreOk(store.(sessions := Kept(store, now) + [NewSession(store, now, draws, csrf)]))
  {
    PurgeMembers(store.sessions, now);
    PurgeDistinct(store.sessions, now);
    var kept := Kept(store, now);
    MakeRoomEvicts(Purge(store.sessions, now), store.maxSessions);
    FirstFreshMeaning(draws, Ids(kept));
    assert forall i :: 0 <= i < |kept| ==> kept[i] in kept && kept[i].id in Ids(kept);
  }

  lemma IssueMeaning(store: Store, now: real, draws: seq<string>, csrf: string)
    requires StoreOk(store) && CanDraw(draws, Ids(Kept(store, now)))
    ensures var session := NewSession(store, now, draws, csrf);
            var after := store.(sessions := Kept(store, now) + [session]);
            Perform(store, now, Issue(draws, csrf)) == (after, Given(session)) && StoreOk(after)
  {
    IssueKeepsOk(store, now, draws, csrf);
  }

  lemma PerformKeepsOk(store: Store, now: real, call: Call)
    requires StoreOk(store)
    ensures StoreOk(Perform(store, now, call).0)
  {
    PurgeMembers(store.sessions, now);
    PurgeDistinct(store.sessions, now);
    match call
    case Issue(draws, csrf) =>
      if CanDraw(draws, Ids(Kept(store, now))) {
        IssueKeepsOk(store, now, draws, csrf);
      }
    case Revoke(id) =>
      if Named(id) {
        PopShrinks(store.sessions, id.value);
        PopMembers(store.sessions, id.value);
      }
    case _ =>
  }
}
