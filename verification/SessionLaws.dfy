/** The lazily purged registry, over every run under a clock that never goes back, against two references. */
module SessionLaws {
  import opened Wrappers
  import opened Sessions

  /** A session that has expired keeps the fate it had; it no longer counts. */
  datatype Fate = Standing | Revoked | Evicted

  datatype Record = Record(session: Session, fate: Fate)

  /** The registry, the clock, and the record of every session ever issued. */
  datatype System = System(store: Store, now: real, history: seq<Record>)

  datatype Action = Tick(elapsed: real) | Do(call: Call)

  predicate IsCurrent(r: Record, now: real) {
    r.fate == Standing && r.session.expiresAt > now
  }

  /** The sessions issued, not revoked, not evicted and not expired. */
  function Current(history: seq<Record>, now: real): seq<Session> {
    if history == [] then []
    else (if IsCurrent(history[0], now) then [history[0].session] else []) + Current(history[1..], now)
  }

  /** The fate befalls the current session of that identifier. */
  function Fated(history: seq<Record>, id: string, now: real, fate: Fate): seq<Record> {
    seq(|history|, i requires 0 <= i < |history| =>
      if IsCurrent(history[i], now) && history[i].session.id == id then history[i].(fate := fate) else history[i])
  }

  function AllRevoked(history: seq<Record>, now: real): seq<Record> {
    seq(|history|, i requires 0 <= i < |history| =>
      if IsCurrent(history[i], now) then history[i].(fate := Revoked) else history[i])
  }

  /** The registry makes room by evicting the oldest of the sessions that have not expired. */
  function Victim(store: Store, now: real): Option<string> {
    var live := Purge(store.sessions, now);
    if live == [] || |live| < store.maxSessions then None else Some(live[Oldest(live)].id)
  }

  function Recorded(s: System, call: Call, answer: Answer): seq<Record> {
    match call
    case Issue(_, _) =>
      if !answer.Given? then s.history
      else
        var victim := Victim(s.store, s.now);
        (if victim.Some? then Fated(s.history, victim.value, s.now, Evicted) else s.history)
        + [Record(answer.session, Standing)]
    case Revoke(id) => if Named(id) then Fated(s.history, id.value, s.now, Revoked) else s.history
    case RevokeAll => AllRevoked(s.history, s.now)
    case _ => s.history
  }

  function Step(s: System, a: Action): System
    requires s.store.maxSessions >= 1
  {
    match a
    case Tick(elapsed) => if elapsed < 0.0 then s else s.(now := s.now + elapsed)
    case Do(call) =>
      var (store, answer) := Perform(s.store, s.now, call);
      System(store, s.now, Recorded(s, call, answer))
  }

  ghost predicate Invariant(s: System) {
    StoreOk(s.store) && Current(s.history, s.now) == Purge(s.store.sessions, s.now)
  }

  lemma StepKeepsLimits(s: System, a: Action)
    requires s.store.maxSessions >= 1
    ensures Step(s, a).store.maxSessions == s.store.maxSessions && Step(s, a).store.ttl == s.store.ttl
  {
  }

  function Run(s: System, actions: seq<Action>): (after: System)
    requires s.store.maxSessions >= 1
    ensures after.store.maxSessions == s.store.maxSessions
  {
    if actions == [] then s
    else
      var before := Run(s, actions[..|actions| - 1]);
      StepKeepsLimits(before, actions[|actions| - 1]);
      Step(before, actions[|actions| - 1])
  }

  function Initial(ttl: nat, maxSessions: nat, now: real): System {
    System(Store(ttl, maxSessions, []), now, [])
  }

  ghost predicate Reachable(s: System) {
    exists ttl: nat, maxSessions: nat, now, actions ::
      ttl >= 1 && maxSessions >= 1 && s == Run(Initial(ttl, maxSessions, now), actions)
  }

  // ---- the record and the registry agree

  lemma {:induction false} CurrentMembers(history: seq<Record>, now: real, x: Session)
    ensures x in Current(history, now) <==> Record(x, Standing) in history && x.expiresAt > now
  {
    if history != [] {
      CurrentMembers(history[1..], now, x);
      var r := Record(x, Standing);
      assert r in history <==> history[0] == r || r in history[1..];
    }
  }

  lemma {:induction false} CurrentSnoc(history: seq<Record>, r: Record, now: real)
    ensures Current(history + [r], now) == Current(history, now) + if IsCurrent(r, now) then [r.session] else []
  {
    if history == [] {
      assert history + [r] == [r];
    } else {
      var head := if IsCurrent(history[0], now) then [history[0].session] else [];
      var last := if IsCurrent(r, now) then [r.session] else [];
      assert (history + [r])[0] == history[0] && (history + [r])[1..] == history[1..] + [r];
      CurrentSnoc(history[1..], r, now);
      assert head + Current(history[1..], now) + last == head + (Current(history[1..], now) + last);
    }
  }

  lemma {:induction false} CurrentLater(history: seq<Record>, now: real, later: real)
    requires now <= later
    ensures Current(history, later) == Purge(Current(history, now), later)
  {
    if history != [] {
      CurrentLater(history[1..], now, later);
      if IsCurrent(history[0], now) {
        assert Current(history, now)[1..] == Current(history[1..], now);
      } else {
        assert Current(history, now) == Current(history[1..], now);
        assert Current(history, later) == Current(history[1..], later);
      }
    }
  }

  lemma {:induction false} CurrentFated(history: seq<Record>, id: string, now: real, fate: Fate)
    requires IdsDistinct(Current(history, now)) && fate != Standing
    ensures Current(Fated(history, id, now, fate), now) == Pop(Current(history, now), id)
  {
    if history != [] {
      var head, rest := history[0], Current(history[1..], now);
      var fated := Fated(history, id, now, fate);
      assert fated[1..] == Fated(history[1..], id, now, fate);
      if IsCurrent(head, now) {
        assert Current(history, now) == [head.session] + rest;
        DistinctCons(head.session, rest);
        CurrentFated(history[1..], id, now, fate);
        if head.session.id == id {
          PopAbsent(rest, id);
        } else {
          assert fated[0] == head;
        }
      } else {
        assert Current(history, now) == rest && fated[0] == head;
        CurrentFated(history[1..], id, now, fate);
      }
    }
  }

  lemma {:induction false} CurrentAllRevoked(history: seq<Record>, now: real)
    ensures Current(AllRevoked(history, now), now) == []
  {
    if history != [] {
      assert AllRevoked(history, now)[1..] == AllRevoked(history[1..], now);
      CurrentAllRevoked(history[1..], now);
    }
  }

  /** What is live after a session was issued: those kept, and the new one. */
  lemma IssueLive(store: Store, now: real, draws: seq<string>, csrf: string)
    requires StoreOk(store) && CanDraw(draws, Ids(Kept(store, now)))
    ensures var live := Purge(store.sessions, now);
            var kept := match Victim(store, now) case None => live case Some(id) => Pop(live, id);
            && Kept(store, now) == kept && |kept| < store.maxSessions
            && Purge(Perform(store, now, Issue(draws, csrf)).0.sessions, now)
            == kept + [NewSession(store, now, draws, csrf)]
  {
    PurgeMembers(store.sessions, now);
    PurgeDistinct(store.sessions, now);
    MakeRoomEvicts(Purge(store.sessions, now), store.maxSessions);
    PurgeAfterIssue(store, now, NewSession(store, now, draws, csrf));
  }

  lemma IssueKeepsInvariant(s: System, draws: seq<string>, csrf: string)
    requires Invariant(s)
    ensures Invariant(Step(s, Do(Issue(draws, csrf))))
  {
    PerformKeepsOk(s.store, s.now, Issue(draws, csrf));
    if CanDraw(draws, Ids(Kept(s.store, s.now))) {
      var session, victim := NewSession(s.store, s.now, draws, csrf), Victim(s.store, s.now);
      IssueLive(s.store, s.now, draws, csrf);
      var fated := if victim.Some? then Fated(s.history, victim.value, s.now, Evicted) else s.history;
      if victim.Some? {
        PurgeDistinct(s.store.sessions, s.now);
        CurrentFated(s.history, victim.value, s.now, Evicted);
      }
      CurrentSnoc(fated, Record(session, Standing), s.now);
    }
  }

  lemma StepKeepsInvariant(s: System, a: Action)
    requires Invariant(s)
    ensures Invariant(Step(s, a))
  {
    match a
    case Tick(elapsed) =>
      if elapsed >= 0.0 {
        CurrentLater(s.history, s.now, s.now + elapsed);
        PurgeTwice(s.store.sessions, s.now, s.now + elapsed);
      }
    case Do(call) =>
      PerformKeepsOk(s.store, s.now, call);
      PurgeTwice(s.store.sessions, s.now, s.now);
      match call {
        case Issue(draws, csrf) => IssueKeepsInvariant(s, draws, csrf);
        case Revoke(id) =>
          if Named(id) {
            PurgeDistinct(s.store.sessions, s.now);
            CurrentFated(s.history, id.value, s.now, Revoked);
            PurgePop(s.store.sessions, id.value, s.now);
          }
        case RevokeAll => CurrentAllRevoked(s.history, s.now);
        case _ =>
      }
  }

  lemma {:induction false} RunKeepsInvariant(s: System, actions: seq<Action>)
    requires Invariant(s)
    ensures Invariant(Run(s, actions))
  {
    if actions != [] {
      RunKeepsInvariant(s, actions[..|actions| - 1]);
      StepKeepsInvariant(Run(s, actions[..|actions| - 1]), actions[|actions| - 1]);
    }
  }

  lemma ReachableOk(s: System)
    requires Reachable(s)
    ensures Invariant(s)
  {
    var ttl: nat, maxSessions: nat, now, actions :|
      ttl >= 1 && maxSessions >= 1 && s == Run(Initial(ttl, maxSessions, now), actions);
    RunKeepsInvariant(Initial(ttl, maxSessions, now), actions);
  }

  /** `get` finds a session exactly when it was issued under that name, and is not revoked, evicted or expired. */
  lemma GetFindsExactlyTheCurrent(s: System, id: string, x: Session)
    requires Reachable(s)
    ensures Perform(s.store, s.now, Get(Some(id))).1 == Found(Some(x)) <==>
              Record(x, Standing) in s.history && x.expiresAt > s.now && x.id == id
  {
    ReachableOk(s);
    PurgeMembers(s.store.sessions, s.now);
    PurgeDistinct(s.store.sessions, s.now);
    LookupMeaning(Purge(s.store.sessions, s.now), id, x);
    CurrentMembers(s.history, s.now, x);
  }

  /** A CSRF token is accepted exactly when it is that of the current session of that name. */
  lemma CsrfHoldsExactlyForTheCurrent(s: System, id: string, candidate: string)
    requires Reachable(s)
    ensures Perform(s.store, s.now, CheckCsrf(Some(id), Some(candidate))).1 == Flag(true) <==>
              candidate != "" && exists x: Session ::
                Record(x, Standing) in s.history && x.expiresAt > s.now && x.id == id && x.csrf == candidate
  {
    var found := Find(Purge(s.store.sessions, s.now), Some(id));
    if found.Some? {
      GetFindsExactlyTheCurrent(s, id, found.value);
    }
    if x: Session :| Record(x, Standing) in s.history && x.expiresAt > s.now && x.id == id && x.csrf == candidate {
      GetFindsExactlyTheCurrent(s, id, x);
    }
  }

  /** The registry never holds more than its bound, expired sessions included, and counts the current ones. */
  lemma SizeIsBounded(s: System)
    requires Reachable(s)
    ensures |s.store.sessions| <= s.store.maxSessions
    ensures Perform(s.store, s.now, Len).1 == Count(|Current(s.history, s.now)|)
  {
    ReachableOk(s);
    LenCounts(s.store, s.now);
  }

  lemma LenCounts(store: Store, now: real)
    requires store.maxSessions >= 1
    ensures Perform(store, now, Len).1 == Count(|Purge(store.sessions, now)|)
  {
  }

  /** The current sessions stand in the order in which they were issued. */
  lemma {:induction false} CurrentInOrder(history: seq<Record>, now: real, i: nat, j: nat) returns (a: nat, b: nat)
    requires i < j < |history| && IsCurrent(history[i], now) && IsCurrent(history[j], now)
    ensures a < b < |Current(history, now)|
    ensures Current(history, now)[a] == history[i].session && Current(history, now)[b] == history[j].session
  {
    var skipped := if IsCurrent(history[0], now) then 1 else 0;
    if i == 0 {
      CurrentMembers(history[1..], now, history[j].session);
      assert history[1..][j - 1] == Record(history[j].session, Standing);
      var rest := Current(history[1..], now);
      var k :| 0 <= k < |rest| && rest[k] == history[j].session;
      a, b := 0, k + 1;
    } else {
      a, b := CurrentInOrder(history[1..], now, i - 1, j - 1);
      a, b := a + skipped, b + skipped;
    }
  }

  /** Of the current sessions, none issued earlier in the run was as old. */
  ghost predicate FirstOfTheOldest(s: System, i: nat)
    requires i < |s.history|
  {
    forall j: nat :: j < i && IsCurrent(s.history[j], s.now) ==>
      s.history[i].session.issuedAt < s.history[j].session.issuedAt
  }

  lemma OldestIsFirst(s: System, i: nat)
    requires IdsDistinct(Current(s.history, s.now)) && Current(s.history, s.now) != []
    requires i < |s.history| && IsCurrent(s.history[i], s.now)
    requires var live := Current(s.history, s.now); s.history[i].session == live[Oldest(live)]
    ensures FirstOfTheOldest(s, i)
  {
    var live := Current(s.history, s.now);
    forall j: nat | j < i && IsCurrent(s.history[j], s.now)
      ensures s.history[i].session.issuedAt < s.history[j].session.issuedAt
    {
      var a, b := CurrentInOrder(s.history, s.now, j, i);
      assert b == Oldest(live) by {
        assert live[b].id == live[Oldest(live)].id;
      }
    }
  }

  /**
   Issuing evicts a session only when as many as the bound allows are current; the session evicted is
   then one of those, none of them was issued at an earlier time, and of those issued at that time it is the first.
   */
  lemma EvictsTheOldestOnlyWhenFull(s: System, draws: seq<string>, csrf: string, i: nat)
    requires Reachable(s) && i < |s.history|
    ensures var after, current := Step(s, Do(Issue(draws, csrf))), Current(s.history, s.now);
            && i < |after.history|
            && (after.history[i] != s.history[i] ==>
                  && after.history[i] == s.history[i].(fate := Evicted)
                  && |current| == s.store.maxSessions && s.history[i].session in current
                  && FirstOfTheOldest(s, i)
                  && forall y <- current :: s.history[i].session.issuedAt <= y.issuedAt)
  {
    ReachableOk(s);
    PurgeMembers(s.store.sessions, s.now);
    var live, after := Purge(s.store.sessions, s.now), Step(s, Do(Issue(draws, csrf)));
    if after.history[i] != s.history[i] {
      PurgeDistinct(s.store.sessions, s.now);
      CurrentMembers(s.history, s.now, s.history[i].session);
      assert s.history[i] == Record(s.history[i].session, Standing);
      LookupMeaning(live, s.history[i].session.id, s.history[i].session);
      LookupMeaning(live, s.history[i].session.id, live[Oldest(live)]);
      OldestIsFirst(s, i);
    }
  }

  /**
   Issuing always adds a session under a name that no other current session bears, and keeps the rest when
   there is room.
   */
  lemma IssueAddsOneCurrentSession(s: System, draws: seq<string>, csrf: string)
    requires Reachable(s)
    ensures var (store, answer) := Perform(s.store, s.now, Issue(draws, csrf));
            var before, after := Current(s.history, s.now), Current(Step(s, Do(Issue(draws, csrf))).history, s.now);
            answer.Given? ==>
              && after != [] && after[|after| - 1] == answer.session
              && answer.session.csrf == csrf && answer.session.id in draws
              && answer.session.issuedAt == s.now && answer.session.expiresAt == s.now + s.store.ttl as real
              && IdsDistinct(after)
              && |after| == (if |before| < s.store.maxSessions then |before| + 1 else s.store.maxSessions)
              && (|before| < s.store.maxSessions ==> after == before + [answer.session])
  {
    ReachableOk(s);
    StepKeepsInvariant(s, Do(Issue(draws, csrf)));
    if CanDraw(draws, Ids(Kept(s.store, s.now))) {
      IssueLive(s.store, s.now, draws, csrf);
      PurgeDistinct(Perform(s.store, s.now, Issue(draws, csrf)).0.sessions, s.now);
      PurgeMembers(s.store.sessions, s.now);
      var live := Purge(s.store.sessions, s.now);
      if |live| == s.store.maxSessions {
        PopShrinks(live, live[Oldest(live)].id);
      }
    }
  }

  /** Whenever some draw is no current session's name, a session is given, under the first draw still free. */
  lemma IssueGivesTheFirstFreeDraw(s: System, draws: seq<string>, csrf: string)
    requires Reachable(s) && "" !in draws
    ensures var answer := Perform(s.store, s.now, Issue(draws, csrf)).1;
            var current, after := Current(s.history, s.now), Current(Step(s, Do(Issue(draws, csrf))).history, s.now);
            && (answer.Given? || (answer.Nothing? && forall d <- draws :: d in Ids(current)))
            && (answer.Given? ==>
                  && after != []
                  && exists k :: 0 <= k < |draws| && draws[k] == answer.session.id
                       && forall i :: 0 <= i < k ==> draws[i] in Ids(after[..|after| - 1]))
  {
    ReachableOk(s);
    PurgeMembers(s.store.sessions, s.now);
    PurgeDistinct(s.store.sessions, s.now);
    MakeRoomEvicts(Purge(s.store.sessions, s.now), s.store.maxSessions);
    var kept := Kept(s.store, s.now);
    var k := FirstFresh(draws, Ids(kept));
    FirstFreshMeaning(draws, Ids(kept));
    if k < |draws| {
      StepKeepsInvariant(s, Do(Issue(draws, csrf)));
      IssueLive(s.store, s.now, draws, csrf);
      assert (kept + [NewSession(s.store, s.now, draws, csrf)])[..|kept|] == kept;
    } else {
      forall d <- draws ensures d in Ids(Current(s.history, s.now)) {
        assert d in Ids(kept);
      }
    }
  }

  // ---- what is stored, expired or not

  /** Whatever is stored was issued, and neither revoked nor evicted while it was current. */
  ghost predicate StoredStand(s: System) {
    forall x <- s.store.sessions :: Record(x, Standing) in s.history
  }

  lemma FatedKeepsOthers(history: seq<Record>, id: string, now: real, fate: Fate, x: Session)
    requires Record(x, Standing) in history && x.id != id
    ensures Record(x, Standing) in Fated(history, id, now, fate)
  {
    var i :| 0 <= i < |history| && history[i] == Record(x, Standing);
    assert Fated(history, id, now, fate)[i] == history[i];
  }

  lemma IssueKeepsStanding(s: System, draws: seq<string>, csrf: string)
    requires Invariant(s) && StoredStand(s)
    ensures StoredStand(Step(s, Do(Issue(draws, csrf))))
  {
    if CanDraw(draws, Ids(Kept(s.store, s.now))) {
      PurgeMembers(s.store.sessions, s.now);
      PurgeDistinct(s.store.sessions, s.now);
      var live, victim := Purge(s.store.sessions, s.now), Victim(s.store, s.now);
      MakeRoomEvicts(live, s.store.maxSessions);
      if victim.Some? {
        PopMembers(live, victim.value);
        forall x <- Kept(s.store, s.now) ensures Record(x, Standing) in Fated(s.history, victim.value, s.now, Evicted) {
          FatedKeepsOthers(s.history, victim.value, s.now, Evicted, x);
        }
      }
    }
  }

  lemma StepKeepsStanding(s: System, a: Action)
    requires Invariant(s) && StoredStand(s)
    ensures StoredStand(Step(s, a))
  {
    PurgeMembers(s.store.sessions, s.now);
    match a
    case Tick(elapsed) =>
    case Do(call) =>
      match call
      case Issue(draws, csrf) => IssueKeepsStanding(s, draws, csrf);
      case Revoke(id) =>
        if Named(id) {
          PopMembers(s.store.sessions, id.value);
          forall x <- Pop(s.store.sessions, id.value)
            ensures Record(x, Standing) in Fated(s.history, id.value, s.now, Revoked)
          {
            FatedKeepsOthers(s.history, id.value, s.now, Revoked, x);
          }
        }
      case _ =>
  }

  lemma {:induction false} RunKeepsStanding(s: System, actions: seq<Action>)
    requires Invariant(s) && StoredStand(s)
    ensures StoredStand(Run(s, actions))
  {
    if actions != [] {
      RunKeepsInvariant(s, actions[..|actions| - 1]);
      RunKeepsStanding(s, actions[..|actions| - 1]);
      StepKeepsStanding(Run(s, actions[..|actions| - 1]), actions[|actions| - 1]);
    }
  }

  lemma ReachableStands(s: System)
    requires Reachable(s)
    ensures StoredStand(s)
  {
    var ttl: nat, maxSessions: nat, now, actions :|
      ttl >= 1 && maxSessions >= 1 && s == Run(Initial(ttl, maxSessions, now), actions);
    RunKeepsStanding(Initial(ttl, maxSessions, now), actions);
  }

  /** Some session of that name is stored. */
  ghost predicate IsStored(s: System, id: string) {
    exists x <- s.store.sessions :: x.id == id
  }

  lemma RevokeAnswers(store: Store, now: real, id: string)
    requires StoreOk(store)
    ensures Perform(store, now, Revoke(Some(id))).1 == Flag(exists x <- store.sessions :: x.id == id)
  {
    PopShrinks(store.sessions, id);
    if id == "" {
      assert forall x <- store.sessions :: x.id != id;
    }
  }

  lemma RevokeLeaves(store: Store, now: real, id: string, x: Session)
    requires StoreOk(store)
    ensures x in Perform(store, now, Revoke(Some(id))).0.sessions <==> x in store.sessions && x.id != id
  {
    PopMembers(store.sessions, id);
  }

  lemma NothingFound(store: Store, now: real, id: string)
    requires store.maxSessions >= 1 && forall x <- store.sessions :: x.id != id
    ensures Perform(store, now, Get(Some(id))).1 == Found(None)
  {
    PurgeMembers(store.sessions, now);
    PopAbsent(Purge(store.sessions, now), id);
  }

  /**
   `revoke` answers whether a session of that name was stored: it says so of every current one, and of no name
   whose sessions were all revoked or evicted while current.  Afterwards no session of that name is stored or
   found, and every other is stored as before.
   */
  lemma RevokeMeaning(s: System, id: string)
    requires Reachable(s)
    ensures var (store, answer) := Perform(s.store, s.now, Revoke(Some(id)));
            && answer == Flag(IsStored(s, id))
            && (forall x :: x in store.sessions <==> x in s.store.sessions && x.id != id)
            && Perform(store, s.now, Get(Some(id))).1 == Found(None)
    ensures (exists x <- Current(s.history, s.now) :: x.id == id) ==> IsStored(s, id)
    ensures IsStored(s, id) ==> exists r <- s.history :: r.session.id == id && r.fate == Standing
    ensures Perform(s.store, s.now, Revoke(None)) == (s.store, Flag(false))
  {
    ReachableOk(s);
    RevokeAnswers(s.store, s.now, id);
    forall x { RevokeLeaves(s.store, s.now, id, x); }
    NothingFound(Perform(s.store, s.now, Revoke(Some(id))).0, s.now, id);
    StoredIsIssued(s, id);
  }

  lemma StoredIsIssued(s: System, id: string)
    requires Reachable(s)
    ensures (exists x <- Current(s.history, s.now) :: x.id == id) ==> IsStored(s, id)
    ensures IsStored(s, id) ==> exists r <- s.history :: r.session.id == id && r.fate == Standing
  {
    ReachableOk(s);
    ReachableStands(s);
    PurgeMembers(s.store.sessions, s.now);
  }

  /** `revoke_all` empties the registry and counts what it held: every current session, and whatever else was stored. */
  lemma RevokeAllMeaning(s: System)
    requires Reachable(s)
    ensures var (store, answer) := Perform(s.store, s.now, RevokeAll);
            && store.sessions == [] && answer == Count(|s.store.sessions|)
            && (forall x <- Current(s.history, s.now) :: x in s.store.sessions)
            && (forall x <- s.store.sessions :: Record(x, Standing) in s.history)
    ensures Current(Step(s, Do(RevokeAll)).history, s.now) == []
  {
    ReachableOk(s);
    ReachableStands(s);
    PurgeMembers(s.store.sessions, s.now);
    CurrentAllRevoked(s.history, s.now);
  }

  // ---- the eager registry

  /** A registry that drops each session the moment it expires. */
  predicate Eager(lazy: Store, eager: Store, now: real) {
    eager == lazy.(sessions := Purge(lazy.sessions, now))
  }

  function EagerStep(s: System, a: Action): System
    requires s.store.maxSessions >= 1
  {
    var next := Step(s, a);
    if a.Tick? then next.(store := s.store.(sessions := Purge(s.store.sessions, next.now))) else next
  }

  function EagerRun(s: System, actions: seq<Action>): (after: System)
    requires s.store.maxSessions >= 1
    ensures after.store.maxSessions == s.store.maxSessions
  {
    if actions == [] then s
    else
      var before := EagerRun(s, actions[..|actions| - 1]);
      StepKeepsLimits(before, actions[|actions| - 1]);
      EagerStep(before, actions[|actions| - 1])
  }

  ghost predicate Alike(lazy: System, eager: System) {
    Eager(lazy.store, eager.store, lazy.now) && lazy.now == eager.now && lazy.history == eager.history
  }

  lemma StepRefines(lazy: System, eager: System, a: Action)
    requires StoreOk(lazy.store) && Alike(lazy, eager)
    ensures Alike(Step(lazy, a), EagerStep(eager, a))
  {
    match a
    case Tick(elapsed) => PurgeTwice(lazy.store.sessions, lazy.now, Step(lazy, a).now);
    case Do(call) =>
      CallRefines(lazy.store, eager.store, lazy.now, call);
      PurgeTwice(lazy.store.sessions, lazy.now, lazy.now);
  }

  /**
   Whatever is called and however time passes, purging late and purging at once keep the same sessions
   and tell the same history.
   */
  lemma {:induction false} LazyRefinesEager(s: System, actions: seq<Action>)
    requires Invariant(s) && s.store.sessions == Purge(s.store.sessions, s.now)
    ensures Alike(Run(s, actions), EagerRun(s, actions))
  {
    if actions != [] {
      var before := actions[..|actions| - 1];
      RunKeepsInvariant(s, before);
      LazyRefinesEager(s, before);
      StepRefines(Run(s, before), EagerRun(s, before), actions[|actions| - 1]);
    }
  }

  /** Every call leaves the two in agreement, and answers alike unless it revokes. */
  lemma CallRefines(lazy: Store, eager: Store, now: real, call: Call)
    requires StoreOk(lazy) && Eager(lazy, eager, now)
    ensures Eager(Perform(lazy, now, call).0, Perform(eager, now, call).0, now)
    ensures !call.Revoke? && !call.RevokeAll? ==> Perform(lazy, now, call).1 == Perform(eager, now, call).1
  {
    PurgeTwice(lazy.sessions, now, now);
    match call
    case Issue(draws, csrf) => IssueRefines(lazy, now, draws, csrf);
    case Revoke(id) =>
      if Named(id) {
        PurgePop(lazy.sessions, id.value, now);
      }
    case _ =>
  }

  lemma IssueRefines(lazy: Store, now: real, draws: seq<string>, csrf: string)
    requires StoreOk(lazy)
    ensures var eager, call := lazy.(sessions := Purge(lazy.sessions, now)), Issue(draws, csrf);
            && Eager(Perform(lazy, now, call).0, Perform(eager, now, call).0, now)
            && Perform(lazy, now, call).1 == Perform(eager, now, call).1
  {
    var eager := lazy.(sessions := Purge(lazy.sessions, now));
    PurgeTwice(lazy.sessions, now, now);
    assert Kept(eager, now) == Kept(lazy, now);
    if CanDraw(draws, Ids(Kept(lazy, now))) {
      PurgeAfterIssue(lazy, now, NewSession(lazy, now, draws, csrf));
    }
  }

  lemma PurgeAfterIssue(store: Store, now: real, session: Session)
    requires StoreOk(store) && session.expiresAt > now
    ensures Purge(Kept(store, now) + [session], now) == Kept(store, now) + [session]
  {
    PurgeMembers(store.sessions, now);
    PurgeDistinct(store.sessions, now);
    MakeRoomEvicts(Purge(store.sessions, now), store.maxSessions);
    PurgeAll(Kept(store, now) + [session], now);
  }

  /**
   `revoke` does not purge first, so its answer can tell the two apart: exactly when the session named
   has expired and is still stored.
   */
  lemma RevokeTellsThemApartExactlyWhenStale(lazy: Store, eager: Store, now: real, id: string)
    requires StoreOk(lazy) && Eager(lazy, eager, now)
    ensures Perform(lazy, now, Revoke(Some(id))).1 != Perform(eager, now, Revoke(Some(id))).1 <==>
              exists x <- lazy.sessions :: x.id == id && x.expiresAt <= now
  {
    LookupPurged(lazy.sessions, id, now);
  }

  lemma LookupPurged(sessions: seq<Session>, id: string, now: real)
    requires IdsDistinct(sessions)
    ensures var here, live := Lookup(sessions, id), Lookup(Purge(sessions, now), id);
            && (live.Some? <==> here.Some? && here.value.expiresAt > now)
            && ((exists x <- sessions :: x.id == id && x.expiresAt <= now) <==>
                  here.Some? && here.value.expiresAt <= now)
  {
    var here, live := Lookup(sessions, id), Lookup(Purge(sessions, now), id);
    PurgeMembers(sessions, now);
    PurgeDistinct(sessions, now);
    if here.Some? {
      LookupMeaning(sessions, id, here.value);
      LookupMeaning(Purge(sessions, now), id, here.value);
    }
    if live.Some? {
      LookupMeaning(Purge(sessions, now), id, live.value);
      LookupMeaning(sessions, id, live.value);
    }
    if x :| x in sessions && x.id == id && x.expiresAt <= now {
      LookupMeaning(sessions, id, x);
    }
  }

  /** So does `revoke_all`: it counts the sessions stored, and so the expired ones among them. */
  lemma RevokeAllTellsThemApartExactlyWhenStale(lazy: Store, eager: Store, now: real)
    requires lazy.maxSessions >= 1 && Eager(lazy, eager, now)
    ensures Perform(lazy, now, RevokeAll).1 != Perform(eager, now, RevokeAll).1 <==>
              exists x <- lazy.sessions :: x.expiresAt <= now
  {
    PurgeMembers(lazy.sessions, now);
    PurgeShrinks(lazy.sessions, now);
  }

  lemma {:induction false} PurgeShrinks(sessions: seq<Session>, now: real)
    ensures |Purge(sessions, now)| < |sessions| <==> exists x <- sessions :: x.expiresAt <= now
  {
    PurgeMembers(sessions, now);
    if sessions != [] {
      PurgeShrinks(sessions[1..], now);
      PurgeMembers(sessions[1..], now);
      assert sessions == [sessions[0]] + sessions[1..];
    }
  }
}
