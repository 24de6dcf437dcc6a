/** The registry as an object: each method is one lock section, updating the dictionary in place. */
module SessionStores {
  import opened Wrappers
  import opened S = Sessions

  class SessionStore {
    const ttl: nat
    const maxSessions: nat
    var sessions: seq<Session>

    ghost function View(): Store
      reads this
    {
      Store(ttl, maxSessions, sessions)
    }

    ghost predicate Valid()
      reads this
    {
      StoreOk(View())
    }

    constructor (ttl: nat, maxSessions: nat)
      requires ttl >= 1 && maxSessions >= 1
      ensures Valid() && View() == Store(ttl, maxSessions, [])
    {
      this.ttl, this.maxSessions, sessions := ttl, maxSessions, [];
    }

    method PurgeLocked(now: real)
      requires Valid()
      modifies this`sessions
      ensures Valid() && sessions == Purge(old(sessions), now)
    {
      var items := sessions;
      PurgeMembers(items, now);
      PurgeDistinct(items, now);
      assert items[..|items|] == items && Purging(items, 0, now) == items;
      for i := 0 to |items|
        invariant sessions == Purging(items, i, now)
      {
        PurgeOneMore(items, i, now);
        if items[i].expiresAt <= now {
          sessions := Pop(sessions, items[i].id);
        }
      }
    }

    method MakeRoomLocked()
      requires Valid()
      modifies this`sessions
      ensures sessions == MakeRoom(old(sessions), maxSessions)
    {
      while |sessions| >= maxSessions
        invariant MakeRoom(sessions, maxSessions) == MakeRoom(old(sessions), maxSessions)
        decreases |sessions|
      {
        var oldest := sessions[Oldest(sessions)];
        PopShrinks(sessions, oldest.id);
        sessions := Pop(sessions, oldest.id);
      }
    }

    method DrawFresh(draws: seq<string>) returns (id: string)
      requires CanDraw(draws, Ids(sessions))
      ensures id == draws[FirstFresh(draws, Ids(sessions))]
      ensures Lookup(sessions, id) == None
    {
      FirstFreshMeaning(draws, Ids(sessions));
      var i := 0;
      while Lookup(sessions, draws[i]).Some?
        invariant i <= FirstFresh(draws, Ids(sessions)) < |draws|
        decreases |draws| - i
      {
        PopShrinks(sessions, draws[i]);
        assert exists s <- sessions :: s.id == draws[i];
        i := i + 1;
      }
      PopShrinks(sessions, draws[i]);
      return draws[i];
    }

    method Issue(draws: seq<string>, csrf: string, now: real) returns (session: Session)
      requires Valid() && CanDraw(draws, Ids(Kept(View(), now)))
      modifies this`sessions
      ensures Valid()
      ensures (View(), Given(session)) == Perform(old(View()), now, Call.Issue(draws, csrf))
    {
      ghost var kept, issued := Kept(View(), now), NewSession(View(), now, draws, csrf);
      IssueMeaning(View(), now, draws, csrf);
      PurgeLocked(now);
      MakeRoomLocked();
      assert sessions == kept;
      var id := DrawFresh(draws);
      session := Session(id, csrf, now, now + ttl as real);
      assert session == issued;
      sessions := sessions + [session];
    }

    method Get(id: Option<string>, now: real) returns (session: Option<Session>)
      requires Valid()
      modifies this`sessions
      ensures Valid()
      ensures (View(), Found(session)) == Perform(old(View()), now, Call.Get(id))
    {
      if !Named(id) {
        return None;
      }
      PurgeLocked(now);
      return Lookup(sessions, id.value);
    }

    method Revoke(id: Option<string>) returns (revoked: bool)
      requires Valid()
      modifies this`sessions
      ensures Valid()
      ensures forall now :: (View(), Flag(revoked)) == Perform(old(View()), now, Call.Revoke(id))
    {
      PerformKeepsOk(View(), 0.0, Call.Revoke(id));
      if !Named(id) {
        return false;
      }
      revoked := Lookup(sessions, id.value).Some?;
      sessions := Pop(sessions, id.value);
    }

    method RevokeAll() returns (count: nat)
      requires Valid()
      modifies this`sessions
      ensures Valid()
      ensures forall now :: (View(), Count(count)) == Perform(old(View()), now, Call.RevokeAll)
    {
      count := |sessions|;
      sessions := [];
    }

    method CheckCsrf(id: Option<string>, candidate: Option<string>, now: real) returns (holds: bool)
      requires Valid()
      modifies this`sessions
      ensures Valid()
      ensures (View(), Flag(holds)) == Perform(old(View()), now, Call.CheckCsrf(id, candidate))
    {
      if !Named(candidate) {
        return false;
      }
      var session := Get(id, now);
      return session.Some? && session.value.csrf == candidate.value;
    }

    method Len(now: real) returns (count: nat)
      requires Valid()
      modifies this`sessions
      ensures Valid()
      ensures (View(), Count(count)) == Perform(old(View()), now, Call.Len)
    {
      PurgeLocked(now);
      return |sessions|;
    }
  }

  /** The sessions after the purge loop has looked at the first i of them. */
  ghost function Purging(items: seq<Session>, i: nat, now: real): seq<Session>
    requires i <= |items|
  {
    Purge(items[..i], now) + items[i..]
  }

  lemma PurgeOneMore(items: seq<Session>, i: nat, now: real)
    requires IdsDistinct(items) && i < |items|
    ensures Purging(items, i + 1, now)
         == if items[i].expiresAt <= now then Pop(Purging(items, i, now), items[i].id) else Purging(items, i, now)
  {
    var kept := Purge(items[..i], now);
    assert items[..i + 1] == items[..i] + [items[i]];
    PurgeConcat(items[..i], [items[i]], now);
    PurgeMembers(items[..i], now);
    PopAt(kept, items[i], items[i + 1..]);
    assert kept + items[i..] == kept + [items[i]] + items[i + 1..];
  }

  lemma {:induction false} PopAt(before: seq<Session>, s: Session, after: seq<Session>)
    requires forall x <- before :: x.id != s.id
    ensures Pop(before + [s] + after, s.id) == before + after
  {
    var all := before + [s] + after;
    if before == [] {
      assert all == [s] + after;
    } else {
      assert before[0] in before && all[0] == before[0] && all[1..] == before[1..] + [s] + after;
      PopAt(before[1..], s, after);
    }
  }
}
