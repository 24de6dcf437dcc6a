/** The registry as an object: the lock sections of `run`, updating the ordered entries in place. */
module IdempotencyStores {
  import opened G = Registry

  class IdempotencyStore {
    const capacity: nat
    const ttl: real
    var entries: seq<Entry>
    var futures: seq<Future>

    ghost function View(): Registry
      reads this
    {
      G.Registry(capacity, ttl, entries, futures)
    }

    ghost predicate Valid()
      reads this
    {
      RegistryOk(View())
    }

    constructor (capacity: nat, ttl: real)
      requires capacity >= 1
      ensures Valid() && View() == G.Registry(capacity, ttl, [], [])
    {
      this.capacity, this.ttl := capacity, ttl;
      entries, futures := [], [];
    }

    method PopKey(compound: Compound)
      modifies this`entries
      ensures entries == Pop(old(entries), compound)
    {
      var i := Find(entries, compound);
      if i < |entries| {
        entries := entries[..i] + entries[i + 1..];
      }
    }

    method PurgeLocked(now: real)
      requires KeysDistinct(entries)
      modifies this`entries
      ensures entries == Purge(old(entries), futures, now)
    {
      var items := entries;
      assert items[..|items|] == items && Purging(items, 0, futures, now) == items;
      for i := 0 to |items|
        invariant entries == Purging(items, i, futures, now)
      {
        PurgeOneMore(items, i, futures, now);
        if !Kept(futures, now, items[i]) {
          PopKey(items[i].compound);
        }
      }
    }

    method MakeRoomLocked()
      modifies this`entries
      ensures entries == MakeRoom(old(entries), futures, capacity)
    {
      while |entries| >= capacity
        invariant MakeRoom(entries, futures, capacity) == MakeRoom(old(entries), futures, capacity)
        decreases |entries|
      {
        var evictable := Evictable(entries, futures);
        if evictable == |entries| {
          return;
        }
        entries := RemoveAt(entries, evictable);
      }
    }

    /** A completed or pending entry, under its deadline, moved to the end. */
    method TouchLocked(i: nat, expiresAt: real)
      requires i < |entries|
      modifies this
      ensures View() == Touched(old(View()), i, expiresAt)
    {
      var entry := entries[i];
      entries := RemoveAt(entries, i) + [entry.(expiresAt := expiresAt)];
    }

    method OwnLocked(now: real, caller: nat, compound: Compound, fingerprint: string)
      modifies this
      ensures View() == Owned(old(View()), now, caller, compound, fingerprint)
    {
      entries := entries + [Entry(compound, fingerprint, |futures|, now + ttl)];
      futures := futures + [Future(compound, fingerprint, caller, Pending, now)];
    }

    method AdmitLocked(now: real, caller: nat, compound: Compound, fingerprint: string)
      returns (admission: Admission)
      modifies this
      ensures (View(), admission) == Admit(old(View()), now, caller, compound, fingerprint)
    {
      var i := Find(entries, compound);
      if i < |entries| {
        if entries[i].fingerprint != fingerprint {
          return Conflict;
        }
        admission := Join(entries[i].future);
        TouchLocked(i, entries[i].expiresAt);
      } else {
        MakeRoomLocked();
        if |entries| >= capacity {
          return Saturated;
        }
        admission := Own(|futures|);
        OwnLocked(now, caller, compound, fingerprint);
      }
    }

    method EnterSection(now: real, caller: nat, compound: Compound, fingerprint: string)
      returns (admission: Admission)
      requires Valid()
      modifies this
      ensures Valid()
      ensures (View(), admission) == Enter(old(View()), now, caller, compound, fingerprint)
    {
      EnterKeepsOk(View(), now, caller, compound, fingerprint);
      PurgeLocked(now);
      admission := AdmitLocked(now, caller, compound, fingerprint);
    }

    method CompleteLocked(now: real, f: nat, result: string, keep: bool)
      requires f < |futures|
      modifies this
      ensures View() == Succeed(old(View()), now, f, result, keep)
    {
      var compound := futures[f].compound;
      futures := Settle(futures, f, Done(result), now);
      var i := Find(entries, compound);
      if keep && i < |entries| {
        TouchLocked(i, now + ttl);
        return;
      }
      if !keep {
        PopKey(compound);
      }
    }

    method SucceedSection(now: real, f: nat, result: string, keep: bool)
      requires Valid() && f < |futures| && futures[f].state.Pending?
      modifies this
      ensures Valid()
      ensures View() == Succeed(old(View()), now, f, result, keep)
    {
      SucceedKeepsOk(View(), now, f, result, keep);
      CompleteLocked(now, f, result, keep);
    }

    method FailSection(now: real, f: nat, error: string)
      requires Valid() && f < |futures| && futures[f].state.Pending?
      modifies this
      ensures Valid()
      ensures View() == Fail(old(View()), now, f, error)
    {
      FailKeepsOk(View(), now, f, error);
      PopKey(futures[f].compound);
      futures := Settle(futures, f, Failed(error), now);
    }
  }

  lemma {:induction false} PurgeSnoc(entries: seq<Entry>, e: Entry, futures: seq<Future>, now: real)
    ensures Purge(entries + [e], futures, now)
         == Purge(entries, futures, now) + if Kept(futures, now, e) then [e] else []
  {
    if entries != [] {
      var head := if Kept(futures, now, entries[0]) then [entries[0]] else [];
      var last := if Kept(futures, now, e) then [e] else [];
      assert (entries + [e])[0] == entries[0] && (entries + [e])[1..] == entries[1..] + [e];
      PurgeSnoc(entries[1..], e, futures, now);
      assert head + Purge(entries[1..], futures, now) + last == head + (Purge(entries[1..], futures, now) + last);
    }
  }

  lemma PopAfterKept(items: seq<Entry>, i: nat, futures: seq<Future>, now: real)
    requires KeysDistinct(items) && i < |items|
    ensures var kept := Purge(items[..i], futures, now);
            Pop(kept + items[i..], items[i].compound) == kept + items[i + 1..]
  {
    var kept := Purge(items[..i], futures, now);
    PurgeMembers(items[..i], futures, now);
    var all := kept + items[i..];
    forall j | 0 <= j < |kept| ensures all[j].compound != items[i].compound {
      assert kept[j] in items[..i];
    }
    assert all[|kept|] == items[i];
    assert Find(all, items[i].compound) == |kept|;
  }

  /** The entries after the purge loop has looked at the first i of them. */
  ghost function Purging(items: seq<Entry>, i: nat, futures: seq<Future>, now: real): seq<Entry>
    requires i <= |items|
  {
    Purge(items[..i], futures, now) + items[i..]
  }

  lemma PurgeOneMore(items: seq<Entry>, i: nat, futures: seq<Future>, now: real)
    requires KeysDistinct(items) && i < |items|
    ensures Purging(items, i + 1, futures, now)
         == if Kept(futures, now, items[i]) then Purging(items, i, futures, now)
            else Pop(Purging(items, i, futures, now), items[i].compound)
  {
    PurgeSnoc(items[..i], items[i], futures, now);
    assert items[..i + 1] == items[..i] + [items[i]];
    PopAfterKept(items, i, futures, now);
  }
}
