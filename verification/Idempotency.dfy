/** The idempotency registry: its lock sections, as functions of the registry alone. */
module Registry {
  // `completedAt` is history: no section reads it; it lets the theorems say what an expiry means.

  datatype Compound = Compound(principal: string, key: string)

  datatype FutureState = Pending | Done(result: string) | Failed(error: string)

  datatype Future = Future(
    compound: Compound, fingerprint: string, owner: nat, state: FutureState, completedAt: real)

  datatype Entry = Entry(compound: Compound, fingerprint: string, future: nat, expiresAt: real)

  /** `entries` in the order of the ordered dictionary; futures are named by their position. */
  datatype Registry = Registry(capacity: nat, ttl: real, entries: seq<Entry>, futures: seq<Future>)

  datatype Admission = Own(future: nat) | Join(future: nat) | Conflict | Saturated

  predicate Settled(futures: seq<Future>, e: Entry) {
    e.future < |futures| && !futures[e.future].state.Pending?
  }

  predicate Kept(futures: seq<Future>, now: real, e: Entry) {
    !Settled(futures, e) || e.expiresAt > now
  }

  function Purge(entries: seq<Entry>, futures: seq<Future>, now: real): seq<Entry> {
    if entries == [] then []
    else (if Kept(futures, now, entries[0]) then [entries[0]] else []) + Purge(entries[1..], futures, now)
  }

  /** The position of a key, or the length when it is absent. */
  function Find(entries: seq<Entry>, compound: Compound): (i: nat)
    ensures i <= |entries|
    ensures i < |entries| ==> entries[i].compound == compound
    ensures forall j :: 0 <= j < i ==> entries[j].compound != compound
  {
    if entries == [] || entries[0].compound == compound then 0 else 1 + Find(entries[1..], compound)
  }

  /** The first entry that is not in flight, or the length when all are. */
  function Evictable(entries: seq<Entry>, futures: seq<Future>): (i: nat)
    ensures i <= |entries|
    ensures i < |entries| ==> Settled(futures, entries[i])
    ensures forall j :: 0 <= j < i ==> !Settled(futures, entries[j])
  {
    if entries == [] || Settled(futures, entries[0]) then 0 else 1 + Evictable(entries[1..], futures)
  }

  function RemoveAt(entries: seq<Entry>, i: nat): seq<Entry>
    requires i < |entries|
  {
    entries[..i] + entries[i + 1..]
  }

  function Pop(entries: seq<Entry>, compound: Compound): seq<Entry> {
    var i := Find(entries, compound);
    if i < |entries| then RemoveAt(entries, i) else entries
  }

  function MakeRoom(entries: seq<Entry>, futures: seq<Future>, capacity: nat): seq<Entry>
    decreases |entries|
  {
    var i := Evictable(entries, futures);
    if |entries| < capacity || i == |entries| then entries
    else MakeRoom(RemoveAt(entries, i), futures, capacity)
  }

  /** An entry with a new deadline, moved to the end, as every hit and completion leaves it. */
  function Touched(r: Registry, i: nat, expiresAt: real): Registry
    requires i < |r.entries|
  {
    r.(entries := RemoveAt(r.entries, i) + [r.entries[i].(expiresAt := expiresAt)])
  }

  /** The registry with an entry and a future of its own for a call that was not there. */
  function Owned(r: Registry, now: real, caller: nat, compound: Compound, fingerprint: string): Registry {
    r.(entries := r.entries + [Entry(compound, fingerprint, |r.futures|, now + r.ttl)],
       futures := r.futures + [Future(compound, fingerprint, caller, Pending, now)])
  }

  /** The first lock section of a call, after the purge. */
  function Admit(p: Registry, now: real, caller: nat, compound: Compound, fingerprint: string)
    : (Registry, Admission)
  {
    var i := Find(p.entries, compound);
    if i < |p.entries| then
      if p.entries[i].fingerprint != fingerprint then (p, Conflict)
      else (Touched(p, i, p.entries[i].expiresAt), Join(p.entries[i].future))
    else
      var room := MakeRoom(p.entries, p.futures, p.capacity);
      if |room| >= p.capacity then (p.(entries := room), Saturated)
      else (Owned(p.(entries := room), now, caller, compound, fingerprint), Own(|p.futures|))
  }

  function Enter(r: Registry, now: real, caller: nat, compound: Compound, fingerprint: string)
    : (Registry, Admission)
  {
    Admit(r.(entries := Purge(r.entries, r.futures, now)), now, caller, compound, fingerprint)
  }

  function Settle(futures: seq<Future>, f: nat, state: FutureState, now: real): seq<Future>
    requires f < |futures|
  {
    if futures[f].state.Pending? then futures[f := futures[f].(state := state, completedAt := now)] else futures
  }

  /** The owner's section after its operation returned; `keep` is the verdict of `cache_if`. */
  function Succeed(r: Registry, now: real, f: nat, result: string, keep: bool): Registry
    requires f < |r.futures|
  {
    var compound := r.futures[f].compound;
    var settled := r.(futures := Settle(r.futures, f, Done(result), now));
    var i := Find(r.entries, compound);
    if keep && i < |r.entries| then Touched(settled, i, now + r.ttl)
    else if keep then settled
    else settled.(entries := Pop(r.entries, compound))
  }

  /** The owner's section after its operation raised. */
  function Fail(r: Registry, now: real, f: nat, error: string): Registry
    requires f < |r.futures|
  {
    r.(entries := Pop(r.entries, r.futures[f].compound),
       futures := Settle(r.futures, f, Failed(error), now))
  }

  // ---- entry lists

  /** Each key once. */
  ghost predicate KeysDistinct(entries: seq<Entry>) {
    forall i, j :: 0 <= i < j < |entries| ==> entries[i].compound != entries[j].compound
  }

  lemma {:induction false} PurgeMembers(entries: seq<Entry>, futures: seq<Future>, now: real)
    ensures |Purge(entries, futures, now)| <= |entries|
    ensures forall e :: e in Purge(entries, futures, now) <==> e in entries && Kept(futures, now, e)
  {
    if entries != [] {
      PurgeMembers(entries[1..], futures, now);
      assert entries == [entries[0]] + entries[1..];
    }
  }

  lemma {:induction false} PurgeDistinct(entries: seq<Entry>, futures: seq<Future>, now: real)
    requires KeysDistinct(entries)
    ensures KeysDistinct(Purge(entries, futures, now))
  {
    if entries != [] {
      PurgeDistinct(entries[1..], futures, now);
      PurgeMembers(entries[1..], futures, now);
      var rest := Purge(entries[1..], futures, now);
      forall e <- rest ensures entries[0].compound != e.compound {
        assert e in entries[1..];
      }
    }
  }

  lemma {:induction false} PurgeIdle(entries: seq<Entry>, futures: seq<Future>, now: real)
    requires forall e <- entries :: !Settled(futures, e)
    ensures Purge(entries, futures, now) == entries
  {
    if entries != [] {
      PurgeIdle(entries[1..], futures, now);
      assert entries == [entries[0]] + entries[1..];
    }
  }

  lemma RemoveDistinct(entries: seq<Entry>, i: nat)
    requires KeysDistinct(entries) && i < |entries|
    ensures KeysDistinct(RemoveAt(entries, i))
    ensures forall x :: x in RemoveAt(entries, i) <==> x in entries && x != entries[i]
  {
    var rest := RemoveAt(entries, i);
    forall x | x in entries && x != entries[i] ensures x in rest {
      var j :| 0 <= j < |entries| && entries[j] == x;
      assert x == if j < i then rest[j] else rest[j - 1];
    }
    forall j | 0 <= j < |rest| ensures rest[j] == entries[if j < i then j else j + 1] {
    }
  }

  // ---- the registry invariant

  ghost predicate EntryOk(r: Registry, e: Entry) {
    && e.future < |r.futures|
    && var future := r.futures[e.future];
       && future.compound == e.compound
       && future.fingerprint == e.fingerprint
       && !future.state.Failed?
       && (future.state.Done? ==> e.expiresAt == future.completedAt + r.ttl)
  }

  ghost predicate Holds(entries: seq<Entry>, f: nat) {
    exists e <- entries :: e.future == f
  }

  ghost predicate EntriesOk(r: Registry) {
    && r.capacity > 0
    && |r.entries| <= r.capacity
    && KeysDistinct(r.entries)
    && forall e <- r.entries :: EntryOk(r, e)
  }

  ghost predicate RegistryOk(r: Registry) {
    && EntriesOk(r)
    && forall f: nat :: f < |r.futures| && r.futures[f].state.Pending? ==> Holds(r.entries, f)
  }

  /** The entries a call finds once expiry and, for a new key, eviction are done. */
  lemma AfterPurge(r: Registry, now: real)
    requires RegistryOk(r)
    ensures RegistryOk(r.(entries := Purge(r.entries, r.futures, now)))
  {
    var purged := Purge(r.entries, r.futures, now);
    PurgeMembers(r.entries, r.futures, now);
    PurgeDistinct(r.entries, r.futures, now);
    forall f: nat | f < |r.futures| && r.futures[f].state.Pending? ensures Holds(purged, f) {
      var e :| e in r.entries && e.future == f;
      assert e in purged;
    }
  }

  lemma AfterRemove(r: Registry, i: nat)
    requires RegistryOk(r) && i < |r.entries| && Settled(r.futures, r.entries[i])
    ensures RegistryOk(r.(entries := RemoveAt(r.entries, i)))
  {
    RemoveDistinct(r.entries, i);
    forall f: nat | f < |r.futures| && r.futures[f].state.Pending? ensures Holds(RemoveAt(r.entries, i), f) {
      var e :| e in r.entries && e.future == f;
      assert e in RemoveAt(r.entries, i);
    }
  }

  lemma AfterRoom(r: Registry)
    requires RegistryOk(r)
    ensures var room := MakeRoom(r.entries, r.futures, r.capacity);
            RegistryOk(r.(entries := room)) && forall e <- room :: e in r.entries
  {
    var i := Evictable(r.entries, r.futures);
    if |r.entries| == r.capacity && i < |r.entries| {
      AfterRemove(r, i);
      RemoveDistinct(r.entries, i);
    }
  }

  lemma TouchedDistinct(r: Registry, i: nat, expiresAt: real)
    requires RegistryOk(r) && i < |r.entries|
    ensures KeysDistinct(Touched(r, i, expiresAt).entries)
    ensures forall x <- Touched(r, i, expiresAt).entries ::
              x in r.entries || x == r.entries[i].(expiresAt := expiresAt)
  {
    RemoveDistinct(r.entries, i);
    var rest := RemoveAt(r.entries, i);
    forall x <- rest ensures x.compound != r.entries[i].compound {
      assert x in r.entries;
    }
  }

  lemma TouchedKeepsOk(r: Registry, i: nat, e: Entry, expiresAt: real)
    requires RegistryOk(r) && i < |r.entries| && e == r.entries[i] && EntryOk(r, e)
    requires r.futures[e.future].state.Done? ==> expiresAt == r.futures[e.future].completedAt + r.ttl
    ensures RegistryOk(Touched(r, i, expiresAt))
  {
    var after := Touched(r, i, expiresAt);
    TouchedDistinct(r, i, expiresAt);
    RemoveDistinct(r.entries, i);
    forall x <- after.entries ensures EntryOk(after, x) {
      if x in r.entries {
        assert EntryOk(r, x);
      }
    }
    forall f: nat | f < |r.futures| && r.futures[f].state.Pending? ensures Holds(after.entries, f) {
      var x :| x in r.entries && x.future == f;
      assert if x == e then after.entries[|after.entries| - 1].future == f else x in after.entries;
    }
  }

  /** An operation in flight finds its own entry, never one that took its place. */
  lemma FindsOwn(r: Registry, f: nat)
    requires RegistryOk(r) && f < |r.futures| && r.futures[f].state.Pending?
    ensures var i := Find(r.entries, r.futures[f].compound);
            i < |r.entries| && r.entries[i].future == f && EntryOk(r, r.entries[i])
  {
    var e :| e in r.entries && e.future == f;
    assert EntryOk(r, e);
    var j :| 0 <= j < |r.entries| && r.entries[j] == e;
    var i := Find(r.entries, r.futures[f].compound);
    assert i == j;
  }

  lemma SameFutureSameEntry(r: Registry, d: Entry, e: Entry)
    requires EntriesOk(r) && d in r.entries && e in r.entries
    ensures d.future == e.future ==> d == e
  {
    assert EntryOk(r, d) && EntryOk(r, e);
  }

  lemma SettlingKeepsOk(r: Registry, f: nat, state: FutureState, now: real)
    requires EntriesOk(r) && f < |r.futures| && r.futures[f].state.Pending? && !state.Pending?
    requires forall g: nat :: g < |r.futures| && g != f && r.futures[g].state.Pending? ==> Holds(r.entries, g)
    requires forall e <- r.entries :: e.future == f ==> state.Done? && e.expiresAt == now + r.ttl
    ensures RegistryOk(r.(futures := Settle(r.futures, f, state, now)))
  {
    var after := r.(futures := Settle(r.futures, f, state, now));
    forall e <- after.entries ensures EntryOk(after, e) {
      assert EntryOk(r, e);
    }
  }

  lemma PoppingOwn(r: Registry, f: nat)
    requires RegistryOk(r) && f < |r.futures| && r.futures[f].state.Pending?
    ensures var popped := r.(entries := Pop(r.entries, r.futures[f].compound));
            && EntriesOk(popped) && !Holds(popped.entries, f)
            && (forall e <- popped.entries :: e in r.entries)
            && (forall e <- r.entries :: e.future != f ==> e in popped.entries)
            && (forall g: nat :: g < |r.futures| && g != f && r.futures[g].state.Pending? ==>
                  Holds(popped.entries, g))
  {
    FindsOwn(r, f);
    var i := Find(r.entries, r.futures[f].compound);
    var popped := r.(entries := RemoveAt(r.entries, i));
    RemoveDistinct(r.entries, i);
    forall e <- popped.entries ensures EntryOk(popped, e) && e.future != f {
      assert EntryOk(r, e);
      SameFutureSameEntry(r, e, r.entries[i]);
    }
    forall g: nat | g < |r.futures| && g != f && r.futures[g].state.Pending? ensures Holds(popped.entries, g) {
      var e :| e in r.entries && e.future == g;
      assert e in popped.entries;
    }
  }

  lemma OwningKeepsOk(r: Registry, now: real, caller: nat, compound: Compound, fingerprint: string)
    requires RegistryOk(r) && |r.entries| < r.capacity && forall e <- r.entries :: e.compound != compound
    ensures RegistryOk(Owned(r, now, caller, compound, fingerprint))
  {
    var f, after := |r.futures|, Owned(r, now, caller, compound, fingerprint);
    var added := Entry(compound, fingerprint, f, now + r.ttl);
    forall e <- after.entries ensures EntryOk(after, e) {
      if e in r.entries {
        assert EntryOk(r, e);
      }
    }
    forall g: nat | g < |after.futures| && after.futures[g].state.Pending? ensures Holds(after.entries, g) {
      if g < f {
        var e :| e in r.entries && e.future == g;
        assert e in after.entries;
      } else {
        assert added in after.entries;
      }
    }
  }

  lemma EnterKeepsOk(r: Registry, now: real, caller: nat, compound: Compound, fingerprint: string)
    requires RegistryOk(r)
    ensures RegistryOk(Enter(r, now, caller, compound, fingerprint).0)
  {
    AfterPurge(r, now);
    AdmitKeepsOk(r.(entries := Purge(r.entries, r.futures, now)), now, caller, compound, fingerprint);
  }

  lemma MissKeepsOk(p: Registry, now: real, caller: nat, compound: Compound, fingerprint: string)
    requires RegistryOk(p) && forall e <- p.entries :: e.compound != compound
    ensures var roomy := p.(entries := MakeRoom(p.entries, p.futures, p.capacity));
            && RegistryOk(roomy)
            && (|roomy.entries| < p.capacity ==> RegistryOk(Owned(roomy, now, caller, compound, fingerprint)))
  {
    AfterRoom(p);
    var roomy := p.(entries := MakeRoom(p.entries, p.futures, p.capacity));
    if |roomy.entries| < p.capacity {
      OwningKeepsOk(roomy, now, caller, compound, fingerprint);
    }
  }

  lemma AdmitKeepsOk(p: Registry, now: real, caller: nat, compound: Compound, fingerprint: string)
    requires RegistryOk(p)
    ensures RegistryOk(Admit(p, now, caller, compound, fingerprint).0)
  {
    var i := Find(p.entries, compound);
    if i == |p.entries| {
      assert forall e <- p.entries :: e.compound != compound;
      MissKeepsOk(p, now, caller, compound, fingerprint);
    } else if p.entries[i].fingerprint == fingerprint {
      assert EntryOk(p, p.entries[i]);
      TouchedKeepsOk(p, i, p.entries[i], p.entries[i].expiresAt);
    }
  }

  /** No other entry shares the future of the last entry. */
  lemma LastIsAlone(r: Registry)
    requires EntriesOk(r) && r.entries != []
    ensures var own := r.entries[|r.entries| - 1];
            forall e <- r.entries :: e.future == own.future ==> e == own
  {
    var own := r.entries[|r.entries| - 1];
    forall e <- r.entries | e.future == own.future ensures e == own {
      SameFutureSameEntry(r, e, own);
    }
  }

  /** An entry in flight, moved to the end under the deadline of its result. */
  lemma TouchedAlone(r: Registry, i: nat, f: nat, now: real)
    requires RegistryOk(r) && i < |r.entries| && r.entries[i].future == f
    requires f < |r.futures| && r.futures[f].state.Pending?
    ensures var touched := Touched(r, i, now + r.ttl);
            && RegistryOk(touched) && touched.futures == r.futures
            && forall e <- touched.entries :: e.future == f ==> e.expiresAt == now + touched.ttl
  {
    assert EntryOk(r, r.entries[i]);
    TouchedKeepsOk(r, i, r.entries[i], now + r.ttl);
    LastIsAlone(Touched(r, i, now + r.ttl));
  }

  lemma KeepingKeepsOk(r: Registry, now: real, f: nat, i: nat, result: string)
    requires RegistryOk(r) && f < |r.futures| && r.futures[f].state.Pending?
    requires i < |r.entries| && r.entries[i].future == f
    ensures var touched := Touched(r, i, now + r.ttl);
            RegistryOk(touched.(futures := Settle(touched.futures, f, Done(result), now)))
  {
    TouchedAlone(r, i, f, now);
    SettlingKeepsOk(Touched(r, i, now + r.ttl), f, Done(result), now);
  }

  lemma SucceedKeepsOk(r: Registry, now: real, f: nat, result: string, keep: bool)
    requires RegistryOk(r) && f < |r.futures| && r.futures[f].state.Pending?
    ensures RegistryOk(Succeed(r, now, f, result, keep))
  {
    var i := Find(r.entries, r.futures[f].compound);
    if keep {
      FindsOwn(r, f);
      KeepingKeepsOk(r, now, f, i, result);
      assert Succeed(r, now, f, result, keep)
          == Touched(r, i, now + r.ttl).(futures := Settle(r.futures, f, Done(result), now));
    } else {
      PoppingOwn(r, f);
      var popped := r.(entries := Pop(r.entries, r.futures[f].compound));
      SettlingKeepsOk(popped, f, Done(result), now);
      assert Succeed(r, now, f, result, keep) == popped.(futures := Settle(r.futures, f, Done(result), now));
    }
  }

  lemma FailKeepsOk(r: Registry, now: real, f: nat, error: string)
    requires RegistryOk(r) && f < |r.futures| && r.futures[f].state.Pending?
    ensures RegistryOk(Fail(r, now, f, error))
  {
    PoppingOwn(r, f);
    SettlingKeepsOk(r.(entries := Pop(r.entries, r.futures[f].compound)),
                    f, Failed(error), now);
  }

  // ---- admissions and removals

  /** The answer of the first section, in terms of the registry it found. */
  lemma AdmissionMeaning(r: Registry, now: real, caller: nat, compound: Compound, fingerprint: string)
    requires RegistryOk(r)
    ensures var admission := Enter(r, now, caller, compound, fingerprint).1;
            && (admission.Conflict? <==>
                  exists e <- r.entries ::
                    e.compound == compound && Kept(r.futures, now, e) && e.fingerprint != fingerprint)
            && (forall f :: admission == Join(f) <==>
                  exists e <- r.entries :: e.compound == compound && Kept(r.futures, now, e)
                                           && e.fingerprint == fingerprint && e.future == f)
            && (admission.Saturated? <==>
                  && |r.entries| == r.capacity
                  && forall e <- r.entries :: e.compound != compound && !Settled(r.futures, e))
            && (admission.Own? ==> admission.future == |r.futures|)
  {
    var purged := Purge(r.entries, r.futures, now);
    AfterPurge(r, now);
    PurgeMembers(r.entries, r.futures, now);
    var i := Find(purged, compound);
    if i < |purged| {
      assert purged[i] in r.entries;
      forall e <- r.entries | e.compound == compound && Kept(r.futures, now, e) ensures e == purged[i] {
        assert e in purged;
      }
    } else {
      forall e <- r.entries ensures !(e.compound == compound && Kept(r.futures, now, e)) {
        assert e in purged ==> e.compound != compound;
      }
      SaturationMeaning(r, now, compound);
    }
  }

  lemma SaturationMeaning(r: Registry, now: real, compound: Compound)
    requires RegistryOk(r)
    ensures var purged := Purge(r.entries, r.futures, now);
            Find(purged, compound) == |purged| ==>
              (|MakeRoom(purged, r.futures, r.capacity)| >= r.capacity <==>
                && |r.entries| == r.capacity
                && forall e <- r.entries :: e.compound != compound && !Settled(r.futures, e))
  {
    var purged := Purge(r.entries, r.futures, now);
    PurgeMembers(r.entries, r.futures, now);
    if forall e <- r.entries :: !Settled(r.futures, e) {
      PurgeIdle(r.entries, r.futures, now);
    }
    if |purged| == |r.entries| && Find(purged, compound) == |purged| && Evictable(purged, r.futures) == |purged| {
      PurgeKeepsAll(r.entries, r.futures, now);
    }
  }

  lemma {:induction false} PurgeKeepsAll(entries: seq<Entry>, futures: seq<Future>, now: real)
    requires |Purge(entries, futures, now)| == |entries|
    ensures Purge(entries, futures, now) == entries
  {
    if entries != [] {
      PurgeMembers(entries[1..], futures, now);
      PurgeKeepsAll(entries[1..], futures, now);
      assert entries == [entries[0]] + entries[1..];
    }
  }

  /** The registry was full, the key absent, and all that stand before `e` are in flight. */
  ghost predicate FairlyEvicted(p: Registry, compound: Compound, e: Entry) {
    && |p.entries| == p.capacity
    && (forall x <- p.entries :: x.compound != compound)
    && exists i :: 0 <= i < |p.entries| && p.entries[i] == e && Settled(p.futures, e)
         && forall j :: 0 <= j < i ==> !Settled(p.futures, p.entries[j])
  }

  /** A first section removes an entry only when it has expired or is fairly evicted. */
  lemma EnterRemovesFairly(r: Registry, now: real, caller: nat, compound: Compound, fingerprint: string, e: Entry)
    requires RegistryOk(r) && e in r.entries
    requires !Holds(Enter(r, now, caller, compound, fingerprint).0.entries, e.future)
    ensures Settled(r.futures, e)
    ensures e.expiresAt <= now
            || FairlyEvicted(r.(entries := Purge(r.entries, r.futures, now)), compound, e)
  {
    var p := r.(entries := Purge(r.entries, r.futures, now));
    AfterPurge(r, now);
    PurgeMembers(r.entries, r.futures, now);
    if e in p.entries {
      AdmitRemovesFairly(p, now, caller, compound, fingerprint, e);
    }
  }

  lemma HitKeepsEntries(p: Registry, i: nat, expiresAt: real, e: Entry)
    requires RegistryOk(p) && i < |p.entries| && e in p.entries
    ensures Holds(Touched(p, i, expiresAt).entries, e.future)
  {
    RemoveDistinct(p.entries, i);
    var after := Touched(p, i, expiresAt).entries;
    assert if e == p.entries[i] then after[|after| - 1].future == e.future else e in after;
  }

  lemma AdmitRemovesFairly(p: Registry, now: real, caller: nat, compound: Compound, fingerprint: string, e: Entry)
    requires RegistryOk(p) && e in p.entries
    ensures Holds(Admit(p, now, caller, compound, fingerprint).0.entries, e.future) || FairlyEvicted(p, compound, e)
  {
    var i, v := Find(p.entries, compound), Evictable(p.entries, p.futures);
    if i < |p.entries| {
      HitKeepsEntries(p, i, p.entries[i].expiresAt, e);
    } else {
      if v < |p.entries| == p.capacity {
        assert FairlyEvicted(p, compound, p.entries[v]);
        RemoveDistinct(p.entries, v);
        assert MakeRoom(p.entries, p.futures, p.capacity) == RemoveAt(p.entries, v);
      }
      var room := MakeRoom(p.entries, p.futures, p.capacity);
      assert e in room || FairlyEvicted(p, compound, e);
      assert e in room ==> e in Admit(p, now, caller, compound, fingerprint).0.entries;
    }
  }
}
