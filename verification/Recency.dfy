/** What a call is answered, and which result is let go, told by the actions of the run alone. */
module RecencyLaws {
  import opened Wrappers
  import opened G = Registry
  import opened SingleFlight

  // ---- lists in the order of a rank

  ghost predicate Precedes(entries: seq<Entry>, i: nat, j: nat, rank: nat -> nat)
    requires i < |entries| && j < |entries|
  {
    rank(entries[i].future) < rank(entries[j].future)
  }

  ghost predicate InOrder(entries: seq<Entry>, rank: nat -> nat) {
    forall i: nat, j: nat :: i < j < |entries| ==> Precedes(entries, i, j, rank)
  }

  lemma {:induction false} PurgeInOrder(entries: seq<Entry>, futures: seq<Future>, now: real, rank: nat -> nat)
    requires InOrder(entries, rank)
    ensures InOrder(Purge(entries, futures, now), rank)
  {
    if entries != [] {
      TailInOrder(entries, rank);
      PurgeInOrder(entries[1..], futures, now, rank);
      PurgeMembers(entries[1..], futures, now);
      var rest := Purge(entries[1..], futures, now);
      forall e <- rest ensures rank(entries[0].future) < rank(e.future) {
        var j :| 0 <= j < |entries[1..]| && entries[1..][j] == e;
        assert Precedes(entries, 0, j + 1, rank);
      }
      FirstInOrder(entries[0], rest, rank);
      assert [] + rest == rest;
    }
  }

  lemma TailInOrder(entries: seq<Entry>, rank: nat -> nat)
    requires InOrder(entries, rank) && entries != []
    ensures InOrder(entries[1..], rank)
  {
    forall i: nat, j: nat | i < j < |entries[1..]| ensures Precedes(entries[1..], i, j, rank) {
      assert Precedes(entries, i + 1, j + 1, rank);
    }
  }

  lemma FirstInOrder(first: Entry, rest: seq<Entry>, rank: nat -> nat)
    requires InOrder(rest, rank) && forall e <- rest :: rank(first.future) < rank(e.future)
    ensures InOrder([first] + rest, rank)
  {
    var all := [first] + rest;
    forall i: nat, j: nat | i < j < |all| ensures Precedes(all, i, j, rank) {
      assert if i == 0 then rest[j - 1] in rest else Precedes(rest, i - 1, j - 1, rank);
    }
  }

  lemma RemoveInOrder(entries: seq<Entry>, i: nat, rank: nat -> nat)
    requires InOrder(entries, rank) && i < |entries|
    ensures InOrder(RemoveAt(entries, i), rank)
  {
    var rest := RemoveAt(entries, i);
    forall j: nat, k: nat | j < k < |rest| ensures Precedes(rest, j, k, rank) {
      assert Precedes(entries, if j < i then j else j + 1, if k < i then k else k + 1, rank);
    }
  }

  lemma PopInOrder(entries: seq<Entry>, compound: Compound, rank: nat -> nat)
    requires InOrder(entries, rank)
    ensures InOrder(Pop(entries, compound), rank)
  {
    if Find(entries, compound) < |entries| {
      RemoveInOrder(entries, Find(entries, compound), rank);
    }
  }

  lemma {:induction false} RoomInOrder(entries: seq<Entry>, futures: seq<Future>, capacity: nat, rank: nat -> nat)
    requires InOrder(entries, rank)
    ensures InOrder(MakeRoom(entries, futures, capacity), rank)
    ensures forall e <- MakeRoom(entries, futures, capacity) :: e in entries
    decreases |entries|
  {
    var i := Evictable(entries, futures);
    if |entries| >= capacity && i < |entries| {
      RemoveInOrder(entries, i, rank);
      RoomInOrder(RemoveAt(entries, i), futures, capacity, rank);
      assert forall e <- RemoveAt(entries, i) :: e in entries;
    }
  }

  /** Future f was used last of all; the others stand as they did. */
  ghost predicate Used(entries: seq<Entry>, rank: nat -> nat, later: nat -> nat, f: nat) {
    forall e <- entries :: e.future != f ==> later(e.future) == rank(e.future) < later(f)
  }

  lemma SameRanksInOrder(entries: seq<Entry>, rank: nat -> nat, later: nat -> nat)
    requires InOrder(entries, rank) && forall e <- entries :: later(e.future) == rank(e.future)
    ensures InOrder(entries, later)
  {
    forall i: nat, j: nat | i < j < |entries| ensures Precedes(entries, i, j, later) {
      assert Precedes(entries, i, j, rank) && entries[i] in entries && entries[j] in entries;
    }
  }

  lemma LastInOrder(entries: seq<Entry>, last: Entry, rank: nat -> nat, later: nat -> nat)
    requires InOrder(entries, rank) && Used(entries, rank, later, last.future)
    requires forall e <- entries :: e.future != last.future
    ensures InOrder(entries + [last], later)
  {
    var all := entries + [last];
    forall i: nat, j: nat | i < j < |all| ensures Precedes(all, i, j, later) {
      assert entries[i] in entries;
      if j < |entries| {
        assert Precedes(entries, i, j, rank) && entries[j] in entries;
      }
    }
  }

  lemma TouchInOrder(r: Registry, i: nat, expiresAt: real, rank: nat -> nat, later: nat -> nat)
    requires EntriesOk(r) && i < |r.entries| && InOrder(r.entries, rank)
    requires Used(r.entries, rank, later, r.entries[i].future)
    ensures InOrder(Touched(r, i, expiresAt).entries, later)
  {
    var rest := RemoveAt(r.entries, i);
    RemoveInOrder(r.entries, i, rank);
    RemoveDistinct(r.entries, i);
    forall e <- rest ensures e.future != r.entries[i].future {
      SameFutureSameEntry(r, e, r.entries[i]);
    }
    LastInOrder(rest, r.entries[i].(expiresAt := expiresAt), rank, later);
  }

  /** The first section leaves the entries in the order of use, its own use the latest. */
  lemma AdmitInOrder(p: Registry, now: real, caller: nat, compound: Compound, fingerprint: string,
                     rank: nat -> nat, later: nat -> nat)
    requires RegistryOk(p) && InOrder(p.entries, rank)
    requires var admission := Admit(p, now, caller, compound, fingerprint).1;
             if admission.Own? || admission.Join? then Used(p.entries, rank, later, admission.future)
             else forall e <- p.entries :: later(e.future) == rank(e.future)
    ensures InOrder(Admit(p, now, caller, compound, fingerprint).0.entries, later)
  {
    var i := Find(p.entries, compound);
    if i < |p.entries| {
      if p.entries[i].fingerprint == fingerprint {
        TouchInOrder(p, i, p.entries[i].expiresAt, rank, later);
      } else {
        SameRanksInOrder(p.entries, rank, later);
      }
    } else {
      MissInOrder(p, now, caller, compound, fingerprint, rank, later);
    }
  }

  lemma MissInOrder(p: Registry, now: real, caller: nat, compound: Compound, fingerprint: string,
                    rank: nat -> nat, later: nat -> nat)
    requires RegistryOk(p) && InOrder(p.entries, rank) && Find(p.entries, compound) == |p.entries|
    requires var admission := Admit(p, now, caller, compound, fingerprint).1;
             if admission.Own? || admission.Join? then Used(p.entries, rank, later, admission.future)
             else forall e <- p.entries :: later(e.future) == rank(e.future)
    ensures InOrder(Admit(p, now, caller, compound, fingerprint).0.entries, later)
  {
    var room := MakeRoom(p.entries, p.futures, p.capacity);
    RoomInOrder(p.entries, p.futures, p.capacity, rank);
    if |room| >= p.capacity {
      SameRanksInOrder(room, rank, later);
    } else {
      forall e <- room ensures e.future != |p.futures| {
        assert EntryOk(p, e);
      }
      LastInOrder(room, Entry(compound, fingerprint, |p.futures|, now + p.ttl), rank, later);
    }
  }

  // ---- the last use of a future in a run

  /** The future an action uses: that of a call admitted to own or to join it, or of a result it accepts. */
  function Uses(s: System, a: Action): (used: Option<nat>) {
    match a
    case Enter(caller, _, _) =>
      if caller in s.calls then None
      else
        (match Step(s, a).calls[caller].status
         case Running(f) => Some(f)
         case Waiting(f) => Some(f)
         case Returned(_) => None)
    case OpSucceeded(caller, _, keep) =>
      if IsRunning(s, caller) && keep then Some(s.calls[caller].status.future) else None
    case _ => None
  }

  /** One more than the index of the latest action that used future f; zero when there is none. */
  function LastUse(start: System, actions: seq<Action>, f: nat): (n: nat)
    ensures n <= |actions|
  {
    if actions == [] then 0
    else
      var n := |actions| - 1;
      if Uses(Run(start, actions[..n]), actions[n]) == Some(f) then n + 1 else LastUse(start, actions[..n], f)
  }

  ghost function UseRank(start: System, actions: seq<Action>): nat -> nat {
    f => LastUse(start, actions, f)
  }

  lemma StepInOrder(s: System, a: Action, rank: nat -> nat, later: nat -> nat)
    requires Invariant(s) && InOrder(s.registry.entries, rank)
    requires match Uses(s, a)
             case Some(f) => Used(s.registry.entries, rank, later, f)
             case None => forall e <- s.registry.entries :: later(e.future) == rank(e.future)
    ensures InOrder(Step(s, a).registry.entries, later)
  {
    match a
    case Enter(caller, compound, fingerprint) =>
      if caller in s.calls {
        SameRanksInOrder(s.registry.entries, rank, later);
      } else {
        EnterInOrder(s, caller, compound, fingerprint, rank, later);
      }
    case OpSucceeded(caller, result, keep) =>
      if !IsRunning(s, caller) {
        SameRanksInOrder(s.registry.entries, rank, later);
      } else if keep {
        AcceptInOrder(s, caller, result, rank, later);
      } else {
        DropInOrder(s, caller, a, rank, later);
      }
    case OpFailed(caller, error) =>
      if IsRunning(s, caller) {
        DropInOrder(s, caller, a, rank, later);
      } else {
        SameRanksInOrder(s.registry.entries, rank, later);
      }
    case _ => SameRanksInOrder(s.registry.entries, rank, later);
  }

  lemma EnterInOrder(s: System, caller: nat, compound: Compound, fingerprint: string,
                     rank: nat -> nat, later: nat -> nat)
    requires Invariant(s) && caller !in s.calls && InOrder(s.registry.entries, rank)
    requires match Uses(s, Enter(caller, compound, fingerprint))
             case Some(f) => Used(s.registry.entries, rank, later, f)
             case None => forall e <- s.registry.entries :: later(e.future) == rank(e.future)
    ensures InOrder(Step(s, Enter(caller, compound, fingerprint)).registry.entries, later)
  {
    var r := s.registry;
    AfterPurge(r, s.now);
    PurgeMembers(r.entries, r.futures, s.now);
    PurgeInOrder(r.entries, r.futures, s.now, rank);
    AdmitInOrder(r.(entries := Purge(r.entries, r.futures, s.now)), s.now, caller, compound, fingerprint, rank, later);
  }

  lemma RunningOwns(s: System, caller: nat) returns (f: nat, i: nat)
    requires Invariant(s) && IsRunning(s, caller)
    ensures f == s.calls[caller].status.future && EntriesOk(s.registry)
    ensures i == Find(s.registry.entries, s.registry.futures[f].compound) < |s.registry.entries|
    ensures s.registry.entries[i].future == f
  {
    f := s.calls[caller].status.future;
    assert CallOk(s.registry.futures, caller, s.calls[caller]);
    FindsOwn(s.registry, f);
    i := Find(s.registry.entries, s.registry.futures[f].compound);
  }

  lemma AcceptedEntries(s: System, caller: nat, result: string, i: nat)
    requires IsRunning(s, caller) && i < |s.registry.entries|
    requires i == Find(s.registry.entries, s.registry.futures[s.calls[caller].status.future].compound)
    ensures Step(s, OpSucceeded(caller, result, true)).registry.entries
         == Touched(s.registry, i, s.now + s.registry.ttl).entries
  {
  }

  lemma AcceptInOrder(s: System, caller: nat, result: string, rank: nat -> nat, later: nat -> nat)
    requires Invariant(s) && IsRunning(s, caller) && InOrder(s.registry.entries, rank)
    requires Used(s.registry.entries, rank, later, s.calls[caller].status.future)
    ensures InOrder(Step(s, OpSucceeded(caller, result, true)).registry.entries, later)
  {
    var f, i := RunningOwns(s, caller);
    AcceptedEntries(s, caller, result, i);
    TouchInOrder(s.registry, i, s.now + s.registry.ttl, rank, later);
  }

  lemma DropInOrder(s: System, caller: nat, a: Action, rank: nat -> nat, later: nat -> nat)
    requires Invariant(s) && IsRunning(s, caller) && InOrder(s.registry.entries, rank)
    requires a.OpSucceeded? || a.OpFailed?
    requires a.caller == caller && (a.OpSucceeded? ==> !a.keep)
    requires forall e <- s.registry.entries :: later(e.future) == rank(e.future)
    ensures InOrder(Step(s, a).registry.entries, later)
  {
    var r := s.registry;
    SameRanksInOrder(r.entries, rank, later);
    PopInOrder(r.entries, r.futures[s.calls[caller].status.future].compound, later);
  }

  /** After any run the entries stand in the order of their last use: a hit moves its entry to the end. */
  lemma {:induction false} EntriesStandInOrderOfUse(capacity: nat, ttl: real, now: real, actions: seq<Action>)
    requires capacity > 0
    ensures var start := Start(capacity, ttl, now);
            var entries := Run(start, actions).registry.entries;
            forall i: nat, j: nat :: i < j < |entries| ==>
              LastUse(start, actions, entries[i].future) < LastUse(start, actions, entries[j].future)
  {
    var start := Start(capacity, ttl, now);
    var entries := Run(start, actions).registry.entries;
    RunInOrder(start, actions);
    forall i: nat, j: nat | i < j < |entries|
      ensures LastUse(start, actions, entries[i].future) < LastUse(start, actions, entries[j].future)
    {
      assert Precedes(entries, i, j, UseRank(start, actions));
    }
  }

  lemma RankAfterStep(start: System, actions: seq<Action>)
    requires actions != []
    ensures var front := actions[..|actions| - 1];
            var entries := Run(start, front).registry.entries;
            match Uses(Run(start, front), actions[|actions| - 1])
            case Some(f) => Used(entries, UseRank(start, front), UseRank(start, actions), f)
            case None => forall e <- entries :: UseRank(start, actions)(e.future) == UseRank(start, front)(e.future)
  {
  }

  lemma {:induction false} RunInOrder(start: System, actions: seq<Action>)
    requires Invariant(start) && start.registry.entries == []
    ensures InOrder(Run(start, actions).registry.entries, UseRank(start, actions))
  {
    if actions != [] {
      var n := |actions| - 1;
      RunInOrder(start, actions[..n]);
      RunKeepsInvariant(start, actions[..n]);
      RankAfterStep(start, actions);
      StepInOrder(Run(start, actions[..n]), actions[n], UseRank(start, actions[..n]), UseRank(start, actions));
    }
  }

  // ---- what a call is answered

  /** The result of future f is there, and its time has not run out. */
  predicate Reusable(s: System, f: nat)
    requires f < |s.registry.futures|
  {
    s.registry.futures[f].state.Done? && s.now < s.registry.futures[f].completedAt + s.registry.ttl
  }

  predicate InFlight(s: System, e: Entry) {
    e in s.registry.entries && e.future < |s.registry.futures| && s.registry.futures[e.future].state.Pending?
  }

  /** An entry that a call entering now still finds: in flight, or its result reusable. */
  predicate Live(s: System, e: Entry) {
    InFlight(s, e) || (e in s.registry.entries && e.future < |s.registry.futures| && Reusable(s, e.future))
  }

  lemma LiveIsKept(s: System, e: Entry)
    requires Invariant(s) && e in s.registry.entries
    ensures Live(s, e) <==> Kept(s.registry.futures, s.now, e)
  {
    assert EntryOk(s.registry, e);
  }

  /**
   What a new call is answered: it waits exactly for a live entry of its key and body, is refused for a
   conflict exactly at one of another body, for saturation exactly when its key is absent and all slots
   are in flight, and else runs its operation itself.
   */
  lemma EnterAnswers(s: System, caller: nat, compound: Compound, fingerprint: string, f: nat)
    requires Reachable(s) && caller !in s.calls
    ensures var status := Step(s, Enter(caller, compound, fingerprint)).calls[caller].status;
            && (status == Waiting(f) <==>
                  exists e :: Live(s, e) && e.compound == compound && e.fingerprint == fingerprint && e.future == f)
            && (status == Returned(Refused(Conflict)) <==>
                  exists e :: Live(s, e) && e.compound == compound && e.fingerprint != fingerprint)
            && (status == Returned(Refused(Saturated)) <==>
                  && |s.registry.entries| == s.registry.capacity
                  && forall e <- s.registry.entries :: e.compound != compound && InFlight(s, e))
            && (status.Running? || status.Waiting? || status == Returned(Refused(Conflict))
                || status == Returned(Refused(Saturated)))
  {
    ReachableInvariant(s);
    AdmissionMeaning(s.registry, s.now, caller, compound, fingerprint);
    forall e <- s.registry.entries
      ensures Live(s, e) <==> Kept(s.registry.futures, s.now, e)
      ensures Settled(s.registry.futures, e) <==> !InFlight(s, e)
    {
      LiveIsKept(s, e);
      assert EntryOk(s.registry, e);
    }
    var admission := G.Enter(s.registry, s.now, caller, compound, fingerprint).1;
    assert Step(s, Enter(caller, compound, fingerprint)).calls[caller].status == Admitted(admission);
    assert Admitted(admission) == Waiting(f) <==> admission == Join(f);
  }

  // ---- which result is let go

  /** Future f's live entry is the least recently used of those not in flight, in a full registry without the key. */
  ghost predicate LeastRecentlyUsed(start: System, actions: seq<Action>, compound: Compound, f: nat) {
    var s := Run(start, actions);
    && |(set e <- s.registry.entries | Live(s, e))| == s.registry.capacity
    && (forall e :: Live(s, e) ==> e.compound != compound)
    && (forall e :: Live(s, e) && e.future != f && !InFlight(s, e) ==>
          LastUse(start, actions, f) < LastUse(start, actions, e.future))
  }

  /** Action i of the run let go of the result of future f: its time had run out, or it was least recently used. */
  ghost predicate LetGoAt(start: System, actions: seq<Action>, i: nat, f: nat)
    requires i < |actions|
  {
    var s := Run(start, actions[..i]);
    && actions[i].Enter? && f < |s.registry.futures| && s.registry.futures[f].state.Done?
    && (s.now >= s.registry.futures[f].completedAt + s.registry.ttl
        || LeastRecentlyUsed(start, actions[..i], actions[i].compound, f))
  }

  lemma LiveAreThePurged(s: System)
    requires Invariant(s)
    ensures var purged := Purge(s.registry.entries, s.registry.futures, s.now);
            && (forall e :: Live(s, e) <==> e in purged)
            && |(set e <- s.registry.entries | Live(s, e))| == |purged|
  {
    var purged := Purge(s.registry.entries, s.registry.futures, s.now);
    PurgeMembers(s.registry.entries, s.registry.futures, s.now);
    PurgeDistinct(s.registry.entries, s.registry.futures, s.now);
    forall e ensures Live(s, e) <==> e in purged {
      if e in s.registry.entries {
        LiveIsKept(s, e);
      }
    }
    DistinctSize(purged);
    assert (set e <- s.registry.entries | Live(s, e)) == (set e <- purged);
  }

  lemma {:induction false} DistinctSize(entries: seq<Entry>)
    requires KeysDistinct(entries)
    ensures |(set e <- entries)| == |entries|
  {
    if entries != [] {
      var last := |entries| - 1;
      DistinctSize(entries[..last]);
      assert (set e <- entries) == (set e <- entries[..last]) + {entries[last]};
    }
  }

  /** The first idle entry in the order of use is the least recently used. */
  lemma FirstIdleIsLeastRecent(start: System, actions: seq<Action>, compound: Compound, e: Entry)
    requires Invariant(start) && start.registry.entries == []
    requires var r := Run(start, actions).registry;
             FairlyEvicted(r.(entries := Purge(r.entries, r.futures, Run(start, actions).now)), compound, e)
    ensures LeastRecentlyUsed(start, actions, compound, e.future)
  {
    var s := Run(start, actions);
    var purged := Purge(s.registry.entries, s.registry.futures, s.now);
    RunKeepsInvariant(start, actions);
    RunInOrder(start, actions);
    PurgeInOrder(s.registry.entries, s.registry.futures, s.now, UseRank(start, actions));
    LiveAreThePurged(s);
    forall d | Live(s, d) && d.future != e.future && !InFlight(s, d)
      ensures LastUse(start, actions, e.future) < LastUse(start, actions, d.future)
    {
      FirstIdlePrecedes(purged, s.registry.futures, e, d, UseRank(start, actions));
      assert UseRank(start, actions)(e.future) < UseRank(start, actions)(d.future);
    }
  }

  lemma FirstIdlePrecedes(entries: seq<Entry>, futures: seq<Future>, e: Entry, d: Entry, rank: nat -> nat)
    requires InOrder(entries, rank) && d in entries && Settled(futures, d) && d.future != e.future
    requires exists i :: 0 <= i < |entries| && entries[i] == e
                         && forall j :: 0 <= j < i ==> !Settled(futures, entries[j])
    ensures rank(e.future) < rank(d.future)
  {
    var i: nat :| i < |entries| && entries[i] == e && forall j :: 0 <= j < i ==> !Settled(futures, entries[j]);
    var j: nat :| j < |entries| && entries[j] == d;
    assert Precedes(entries, i, j, rank);
  }

  lemma RunSnoc(start: System, actions: seq<Action>, i: nat, f: nat)
    requires actions != [] && i < |actions| - 1
    ensures LetGoAt(start, actions[..|actions| - 1], i, f) <==> LetGoAt(start, actions, i, f)
  {
    assert actions[..|actions| - 1][..i] == actions[..i];
  }

  /** After the run, future f is as it was after n actions, and its entry is held unless one of the others let it go. */
  ghost predicate HeldOrLetGo(start: System, actions: seq<Action>, n: nat, f: nat, future: Future) {
    var after := Run(start, actions).registry;
    && f < |after.futures| && after.futures[f] == future
    && (Holds(after.entries, f) || exists i :: n <= i < |actions| && LetGoAt(start, actions, i, f))
  }

  lemma HeldFurther(start: System, actions: seq<Action>, n: nat, f: nat, future: Future)
    requires Invariant(start) && start.registry.entries == [] && n < |actions| && future.state.Done?
    requires HeldOrLetGo(start, actions[..|actions| - 1], n, f, future)
    ensures HeldOrLetGo(start, actions, n, f, future)
  {
    HeldOneStep(start, actions, f);
    LetGoBefore(start, actions, n, f);
  }

  /** Over the rest of a run, a held result is still held and unchanged unless some action of it let it go. */
  lemma {:induction false} HeldUntilLetGo(start: System, actions: seq<Action>, n: nat, f: nat)
    requires Invariant(start) && start.registry.entries == [] && n <= |actions|
    requires var r := Run(start, actions[..n]).registry;
             f < |r.futures| && r.futures[f].state.Done? && Holds(r.entries, f)
    ensures HeldOrLetGo(start, actions, n, f, Run(start, actions[..n]).registry.futures[f])
    decreases |actions|
  {
    if |actions| == n {
      assert actions[..n] == actions;
    } else {
      var future := Run(start, actions[..n]).registry.futures[f];
      assert actions[..|actions| - 1][..n] == actions[..n];
      HeldUntilLetGo(start, actions[..|actions| - 1], n, f);
      assert HeldOrLetGo(start, actions[..|actions| - 1], n, f, future);
      HeldFurther(start, actions, n, f, future);
    }
  }

  lemma LetGoBefore(start: System, actions: seq<Action>, n: nat, f: nat)
    requires actions != [] && n <= |actions| - 1
    ensures var m := |actions| - 1;
            (exists i :: n <= i < m && LetGoAt(start, actions[..m], i, f)) ==>
              exists i :: n <= i < |actions| && LetGoAt(start, actions, i, f)
  {
    var m := |actions| - 1;
    if i :| n <= i < m && LetGoAt(start, actions[..m], i, f) {
      RunSnoc(start, actions, i, f);
    }
  }

  lemma HeldOneStep(start: System, actions: seq<Action>, f: nat)
    requires Invariant(start) && start.registry.entries == [] && actions != []
    requires var r := Run(start, actions[..|actions| - 1]).registry;
             f < |r.futures| && r.futures[f].state.Done?
    ensures var r, after := Run(start, actions[..|actions| - 1]).registry, Run(start, actions).registry;
            && f < |after.futures| && after.futures[f] == r.futures[f]
            && (Holds(r.entries, f) ==> Holds(after.entries, f) || LetGoAt(start, actions, |actions| - 1, f))
  {
    var m := |actions| - 1;
    var s := Run(start, actions[..m]);
    RunKeepsInvariant(start, actions[..m]);
    StepKeepsOrLetsGo(s, actions[m], f);
    if LetGo(s, actions[m], f) {
      var e :| e in s.registry.entries && e.future == f && Settled(s.registry.futures, e)
               && (s.now >= s.registry.futures[f].completedAt + s.registry.ttl
                   || FairlyEvicted(s.registry.(entries := Purge(s.registry.entries, s.registry.futures, s.now)),
                                    actions[m].compound, e));
      if s.now < s.registry.futures[f].completedAt + s.registry.ttl {
        FirstIdleIsLeastRecent(start, actions[..m], actions[m].compound, e);
      }
    }
  }

  /**
   Bounded re-execution.  Once an accepted result is held, its key's operation runs again only after an
   action that let the result go: one TTL past its completion, or evicted from a full registry as the
   least recently used of the entries not in flight.
   */
  lemma RunsAgainOnlyAfterLetGo(capacity: nat, ttl: real, now: real, actions: seq<Action>, n: nat,
                                e: Entry, caller: nat)
    requires capacity > 0 && n <= |actions|
    requires var r := Run(Start(capacity, ttl, now), actions[..n]).registry;
             e in r.entries && Settled(r.futures, e)
    ensures var start := Start(capacity, ttl, now);
            RunsKey(Run(start, actions), caller, e.compound) ==>
              exists i :: n <= i < |actions| && LetGoAt(start, actions, i, e.future)
  {
    var start := Start(capacity, ttl, now);
    RunKeepsInvariant(start, actions[..n]);
    assert EntryOk(Run(start, actions[..n]).registry, e);
    HeldUntilLetGo(start, actions, n, e.future);
    RunKeepsInvariant(start, actions);
    if RunsKey(Run(start, actions), caller, e.compound) {
      RunningIsNotHeld(Run(start, actions), caller, e);
    }
  }

  /**
   An eviction is of the least recently used.  When a first section drops an entry whose result is still
   reusable, every slot was live, the key had none, and of all the other entries not in flight none was
   used less recently.
   */
  lemma EvictsTheLeastRecentlyUsed(capacity: nat, ttl: real, now: real, actions: seq<Action>,
                                   caller: nat, compound: Compound, fingerprint: string, e: Entry)
    requires capacity > 0
    requires var s := Run(Start(capacity, ttl, now), actions);
             caller !in s.calls && Live(s, e)
             && !Holds(Step(s, Enter(caller, compound, fingerprint)).registry.entries, e.future)
    ensures Reusable(Run(Start(capacity, ttl, now), actions), e.future)
    ensures LeastRecentlyUsed(Start(capacity, ttl, now), actions, compound, e.future)
  {
    var start := Start(capacity, ttl, now);
    var s := Run(start, actions);
    RunKeepsInvariant(start, actions);
    assert EntryOk(s.registry, e);
    EnterRemovesFairly(s.registry, s.now, caller, compound, fingerprint, e);
    FirstIdleIsLeastRecent(start, actions, compound, e);
  }
}
