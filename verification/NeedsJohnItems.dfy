/** What every derived item says, and in what order they are listed. */
module NeedsJohnItems {
  import opened Wrappers
  import opened MissionSnapshots
  import opened Ordering
  import opened NeedsJohn
  import opened NeedsJohnLaws

  // ---- the items the rules call for, spelled out

  function IdFor(kind: string, missionId: string, entity: string, digest: Digest): string {
    var sep := [0x1f as char];
    "needs_john_" + digest("fleet.needs_john.rules.v1" + sep + kind + sep + missionId + sep + entity)
  }

  predicate TellsOfLease(s: Snapshot, l: Lease, version: string, digest: Digest, item: Item) {
    item == Item(IdFor("expired_lease", s.missionId, l.claimId, digest), "expired_lease", s.missionId, Some(l.taskId),
                 l.staleAfter,
                 ["mission:" + s.missionId, "task:" + l.taskId, "claim:" + l.claimId]
                 + if l.attemptId != "" then ["attempt:" + l.attemptId] else [],
                 version, s.observedAt)
  }

  /** The records that a mission's state rests on. */
  function StateRefs(s: Snapshot): seq<string> {
    var state := s.reconciliation.Text();
    if state in {"conflicting_active_claims", "active_claim_without_run", "expired_lease"} then
      Prefixed("claim:", ClaimIds(s))
    else if state in {"needs_task_projection", "missing_terminal_receipt", "conflicting_terminal_evidence"} then
      AttemptAndReceiptRefs(s)
    else []
  }

  function AttemptAndReceiptRefs(s: Snapshot): seq<string> {
    Prefixed("attempt:", AttemptIds(s)) + Prefixed("receipt:", ReceiptIds(s))
  }

  /** The evidence for it: mission and state, then those records as far as 32 references reach. */
  function StateEvidence(s: Snapshot): seq<string> {
    var all := ["mission:" + s.missionId, "reconciliation:" + s.reconciliation.Text()] + StateRefs(s);
    if |all| <= 32 then all else all[..32]
  }

  predicate TellsOfMission(s: Snapshot, version: string, digest: Digest, item: Item) {
    var state := s.reconciliation.Text();
    item == Item(IdFor(state, s.missionId, state, digest), state, s.missionId, None, None, StateEvidence(s), version,
                 s.observedAt)
  }

  predicate TellsOfTask(s: Snapshot, t: Task, kind: string, version: string, digest: Digest, item: Item) {
    item == Item(IdFor(kind, s.missionId, t.taskId, digest), kind, s.missionId, Some(t.taskId), None,
                 ["mission:" + s.missionId, "task:" + t.taskId], version, s.observedAt)
  }

  lemma IdsAgree(kind: string, missionId: string, entity: string, digest: Digest)
    ensures StableItemId(kind, missionId, entity, digest) == IdFor(kind, missionId, entity, digest)
  {
  }

  // ---- the evidence

  lemma KeepsDistinct(refs: seq<string>)
    requires Distinct(refs)
    ensures Evidence(refs) == if |refs| <= 32 then refs else refs[..32]
  {
    FirstOccurrencesDistinct(refs);
  }

  lemma LeaseEvidence(s: Snapshot, l: Lease)
    ensures var refs := ["mission:" + s.missionId, "task:" + l.taskId, "claim:" + l.claimId]
                        + if l.attemptId != "" then ["attempt:" + l.attemptId] else [];
            Evidence(refs) == refs
  {
    var refs := ["mission:" + s.missionId, "task:" + l.taskId, "claim:" + l.claimId]
                + if l.attemptId != "" then ["attempt:" + l.attemptId] else [];
    assert refs[0][0] == 'm' && refs[1][0] == 't' && refs[2][0] == 'c' && (|refs| > 3 ==> refs[3][0] == 'a');
    KeepsDistinct(refs);
  }

  lemma TaskEvidence(s: Snapshot, t: Task)
    ensures var refs := ["mission:" + s.missionId, "task:" + t.taskId];
            Evidence(refs) == refs
  {
    var refs := ["mission:" + s.missionId, "task:" + t.taskId];
    assert refs[0][0] == 'm' && refs[1][0] == 't';
    KeepsDistinct(refs);
  }

  lemma PrefixedDistinct(prefix: string, ids: seq<string>)
    requires Distinct(ids)
    ensures Distinct(Prefixed(prefix, ids))
  {
    var refs := Prefixed(prefix, ids);
    forall i, j | 0 <= i < j < |refs| ensures refs[i] != refs[j] {
      assert refs[i][|prefix|..] == ids[i] && refs[j][|prefix|..] == ids[j];
    }
  }

  /** References of two sorts differ where their prefixes do. */
  lemma PrefixesApart(p: string, a: seq<string>, q: string, b: seq<string>, k: nat)
    requires k < |p| && k < |q| && p[k] != q[k] && Distinct(a) && Distinct(b)
    ensures Distinct(Prefixed(p, a) + Prefixed(q, b))
  {
    PrefixedDistinct(p, a);
    PrefixedDistinct(q, b);
    forall x <- Prefixed(p, a) ensures x !in Prefixed(q, b) {
      var i :| 0 <= i < |a| && Prefixed(p, a)[i] == x;
      assert x[k] == p[k];
      forall j | 0 <= j < |b| ensures Prefixed(q, b)[j][k] == q[k] {
      }
    }
    ConcatDistinct(Prefixed(p, a), Prefixed(q, b));
  }

  lemma ReceiptStarts(x: string)
    ensures "receipt:" <= x ==> |x| > 3 && x[0] == 'r' && x[3] == 'e'
  {
    assert "receipt:" <= x ==> x[0] == "receipt:"[0] && x[3] == "receipt:"[3];
  }

  lemma HeadsApart(mission: string, state: string, rest: seq<string>)
    requires Distinct(rest) && forall x <- rest :: x != "" && (x[0] == 'c' || x[0] == 'a' || "receipt:" <= x)
    ensures Distinct(["mission:" + mission, "reconciliation:" + state] + rest)
  {
    var heads := ["mission:" + mission, "reconciliation:" + state];
    assert heads[0][0] == 'm' && heads[1][0] == 'r' && heads[1][3] == 'o';
    forall x <- heads ensures x !in rest {
      ReceiptStarts(x);
    }
    ConcatDistinct(heads, rest);
  }

  lemma ClaimRefsDistinct(s: Snapshot)
    requires RecordsBelong(s)
    ensures var refs := Prefixed("claim:", ClaimIds(s));
            Distinct(refs) && forall x <- refs :: x != "" && x[0] == 'c'
  {
    AcceptedIdsDistinct(s);
    PrefixedDistinct("claim:", ClaimIds(s));
  }

  lemma OtherRefsDistinct(s: Snapshot)
    requires RecordsBelong(s)
    ensures var refs := AttemptAndReceiptRefs(s);
            Distinct(refs) && forall x <- refs :: x != "" && (x[0] == 'a' || "receipt:" <= x)
  {
    AcceptedIdsDistinct(s);
    PrefixesApart("attempt:", AttemptIds(s), "receipt:", ReceiptIds(s), 0);
    forall x <- Prefixed("receipt:", ReceiptIds(s)) ensures "receipt:" <= x {
    }
  }

  lemma StateRefsDistinct(s: Snapshot)
    requires RecordsBelong(s)
    ensures Distinct(["mission:" + s.missionId, "reconciliation:" + s.reconciliation.Text()] + StateRefs(s))
  {
    ClaimRefsDistinct(s);
    OtherRefsDistinct(s);
    HeadsApart(s.missionId, s.reconciliation.Text(), StateRefs(s));
  }

  lemma StateRefsByState(s: Snapshot)
    ensures var state := s.reconciliation;
            StateRefs(s) ==
              if state.ConflictingActiveClaims? || state.ActiveClaimWithoutRun? || state.ExpiredLease?
              then Prefixed("claim:", ClaimIds(s))
              else if state.NeedsTaskProjection? || state.MissingTerminalReceipt? || state.ConflictingTerminalEvidence?
              then AttemptAndReceiptRefs(s)
              else []
  {
    TextsDiffer(s.reconciliation, State.ConflictingActiveClaims);
    TextsDiffer(s.reconciliation, State.ActiveClaimWithoutRun);
    TextsDiffer(s.reconciliation, State.ExpiredLease);
    TextsDiffer(s.reconciliation, State.NeedsTaskProjection);
    TextsDiffer(s.reconciliation, State.MissingTerminalReceipt);
    TextsDiffer(s.reconciliation, State.ConflictingTerminalEvidence);
  }

  lemma SameRefs(s: Snapshot)
    ensures ReconciliationEvidence(s)
         == Evidence(["mission:" + s.missionId, "reconciliation:" + s.reconciliation.Text()] + StateRefs(s))
  {
    var heads := ["mission:" + s.missionId, "reconciliation:" + s.reconciliation.Text()];
    var claims, others := Prefixed("claim:", ClaimIds(s)), AttemptAndReceiptRefs(s);
    StateRefsByState(s);
    assert heads + claims + [] == heads + claims;
    assert heads + [] + others == heads + others;
    assert heads + [] + [] == heads + [];
  }

  lemma MissionEvidence(s: Snapshot)
    requires RecordsBelong(s)
    ensures ReconciliationEvidence(s) == StateEvidence(s)
  {
    SameRefs(s);
    StateRefsDistinct(s);
    KeepsDistinct(["mission:" + s.missionId, "reconciliation:" + s.reconciliation.Text()] + StateRefs(s));
  }

  // ---- what each item says

  lemma LeaseItemTells(s: Snapshot, l: Lease, version: string, digest: Digest, item: Item)
    ensures item == LeaseItem(s, l, version, digest) <==> TellsOfLease(s, l, version, digest, item)
  {
    LeaseEvidence(s, l);
    IdsAgree("expired_lease", s.missionId, l.claimId, digest);
  }

  lemma MissionItemTells(s: Snapshot, version: string, digest: Digest, item: Item)
    requires RecordsBelong(s)
    ensures item == MissionItem(s, version, digest) <==> TellsOfMission(s, version, digest, item)
  {
    MissionEvidence(s);
    IdsAgree(s.reconciliation.Text(), s.missionId, s.reconciliation.Text(), digest);
  }

  lemma TaskItemTells(s: Snapshot, t: Task, fold: Fold, version: string, digest: Digest, item: Item)
    ensures (TaskKind(fold(t.status)).Some? && item == TaskItem(s, t, TaskKind(fold(t.status)).value, version, digest))
       <==> TaskTold(s, t, fold, version, digest, item)
  {
    TaskKindIsAttention(fold(t.status), item.kind);
    TaskEvidence(s, t);
    IdsAgree(item.kind, s.missionId, t.taskId, digest);
  }

  // ---- which items there are

  ghost predicate LeaseTold(s: Snapshot, l: Lease, version: string, digest: Digest, item: Item) {
    l.expired && TellsOfLease(s, l, version, digest, item)
  }

  ghost predicate SomeLeaseTold(s: Snapshot, leases: seq<Lease>, version: string, digest: Digest, item: Item) {
    exists l <- leases :: LeaseTold(s, l, version, digest, item)
  }

  ghost predicate TaskTold(s: Snapshot, t: Task, fold: Fold, version: string, digest: Digest, item: Item) {
    Attention(fold(t.status), item.kind) && TellsOfTask(s, t, item.kind, version, digest, item)
  }

  ghost predicate SomeTaskTold(s: Snapshot, tasks: seq<Task>, fold: Fold, version: string, digest: Digest, item: Item) {
    exists t <- tasks :: TaskTold(s, t, fold, version, digest, item)
  }

  lemma OneMoreLease(s: Snapshot, leases: seq<Lease>, version: string, digest: Digest, item: Item)
    requires leases != []
    ensures var n := |leases| - 1;
            SomeLeaseTold(s, leases, version, digest, item) <==>
              SomeLeaseTold(s, leases[..n], version, digest, item) || LeaseTold(s, leases[n], version, digest, item)
  {
    assert forall l :: l in leases <==> l in leases[..|leases| - 1] || l == leases[|leases| - 1];
  }

  lemma OneMoreTask(s: Snapshot, tasks: seq<Task>, fold: Fold, version: string, digest: Digest, item: Item)
    requires tasks != []
    ensures var n := |tasks| - 1;
            SomeTaskTold(s, tasks, fold, version, digest, item) <==>
              SomeTaskTold(s, tasks[..n], fold, version, digest, item)
              || TaskTold(s, tasks[n], fold, version, digest, item)
  {
    assert forall t :: t in tasks <==> t in tasks[..|tasks| - 1] || t == tasks[|tasks| - 1];
  }

  lemma {:induction false} LeaseItemsTell(s: Snapshot, leases: seq<Lease>, version: string, digest: Digest, item: Item)
    ensures item in LeaseItems(s, leases, version, digest) <==> SomeLeaseTold(s, leases, version, digest, item)
  {
    if leases != [] {
      var n := |leases| - 1;
      LeaseItemsTell(s, leases[..n], version, digest, item);
      LeaseItemTells(s, leases[n], version, digest, item);
      OneMoreLease(s, leases, version, digest, item);
    }
  }

  lemma {:induction false} TaskItemsTell(s: Snapshot, tasks: seq<Task>, version: string, fold: Fold, digest: Digest,
                                         item: Item)
    ensures item in TaskItems(s, tasks, version, fold, digest) <==>
              SomeTaskTold(s, tasks, fold, version, digest, item)
  {
    if tasks != [] {
      var n := |tasks| - 1;
      TaskItemsTell(s, tasks[..n], version, fold, digest, item);
      TaskItemTells(s, tasks[n], fold, version, digest, item);
      OneMoreTask(s, tasks, fold, version, digest, item);
    }
  }

  lemma CalledIsListed(s: Snapshot, version: string, fold: Fold, digest: Digest, item: Item)
    requires Accepted(s) && CollisionFree(digest)
    ensures item in Derived(s, version, fold, digest) <==>
              || item in LeaseItems(s, s.leases, version, digest)
              || item in MissionItems(s, version, digest)
              || item in TaskItems(s, s.tasks, version, fold, digest)
  {
    ExactCover(s, version, fold, digest);
    SameMembers(Derived(s, version, fold, digest), Called(s, version, fold, digest));
  }

  lemma MissionItemsTell(s: Snapshot, version: string, digest: Digest, item: Item)
    requires RecordsBelong(s)
    ensures item in MissionItems(s, version, digest) <==> MissionCalls(s) && TellsOfMission(s, version, digest, item)
  {
    MissionItemIsCalledFor(s);
    MissionItemTells(s, version, digest, item);
  }

  /**
   The listing holds exactly the items that the rules call for, and each says exactly what it should: one of
   each expired lease, one of the mission when its state calls for it, and one of each task in one of the
   four statuses.
   */
  lemma ItemsAreSpelledOut(s: Snapshot, version: string, fold: Fold, digest: Digest, item: Item)
    requires Accepted(s) && CollisionFree(digest)
    ensures item in Derived(s, version, fold, digest) <==>
              || SomeLeaseTold(s, s.leases, version, digest, item)
              || (MissionCalls(s) && TellsOfMission(s, version, digest, item))
              || SomeTaskTold(s, s.tasks, fold, version, digest, item)
  {
    CalledIsListed(s, version, fold, digest, item);
    LeaseItemsTell(s, s.leases, version, digest, item);
    TaskItemsTell(s, s.tasks, version, fold, digest, item);
    MissionItemsTell(s, version, digest, item);
  }

  lemma FourKindsAreJoinable(kind: string)
    requires kind in {"blocked_task", "quarantined_task", "input_required", "auth_required"}
    ensures Joinable(kind)
  {
  }

  lemma KindOfNoOther(s: Snapshot, kind: string)
    requires kind in {"blocked_task", "quarantined_task", "input_required", "auth_required"}
    ensures kind != "expired_lease" && kind != s.reconciliation.Text()
  {
    KindsApart(s.reconciliation, "blocked");
    KindsApart(s.reconciliation, "quarantined");
    KindsApart(s.reconciliation, "input-required");
    KindsApart(s.reconciliation, "auth-required");
  }

  /**
   A task of an accepted snapshot has the item of a kind exactly when its folded status is the one that kind
   stands for; in any other status it has none of the four.
   */
  lemma TaskHasItemExactlyInItsStatus(s: Snapshot, version: string, fold: Fold, digest: Digest, t: Task, kind: string)
    requires Accepted(s) && CollisionFree(digest) && t in s.tasks
    requires kind in {"blocked_task", "quarantined_task", "input_required", "auth_required"}
    ensures (exists item <- Derived(s, version, fold, digest) ::
               item.itemId == IdFor(kind, s.missionId, t.taskId, digest)) <==>
              || (fold(t.status) == "blocked" && kind == "blocked_task")
              || (fold(t.status) == "quarantined" && kind == "quarantined_task")
              || (fold(t.status) == "input-required" && kind == "input_required")
              || (fold(t.status) == "auth-required" && kind == "auth_required")
  {
    FourKindsAreJoinable(kind);
    KindOfNoOther(s, kind);
    ItemExactlyWhenSingledOut(s, version, fold, digest, Subject(kind, t.taskId));
    IdsAgree(kind, s.missionId, t.taskId, digest);
    OneTaskPerId(s, t);
    assert SingledOut(s, fold, Subject(kind, t.taskId)) <==> Attention(fold(t.status), kind);
  }

  lemma OneTaskPerId(s: Snapshot, t: Task)
    requires RecordsBelong(s) && t in s.tasks
    ensures forall u <- s.tasks :: u.taskId == t.taskId ==> u == t
  {
    AcceptedIdsDistinct(s);
    forall u <- s.tasks | u.taskId == t.taskId ensures u == t {
      var i :| 0 <= i < |s.tasks| && s.tasks[i] == u;
      var j :| 0 <= j < |s.tasks| && s.tasks[j] == t;
      assert TaskIds(s)[i] == TaskIds(s)[j];
    }
  }

  /** Kinds in ascending order, and identities in ascending order within a kind. */
  lemma ListedInOrder(s: Snapshot, version: string, fold: Fold, digest: Digest, i: nat, j: nat)
    requires i < j < |Derived(s, version, fold, digest)|
    ensures var a, b := Derived(s, version, fold, digest)[i], Derived(s, version, fold, digest)[j];
            LessEq(a.kind, b.kind) && (a.kind == b.kind ==> LessEq(a.itemId, b.itemId))
  {
    SortItemsSorted(PutAll(Called(s, version, fold, digest)));
    var a, b := Derived(s, version, fold, digest)[i], Derived(s, version, fold, digest)[j];
    assert Before(a, b);
    Total(a.kind, b.kind);
  }
}
