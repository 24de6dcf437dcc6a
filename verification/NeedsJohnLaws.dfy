/** What the derived items cover, how they are told apart, and what they do not depend on. */
module NeedsJohnLaws {
  import opened Wrappers
  import opened MissionSnapshots
  import opened Ordering
  import opened Joining
  import opened NeedsJohn

  ghost predicate CollisionFree(digest: Digest) {
    forall x, y :: digest(x) == digest(y) ==> x == y
  }

  /** Texts that may enter the digest: they never hold the separator. */
  predicate Joinable(s: string) {
    SEPARATOR !in s
  }

  /** The text given to the digest determines kind, mission and entity. */
  lemma PreimageInjective(k: string, m: string, e: string, l: string, n: string, f: string)
    requires Joinable(k) && Joinable(m) && Joinable(l) && Joinable(n)
    requires Preimage(k, m, e) == Preimage(l, n, f)
    ensures k == l && m == n && e == f
  {
    var sep := [SEPARATOR];
    assert Preimage(k, m, e) == RULE_VERSION + sep + (k + sep + (m + sep + e));
    assert Preimage(l, n, f) == RULE_VERSION + sep + (l + sep + (n + sep + f));
    assert Joinable(RULE_VERSION);
    JoinInjective(SEPARATOR, RULE_VERSION, k + sep + (m + sep + e), RULE_VERSION, l + sep + (n + sep + f));
    JoinInjective(SEPARATOR, k, m + sep + e, l, n + sep + f);
    JoinInjective(SEPARATOR, m, e, n, f);
  }

  lemma ItemIdInjective(k: string, e: string, l: string, f: string, missionId: string, digest: Digest)
    requires CollisionFree(digest) && Joinable(k) && Joinable(l) && Joinable(missionId)
    ensures StableItemId(k, missionId, e, digest) == StableItemId(l, missionId, f, digest) <==> k == l && e == f
  {
    var x, y := digest(Preimage(k, missionId, e)), digest(Preimage(l, missionId, f));
    assert ("needs_john_" + x)[11..] == x && ("needs_john_" + y)[11..] == y;
    if x == y {
      PreimageInjective(k, missionId, e, l, missionId, f);
    }
  }

  // ---- the subjects the rules call for, in the order of the records

  function LeaseSubjects(leases: seq<Lease>): seq<Subject> {
    if leases == [] then []
    else
      var l := leases[|leases| - 1];
      LeaseSubjects(leases[..|leases| - 1]) + if l.expired then [Subject("expired_lease", l.claimId)] else []
  }

  function MissionSubjects(s: Snapshot): seq<Subject> {
    if NeedsMissionItem(s) then [Subject(s.reconciliation.Text(), s.reconciliation.Text())] else []
  }

  function TaskSubjects(tasks: seq<Task>, fold: Fold): seq<Subject> {
    if tasks == [] then []
    else
      var t := tasks[|tasks| - 1];
      TaskSubjects(tasks[..|tasks| - 1], fold)
      + match TaskKind(fold(t.status)) case None => [] case Some(kind) => [Subject(kind, t.taskId)]
  }

  function Subjects(s: Snapshot, fold: Fold): seq<Subject> {
    LeaseSubjects(s.leases) + MissionSubjects(s) + TaskSubjects(s.tasks, fold)
  }

  /** The statuses that call for attention, each with the kind of its item. */
  predicate Attention(status: string, kind: string) {
    || (status == "blocked" && kind == "blocked_task")
    || (status == "quarantined" && kind == "quarantined_task")
    || (status == "input-required" && kind == "input_required")
    || (status == "auth-required" && kind == "auth_required")
  }

  /** The mission's own state calls for an item: it is not coherent, nor an expiry that a lease tells of. */
  ghost predicate MissionCalls(s: Snapshot) {
    s.reconciliation.Text() != "coherent"
    && (s.reconciliation.Text() == "expired_lease" ==> forall l <- s.leases :: !l.expired)
  }

  /** Independently of any order: what the rules single out. */
  ghost predicate SingledOut(s: Snapshot, fold: Fold, x: Subject) {
    || (x.kind == "expired_lease" && exists l <- s.leases :: l.expired && l.claimId == x.entity)
    || (MissionCalls(s) && x.kind == s.reconciliation.Text() && x.entity == x.kind)
    || (exists t <- s.tasks :: Attention(fold(t.status), x.kind) && t.taskId == x.entity)
  }

  lemma MissionItemIsCalledFor(s: Snapshot)
    ensures NeedsMissionItem(s) <==> MissionCalls(s)
  {
    TextsDiffer(s.reconciliation, State.Coherent);
    TextsDiffer(s.reconciliation, State.ExpiredLease);
  }

  lemma TaskKindIsAttention(status: string, kind: string)
    ensures TaskKind(status) == Some(kind) <==> Attention(status, kind)
  {
  }

  lemma {:induction false} LeaseSubjectsMeaning(leases: seq<Lease>)
    ensures forall x :: x in LeaseSubjects(leases) <==>
              x.kind == "expired_lease" && exists l <- leases :: l.expired && l.claimId == x.entity
  {
    if leases != [] {
      var n := |leases| - 1;
      LeaseSubjectsMeaning(leases[..n]);
      assert forall l :: l in leases <==> l in leases[..n] || l == leases[n];
    }
  }

  lemma {:induction false} TaskSubjectsMeaning(tasks: seq<Task>, fold: Fold)
    ensures forall x :: x in TaskSubjects(tasks, fold) <==>
              exists t <- tasks :: TaskKind(fold(t.status)) == Some(x.kind) && t.taskId == x.entity
  {
    if tasks != [] {
      var n := |tasks| - 1;
      TaskSubjectsMeaning(tasks[..n], fold);
      assert forall t :: t in tasks <==> t in tasks[..n] || t == tasks[n];
    }
  }

  lemma SubjectsAreThoseSingledOut(s: Snapshot, fold: Fold)
    ensures forall x :: x in Subjects(s, fold) <==> SingledOut(s, fold, x)
  {
    LeaseSubjectsMeaning(s.leases);
    TaskSubjectsMeaning(s.tasks, fold);
    MissionItemIsCalledFor(s);
    forall x ensures x in Subjects(s, fold) <==> SingledOut(s, fold, x) {
      assert x in Subjects(s, fold) <==>
        x in LeaseSubjects(s.leases) || x in MissionSubjects(s) || x in TaskSubjects(s.tasks, fold);
      forall t: Task ensures TaskKind(fold(t.status)) == Some(x.kind) <==> Attention(fold(t.status), x.kind) {
        TaskKindIsAttention(fold(t.status), x.kind);
      }
    }
  }

  lemma {:induction false} LeaseSubjectsDistinct(leases: seq<Lease>)
    requires forall i, j :: 0 <= i < j < |leases| ==> leases[i].claimId != leases[j].claimId
    ensures Distinct(LeaseSubjects(leases))
  {
    if leases != [] {
      var n := |leases| - 1;
      LeaseSubjectsDistinct(leases[..n]);
      LeaseSubjectsMeaning(leases[..n]);
      assert Subject("expired_lease", leases[n].claimId) !in LeaseSubjects(leases[..n]);
    }
  }

  lemma {:induction false} TaskSubjectsDistinct(tasks: seq<Task>, fold: Fold)
    requires forall i, j :: 0 <= i < j < |tasks| ==> tasks[i].taskId != tasks[j].taskId
    ensures Distinct(TaskSubjects(tasks, fold))
  {
    if tasks != [] {
      var n := |tasks| - 1;
      TaskSubjectsDistinct(tasks[..n], fold);
      TaskSubjectsMeaning(tasks[..n], fold);
      assert forall x <- TaskSubjects(tasks[..n], fold) :: x.entity != tasks[n].taskId;
    }
  }

  lemma StateTextLength(state: State)
    ensures |state.Text()| !in {12, 14, 16}
    ensures |state.Text()| == 13 <==> state.ExpiredLease?
  {
  }

  /** The kinds of the three rules never coincide, except for expired leases, which the guard keeps apart. */
  lemma KindsApart(state: State, status: string)
    ensures TaskKind(status).Some? ==>
              TaskKind(status).value != state.Text() && TaskKind(status).value != "expired_lease"
    ensures state.Text() == "expired_lease" <==> state.ExpiredLease?
  {
    StateTextLength(state);
    assert TaskKind(status).Some? ==>
      var kind := TaskKind(status).value;
      |kind| in {12, 14, 16} || (|kind| == 13 && kind[0] == 'a');
    assert State.ExpiredLease.Text()[0] == 'e';
  }

  lemma ClaimStatesJoinable()
    ensures Joinable("conflicting_active_claims") && Joinable("active_claim_without_run") && Joinable("expired_lease")
  {
  }

  lemma EvidenceStatesJoinable()
    ensures Joinable("evidence_scan_saturated") && Joinable("conflicting_terminal_evidence")
    ensures Joinable("missing_terminal_receipt")
  {
  }

  lemma OtherStatesJoinable()
    ensures Joinable("coherent") && Joinable("needs_task_projection") && Joinable("foreign_runtime_record")
  {
  }

  lemma StateTextJoinable(state: State)
    ensures Joinable(state.Text())
  {
    ClaimStatesJoinable();
    EvidenceStatesJoinable();
    OtherStatesJoinable();
  }

  lemma TaskKindJoinable(status: string)
    ensures TaskKind(status).Some? ==> Joinable(TaskKind(status).value)
  {
  }

  lemma ConcatDistinct<T>(a: seq<T>, b: seq<T>)
    requires Distinct(a) && Distinct(b) && forall x <- a :: x !in b
    ensures Distinct(a + b)
  {
    forall i, j | 0 <= i < j < |a + b| ensures (a + b)[i] != (a + b)[j] {
      if i < |a| <= j {
        assert a[i] in a && b[j - |a|] in b;
      }
    }
  }

  lemma SubjectsDistinct(s: Snapshot, fold: Fold)
    requires RecordsBelong(s)
    ensures Distinct(Subjects(s, fold))
  {
    AcceptedIdsDistinct(s);
    forall i, j | 0 <= i < j < |s.leases| ensures s.leases[i].claimId != s.leases[j].claimId {
      assert ClaimIds(s)[i] != ClaimIds(s)[j];
    }
    forall i, j | 0 <= i < j < |s.tasks| ensures s.tasks[i].taskId != s.tasks[j].taskId {
      assert TaskIds(s)[i] != TaskIds(s)[j];
    }
    LeaseSubjectsDistinct(s.leases);
    TaskSubjectsDistinct(s.tasks, fold);
    RulesApart(s, fold);
    ConcatDistinct(LeaseSubjects(s.leases), MissionSubjects(s));
    ConcatDistinct(LeaseSubjects(s.leases) + MissionSubjects(s), TaskSubjects(s.tasks, fold));
  }

  lemma RulesApart(s: Snapshot, fold: Fold)
    ensures forall x <- LeaseSubjects(s.leases) :: x !in MissionSubjects(s) && x !in TaskSubjects(s.tasks, fold)
    ensures forall x <- MissionSubjects(s) :: x !in TaskSubjects(s.tasks, fold)
  {
    LeaseSubjectsMeaning(s.leases);
    TaskSubjectsMeaning(s.tasks, fold);
    forall t: Task
      ensures TaskKind(fold(t.status)).Some? ==>
                TaskKind(fold(t.status)).value != s.reconciliation.Text()
                && TaskKind(fold(t.status)).value != "expired_lease"
    {
      KindsApart(s.reconciliation, fold(t.status));
    }
    KindsApart(s.reconciliation, "");
  }

  // ---- from subjects to items

  /** Item i is the item for subject i. */
  ghost predicate For(items: seq<Item>, subjects: seq<Subject>, missionId: string, digest: Digest) {
    && |items| == |subjects|
    && forall i :: 0 <= i < |items| ==>
         && items[i].kind == subjects[i].kind
         && items[i].itemId == StableItemId(subjects[i].kind, missionId, subjects[i].entity, digest)
  }

  lemma {:induction false} LeaseItemsFor(s: Snapshot, leases: seq<Lease>, version: string, digest: Digest)
    ensures For(LeaseItems(s, leases, version, digest), LeaseSubjects(leases), s.missionId, digest)
  {
    if leases != [] {
      LeaseItemsFor(s, leases[..|leases| - 1], version, digest);
    }
  }

  lemma {:induction false} TaskItemsFor(s: Snapshot, tasks: seq<Task>, version: string, fold: Fold, digest: Digest)
    ensures For(TaskItems(s, tasks, version, fold, digest), TaskSubjects(tasks, fold), s.missionId, digest)
  {
    if tasks != [] {
      TaskItemsFor(s, tasks[..|tasks| - 1], version, fold, digest);
    }
  }

  lemma CalledFor(s: Snapshot, version: string, fold: Fold, digest: Digest)
    ensures For(Called(s, version, fold, digest), Subjects(s, fold), s.missionId, digest)
  {
    LeaseItemsFor(s, s.leases, version, digest);
    TaskItemsFor(s, s.tasks, version, fold, digest);
  }

  ghost predicate IdsDistinct(items: seq<Item>) {
    forall i, j :: 0 <= i < j < |items| ==> items[i].itemId != items[j].itemId
  }

  lemma SubjectsJoinable(s: Snapshot, fold: Fold)
    ensures forall x <- Subjects(s, fold) :: Joinable(x.kind)
  {
    SubjectsAreThoseSingledOut(s, fold);
    forall x <- Subjects(s, fold) ensures Joinable(x.kind) {
      ClaimStatesJoinable();
      StateTextJoinable(s.reconciliation);
      assert SingledOut(s, fold, x);
      if t :| t in s.tasks && TaskKind(fold(t.status)) == Some(x.kind) {
        TaskKindJoinable(fold(t.status));
      }
    }
  }

  /** No two items of one snapshot share an identity. */
  lemma CalledIdsDistinct(s: Snapshot, version: string, fold: Fold, digest: Digest)
    requires Accepted(s) && CollisionFree(digest)
    ensures IdsDistinct(Called(s, version, fold, digest))
  {
    var items, subjects := Called(s, version, fold, digest), Subjects(s, fold);
    CalledFor(s, version, fold, digest);
    SubjectsDistinct(s, fold);
    SubjectsJoinable(s, fold);
    assert Joinable(s.missionId);
    forall i, j | 0 <= i < j < |items| ensures items[i].itemId != items[j].itemId {
      assert subjects[i] in subjects && subjects[j] in subjects;
      ItemIdInjective(subjects[i].kind, subjects[i].entity, subjects[j].kind, subjects[j].entity, s.missionId, digest);
    }
  }

  lemma {:induction false} PutNew(items: seq<Item>, item: Item)
    requires forall x <- items :: x.itemId != item.itemId
    ensures Put(items, item) == items + [item]
  {
    if items != [] {
      assert items[0] in items;
      PutNew(items[1..], item);
      assert items == [items[0]] + items[1..];
    }
  }

  lemma {:induction false} PutAllDistinct(items: seq<Item>)
    requires IdsDistinct(items)
    ensures PutAll(items) == items
  {
    if items != [] {
      var n := |items| - 1;
      PutAllDistinct(items[..n]);
      PutNew(items[..n], items[n]);
      assert items == items[..n] + [items[n]];
    }
  }

  lemma {:induction false} InsertItemMembers(item: Item, sorted: seq<Item>)
    ensures multiset(InsertItem(item, sorted)) == multiset(sorted) + multiset{item}
  {
    if sorted != [] && !Before(item, sorted[0]) {
      InsertItemMembers(item, sorted[1..]);
      assert sorted == [sorted[0]] + sorted[1..];
    }
  }

  lemma {:induction false} SortItemsMembers(items: seq<Item>)
    ensures multiset(SortItems(items)) == multiset(items)
  {
    if items != [] {
      SortItemsMembers(items[1..]);
      InsertItemMembers(items[0], SortItems(items[1..]));
      assert items == [items[0]] + items[1..];
    }
  }

  /**
   Exact cover.  The items of an accepted snapshot are, as a collection, exactly one per subject: one
   for each expired lease, one for each task in an attention status, and one for the mission exactly
   when its state is not coherent and not already told by expired leases.
   */
  lemma ExactCover(s: Snapshot, version: string, fold: Fold, digest: Digest)
    requires Accepted(s) && CollisionFree(digest)
    ensures multiset(Derived(s, version, fold, digest)) == multiset(Called(s, version, fold, digest))
    ensures IdsDistinct(Called(s, version, fold, digest))
    ensures For(Called(s, version, fold, digest), Subjects(s, fold), s.missionId, digest)
    ensures Distinct(Subjects(s, fold)) && forall x :: x in Subjects(s, fold) <==> SingledOut(s, fold, x)
  {
    CalledIdsDistinct(s, version, fold, digest);
    PutAllDistinct(Called(s, version, fold, digest));
    SortItemsMembers(Called(s, version, fold, digest));
    CalledFor(s, version, fold, digest);
    SubjectsDistinct(s, fold);
    SubjectsAreThoseSingledOut(s, fold);
  }

  /** A subject has an item of its identity exactly when the rules single it out. */
  lemma ItemExactlyWhenSingledOut(s: Snapshot, version: string, fold: Fold, digest: Digest, x: Subject)
    requires Accepted(s) && CollisionFree(digest) && Joinable(x.kind)
    ensures SingledOut(s, fold, x) <==>
              exists item <- Derived(s, version, fold, digest) ::
                item.itemId == StableItemId(x.kind, s.missionId, x.entity, digest)
  {
    ExactCover(s, version, fold, digest);
    SubjectsJoinable(s, fold);
    assert Joinable(s.missionId);
    ItemExactlyForSubject(Called(s, version, fold, digest), Subjects(s, fold), s.missionId, digest, x);
    SameMembers(Derived(s, version, fold, digest), Called(s, version, fold, digest));
  }

  lemma ItemExactlyForSubject(items: seq<Item>, subjects: seq<Subject>, missionId: string, digest: Digest, x: Subject)
    requires For(items, subjects, missionId, digest) && CollisionFree(digest)
    requires Joinable(missionId) && Joinable(x.kind) && forall y <- subjects :: Joinable(y.kind)
    ensures x in subjects <==>
              exists item <- items :: item.itemId == StableItemId(x.kind, missionId, x.entity, digest)
  {
    if x in subjects {
      var i :| 0 <= i < |subjects| && subjects[i] == x;
      assert items[i] in items;
    }
    if item :| item in items && item.itemId == StableItemId(x.kind, missionId, x.entity, digest) {
      var i :| 0 <= i < |items| && items[i] == item;
      assert subjects[i] in subjects;
      ItemIdInjective(subjects[i].kind, subjects[i].entity, x.kind, x.entity, missionId, digest);
    }
  }

  lemma SameMembers<T>(a: seq<T>, b: seq<T>)
    requires multiset(a) == multiset(b)
    ensures |a| == |b| && forall x :: x in a <==> x in b
  {
    assert |a| == |multiset(a)| && |b| == |multiset(b)|;
    assert forall x :: x in a <==> x in multiset(a);
    assert forall x :: x in b <==> x in multiset(b);
  }

  // ---- what the identities do not depend on

  /** The listing's order, kinds and identities. */
  function Identities(items: seq<Item>): (ids: seq<(string, string)>)
    ensures |ids| == |items|
    ensures forall i :: 0 <= i < |items| ==> ids[i] == (items[i].kind, items[i].itemId)
  {
    seq(|items|, i requires 0 <= i < |items| => (items[i].kind, items[i].itemId))
  }

  ghost predicate SortedItems(items: seq<Item>) {
    forall i, j :: 0 <= i < j < |items| ==> Before(items[i], items[j])
  }

  lemma BeforeTotal(a: Item, b: Item)
    ensures Before(a, b) || Before(b, a)
  {
    Total(a.kind, b.kind);
    Total(a.itemId, b.itemId);
  }

  lemma BeforeTransitive(a: Item, b: Item, c: Item)
    requires Before(a, b) && Before(b, c)
    ensures Before(a, c)
  {
    if a.kind == b.kind == c.kind {
      Transitive(a.itemId, b.itemId, c.itemId);
    } else if a.kind != b.kind && b.kind != c.kind {
      Transitive(a.kind, b.kind, c.kind);
      if a.kind == c.kind {
        Antisymmetric(a.kind, b.kind);
      }
    }
  }

  lemma BeforeAntisymmetric(a: Item, b: Item)
    requires Before(a, b) && Before(b, a)
    ensures a.kind == b.kind && a.itemId == b.itemId
  {
    if a.kind != b.kind {
      Antisymmetric(a.kind, b.kind);
    } else {
      Antisymmetric(a.itemId, b.itemId);
    }
  }

  lemma {:induction false} InsertItemSorted(item: Item, sorted: seq<Item>)
    requires SortedItems(sorted)
    ensures SortedItems(InsertItem(item, sorted))
  {
    if sorted != [] {
      BeforeTotal(item, sorted[0]);
      if Before(item, sorted[0]) {
        forall i | 1 <= i < |sorted| ensures Before(item, sorted[i]) {
          BeforeTransitive(item, sorted[0], sorted[i]);
        }
      } else {
        InsertItemSorted(item, sorted[1..]);
        var rest := InsertItem(item, sorted[1..]);
        InsertItemMembers(item, sorted[1..]);
        forall x <- rest ensures Before(sorted[0], x) {
          assert x in multiset(rest);
          assert x == item || x in sorted[1..];
        }
      }
    }
  }

  lemma {:induction false} SortItemsSorted(items: seq<Item>)
    ensures SortedItems(SortItems(items))
  {
    if items != [] {
      SortItemsSorted(items[1..]);
      InsertItemSorted(items[0], SortItems(items[1..]));
    }
  }

  /** Two sorted listings of the same identities, each once, list them alike. */
  lemma {:induction false} SortedListingsAgree(a: seq<Item>, b: seq<Item>)
    requires SortedItems(a) && SortedItems(b) && Distinct(Identities(a)) && Distinct(Identities(b))
    requires forall x :: x in Identities(a) <==> x in Identities(b)
    ensures Identities(a) == Identities(b)
  {
    assert a != [] ==> Identities(a)[0] in Identities(a);
    assert b != [] ==> Identities(b)[0] in Identities(b);
    if a != [] && b != [] {
      var x, y := Identities(a)[0], Identities(b)[0];
      var i :| 0 <= i < |b| && Identities(b)[i] == x;
      var j :| 0 <= j < |a| && Identities(a)[j] == y;
      SameHead(a, b, i, j);
      TailIdentities(a);
      TailIdentities(b);
      SortedListingsAgree(a[1..], b[1..]);
    }
  }

  lemma SameHead(a: seq<Item>, b: seq<Item>, i: nat, j: nat)
    requires SortedItems(a) && SortedItems(b) && i < |b| && j < |a|
    requires Identities(b)[i] == Identities(a)[0] && Identities(a)[j] == Identities(b)[0]
    ensures Identities(a)[0] == Identities(b)[0]
  {
    if i > 0 && j > 0 {
      assert Before(b[0], b[i]) && Before(a[0], a[j]);
      BeforeAntisymmetric(a[0], b[0]);
    }
  }

  lemma TailIdentities(a: seq<Item>)
    requires a != [] && SortedItems(a) && Distinct(Identities(a))
    ensures Identities(a) == [Identities(a)[0]] + Identities(a[1..])
    ensures SortedItems(a[1..]) && Distinct(Identities(a[1..]))
    ensures forall x :: x in Identities(a[1..]) <==> x in Identities(a) && x != Identities(a)[0]
  {
    assert Identities(a) == [Identities(a)[0]] + Identities(a[1..]);
  }

  /**
   Identities are stable: two accepted snapshots of one mission in the same state, whose leases and
   tasks are the same whatever their order, list the same kinds and identities in the same order,
   however their observation times, source versions, attempts and receipts differ.
   */
  lemma IdentitiesAreStable(s: Snapshot, t: Snapshot, v: string, w: string, fold: Fold, digest: Digest)
    requires Accepted(s) && Accepted(t) && CollisionFree(digest)
    requires s.missionId == t.missionId && s.reconciliation == t.reconciliation
    requires forall l :: l in s.leases <==> l in t.leases
    requires forall k :: k in s.tasks <==> k in t.tasks
    ensures Identities(Derived(s, v, fold, digest)) == Identities(Derived(t, w, fold, digest))
  {
    IdentitiesOfDerived(s, v, fold, digest);
    IdentitiesOfDerived(t, w, fold, digest);
    forall x: (string, string) { SameIdentity(s, t, fold, digest, x); }
    SortItemsSorted(PutAll(Called(s, v, fold, digest)));
    SortItemsSorted(PutAll(Called(t, w, fold, digest)));
    SortedListingsAgree(Derived(s, v, fold, digest), Derived(t, w, fold, digest));
  }

  lemma SameRules(s: Snapshot, t: Snapshot, fold: Fold, y: Subject)
    requires s.missionId == t.missionId && s.reconciliation == t.reconciliation
    requires forall l :: l in s.leases <==> l in t.leases
    requires forall k :: k in s.tasks <==> k in t.tasks
    ensures SingledOut(s, fold, y) <==> SingledOut(t, fold, y)
  {
  }

  lemma SameIdentity(s: Snapshot, t: Snapshot, fold: Fold, digest: Digest, x: (string, string))
    requires s.missionId == t.missionId && s.reconciliation == t.reconciliation
    requires forall l :: l in s.leases <==> l in t.leases
    requires forall k :: k in s.tasks <==> k in t.tasks
    ensures IsIdentity(s, fold, digest, x) <==> IsIdentity(t, fold, digest, x)
  {
    forall y: Subject { SameRules(s, t, fold, y); }
  }

  ghost predicate IsIdentity(s: Snapshot, fold: Fold, digest: Digest, x: (string, string)) {
    exists y: Subject :: SingledOut(s, fold, y) && x == (y.kind, StableItemId(y.kind, s.missionId, y.entity, digest))
  }

  lemma IdentitiesOfDerived(s: Snapshot, v: string, fold: Fold, digest: Digest)
    requires Accepted(s) && CollisionFree(digest)
    ensures Distinct(Identities(Derived(s, v, fold, digest)))
    ensures forall x :: x in Identities(Derived(s, v, fold, digest)) <==> IsIdentity(s, fold, digest, x)
  {
    ExactCover(s, v, fold, digest);
    var derived, called, subjects := Derived(s, v, fold, digest), Called(s, v, fold, digest), Subjects(s, fold);
    SameMembers(derived, called);
    SortKeepsIdsDistinct(derived, called);
    forall x ensures x in Identities(derived) <==> IsIdentity(s, fold, digest, x) {
      if x in Identities(derived) {
        ListedIsIdentity(s, fold, digest, derived, called, x);
      }
      if y: Subject :| SingledOut(s, fold, y) && x == (y.kind, StableItemId(y.kind, s.missionId, y.entity, digest)) {
        SubjectIsListed(subjects, derived, called, s.missionId, digest, y);
      }
    }
  }

  lemma ListedIsIdentity(s: Snapshot, fold: Fold, digest: Digest, listed: seq<Item>, called: seq<Item>,
                         x: (string, string))
    requires x in Identities(listed) && forall item :: item in listed <==> item in called
    requires For(called, Subjects(s, fold), s.missionId, digest)
    requires forall y :: y in Subjects(s, fold) <==> SingledOut(s, fold, y)
    ensures IsIdentity(s, fold, digest, x)
  {
    var i :| 0 <= i < |listed| && Identities(listed)[i] == x;
    assert listed[i] in called;
    var j :| 0 <= j < |called| && called[j] == listed[i];
    assert Subjects(s, fold)[j] in Subjects(s, fold);
  }

  lemma SubjectIsListed(subjects: seq<Subject>, listed: seq<Item>, called: seq<Item>, missionId: string,
                        digest: Digest, y: Subject)
    requires y in subjects && For(called, subjects, missionId, digest)
    requires forall item :: item in listed <==> item in called
    ensures (y.kind, StableItemId(y.kind, missionId, y.entity, digest)) in Identities(listed)
  {
    var j :| 0 <= j < |subjects| && subjects[j] == y;
    assert called[j] in listed;
    var i :| 0 <= i < |listed| && listed[i] == called[j];
    assert Identities(listed)[i] == (y.kind, StableItemId(y.kind, missionId, y.entity, digest));
  }

  lemma SortKeepsIdsDistinct(a: seq<Item>, b: seq<Item>)
    requires multiset(a) == multiset(b) && IdsDistinct(b)
    ensures Distinct(Identities(a))
  {
    SameMembers(a, b);
    forall i, j | 0 <= i < j < |a| ensures a[i].itemId != a[j].itemId {
      if a[i] == a[j] {
        Twice(a, i, j);
        Once(b, a[i]);
      } else {
        assert a[i] in b && a[j] in b;
      }
    }
  }

  lemma Twice<T>(a: seq<T>, i: nat, j: nat)
    requires i < j < |a| && a[i] == a[j]
    ensures multiset(a)[a[i]] >= 2
  {
    assert a == a[..i] + [a[i]] + a[i + 1..j] + [a[j]] + a[j + 1..];
  }

  lemma {:induction false} Once(b: seq<Item>, x: Item)
    requires IdsDistinct(b)
    ensures multiset(b)[x] <= 1
  {
    if b != [] {
      var n := |b| - 1;
      Once(b[..n], x);
      assert b == b[..n] + [b[n]];
      assert b[n] !in b[..n];
    }
  }

  // ---- evidence

  lemma {:induction false} FirstOccurrencesPrefix(a: seq<string>, b: seq<string>)
    ensures FirstOccurrences(a) <= FirstOccurrences(a + b)
  {
    if b == [] {
      assert a + b == a;
    } else {
      FirstOccurrencesPrefix(a, b[..|b| - 1]);
      assert (a + b)[..|a + b| - 1] == a + b[..|b| - 1];
    }
  }

  lemma {:induction false} FirstOccurrencesDistinct(a: seq<string>)
    requires Distinct(a)
    ensures FirstOccurrences(a) == a
  {
    if a != [] {
      var n := |a| - 1;
      FirstOccurrencesDistinct(a[..n]);
      assert a[n] !in a[..n];
    }
  }

  /** However long the evidence, what is placed first survives the bound, in place. */
  lemma EvidenceKeepsWhatComesFirst(required: seq<string>, optional: seq<string>)
    requires Distinct(required) && |required| <= MAX_EVIDENCE_REFS
    ensures required <= Evidence(required + optional)
  {
    FirstOccurrencesPrefix(required, optional);
    FirstOccurrencesDistinct(required);
  }
}
