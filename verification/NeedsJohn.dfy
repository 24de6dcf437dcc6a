/**
 The operator-attention items derived from a snapshot, and the identities they are given.

 Each expired lease calls for an item, each task in an attention status, and the mission itself when its
 state is not coherent, unless the state is an expired lease that an item tells of already.

 Items enter a dictionary by identity; the listing is sorted by kind and identity.
 */
module NeedsJohn {
  import opened Wrappers
  import opened MissionSnapshots
  import opened Ordering

  const RULE_VERSION := "fleet.needs_john.rules.v1"
  const MAX_EVIDENCE_REFS: nat := 32
  const SEPARATOR: char := 0x1f as char

  /** What an item is about; its identity is a digest of exactly this and the mission. */
  datatype Subject = Subject(kind: string, entity: string)

  datatype Item = Item(
    itemId: string,
    kind: string,
    missionId: string,
    taskId: Option<string>,
    deadline: Option<int>,
    evidence: seq<string>,
    sourceVersion: string,
    observedAt: int)

  type Digest = string -> string
  type Fold = string -> string

  function Preimage(kind: string, missionId: string, entity: string): string {
    RULE_VERSION + [SEPARATOR] + kind + [SEPARATOR] + missionId + [SEPARATOR] + entity
  }

  function StableItemId(kind: string, missionId: string, entity: string, digest: Digest): string {
    "needs_john_" + digest(Preimage(kind, missionId, entity))
  }

  function TaskKind(status: string): Option<string> {
    if status == "blocked" then Some("blocked_task")
    else if status == "quarantined" then Some("quarantined_task")
    else if status == "input-required" then Some("input_required")
    else if status == "auth-required" then Some("auth_required")
    else None
  }

  // ---- evidence

  /** First occurrences, in order, `dict.fromkeys`. */
  function FirstOccurrences(refs: seq<string>): seq<string> {
    if refs == [] then []
    else
      var front, last := refs[..|refs| - 1], refs[|refs| - 1];
      if last in front then FirstOccurrences(front) else FirstOccurrences(front) + [last]
  }

  function Evidence(refs: seq<string>): (kept: seq<string>)
    ensures |kept| <= MAX_EVIDENCE_REFS
  {
    var unique := FirstOccurrences(refs);
    if |unique| <= MAX_EVIDENCE_REFS then unique else unique[..MAX_EVIDENCE_REFS]
  }

  function Prefixed(prefix: string, ids: seq<string>): seq<string> {
    seq(|ids|, i requires 0 <= i < |ids| => prefix + ids[i])
  }

  function ReconciliationEvidence(s: Snapshot): seq<string> {
    var state := s.reconciliation;
    Evidence(
      ["mission:" + s.missionId, "reconciliation:" + state.Text()]
      + (if state.ConflictingActiveClaims? || state.ActiveClaimWithoutRun? || state.ExpiredLease?
         then Prefixed("claim:", ClaimIds(s)) else [])
      + (if state.NeedsTaskProjection? || state.MissingTerminalReceipt? || state.ConflictingTerminalEvidence?
         then Prefixed("attempt:", AttemptIds(s)) + Prefixed("receipt:", ReceiptIds(s)) else []))
  }

  // ---- items

  function MakeItem(s: Snapshot, version: string, kind: string, entity: string, taskId: Option<string>,
                    deadline: Option<int>, evidence: seq<string>, digest: Digest): Item
  {
    Item(StableItemId(kind, s.missionId, entity, digest), kind, s.missionId, taskId, deadline, evidence, version,
         s.observedAt)
  }

  function LeaseItem(s: Snapshot, l: Lease, version: string, digest: Digest): Item {
    var refs := ["mission:" + s.missionId, "task:" + l.taskId, "claim:" + l.claimId]
                + if l.attemptId != "" then ["attempt:" + l.attemptId] else [];
    MakeItem(s, version, "expired_lease", l.claimId, Some(l.taskId), l.staleAfter, Evidence(refs), digest)
  }

  function MissionItem(s: Snapshot, version: string, digest: Digest): Item {
    var state := s.reconciliation.Text();
    MakeItem(s, version, state, state, None, None, ReconciliationEvidence(s), digest)
  }

  function TaskItem(s: Snapshot, t: Task, kind: string, version: string, digest: Digest): Item {
    MakeItem(s, version, kind, t.taskId, Some(t.taskId), None,
             Evidence(["mission:" + s.missionId, "task:" + t.taskId]), digest)
  }

  predicate AnyExpired(s: Snapshot) {
    exists l <- s.leases :: l.expired
  }

  predicate NeedsMissionItem(s: Snapshot) {
    !s.reconciliation.Coherent? && !(s.reconciliation.ExpiredLease? && AnyExpired(s))
  }

  /** Assignment into the dictionary of items: an identity already present keeps its place. */
  function Put(items: seq<Item>, item: Item): seq<Item> {
    if items == [] then [item]
    else if items[0].itemId == item.itemId then [item] + items[1..]
    else [items[0]] + Put(items[1..], item)
  }

  predicate Before(a: Item, b: Item) {
    (a.kind != b.kind && LessEq(a.kind, b.kind)) || (a.kind == b.kind && LessEq(a.itemId, b.itemId))
  }

  function InsertItem(item: Item, sorted: seq<Item>): seq<Item> {
    if sorted == [] || Before(item, sorted[0]) then [item] + sorted else [sorted[0]] + InsertItem(item, sorted[1..])
  }

  function SortItems(items: seq<Item>): seq<Item> {
    if items == [] then [] else InsertItem(items[0], SortItems(items[1..]))
  }

  function LeaseItems(s: Snapshot, leases: seq<Lease>, version: string, digest: Digest): seq<Item> {
    if leases == [] then []
    else
      var l := leases[|leases| - 1];
      LeaseItems(s, leases[..|leases| - 1], version, digest)
      + if l.expired then [LeaseItem(s, l, version, digest)] else []
  }

  function TaskItems(s: Snapshot, tasks: seq<Task>, version: string, fold: Fold, digest: Digest): seq<Item> {
    if tasks == [] then []
    else
      var t := tasks[|tasks| - 1];
      TaskItems(s, tasks[..|tasks| - 1], version, fold, digest)
      + match TaskKind(fold(t.status)) case None => [] case Some(kind) => [TaskItem(s, t, kind, version, digest)]
  }

  function MissionItems(s: Snapshot, version: string, digest: Digest): seq<Item> {
    if NeedsMissionItem(s) then [MissionItem(s, version, digest)] else []
  }

  /** Every item the rules call for, in the order of the records. */
  function Called(s: Snapshot, version: string, fold: Fold, digest: Digest): seq<Item> {
    LeaseItems(s, s.leases, version, digest) + MissionItems(s, version, digest)
    + TaskItems(s, s.tasks, version, fold, digest)
  }

  function PutAll(items: seq<Item>): seq<Item> {
    if items == [] then [] else Put(PutAll(items[..|items| - 1]), items[|items| - 1])
  }

  function Derived(s: Snapshot, version: string, fold: Fold, digest: Digest): seq<Item> {
    SortItems(PutAll(Called(s, version, fold, digest)))
  }

  /** The items once the first i leases have been looked at. */
  ghost function PutLeases(s: Snapshot, i: nat, version: string, digest: Digest): seq<Item>
    requires i <= |s.leases|
  {
    PutAll(LeaseItems(s, s.leases[..i], version, digest))
  }

  ghost predicate ExpiredAmong(s: Snapshot, i: nat)
    requires i <= |s.leases|
  {
    exists j :: 0 <= j < i && s.leases[j].expired
  }

  lemma AllLeases(s: Snapshot, version: string, digest: Digest)
    ensures PutLeases(s, |s.leases|, version, digest) == PutAll(LeaseItems(s, s.leases, version, digest))
    ensures ExpiredAmong(s, |s.leases|) <==> AnyExpired(s)
  {
    assert s.leases[..|s.leases|] == s.leases;
  }

  method PutLeaseItems(s: Snapshot, version: string, digest: Digest) returns (items: seq<Item>, anyExpired: bool)
    ensures items == PutAll(LeaseItems(s, s.leases, version, digest))
    ensures anyExpired == AnyExpired(s)
  {
    items, anyExpired := [], false;
    AllLeases(s, version, digest);
    for i := 0 to |s.leases|
      invariant items == PutLeases(s, i, version, digest)
      invariant anyExpired <==> ExpiredAmong(s, i)
    {
      NextLease(s, i, version, digest);
      NextExpired(s, i);
      if s.leases[i].expired {
        items := Put(items, LeaseItem(s, s.leases[i], version, digest));
        anyExpired := true;
      }
    }
  }

  method PutTaskItems(s: Snapshot, start: seq<Item>, version: string, fold: Fold, digest: Digest,
                      ghost called: seq<Item>)
    returns (items: seq<Item>)
    requires start == PutAll(called)
    ensures items == PutAll(called + TaskItems(s, s.tasks, version, fold, digest))
  {
    items := start;
    assert called + [] == called;
    for i := 0 to |s.tasks|
      invariant items == PutAll(called + TaskItems(s, s.tasks[..i], version, fold, digest))
    {
      NextTask(s, i, version, fold, digest, called);
      var kind := TaskKind(fold(s.tasks[i].status));
      if kind.Some? {
        items := Put(items, TaskItem(s, s.tasks[i], kind.value, version, digest));
      }
    }
    assert s.tasks[..|s.tasks|] == s.tasks;
  }

  method PutMissionItem(s: Snapshot, start: seq<Item>, anyExpired: bool, version: string, digest: Digest,
                        ghost called: seq<Item>)
    returns (items: seq<Item>)
    requires start == PutAll(called) && anyExpired == AnyExpired(s)
    ensures items == PutAll(called + MissionItems(s, version, digest))
  {
    items := start;
    if !s.reconciliation.Coherent? && !(s.reconciliation.ExpiredLease? && anyExpired) {
      PutAllSnoc(called, MissionItem(s, version, digest));
      items := Put(items, MissionItem(s, version, digest));
    } else {
      assert called + [] == called;
    }
  }

  method Derive(s: Snapshot, version: string, fold: Fold, digest: Digest) returns (ordered: seq<Item>)
    ensures ordered == Derived(s, version, fold, digest)
  {
    var items, anyExpired := PutLeaseItems(s, version, digest);
    ghost var called := LeaseItems(s, s.leases, version, digest);
    items := PutMissionItem(s, items, anyExpired, version, digest, called);
    items := PutTaskItems(s, items, version, fold, digest, called + MissionItems(s, version, digest));
    ordered := SortItems(items);
  }

  lemma PutAllSnoc(items: seq<Item>, item: Item)
    ensures PutAll(items + [item]) == Put(PutAll(items), item)
  {
    assert (items + [item])[..|items|] == items;
  }

  lemma NextLease(s: Snapshot, i: nat, version: string, digest: Digest)
    requires i < |s.leases|
    ensures PutLeases(s, i + 1, version, digest) ==
              if s.leases[i].expired
              then Put(PutLeases(s, i, version, digest), LeaseItem(s, s.leases[i], version, digest))
              else PutLeases(s, i, version, digest)
  {
    var before := LeaseItems(s, s.leases[..i], version, digest);
    assert s.leases[..i + 1][..i] == s.leases[..i];
    if s.leases[i].expired {
      PutAllSnoc(before, LeaseItem(s, s.leases[i], version, digest));
    } else {
      assert before + [] == before;
    }
  }

  lemma NextExpired(s: Snapshot, i: nat)
    requires i < |s.leases|
    ensures ExpiredAmong(s, i + 1) <==> s.leases[i].expired || ExpiredAmong(s, i)
  {
  }

  lemma NextTask(s: Snapshot, i: nat, version: string, fold: Fold, digest: Digest, called: seq<Item>)
    requires i < |s.tasks|
    ensures var before := called + TaskItems(s, s.tasks[..i], version, fold, digest);
            PutAll(called + TaskItems(s, s.tasks[..i + 1], version, fold, digest)) ==
              match TaskKind(fold(s.tasks[i].status))
              case None => PutAll(before)
              case Some(kind) => Put(PutAll(before), TaskItem(s, s.tasks[i], kind, version, digest))
  {
    var before := TaskItems(s, s.tasks[..i], version, fold, digest);
    assert s.tasks[..i + 1][..i] == s.tasks[..i];
    match TaskKind(fold(s.tasks[i].status))
    case None => assert before + [] == before;
    case Some(kind) =>
      var item := TaskItem(s, s.tasks[i], kind, version, digest);
      assert called + (before + [item]) == called + before + [item];
      PutAllSnoc(called + before, item);
  }
}
