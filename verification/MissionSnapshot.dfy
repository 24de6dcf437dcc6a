/** A mission snapshot as the contract lets it through: records of one mission, each identity once. */
module MissionSnapshots {
  import opened Wrappers

  datatype State =
    | Coherent
    | NeedsTaskProjection
    | MissingTerminalReceipt
    | ConflictingActiveClaims
    | ActiveClaimWithoutRun
    | ExpiredLease
    | EvidenceScanSaturated
    | ForeignRuntimeRecord
    | ConflictingTerminalEvidence
  {
    function Text(): string {
      match this
      case Coherent => "coherent"
      case NeedsTaskProjection => "needs_task_projection"
      case MissingTerminalReceipt => "missing_terminal_receipt"
      case ConflictingActiveClaims => "conflicting_active_claims"
      case ActiveClaimWithoutRun => "active_claim_without_run"
      case ExpiredLease => "expired_lease"
      case EvidenceScanSaturated => "evidence_scan_saturated"
      case ForeignRuntimeRecord => "foreign_runtime_record"
      case ConflictingTerminalEvidence => "conflicting_terminal_evidence"
    }
  }

  /** No two states have one text. */
  lemma TextsDiffer(a: State, b: State)
    ensures a.Text() == b.Text() ==> a == b
  {
    assert a.Text() == b.Text() ==> |a.Text()| == |b.Text()| && a.Text()[0] == b.Text()[0];
  }

  datatype Task = Task(taskId: string, missionId: string, status: string)
  datatype Attempt = Attempt(attemptId: string, missionId: string)
  datatype Lease = Lease(
    claimId: string, missionId: string, taskId: string, attemptId: string, expired: bool, staleAfter: Option<int>)
  datatype Receipt = Receipt(receiptId: string, missionId: string)

  datatype Snapshot = Snapshot(
    missionId: string,
    tasks: seq<Task>,
    attempts: seq<Attempt>,
    leases: seq<Lease>,
    receipts: seq<Receipt>,
    reconciliation: State,
    observedAt: int)

  function TaskIds(s: Snapshot): seq<string> {
    seq(|s.tasks|, i requires 0 <= i < |s.tasks| => s.tasks[i].taskId)
  }

  function AttemptIds(s: Snapshot): seq<string> {
    seq(|s.attempts|, i requires 0 <= i < |s.attempts| => s.attempts[i].attemptId)
  }

  function ClaimIds(s: Snapshot): seq<string> {
    seq(|s.leases|, i requires 0 <= i < |s.leases| => s.leases[i].claimId)
  }

  function ReceiptIds(s: Snapshot): seq<string> {
    seq(|s.receipts|, i requires 0 <= i < |s.receipts| => s.receipts[i].receiptId)
  }

  /** `len(values) == len(set(values))`. */
  predicate SizesAgree(values: seq<string>) {
    |values| == |(set v <- values)|
  }

  predicate RecordsBelong(s: Snapshot) {
    && (forall r <- s.tasks :: r.missionId == s.missionId)
    && (forall r <- s.attempts :: r.missionId == s.missionId)
    && (forall r <- s.leases :: r.missionId == s.missionId)
    && (forall r <- s.receipts :: r.missionId == s.missionId)
    && SizesAgree(TaskIds(s)) && SizesAgree(AttemptIds(s)) && SizesAgree(ClaimIds(s)) && SizesAgree(ReceiptIds(s))
  }

  ghost predicate Distinct<T>(values: seq<T>) {
    forall i, j :: 0 <= i < j < |values| ==> values[i] != values[j]
  }

  lemma DistinctSnoc(values: seq<string>, last: string)
    ensures Distinct(values + [last]) <==> Distinct(values) && last !in values
  {
    var all := values + [last];
    assert all[..|values|] == values;
    if Distinct(all) {
      forall i | 0 <= i < |values| ensures values[i] != last {
        assert all[i] != all[|values|];
      }
      forall i, j | 0 <= i < j < |values| ensures values[i] != values[j] {
        assert all[i] != all[j];
      }
    }
  }

  lemma SizeSnoc(values: seq<string>, last: string)
    ensures |(set v <- values + [last])| == |(set v <- values)| + if last in values then 0 else 1
  {
    assert (set v <- values + [last]) == (set v <- values) + {last};
    if last in values {
      assert (set v <- values + [last]) == (set v <- values);
    }
  }

  /** Comparing the two sizes finds every repeated identity. */
  lemma {:induction false} SizesAgreeIffDistinct(values: seq<string>)
    ensures |(set v <- values)| <= |values|
    ensures SizesAgree(values) <==> Distinct(values)
  {
    if values != [] {
      var n := |values| - 1;
      SizesAgreeIffDistinct(values[..n]);
      assert values == values[..n] + [values[n]];
      SizeSnoc(values[..n], values[n]);
      DistinctSnoc(values[..n], values[n]);
    }
  }

  predicate IdentifierChar(c: char) {
    'A' <= c <= 'Z' || 'a' <= c <= 'z' || '0' <= c <= '9' || c == '.' || c == '_' || c == ':' || c == '-'
  }

  predicate Identifier(s: string) {
    && 1 <= |s| <= 128
    && (forall i :: 0 <= i < |s| ==> IdentifierChar(s[i]))
    && s[0] != '.' && s[0] != '_' && s[0] != ':' && s[0] != '-'
  }

  /** A snapshot the contract accepts, as far as identities go. */
  predicate Accepted(s: Snapshot) {
    && RecordsBelong(s)
    && Identifier(s.missionId)
    && (forall t <- s.tasks :: Identifier(t.taskId))
    && (forall l <- s.leases :: Identifier(l.claimId) && Identifier(l.taskId))
  }

  /** Records are accepted exactly when all are of this mission and no identity stands twice among its kind. */
  lemma AcceptedIdsDistinct(s: Snapshot)
    ensures RecordsBelong(s) <==>
              && (forall t <- s.tasks :: t.missionId == s.missionId)
              && (forall a <- s.attempts :: a.missionId == s.missionId)
              && (forall l <- s.leases :: l.missionId == s.missionId)
              && (forall r <- s.receipts :: r.missionId == s.missionId)
              && Distinct(TaskIds(s)) && Distinct(AttemptIds(s)) && Distinct(ClaimIds(s)) && Distinct(ReceiptIds(s))
  {
    SizesAgreeIffDistinct(TaskIds(s));
    SizesAgreeIffDistinct(AttemptIds(s));
    SizesAgreeIffDistinct(ClaimIds(s));
    SizesAgreeIffDistinct(ReceiptIds(s));
  }
}
