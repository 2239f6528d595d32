/**
 * The life of the agreement table across any sequence of requests that touch
 * it (reviews, transaction validations and contract executions), each
 * applied as its handler applies it.
 */
module Lifecycle {
  import opened Wrappers
  import opened Models
  import opened Utils
  import opened Routes

  datatype Request =
    | Review(borrowerId: Option<int>, terms: string)
    | Validate(userId: Option<int>, description: string, amount: real)
    | Execute(loanAgreementId: int)

  /** 1 when the request is a review of borrower b whose text the analysis flags. */
  function ViolationHits(req: Request, b: int): nat {
    if req.Review? && req.borrowerId == Some(b) && Analyze(req.terms).Flagged? then 1 else 0
  }

  /** The request is a transaction of borrower b that the fraud test flags. */
  predicate FraudAlert(req: Request, b: int) {
    req.Validate? && req.userId == Some(b) && DetectFraudulentTransaction(req.description, req.amount)
  }

  /** The request names the row's borrower or the row's primary key. */
  predicate Mentions(req: Request, row: AgreementRow) {
    match req
    case Review(b, _) => b == Some(row.borrowerId)
    case Validate(b, _, _) => b == Some(row.borrowerId)
    case Execute(id) => id == row.id
  }

  /** The columns no handler writes: keys, parties, terms and the AI flag. */
  predicate SameRecord(a: AgreementRow, b: AgreementRow) {
    a.id == b.id && a.lenderId == b.lenderId && a.borrowerId == b.borrowerId &&
    a.terms == b.terms && a.aiFlagged == b.aiFlagged
  }

  /** The agreement table after one request. */
  function Step(rows: seq<AgreementRow>, req: Request): (r: seq<AgreementRow>)
    ensures |r| == |rows|
    ensures forall k :: 0 <= k < |rows| ==> SameRecord(r[k], rows[k])
    ensures forall k :: 0 <= k < |rows| ==>
      r[k].violationCount == rows[k].violationCount + ViolationHits(req, rows[k].borrowerId)
    ensures forall k :: 0 <= k < |rows| ==>
      (r[k].locked <==> (rows[k].locked || FraudAlert(req, rows[k].borrowerId) ||
        (ViolationHits(req, rows[k].borrowerId) == 1 && r[k].violationCount >= LockThreshold)))
    ensures forall k :: 0 <= k < |rows| ==>
      r[k].status == rows[k].status || (rows[k].status == Active && r[k].status == UnderContract)
    ensures forall k :: 0 <= k < |rows| && !Mentions(req, rows[k]) ==> r[k] == rows[k]
  {
    match req
    case Review(b, terms) => ApplyReview(rows, b, Analyze(terms).Flagged?)
    case Validate(b, description, amount) =>
      if DetectFraudulentTransaction(description, amount) then LockBorrower(rows, b) else rows
    case Execute(id) => ExecuteRows(rows, id)
  }

  /** The agreement table after the requests, in order. */
  function Run(rows: seq<AgreementRow>, reqs: seq<Request>): (r: seq<AgreementRow>)
    ensures |r| == |rows|
    decreases |reqs|
  {
    if reqs == [] then rows else Run(Step(rows, reqs[0]), reqs[1..])
  }

  /** The number of flagged reviews of borrower b among the requests. */
  function FlaggedReviews(reqs: seq<Request>, b: int): nat
    decreases |reqs|
  {
    if reqs == [] then 0 else ViolationHits(reqs[0], b) + FlaggedReviews(reqs[1..], b)
  }

  /** No handler writes an agreement's keys, parties, terms or AI flag. */
  lemma {:induction false} RunKeepsRecord(rows: seq<AgreementRow>, reqs: seq<Request>, k: nat)
    requires k < |rows|
    ensures SameRecord(Run(rows, reqs)[k], rows[k])
    decreases |reqs|
  {
    if reqs != [] {
      RunKeepsRecord(Step(rows, reqs[0]), reqs[1..], k);
    }
  }

  /** A lock is never cleared. */
  lemma {:induction false} LocksAreNeverCleared(rows: seq<AgreementRow>, reqs: seq<Request>, k: nat)
    requires k < |rows| && rows[k].locked
    ensures Run(rows, reqs)[k].locked
    decreases |reqs|
  {
    if reqs != [] {
      LocksAreNeverCleared(Step(rows, reqs[0]), reqs[1..], k);
    }
  }

  /** Every flagged review of the borrower adds exactly one violation, and nothing else does. */
  lemma {:induction false} ViolationsCountFlaggedReviews(rows: seq<AgreementRow>, reqs: seq<Request>, k: nat)
    requires k < |rows|
    ensures Run(rows, reqs)[k].violationCount ==
      rows[k].violationCount + FlaggedReviews(reqs, rows[k].borrowerId)
    decreases |reqs|
  {
    if reqs != [] {
      var next := Step(rows, reqs[0]);
      ViolationsCountFlaggedReviews(next, reqs[1..], k);
    }
  }

  /** Without a fraud alert for its borrower, an agreement is locked exactly when it has three violations. */
  lemma {:induction false} LockTracksViolations(rows: seq<AgreementRow>, reqs: seq<Request>, k: nat)
    requires k < |rows|
    requires rows[k].locked <==> rows[k].violationCount >= LockThreshold
    requires forall i :: 0 <= i < |reqs| ==> !FraudAlert(reqs[i], rows[k].borrowerId)
    ensures Run(rows, reqs)[k].locked <==> Run(rows, reqs)[k].violationCount >= LockThreshold
    decreases |reqs|
  {
    if reqs != [] {
      var next := Step(rows, reqs[0]);
      assert !FraudAlert(reqs[0], rows[k].borrowerId);
      assert forall i :: 0 <= i < |reqs[1..]| ==> !FraudAlert(reqs[1..][i], next[k].borrowerId) by {
        forall i | 0 <= i < |reqs[1..]|
          ensures !FraudAlert(reqs[1..][i], next[k].borrowerId)
        {
          assert reqs[1..][i] == reqs[i + 1];
        }
      }
      LockTracksViolations(next, reqs[1..], k);
    }
  }

  /**
   * A new agreement whose borrower raises no fraud alert is locked exactly
   * from its third flagged review on.
   */
  lemma {:induction false} ThirdFlaggedReviewLocks(rows: seq<AgreementRow>, reqs: seq<Request>, k: nat)
    requires k < |rows|
    requires rows[k] == NewRow(rows[k].id, rows[k].lenderId, rows[k].borrowerId, rows[k].terms)
    requires forall i :: 0 <= i < |reqs| ==> !FraudAlert(reqs[i], rows[k].borrowerId)
    ensures Run(rows, reqs)[k].locked <==> FlaggedReviews(reqs, rows[k].borrowerId) >= 3
  {
    ViolationsCountFlaggedReviews(rows, reqs, k);
    LockTracksViolations(rows, reqs, k);
  }

  /** One fraud alert for the borrower leaves the agreement locked for good. */
  lemma {:induction false} FraudLocksForGood(rows: seq<AgreementRow>, reqs: seq<Request>, k: nat, i: nat)
    requires k < |rows| && i < |reqs|
    requires FraudAlert(reqs[i], rows[k].borrowerId)
    ensures Run(rows, reqs)[k].locked
    decreases |reqs|
  {
    var next := Step(rows, reqs[0]);
    if i == 0 {
      LocksAreNeverCleared(next, reqs[1..], k);
    } else {
      assert reqs[1..][i - 1] == reqs[i];
      FraudLocksForGood(next, reqs[1..], k, i - 1);
    }
  }

  /** Requests that name neither the borrower nor the agreement leave the agreement as it was. */
  lemma {:induction false} OthersUntouched(rows: seq<AgreementRow>, reqs: seq<Request>, k: nat)
    requires k < |rows|
    requires forall i :: 0 <= i < |reqs| ==> !Mentions(reqs[i], rows[k])
    ensures Run(rows, reqs)[k] == rows[k]
    decreases |reqs|
  {
    if reqs != [] {
      var next := Step(rows, reqs[0]);
      assert !Mentions(reqs[0], rows[k]);
      assert forall i :: 0 <= i < |reqs[1..]| ==> !Mentions(reqs[1..][i], next[k]) by {
        forall i | 0 <= i < |reqs[1..]|
          ensures !Mentions(reqs[1..][i], next[k])
        {
          assert reqs[1..][i] == reqs[i + 1];
        }
      }
      OthersUntouched(next, reqs[1..], k);
    }
  }

  /** The status only ever moves from `active` to `under_contract`. */
  lemma {:induction false} StatusOnlyAdvances(rows: seq<AgreementRow>, reqs: seq<Request>, k: nat)
    requires k < |rows|
    ensures Run(rows, reqs)[k].status == rows[k].status ||
      (rows[k].status == Active && Run(rows, reqs)[k].status == UnderContract)
    decreases |reqs|
  {
    if reqs != [] {
      StatusOnlyAdvances(Step(rows, reqs[0]), reqs[1..], k);
    }
  }

  /** A table with no AI-flagged agreement is reported compliant after any requests. */
  lemma {:induction false} ReportStaysCompliant(rows: seq<AgreementRow>, reqs: seq<Request>)
    requires forall k :: 0 <= k < |rows| ==> !rows[k].aiFlagged
    ensures FlaggedIds(Run(rows, reqs)) == []
  {
    var after := Run(rows, reqs);
    forall k | 0 <= k < |after|
      ensures !after[k].aiFlagged
    {
      RunKeepsRecord(rows, reqs, k);
    }
    if FlaggedIds(after) != [] {
      assert FlaggedIds(after)[0] in FlaggedIds(after);
    }
  }
}
