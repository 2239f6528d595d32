/**
 * The request handlers, with the HTTP layer removed. Each takes the request
 * fields it reads. A field read without a default is an `Option` (an absent
 * one is `None`); a field read with a default is a plain value, and an
 * absent one is passed as that default. `Register`, `Login` and
 * `ReviewAgreement` return their status code beside their result;
 * `ValidateTransaction` returns only its code, which fixes its response
 * body; `ComplianceReport` returns only the report, as it always answers 200.
 */
module Routes {
  import opened Wrappers
  import opened Text
  import opened Models
  import opened Utils

  /*
   * Registration and login.
   */

  datatype RegisterResult = Created | MissingField | AlreadyExists

  /** A missing field and an empty string are both falsy. */
  predicate Blank(field: Option<string>) {
    field.None? || field.value == ""
  }

  /** `register`: adds a user under a new, non-empty username. */
  method Register(db: Database, username: Option<string>, password: Option<string>, salt: string)
    returns (r: RegisterResult, code: int)
    requires db.Valid()
    modifies db
    ensures db.Valid()
    ensures db.agreements == old(db.agreements) && db.nextAgreementId == old(db.nextAgreementId)
    ensures code == (if r.Created? then 201 else 400)
    ensures r.MissingField? <==> Blank(username) || Blank(password)
    ensures r.AlreadyExists? <==> (!Blank(username) && !Blank(password) &&
      exists k :: 0 <= k < |old(db.users)| && old(db.users)[k].username == username.value)
    ensures !r.Created? ==> db.users == old(db.users)
    ensures r.Created? ==>
      |db.users| == |old(db.users)| + 1 &&
      db.users[..|old(db.users)|] == old(db.users) &&
      var u := db.users[|old(db.users)|];
      fresh(u) && u.username == username.value && u.CheckPassword(password.value)
  {
    if Blank(username) || Blank(password) {
      return MissingField, 400;
    }
    var existing := db.FindUser(username.value);
    if existing.Some? {
      return AlreadyExists, 400;
    }
    var u := new User(db.nextUserId, username.value, GeneratePasswordHash(password.value, salt));
    CheckAfterGenerate(password.value, password.value, salt);
    db.users := db.users + [u];
    db.nextUserId := db.nextUserId + 1;
    return Created, 201;
  }

  /** What `create_access_token` issues: a token for the given identity. */
  datatype AccessToken = AccessToken(identity: string)

  datatype LoginResult = Granted(accessToken: AccessToken) | Denied

  /** `login`: a token exactly for a known username whose stored hash accepts the password. */
  method Login(db: Database, username: Option<string>, password: Option<string>) returns (r: LoginResult, code: int)
    requires db.Valid()
    ensures code == (if r.Granted? then 200 else 401)
    ensures r.Granted? <==> (username.Some? && password.Some? &&
      exists k :: 0 <= k < |db.users| &&
        db.users[k].username == username.value && db.users[k].CheckPassword(password.value))
    ensures r.Granted? ==> r.accessToken == AccessToken(username.value)
  {
    if username.None? || password.None? {
      return Denied, 401;
    }
    var k := db.FindUser(username.value);
    if k.Some? && db.users[k.value].CheckPassword(password.value) {
      return Granted(AccessToken(username.value)), 200;
    }
    return Denied, 401;
  }

  /*
   * Review of a borrower's agreements.
   */

  /** An agreement is violation-locked once its count reaches this. */
  const LockThreshold := 3

  /** `filter_by(borrower_id=...)`: an absent id matches no row, the column being required. */
  predicate Owns(borrowerId: Option<int>, row: AgreementRow) {
    borrowerId == Some(row.borrowerId)
  }

  function ReviewRow(row: AgreementRow, borrowerId: Option<int>): AgreementRow {
    if !Owns(borrowerId, row) then row
    else
      var count := row.violationCount + 1;
      row.(violationCount := count, locked := if count >= LockThreshold then true else row.locked)
  }

  /**
   * The agreement table after a review: with a flagged analysis, each of the
   * borrower's agreements gains one violation and is locked once it has
   * three; nothing else changes.
   */
  function ApplyReview(rows: seq<AgreementRow>, borrowerId: Option<int>, flagged: bool): (r: seq<AgreementRow>)
    ensures |r| == |rows|
    ensures forall k :: 0 <= k < |rows| ==>
      r[k].violationCount == rows[k].violationCount + (if flagged && Owns(borrowerId, rows[k]) then 1 else 0)
    ensures forall k :: 0 <= k < |rows| ==>
      (r[k].locked <==> (rows[k].locked ||
        (flagged && Owns(borrowerId, rows[k]) && r[k].violationCount >= LockThreshold)))
    ensures forall k :: 0 <= k < |rows| ==>
      r[k] == rows[k].(violationCount := r[k].violationCount, locked := r[k].locked)
    ensures !flagged ==> r == rows
  {
    if flagged then seq(|rows|, k requires 0 <= k < |rows| => ReviewRow(rows[k], borrowerId))
    else rows
  }

  lemma ReviewAt(rows: seq<AgreementRow>, borrowerId: Option<int>, k: nat)
    requires k < |rows|
    ensures ApplyReview(rows, borrowerId, true)[k] == ReviewRow(rows[k], borrowerId)
  {
  }

  /** `review_agreement`: analyses the submitted text and counts a violation against the borrower. */
  method ReviewAgreement(db: Database, borrowerId: Option<int>, terms: string)
    returns (result: Analysis, code: int)
    requires db.Valid()
    modifies db.agreements
    ensures db.Valid()
    ensures result == Analyze(terms) && code == 200
    ensures db.Rows() == ApplyReview(old(db.Rows()), borrowerId, result.Flagged?)
  {
    ghost var before := db.Rows();
    result := AnalyzeLoanAgreement(terms);
    if result.Flagged? {
      var i := 0;
      while i < |db.agreements|
        invariant 0 <= i <= |db.agreements|
        invariant forall k :: 0 <= k < i ==> db.agreements[k].Row() == ReviewRow(before[k], borrowerId)
        invariant forall k :: i <= k < |db.agreements| ==> db.agreements[k].Row() == before[k]
      {
        var agreement := db.agreements[i];
        if borrowerId == Some(agreement.borrowerId) {
          agreement.violationCount := agreement.violationCount + 1;
          if agreement.violationCount >= LockThreshold {
            agreement.locked := true;
          }
        }
        i := i + 1;
      }
      forall k | 0 <= k < |before|
        ensures db.Rows()[k] == ApplyReview(before, borrowerId, true)[k]
      {
        ReviewAt(before, borrowerId, k);
      }
    }
    code := 200;
  }

  /*
   * Fraud validation.
   */

  /** The agreement table with every agreement of the borrower locked, and nothing else changed. */
  function LockBorrower(rows: seq<AgreementRow>, borrowerId: Option<int>): (r: seq<AgreementRow>)
    ensures |r| == |rows|
    ensures forall k :: 0 <= k < |rows| ==>
      r[k] == if Owns(borrowerId, rows[k]) then rows[k].(locked := true) else rows[k]
  {
    seq(|rows|, k requires 0 <= k < |rows| =>
      if Owns(borrowerId, rows[k]) then rows[k].(locked := true) else rows[k])
  }

  /** `validate_transaction`: a fraudulent transaction locks all of the borrower's agreements. */
  method ValidateTransaction(db: Database, userId: Option<int>, description: string, amount: real)
    returns (code: int)
    requires db.Valid()
    modifies db.agreements
    ensures db.Valid()
    ensures code == (if DetectFraudulentTransaction(description, amount) then 403 else 200)
    ensures db.Rows() ==
      if code == 403 then LockBorrower(old(db.Rows()), userId) else old(db.Rows())
  {
    ghost var before := db.Rows();
    if DetectFraudulentTransaction(description, amount) {
      var i := 0;
      while i < |db.agreements|
        invariant 0 <= i <= |db.agreements|
        invariant forall k :: 0 <= k < i ==>
          db.agreements[k].Row() == LockBorrower(before, userId)[k]
        invariant forall k :: i <= k < |db.agreements| ==> db.agreements[k].Row() == before[k]
      {
        var agreement := db.agreements[i];
        if userId == Some(agreement.borrowerId) {
          agreement.locked := true;
        }
        i := i + 1;
      }
      return 403;
    }
    return 200;
  }

  /*
   * Compliance report.
   */

  /** The ids of the AI-flagged agreements, in table order. */
  function FlaggedIds(rows: seq<AgreementRow>): (ids: seq<int>)
    ensures |ids| <= |rows|
    ensures forall k :: 0 <= k < |rows| && rows[k].aiFlagged ==> rows[k].id in ids
    ensures forall id :: id in ids ==> exists k :: 0 <= k < |rows| && rows[k].aiFlagged && rows[k].id == id
    decreases |rows|
  {
    if |rows| == 0 then []
    else (if rows[0].aiFlagged then [rows[0].id] else []) + FlaggedIds(rows[1..])
  }

  /** Table order is kept: the report of two stretches of the table is the two reports in turn. */
  lemma {:induction false} FlaggedIdsKeepOrder(a: seq<AgreementRow>, b: seq<AgreementRow>)
    ensures FlaggedIds(a + b) == FlaggedIds(a) + FlaggedIds(b)
    decreases |a|
  {
    if |a| > 0 {
      assert (a + b)[1..] == a[1..] + b;
      FlaggedIdsKeepOrder(a[1..], b);
    } else {
      assert a + b == b;
    }
  }

  datatype Report = Violations(ids: seq<int>) | Compliant

  /** `compliance_report`: the flagged agreement ids, or "compliant" when there are none. */
  function ComplianceReport(db: Database): (r: Report)
    reads db, db.agreements
    ensures r.Compliant? <==> forall k :: 0 <= k < |db.agreements| ==> !db.agreements[k].aiFlagged
    ensures r.Violations? ==> r.ids != [] && r.ids == FlaggedIds(db.Rows())
  {
    var rows := db.Rows();
    var ids := FlaggedIds(rows);
    assert forall k :: 0 <= k < |rows| ==> rows[k].aiFlagged == db.agreements[k].aiFlagged;
    assert ids == [] ==> forall k :: 0 <= k < |rows| ==> !rows[k].aiFlagged;
    assert ids != [] ==> ids[0] in ids;
    if ids == [] then Compliant else Violations(ids)
  }
}
