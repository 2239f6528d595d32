/**
 * The compliance helpers: the keyword analysis of a loan agreement's text,
 * the fraud test on a transaction, and the smart-contract status transition.
 */
module Utils {
  import opened Wrappers
  import opened Text
  import opened Models

  /** Unethical terms, in the order in which they are tried. */
  const UnethicalTerms: seq<string> := ["hidden fees", "predatory interest rates", "undisclosed penalties"]

  const ReasonPrefix := "Contains unethical term: "

  /** The analysis verdict: `{"status": "approved"}` or `{"status": "flagged", "reason": ...}`. */
  datatype Analysis = Approved | Flagged(reason: string)

  /** The index of the first term, in list order, that occurs in `text`. */
  function FirstMatch(terms: seq<string>, text: string): (r: Option<nat>)
    ensures r.Some? ==> r.value < |terms| && Contains(text, terms[r.value])
    ensures r.Some? ==> forall j :: 0 <= j < r.value ==> !Contains(text, terms[j])
    ensures r.None? ==> forall j :: 0 <= j < |terms| ==> !Contains(text, terms[j])
    decreases |terms|
  {
    if |terms| == 0 then None
    else if Contains(text, terms[0]) then Some(0)
    else match FirstMatch(terms[1..], text)
      case None => None
      case Some(k) => Some(k + 1)
  }

  /**
   * What the analysis answers for `text`: flagged exactly when the lower-cased
   * text contains one of the terms, naming the first such term in list order.
   */
  function Analyze(text: string): (r: Analysis)
    ensures r.Flagged? <==>
      exists k :: 0 <= k < |UnethicalTerms| && Contains(LowerStr(text), UnethicalTerms[k])
    ensures r.Flagged? ==>
      exists k :: 0 <= k < |UnethicalTerms| &&
        r.reason == ReasonPrefix + UnethicalTerms[k] &&
        Contains(LowerStr(text), UnethicalTerms[k]) &&
        forall j :: 0 <= j < k ==> !Contains(LowerStr(text), UnethicalTerms[j])
  {
    match FirstMatch(UnethicalTerms, LowerStr(text))
    case None => Approved
    case Some(k) => Flagged(ReasonPrefix + UnethicalTerms[k])
  }

  /** `analyze_loan_agreement`: tries the terms in order and stops at the first hit. */
  method AnalyzeLoanAgreement(text: string) returns (r: Analysis)
    ensures r == Analyze(text)
  {
    var i := 0;
    while i < |UnethicalTerms|
      invariant 0 <= i <= |UnethicalTerms|
      invariant forall j :: 0 <= j < i ==> !Contains(LowerStr(text), UnethicalTerms[j])
    {
      if Contains(LowerStr(text), UnethicalTerms[i]) {
        assert FirstMatch(UnethicalTerms, LowerStr(text)) == Some(i);
        return Flagged(ReasonPrefix + UnethicalTerms[i]);
      }
      i := i + 1;
    }
    return Approved;
  }

  /**
   * Whenever term k occurs, the reason names term k or a term before it in
   * the list, wherever those occur in the text; term 0 always wins.
   */
  lemma {:induction false} ListOrderDecides(text: string, k: nat)
    requires k < |UnethicalTerms| && Contains(LowerStr(text), UnethicalTerms[k])
    ensures Analyze(text).Flagged?
    ensures exists j :: 0 <= j <= k && Analyze(text).reason == ReasonPrefix + UnethicalTerms[j]
    ensures k == 0 ==> Analyze(text) == Flagged(ReasonPrefix + UnethicalTerms[0])
  {
    var m := FirstMatch(UnethicalTerms, LowerStr(text));
    assert m.Some? && m.value <= k;
  }

  /** The verdict and the reason ignore the letter case of the text. */
  lemma {:induction false} AnalyzeIgnoresCase(a: string, b: string)
    requires SameUpToCase(a, b)
    ensures Analyze(a) == Analyze(b)
  {
    SameUpToCaseLower(a, b);
  }

  /** A term written in any letter case anywhere in the text flags it. */
  lemma {:induction false} TermInAnyCaseFlags(text: string, k: nat, spelling: string)
    requires k < |UnethicalTerms| && LowerStr(spelling) == UnethicalTerms[k]
    requires Contains(text, spelling)
    ensures Analyze(text).Flagged?
  {
    LowerKeepsOccurrence(text, spelling);
  }

  /**
   * The reason identifies the first matching term: a flagged verdict naming
   * term k means term k occurs and no earlier term does. This relies on the
   * three terms being distinct.
   */
  lemma {:induction false} ReasonIdentifiesFirstTerm(text: string, k: nat)
    requires k < |UnethicalTerms|
    requires Analyze(text) == Flagged(ReasonPrefix + UnethicalTerms[k])
    ensures FirstMatch(UnethicalTerms, LowerStr(text)) == Some(k)
  {
    var m := FirstMatch(UnethicalTerms, LowerStr(text));
    assert m.Some?;
    var t1, t2 := UnethicalTerms[m.value], UnethicalTerms[k];
    assert (ReasonPrefix + t1)[|ReasonPrefix|..] == t1;
    assert (ReasonPrefix + t2)[|ReasonPrefix|..] == t2;
    assert |t1| == |t2|;
  }

  /** Phrases that mark a transaction as suspicious. */
  const SuspiciousTerms: seq<string> := ["unexpected large withdrawal", "account drained", "unauthorized payment"]

  /** Amounts strictly above this are fraudulent whatever the description. */
  const FraudThreshold: real := 5000.0

  /** Python's `any(term in text for term in terms)`. */
  function AnyOccurs(terms: seq<string>, text: string): (r: bool)
    ensures r <==> exists k :: 0 <= k < |terms| && Contains(text, terms[k])
    decreases |terms|
  {
    if |terms| == 0 then false
    else Contains(text, terms[0]) || AnyOccurs(terms[1..], text)
  }

  /** `detect_fraudulent_transaction`. */
  function DetectFraudulentTransaction(description: string, amount: real): (r: bool)
    ensures amount > FraudThreshold ==> r
    ensures r <==> (amount > FraudThreshold ||
      exists k :: 0 <= k < |SuspiciousTerms| && Contains(LowerStr(description), SuspiciousTerms[k]))
  {
    amount > FraudThreshold || AnyOccurs(SuspiciousTerms, LowerStr(description))
  }

  /** Without a suspicious phrase, no amount up to and including the threshold is fraud. */
  lemma ThresholdIsExclusive(description: string, amount: real)
    requires forall k :: 0 <= k < |SuspiciousTerms| ==> !Contains(LowerStr(description), SuspiciousTerms[k])
    ensures DetectFraudulentTransaction(description, amount) <==> amount > FraudThreshold
  {
  }

  /** A suspicious phrase in any letter case is fraud at any amount, zero and negative included. */
  lemma {:induction false} PhraseInAnyCaseIsFraud(description: string, amount: real, k: nat, spelling: string)
    requires k < |SuspiciousTerms| && LowerStr(spelling) == SuspiciousTerms[k]
    requires Contains(description, spelling)
    ensures DetectFraudulentTransaction(description, amount)
  {
    LowerKeepsOccurrence(description, spelling);
  }

  /** The fraud verdict ignores the letter case of the description. */
  lemma {:induction false} FraudIgnoresCase(a: string, b: string, amount: real)
    requires SameUpToCase(a, b)
    ensures DetectFraudulentTransaction(a, amount) == DetectFraudulentTransaction(b, amount)
  {
    SameUpToCaseLower(a, b);
  }

  /** The outcome of `execute_smart_contract`. */
  datatype ContractResult = Executed(loanAgreementId: int) | Failed(reason: string)

  const FailureReason := "Invalid agreement or status."

  /** The answer the contract execution gives for the agreement with primary key `id`. */
  function ExecuteResult(rows: seq<AgreementRow>, id: int): (r: ContractResult)
    ensures r.Executed? <==> IndexOfId(rows, id).Some? && rows[IndexOfId(rows, id).value].status == Active
    ensures r.Executed? ==> r.loanAgreementId == id
    ensures r.Failed? ==> r.reason == FailureReason
  {
    match IndexOfId(rows, id)
    case Some(k) =>
      if rows[k].status == Active then Executed(id) else Failed(FailureReason)
    case None => Failed(FailureReason)
  }

  /** The agreement table after the contract execution for `id`. */
  function ExecuteRows(rows: seq<AgreementRow>, id: int): (r: seq<AgreementRow>)
    ensures ExecuteResult(rows, id).Failed? ==> r == rows
    ensures ExecuteResult(rows, id).Executed? ==>
      var k := IndexOfId(rows, id).value;
      r == rows[k := rows[k].(status := UnderContract)]
  {
    match IndexOfId(rows, id)
    case Some(k) =>
      if rows[k].status == Active then rows[k := rows[k].(status := UnderContract)] else rows
    case None => rows
  }

  /** With unique primary keys, execution succeeds exactly for an existing active agreement. */
  lemma {:induction false} ExecuteSucceedsOnActive(rows: seq<AgreementRow>, id: int)
    requires forall i, j :: 0 <= i < j < |rows| ==> rows[i].id != rows[j].id
    ensures ExecuteResult(rows, id).Executed? <==>
      exists k :: 0 <= k < |rows| && rows[k].id == id && rows[k].status == Active
  {
    var m := IndexOfId(rows, id);
    if k :| 0 <= k < |rows| && rows[k].id == id && rows[k].status == Active {
      assert m.Some?;
    }
  }

  /** The transition fires once: a second execution on the same id fails and changes nothing. */
  lemma {:induction false} ExecuteFiresOnce(rows: seq<AgreementRow>, id: int)
    requires ExecuteResult(rows, id).Executed?
    ensures ExecuteResult(ExecuteRows(rows, id), id).Failed?
    ensures ExecuteRows(ExecuteRows(rows, id), id) == ExecuteRows(rows, id)
  {
    var after := ExecuteRows(rows, id);
    IndexOfIdOnlyReadsIds(rows, after, id);
  }

  /** `execute_smart_contract`: moves an active agreement to `under_contract`. */
  method ExecuteSmartContract(db: Database, loanAgreementId: int) returns (r: ContractResult)
    requires db.Valid()
    modifies db.agreements
    ensures db.Valid()
    ensures r == ExecuteResult(old(db.Rows()), loanAgreementId)
    ensures db.Rows() == ExecuteRows(old(db.Rows()), loanAgreementId)
  {
    ghost var before := db.Rows();
    var k := db.FindAgreement(loanAgreementId);
    if k.Some? && db.agreements[k.value].status == Active {
      db.agreements[k.value].status := UnderContract;
      assert db.Rows() == before[k.value := before[k.value].(status := UnderContract)];
      return Executed(loanAgreementId);
    }
    return Failed(FailureReason);
  }
}
