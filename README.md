# Loan-agreement compliance model

This project models the compliance core of the PlaidBridge Open Banking API,
a Flask service. Users register and log in. Each loan agreement between a
lender and a borrower carries a status, an AI flag, a lock and a count of
compliance violations. Three request handlers update those fields:

- a review of agreement text counts a violation against every agreement of
  the borrower when a keyword analysis flags the text, and locks an
  agreement once it has three violations;
- a transaction validation locks all of the borrower's agreements when a
  keyword and amount test calls the transaction fraudulent;
- a contract execution moves an `active` agreement to `under_contract`.

A fourth handler, the compliance report, lists the agreements whose AI flag
is set.

The model has six modules:

- `Wrappers` (`text.dfy`): an optional value, which stands for an absent
  request field.
- `Text` (`text.dfy`): ASCII lower-casing and the substring test.
- `Models` (`models.dfy`): the record classes `User`, `LoanAgreement` and
  `Transaction` with their column defaults, the salted password hash, and
  `Database`. `Database` holds the user table and the agreement table as
  lists of distinct objects. Its `Valid()` keeps usernames and primary keys
  unique.
- `Utils` (`utils.dfy`): the two keyword classifiers and the contract
  execution.
- `Routes` (`routes.dfy`): the handlers with the HTTP layer removed. A
  request field with no default is an `Option`, and an absent one is `None`.
  A field the handler reads with a default (`terms`, `description`,
  `amount`) is a plain value, and an absent one is passed as that default.
  `Register`, `Login` and `ReviewAgreement` return their status code beside
  their result. `ValidateTransaction` returns only its code (403 or 200),
  because its response body is fixed by the code. `ComplianceReport` returns
  only the report, because it always answers 200.
- `Lifecycle` (`lifecycle.dfy`): the agreement table across any sequence of
  reviews, validations and executions.

The imperative handlers are methods that update the `LoanAgreement` objects
in place. Each is proved against a function on the table's value
(`Database.Rows()`): `ApplyReview`, `LockBorrower` or `ExecuteRows`.
`Lifecycle.Step` applies exactly those functions, so every lemma about
`Lifecycle.Run` holds for any sequence of handler calls.

No handler here ever writes `ai_flagged`. So a table whose agreements were
created with the column default is reported "compliant" forever, however
many violations or locks it collects (`Lifecycle.ReportStaysCompliant`).

## Model

| member | source | states |
|---|---|---|
| `Text.SameUpToCaseLower` | app/utils.py:7 | texts that differ only in ASCII letter case have the same `.lower()` |
| `Text.LowerKeepsOccurrence` | app/utils.py:7 | lower-casing keeps every substring occurrence: if p occurs in s, lower(p) occurs in lower(s) |
| `Models.CheckAfterGenerate` | app/models.py:12-18 | checking a password against the hash generated from it succeeds, and fails for every other password |
| `Models.User.constructor` | app/models.py:7-10 | a user row holds the given id, username and password hash |
| `Models.User.CheckPassword` | app/models.py:16-18 | `check_password(p)` holds exactly when the stored hash is the one generated from p with the stored salt |
| `Models.User.SetPassword` | app/models.py:12-18 | after `set_password(p)`, `check_password(p)` holds and no other password checks; id and username are untouched |
| `Models.NewRow` | app/models.py:21-29 | a new agreement has the required lender, borrower and terms, status "active", `ai_flagged` false, `locked` false and `violation_count` 0 |
| `Models.LoanAgreement.constructor` | app/models.py:21-29 | a constructed agreement's row is exactly the new-agreement row with the column defaults |
| `Models.Transaction.constructor` | app/models.py:32-37 | a transaction holds the given user, amount and description, and `ai_verified` starts false |
| `Models.IndexOfId` | app/utils.py:22 | the primary-key lookup finds the first row with that id, or reports that no row has it |
| `Models.IndexOfIdOnlyReadsIds` | app/utils.py:22 | the lookup depends only on the ids, so updating other columns does not move it |
| `Models.Database.Valid` | app/models.py:8-22 | in a valid database no two users share a username, and no two agreements share a primary key |
| `Models.Database.AddAgreement` | app/models.py:21-29 | adding an agreement appends one row with the next primary key and the column defaults, keeps the user table and its key counter, and keeps the tables valid |
| `Models.Database.FindUser` | app/routes.py:46 | the username lookup returns a user with that name, or none exists |
| `Models.Database.FindAgreement` | app/utils.py:22 | the loop finds the agreement that the primary-key lookup specifies |
| `Utils.FirstMatch` | app/utils.py:5-8 | returns the least index of a term that occurs in the text, or none when no term occurs |
| `Utils.Analyze` | app/utils.py:3-9 | flagged exactly when the lower-cased text contains one of the three terms; the reason is the prefix followed by the first such term in list order |
| `Utils.AnalyzeLoanAgreement` | app/utils.py:3-9 | the loop with early return gives the specified verdict and reason |
| `Utils.ListOrderDecides` | app/utils.py:6-8 | when term k occurs, the reason names term k or an earlier term in the list, wherever they stand in the text; "hidden fees" always wins |
| `Utils.AnalyzeIgnoresCase` | app/utils.py:7 | two texts that differ only in letter case get the same verdict and reason |
| `Utils.TermInAnyCaseFlags` | app/utils.py:5-8 | a term written in any letter case anywhere in the text flags it |
| `Utils.ReasonIdentifiesFirstTerm` | app/utils.py:6-8 | a flagged reason naming term k means term k is the first term in list order that occurs in the lower-cased text; the three terms being distinct, the reason identifies it |
| `Utils.AnyOccurs` | app/utils.py:14 | `any(...)` over the terms holds exactly when one of them occurs |
| `Utils.DetectFraudulentTransaction` | app/utils.py:11-16 | true whenever the amount is over 5000, and otherwise exactly when the lower-cased description contains a suspicious phrase |
| `Utils.ThresholdIsExclusive` | app/utils.py:13-16 | with no suspicious phrase, the verdict is false for every amount up to and including 5000 |
| `Utils.PhraseInAnyCaseIsFraud` | app/utils.py:13-14 | a suspicious phrase in any letter case is fraud at any amount, including zero and negative |
| `Utils.FraudIgnoresCase` | app/utils.py:14 | the fraud verdict ignores the letter case of the description |
| `Utils.ExecuteResult` | app/utils.py:22-27 | "executed" with the id exactly when the agreement exists and is "active"; otherwise "failed" with the fixed reason |
| `Utils.ExecuteRows` | app/utils.py:22-25 | a failed execution leaves the table as it was; a successful one changes only that agreement's status, to "under_contract" |
| `Utils.ExecuteSucceedsOnActive` | app/utils.py:22-27 | with unique primary keys, execution succeeds exactly when some agreement with that id is "active" |
| `Utils.ExecuteFiresOnce` | app/utils.py:23-27 | after a successful execution, a second one on the same id fails and changes nothing |
| `Utils.ExecuteSmartContract` | app/utils.py:18-27 | the in-place update returns the specified result and leaves the specified table, keeping the tables valid |
| `Routes.Register` | app/routes.py:22-38 | missing or empty username or password gives 400 with no user added; an existing username gives 400 with the table unchanged; otherwise exactly one fresh user with that name and a hash that accepts the password is appended (201); usernames stay unique; the agreement table and its key counter are untouched |
| `Routes.Login` | app/routes.py:40-50 | a token for the username is issued exactly when a user with that name exists and the password checks against its stored hash (200); otherwise 401 |
| `Routes.ApplyReview` | app/routes.py:63-69 | on a flagged analysis, each of the borrower's agreements gains exactly one violation and is locked at 3 or more, while those below 3 keep their lock; other agreements and other columns are unchanged; an approved analysis changes nothing |
| `Routes.ReviewAgreement` | app/routes.py:55-72 | returns the analysis of the submitted text with 200 and updates the agreements in place as specified |
| `Routes.LockBorrower` | app/routes.py:93-95 | every agreement of the borrower is locked and nothing else changes |
| `Routes.ValidateTransaction` | app/routes.py:85-99 | a fraudulent transaction locks all of the borrower's agreements, keeps counts and status, and returns 403; otherwise nothing changes and 200 is returned |
| `Routes.FlaggedIds` | app/routes.py:78-80 | the ids listed are exactly those of AI-flagged agreements |
| `Routes.FlaggedIdsKeepOrder` | app/routes.py:79-80 | the report lists ids in table order: the report of two stretches of the table is their reports in turn |
| `Routes.ComplianceReport` | app/routes.py:74-80 | "compliant" exactly when no agreement is AI-flagged; otherwise the non-empty list of flagged ids |
| `Lifecycle.Step` | app/routes.py:55-99 | one request keeps every agreement's keys, parties, terms and AI flag; adds a violation only on a flagged review of the borrower; never clears a lock; moves status only from "active" to "under_contract"; leaves agreements it does not name untouched |
| `Lifecycle.RunKeepsRecord` | app/routes.py:55-99 | no sequence of requests writes an agreement's keys, parties, terms or `ai_flagged` |
| `Lifecycle.LocksAreNeverCleared` | app/routes.py:55-99 | once locked, an agreement stays locked after any requests |
| `Lifecycle.ViolationsCountFlaggedReviews` | app/routes.py:65-67 | an agreement's violation count grows by exactly the number of flagged reviews of its borrower |
| `Lifecycle.LockTracksViolations` | app/routes.py:67-69 | without a fraud alert for the borrower, "locked exactly when the count is at least 3" is preserved |
| `Lifecycle.ThirdFlaggedReviewLocks` | app/models.py:28-29 | a new agreement whose borrower has no fraud alert is locked exactly once it has had three flagged reviews |
| `Lifecycle.FraudLocksForGood` | app/routes.py:92-95 | one fraud alert for the borrower leaves the agreement locked after all later requests |
| `Lifecycle.OthersUntouched` | app/routes.py:63 | requests that name neither the agreement's borrower nor its id leave it exactly as it was |
| `Lifecycle.StatusOnlyAdvances` | app/utils.py:23-24 | status only ever moves from "active" to "under_contract" |
| `Lifecycle.ReportStaysCompliant` | app/routes.py:74-80 | a table with no AI-flagged agreement reports no violations after any requests |

## Left out

- HTTP layer: request parsing, JSON responses, the `jwt_required` guard and the rate limiter are not modelled. So are the health-check, link-token and biometric endpoints, which hold no logic.
- Plaid and Treasury Prime calls, PDF upload and parsing, and the bank-statement drawing are not part of this model.
- Password hashing: the random salt is a parameter. The digest is an idealised, collision-free stand-in (salt followed by password) for the library's one-way hash.
- Access tokens: `create_access_token` is modelled as a token that records the identity. Signing and expiry are not modelled.
- `Routes.Login`: with a known username and no password field, the hashing library would raise rather than answer. The model answers 401.
- Request fields of the wrong JSON type are not modelled. This covers a non-string username, an explicit `null` for `terms` or `description`, and a string `amount`; in Python each raises or compares differently. `terms` and `description` are strings, and an absent one is passed as its default `""`.
- An absent `amount` is passed as its default `0.0`.
- The compliance report lists ids in the order the table holds its rows. The query has no `ORDER BY`, so the database does not promise that order; the model assumes it.
- No handler in the modelled files inserts a loan agreement. `Models.Database.AddAgreement` stands for an insert that takes the column defaults.
- `amount` is a real number, not an IEEE float. The only arithmetic is the comparison with 5000.
- `str.lower()` is ASCII lower-casing. Unicode case mapping beyond ASCII is not modelled; all the keywords are ASCII.
- Session commit, rollback and concurrent requests are not modelled. So are the unique-constraint error that a racing duplicate registration would raise, and the ordering of `filter_by` results, which no handler's outcome depends on.
- Column widths (`String(80)`, `String(20)`, `String(200)`), the integer width of `violation_count`, and the foreign-key references from agreements and transactions to users are not enforced.
- No handler creates a `Transaction`. Only its record shape and defaults are modelled.
- `Lifecycle` covers a fixed set of agreements. Agreements added between requests are covered by `Models.Database.AddAgreement`, not by the `Run` lemmas.
