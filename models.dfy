/**
 * The records of the application's relational store: users, loan agreements
 * and transactions, with their column defaults, and the two tables the
 * request handlers read and update.
 */
module Models {
  import opened Wrappers

  /** Values of `LoanAgreement.status`. */
  const Active := "active"
  const UnderContract := "under_contract"

  /*
   * Password hashing. The library draws a fresh random salt for every hash;
   * here the salt is a parameter. The digest is an idealised, collision-free
   * stand-in for the salted hash: checking recomputes it with the stored salt.
   */

  datatype PasswordHash = PasswordHash(salt: string, digest: string)

  function Digest(salt: string, password: string): string {
    salt + password
  }

  function GeneratePasswordHash(password: string, salt: string): (h: PasswordHash)
    ensures h.salt == salt
  {
    PasswordHash(salt, Digest(salt, password))
  }

  predicate CheckPasswordHash(h: PasswordHash, password: string) {
    h.digest == Digest(h.salt, password)
  }

  /** A hash made from a password accepts that password and no other. */
  lemma {:induction false} CheckAfterGenerate(password: string, candidate: string, salt: string)
    ensures CheckPasswordHash(GeneratePasswordHash(password, salt), candidate) <==> candidate == password
  {
    if CheckPasswordHash(GeneratePasswordHash(password, salt), candidate) {
      assert (salt + password)[|salt|..] == password;
      assert (salt + candidate)[|salt|..] == candidate;
    }
  }

  /** A registered user; `username` is required and unique across the table. */
  class User {
    var id: int
    var username: string
    var passwordHash: PasswordHash

    constructor (id: int, username: string, passwordHash: PasswordHash)
      ensures this.id == id && this.username == username && this.passwordHash == passwordHash
    {
      this.id := id;
      this.username := username;
      this.passwordHash := passwordHash;
    }

    /** Hashes and stores the password; afterwards exactly that password checks. */
    method SetPassword(password: string, salt: string)
      modifies this`passwordHash
      ensures passwordHash == GeneratePasswordHash(password, salt)
      ensures CheckPassword(password)
      ensures forall other :: other != password ==> !CheckPassword(other)
    {
      passwordHash := GeneratePasswordHash(password, salt);
      CheckAfterGenerate(password, password, salt);
      forall other | other != password
        ensures !CheckPassword(other)
      {
        CheckAfterGenerate(password, other, salt);
      }
    }

    /** Accepts exactly the password the stored hash was generated from, under its stored salt. */
    predicate CheckPassword(password: string)
      reads this
      ensures CheckPassword(password) <==> passwordHash == GeneratePasswordHash(password, passwordHash.salt)
    {
      CheckPasswordHash(passwordHash, password)
    }
  }

  /** The value of one loan agreement row at a point in time. */
  datatype AgreementRow = AgreementRow(
    id: int,
    lenderId: int,
    borrowerId: int,
    terms: string,
    status: string,
    aiFlagged: bool,
    locked: bool,
    violationCount: int)

  /**
   * The row a new agreement gets: lender, borrower and terms are required
   * columns; status, the AI flag, the lock and the violation count take
   * their column defaults.
   */
  function NewRow(id: int, lenderId: int, borrowerId: int, terms: string): (r: AgreementRow)
    ensures r.id == id && r.lenderId == lenderId && r.borrowerId == borrowerId && r.terms == terms
    ensures r.status == Active && !r.aiFlagged && !r.locked && r.violationCount == 0
  {
    AgreementRow(id, lenderId, borrowerId, terms, Active, false, false, 0)
  }

  /** A loan agreement, whose compliance fields the handlers update in place. */
  class LoanAgreement {
    var id: int
    var lenderId: int
    var borrowerId: int
    var terms: string
    var status: string
    var aiFlagged: bool
    var locked: bool
    var violationCount: int

    constructor (id: int, lenderId: int, borrowerId: int, terms: string)
      ensures Row() == NewRow(id, lenderId, borrowerId, terms)
    {
      this.id := id;
      this.lenderId := lenderId;
      this.borrowerId := borrowerId;
      this.terms := terms;
      status := Active;
      aiFlagged := false;
      locked := false;
      violationCount := 0;
    }

    function Row(): AgreementRow
      reads this
    {
      AgreementRow(id, lenderId, borrowerId, terms, status, aiFlagged, locked, violationCount)
    }
  }

  /** A recorded transaction; `ai_verified` defaults to false. */
  class Transaction {
    var id: int
    var userId: int
    var amount: real
    var description: string
    var aiVerified: bool

    constructor (id: int, userId: int, amount: real, description: string)
      ensures this.id == id && this.userId == userId && this.amount == amount
      ensures this.description == description && !aiVerified
    {
      this.id := id;
      this.userId := userId;
      this.amount := amount;
      this.description := description;
      aiVerified := false;
    }
  }

  /**
   * Lookup by primary key: the first row whose id is `id`. Primary keys are
   * unique in a valid table, so the first row is the only one.
   */
  function IndexOfId(rows: seq<AgreementRow>, id: int): (r: Option<nat>)
    ensures r.Some? ==> r.value < |rows| && rows[r.value].id == id
    ensures r.Some? ==> forall j :: 0 <= j < r.value ==> rows[j].id != id
    ensures r.None? ==> forall j :: 0 <= j < |rows| ==> rows[j].id != id
    decreases |rows|
  {
    if |rows| == 0 then None
    else if rows[0].id == id then Some(0)
    else match IndexOfId(rows[1..], id)
      case None => None
      case Some(k) => Some(k + 1)
  }

  /** The lookup sees only ids: rows with the same ids give the same answer. */
  lemma {:induction false} IndexOfIdOnlyReadsIds(a: seq<AgreementRow>, b: seq<AgreementRow>, id: int)
    requires |a| == |b|
    requires forall k :: 0 <= k < |a| ==> a[k].id == b[k].id
    ensures IndexOfId(a, id) == IndexOfId(b, id)
    decreases |a|
  {
    if |a| > 0 && a[0].id != id {
      IndexOfIdOnlyReadsIds(a[1..], b[1..], id);
    }
  }

  /**
   * The database: the user table and the loan agreement table, each a list
   * of distinct row objects, with the next primary key of each.
   */
  class Database {
    var users: seq<User>
    var agreements: seq<LoanAgreement>
    var nextUserId: int
    var nextAgreementId: int

    /** Usernames and primary keys are unique; each agreement is loaded once. */
    ghost predicate Valid()
      reads this, users, agreements
      ensures Valid() ==> forall i, j ::
        0 <= i < |users| && 0 <= j < |users| && users[i].username == users[j].username ==> i == j
      ensures Valid() ==> forall i, j ::
        0 <= i < |agreements| && 0 <= j < |agreements| && agreements[i].id == agreements[j].id ==> i == j
    {
      (forall i, j :: 0 <= i < j < |users| ==>
        users[i].username != users[j].username && users[i].id != users[j].id) &&
      (forall k :: 0 <= k < |users| ==> users[k].id < nextUserId) &&
      (forall i, j :: 0 <= i < j < |agreements| ==>
        agreements[i] != agreements[j] && agreements[i].id != agreements[j].id) &&
      (forall k :: 0 <= k < |agreements| ==> agreements[k].id < nextAgreementId)
    }

    constructor ()
      ensures Valid()
      ensures users == [] && agreements == []
    {
      users := [];
      agreements := [];
      nextUserId := 1;
      nextAgreementId := 1;
    }

    /** The agreement table as values, in table order. */
    function Rows(): (rows: seq<AgreementRow>)
      reads this, agreements
      ensures |rows| == |agreements|
      ensures forall k :: 0 <= k < |agreements| ==> rows[k] == agreements[k].Row()
    {
      var ags := agreements;
      seq(|ags|, k requires 0 <= k < |ags| reads ags => ags[k].Row())
    }

    /** Adds a new agreement with the next primary key and the column defaults. */
    method AddAgreement(lenderId: int, borrowerId: int, terms: string) returns (a: LoanAgreement)
      requires Valid()
      modifies this
      ensures Valid() && fresh(a)
      ensures agreements == old(agreements) + [a]
      ensures users == old(users) && nextUserId == old(nextUserId)
      ensures Rows() == old(Rows()) + [NewRow(old(nextAgreementId), lenderId, borrowerId, terms)]
    {
      a := new LoanAgreement(nextAgreementId, lenderId, borrowerId, terms);
      agreements := agreements + [a];
      nextAgreementId := nextAgreementId + 1;
    }

    /** `User.query.filter_by(username=...).first()`. */
    method FindUser(username: string) returns (k: Option<nat>)
      ensures k.Some? ==> k.value < |users| && users[k.value].username == username
      ensures k.None? ==> forall j :: 0 <= j < |users| ==> users[j].username != username
    {
      var i := 0;
      while i < |users|
        invariant 0 <= i <= |users|
        invariant forall j :: 0 <= j < i ==> users[j].username != username
      {
        if users[i].username == username {
          return Some(i);
        }
        i := i + 1;
      }
      return None;
    }

    /** `LoanAgreement.query.get(id)`: the agreement with that primary key, if any. */
    method FindAgreement(id: int) returns (k: Option<nat>)
      ensures k == IndexOfId(Rows(), id)
    {
      var i := 0;
      while i < |agreements|
        invariant 0 <= i <= |agreements|
        invariant forall j :: 0 <= j < i ==> agreements[j].id != id
      {
        if agreements[i].id == id {
          return Some(i);
        }
        i := i + 1;
      }
      return None;
    }
  }
}
