/** `POST /api/borrow`: six ordered checks, then one database transaction that
    records the borrowing, marks the book BORROWED, debits the borrower and
    writes the ledger entry. */
module BorrowRoute {
  import opened Entities
  import opened Store

  /** The reply body: the new borrowing with its book, borrower and lender as
      `borrowing.create` reads them, that is before the book's status flip and
      the borrower's debit, which come later in the same transaction. */
  datatype BorrowingDetail = BorrowingDetail(borrowing: Borrowing, book: Book, borrower: User, lender: User)

  // ------------------------------------------------------------ the checks

  /** The first check the request fails, in the order the handler tries them, or None. */
  function Verdict(s: Db, bookId: Option<string>, borrowerId: Option<string>): Option<ApiError> {
    if !Given(bookId) || !Given(borrowerId) then Some(MissingFields)
    else
      match IndexOfBook(s.books, bookId.value)
      case None => Some(BookNotFound)
      case Some(k) =>
        if s.books[k].status != Available then Some(BookUnavailable)
        else if borrowerId.value !in s.users then Some(UserNotFound)
        else if s.users[borrowerId.value].points < BorrowCost then Some(InsufficientPoints)
        else if s.books[k].ownerId == borrowerId.value then Some(OwnBook)
        else None
  }

  // The six conditions, each stated on its own over the tables.

  predicate FieldsGiven(bookId: Option<string>, borrowerId: Option<string>) {
    Given(bookId) && Given(borrowerId)
  }

  ghost predicate BookIsAvailable(s: Db, bookId: string) {
    exists i :: 0 <= i < |s.books| && s.books[i].id == bookId && s.books[i].status == Available
  }

  ghost predicate CanAfford(s: Db, userId: string) {
    userId in s.users && s.users[userId].points >= BorrowCost
  }

  ghost predicate OwnsBook(s: Db, userId: string, bookId: string) {
    exists i :: 0 <= i < |s.books| && s.books[i].id == bookId && s.books[i].ownerId == userId
  }

  lemma {:induction false} IndexIsTheBook(s: Db, id: string, i: int)
    requires BooksWellFormed(s) && 0 <= i < |s.books| && s.books[i].id == id
    ensures IndexOfBook(s.books, id) == Some(i)
  {
    var r := IndexOfBook(s.books, id);
    assert r.Some?;
    assert s.books[r.value].id == s.books[i].id;
  }

  /** Each rejection is the first failed condition: the conditions before it
      hold and its own fails; and the request passes exactly when all six hold. */
  lemma VerdictIsFirstFailure(s: Db, bookId: Option<string>, borrowerId: Option<string>)
    requires WellFormed(s)
    ensures Verdict(s, bookId, borrowerId) == Some(MissingFields) <==> !FieldsGiven(bookId, borrowerId)
    ensures Verdict(s, bookId, borrowerId) == Some(BookNotFound) <==>
      FieldsGiven(bookId, borrowerId) && !HasBook(s.books, bookId.value)
    ensures Verdict(s, bookId, borrowerId) == Some(BookUnavailable) <==>
      FieldsGiven(bookId, borrowerId) && HasBook(s.books, bookId.value) && !BookIsAvailable(s, bookId.value)
    ensures Verdict(s, bookId, borrowerId) == Some(UserNotFound) <==>
      FieldsGiven(bookId, borrowerId) && BookIsAvailable(s, bookId.value) && borrowerId.value !in s.users
    ensures Verdict(s, bookId, borrowerId) == Some(InsufficientPoints) <==>
      FieldsGiven(bookId, borrowerId) && BookIsAvailable(s, bookId.value) && borrowerId.value in s.users &&
      !CanAfford(s, borrowerId.value)
    ensures Verdict(s, bookId, borrowerId) == Some(OwnBook) <==>
      FieldsGiven(bookId, borrowerId) && BookIsAvailable(s, bookId.value) && CanAfford(s, borrowerId.value) &&
      OwnsBook(s, borrowerId.value, bookId.value)
    ensures Verdict(s, bookId, borrowerId) == None <==>
      FieldsGiven(bookId, borrowerId) && BookIsAvailable(s, bookId.value) && CanAfford(s, borrowerId.value) &&
      !OwnsBook(s, borrowerId.value, bookId.value)
  {
    if FieldsGiven(bookId, borrowerId) {
      var id := bookId.value;
      if HasBook(s.books, id) {
        var k := IndexOfBook(s.books, id).value;
        forall i | 0 <= i < |s.books| && s.books[i].id == id ensures i == k {
          IndexIsTheBook(s, id, i);
        }
        assert BookIsAvailable(s, id) <==> s.books[k].status == Available;
        assert OwnsBook(s, borrowerId.value, id) <==> s.books[k].ownerId == borrowerId.value;
      } else {
        assert !BookIsAvailable(s, id);
      }
    }
  }

  /** A borrower with fewer than five points is always turned away. */
  lemma FewPointsNeverBorrow(s: Db, bookId: Option<string>, borrowerId: Option<string>)
    requires Given(borrowerId) && borrowerId.value in s.users && s.users[borrowerId.value].points < BorrowCost
    ensures Verdict(s, bookId, borrowerId).Some?
  {
  }

  /** Nobody can borrow a book they own, whatever their points. */
  lemma OwnBookNeverBorrowed(s: Db, bookId: Option<string>, borrowerId: Option<string>)
    requires WellFormed(s) && Given(bookId) && Given(borrowerId)
    requires OwnsBook(s, borrowerId.value, bookId.value)
    ensures Verdict(s, bookId, borrowerId).Some?
  {
    VerdictIsFirstFailure(s, bookId, borrowerId);
  }

  /** A book that is not AVAILABLE is never lent. */
  lemma UnavailableNeverLent(s: Db, bookId: Option<string>, borrowerId: Option<string>)
    requires WellFormed(s) && Given(bookId) && !BookIsAvailable(s, bookId.value)
    ensures Verdict(s, bookId, borrowerId).Some?
  {
    VerdictIsFirstFailure(s, bookId, borrowerId);
  }

  // ---------------------------------------------------------- the effect

  function LendIndex(s: Db, bookId: string, borrowerId: string): (k: nat)
    requires Verdict(s, Some(bookId), Some(borrowerId)) == None
    ensures k < |s.books| && s.books[k].id == bookId
  {
    IndexOfBook(s.books, bookId).value
  }

  /** The ledger entry a successful borrow writes. */
  function LoanCharge(s: Db, bookId: string, borrowerId: string, txId: string): Transaction
    requires Verdict(s, Some(bookId), Some(borrowerId)) == None
  {
    var book := s.books[LendIndex(s, bookId, borrowerId)];
    Transaction(txId, Borrow, -BorrowCost, borrowerId, Some(bookId), "Empréstimo: " + book.title, s.clock + 1)
  }

  /** The store after the handler's transaction commits. */
  function Lend(s: Db, bookId: string, borrowerId: string, loanId: string, txId: string): Db
    requires Verdict(s, Some(bookId), Some(borrowerId)) == None
  {
    var k := LendIndex(s, bookId, borrowerId);
    var book := s.books[k];
    var loan := Borrowing(loanId, bookId, borrowerId, book.ownerId, Active, s.clock);
    Post(s.(books := s.books[k := book.(status := Borrowed)],
            borrowings := s.borrowings + [loan],
            clock := s.clock + 2),
         LoanCharge(s, bookId, borrowerId, txId))
  }

  /** The reply of a successful borrow. */
  function Receipt(s: Db, bookId: string, borrowerId: string, loanId: string): BorrowingDetail
    requires BooksWellFormed(s) && Verdict(s, Some(bookId), Some(borrowerId)) == None
  {
    var book := s.books[LendIndex(s, bookId, borrowerId)];
    BorrowingDetail(Borrowing(loanId, bookId, borrowerId, book.ownerId, Active, s.clock),
                    book, s.users[borrowerId], s.users[book.ownerId])
  }

  /** What a successful borrow changes, and that it changes nothing else. */
  lemma LendEffects(s: Db, bookId: string, borrowerId: string, loanId: string, txId: string)
    requires Verdict(s, Some(bookId), Some(borrowerId)) == None
    ensures var t := Lend(s, bookId, borrowerId, loanId, txId);
      var k := LendIndex(s, bookId, borrowerId);
      // the borrower pays exactly five points, still has none below zero,
      // and the rest of the borrower's record is untouched
      t.users.Keys == s.users.Keys &&
      t.users[borrowerId] == s.users[borrowerId].(points := s.users[borrowerId].points - 5) &&
      t.users[borrowerId].points >= 0 &&
      (forall id :: id in s.users && id != borrowerId ==> t.users[id] == s.users[id]) &&
      // the book is BORROWED, every other book is untouched
      |t.books| == |s.books| &&
      t.books[k] == s.books[k].(status := Borrowed) &&
      (forall i :: 0 <= i < |s.books| && i != k ==> t.books[i] == s.books[i]) &&
      // exactly one ACTIVE borrowing is added, lent by the owner to someone else
      t.borrowings == s.borrowings + [Borrowing(loanId, bookId, borrowerId, s.books[k].ownerId, Active, s.clock)] &&
      s.books[k].ownerId != borrowerId &&
      // exactly one ledger entry is appended
      t.transactions == s.transactions +
        [Transaction(txId, Borrow, -5, borrowerId, Some(bookId), "Empréstimo: " + s.books[k].title, s.clock + 1)]
  {
  }

  // -------------------------------------------------- invariant preservation

  lemma LendKeepsUsersWellFormed(s: Db, bookId: string, borrowerId: string, loanId: string, txId: string)
    requires UsersWellFormed(s) && Verdict(s, Some(bookId), Some(borrowerId)) == None
    ensures UsersWellFormed(Lend(s, bookId, borrowerId, loanId, txId))
  {
    LendEffects(s, bookId, borrowerId, loanId, txId);
  }

  lemma LendKeepsBooksWellFormed(s: Db, bookId: string, borrowerId: string, loanId: string, txId: string)
    requires BooksWellFormed(s) && Verdict(s, Some(bookId), Some(borrowerId)) == None
    ensures BooksWellFormed(Lend(s, bookId, borrowerId, loanId, txId))
  {
    var t := Lend(s, bookId, borrowerId, loanId, txId);
    LendEffects(s, bookId, borrowerId, loanId, txId);
    assert forall i :: 0 <= i < |s.books| ==> CreatedAtOfBook(t.books[i]) == CreatedAtOfBook(s.books[i]);
  }

  lemma {:induction false} LendKeepsBookIds(s: Db, bookId: string, borrowerId: string, loanId: string, txId: string, id: string)
    requires Verdict(s, Some(bookId), Some(borrowerId)) == None
    ensures HasBook(Lend(s, bookId, borrowerId, loanId, txId).books, id) == HasBook(s.books, id)
  {
    var t := Lend(s, bookId, borrowerId, loanId, txId);
    LendEffects(s, bookId, borrowerId, loanId, txId);
    assert forall i :: 0 <= i < |s.books| ==> t.books[i].id == s.books[i].id;
    if HasBook(s.books, id) {
      var i :| 0 <= i < |s.books| && s.books[i].id == id;
      assert t.books[i].id == id;
    }
  }

  lemma LendKeepsBorrowingsWellFormed(s: Db, bookId: string, borrowerId: string, loanId: string, txId: string)
    requires BooksWellFormed(s) && BorrowingsWellFormed(s) && Verdict(s, Some(bookId), Some(borrowerId)) == None
    requires FreshLoanId(s, loanId)
    ensures BorrowingsWellFormed(Lend(s, bookId, borrowerId, loanId, txId))
  {
    var t := Lend(s, bookId, borrowerId, loanId, txId);
    LendEffects(s, bookId, borrowerId, loanId, txId);
    forall id { LendKeepsBookIds(s, bookId, borrowerId, loanId, txId, id); }
    var n := |s.borrowings|;
    assert forall i :: 0 <= i < n ==> t.borrowings[i] == s.borrowings[i];
    assert HasBook(s.books, bookId);
  }

  lemma LendKeepsTransactionsWellFormed(s: Db, bookId: string, borrowerId: string, loanId: string, txId: string)
    requires TransactionsWellFormed(s) && Verdict(s, Some(bookId), Some(borrowerId)) == None
    requires FreshTransactionId(s, txId)
    ensures TransactionsWellFormed(Lend(s, bookId, borrowerId, loanId, txId))
  {
    var t := Lend(s, bookId, borrowerId, loanId, txId);
    LendEffects(s, bookId, borrowerId, loanId, txId);
    forall id { LendKeepsBookIds(s, bookId, borrowerId, loanId, txId, id); }
    var n := |s.transactions|;
    assert forall i :: 0 <= i < n ==> t.transactions[i] == s.transactions[i];
    assert HasBook(s.books, bookId);
    assert Seqs.Ascending(t.transactions, CreatedAtOfTx) by {
      forall i, j | 0 <= i < j < |t.transactions|
        ensures CreatedAtOfTx(t.transactions[i]) < CreatedAtOfTx(t.transactions[j])
      {
        if j == n { assert t.transactions[i].createdAt < s.clock; }
      }
    }
  }

  /** The book to be lent is AVAILABLE, so no ACTIVE borrowing refers to it yet. */
  lemma NoLoanOnLentBook(s: Db, bookId: string, borrowerId: string)
    requires BooksWellFormed(s) && LoansLendBooks(s) && Verdict(s, Some(bookId), Some(borrowerId)) == None
    ensures forall j :: 0 <= j < |s.borrowings| && s.borrowings[j].status.Active? ==> s.borrowings[j].bookId != bookId
  {
    forall j | 0 <= j < |s.borrowings| && s.borrowings[j].status.Active? ensures s.borrowings[j].bookId != bookId {
      var i :| 0 <= i < |s.books| && s.books[i].id == s.borrowings[j].bookId && s.books[i].status.Borrowed?;
      if s.borrowings[j].bookId == bookId {
        IndexIsTheBook(s, bookId, i);
      }
    }
  }

  lemma LendKeepsLoansLendBooks(s: Db, bookId: string, borrowerId: string, loanId: string, txId: string)
    requires LoansLendBooks(s) && Verdict(s, Some(bookId), Some(borrowerId)) == None
    ensures LoansLendBooks(Lend(s, bookId, borrowerId, loanId, txId))
  {
    var t := Lend(s, bookId, borrowerId, loanId, txId);
    var k := LendIndex(s, bookId, borrowerId);
    var n := |s.borrowings|;
    LendEffects(s, bookId, borrowerId, loanId, txId);
    forall j | 0 <= j < |t.borrowings| && t.borrowings[j].status.Active?
      ensures exists i :: 0 <= i < |t.books| && t.books[i].id == t.borrowings[j].bookId && t.books[i].status.Borrowed?
    {
      if j == n {
        assert t.books[k].id == t.borrowings[j].bookId;
      } else {
        assert t.borrowings[j] == s.borrowings[j];
        var i :| 0 <= i < |s.books| && s.books[i].id == s.borrowings[j].bookId && s.books[i].status.Borrowed?;
        assert t.books[i].id == t.borrowings[j].bookId && t.books[i].status.Borrowed?;
      }
    }
  }

  lemma LendKeepsLentBooksHaveLoans(s: Db, bookId: string, borrowerId: string, loanId: string, txId: string)
    requires LentBooksHaveLoans(s) && Verdict(s, Some(bookId), Some(borrowerId)) == None
    ensures LentBooksHaveLoans(Lend(s, bookId, borrowerId, loanId, txId))
  {
    var t := Lend(s, bookId, borrowerId, loanId, txId);
    var k := LendIndex(s, bookId, borrowerId);
    var n := |s.borrowings|;
    LendEffects(s, bookId, borrowerId, loanId, txId);
    forall i | 0 <= i < |t.books| && t.books[i].status.Borrowed?
      ensures exists j :: 0 <= j < |t.borrowings| && t.borrowings[j].bookId == t.books[i].id && t.borrowings[j].status.Active?
    {
      if i == k {
        assert t.borrowings[n].bookId == t.books[i].id && t.borrowings[n].status.Active?;
      } else {
        assert t.books[i] == s.books[i];
        var j :| 0 <= j < n && s.borrowings[j].bookId == s.books[i].id && s.borrowings[j].status.Active?;
        assert t.borrowings[j] == s.borrowings[j];
      }
    }
  }

  lemma LendKeepsOneLoanPerBook(s: Db, bookId: string, borrowerId: string, loanId: string, txId: string)
    requires BooksWellFormed(s) && LoansLendBooks(s) && OneLoanPerBook(s)
    requires Verdict(s, Some(bookId), Some(borrowerId)) == None
    ensures OneLoanPerBook(Lend(s, bookId, borrowerId, loanId, txId))
  {
    var t := Lend(s, bookId, borrowerId, loanId, txId);
    var n := |s.borrowings|;
    LendEffects(s, bookId, borrowerId, loanId, txId);
    NoLoanOnLentBook(s, bookId, borrowerId);
    forall j, k | 0 <= j < k < |t.borrowings| && t.borrowings[j].status.Active? && t.borrowings[k].status.Active?
      ensures t.borrowings[j].bookId != t.borrowings[k].bookId
    {
      assert t.borrowings[j] == s.borrowings[j];
      if k < n {
        assert t.borrowings[k] == s.borrowings[k];
      }
    }
  }

  /** A successful borrow keeps every invariant of the store, in particular
      that each user's points equal the sum of their ledger entries. */
  lemma LendKeepsInvariant(s: Db, bookId: string, borrowerId: string, loanId: string, txId: string)
    requires Invariant(s) && Verdict(s, Some(bookId), Some(borrowerId)) == None
    requires FreshLoanId(s, loanId) && FreshTransactionId(s, txId)
    ensures Invariant(Lend(s, bookId, borrowerId, loanId, txId))
  {
    LendKeepsUsersWellFormed(s, bookId, borrowerId, loanId, txId);
    LendKeepsBooksWellFormed(s, bookId, borrowerId, loanId, txId);
    LendKeepsBorrowingsWellFormed(s, bookId, borrowerId, loanId, txId);
    LendKeepsTransactionsWellFormed(s, bookId, borrowerId, loanId, txId);
    LendKeepsLoansLendBooks(s, bookId, borrowerId, loanId, txId);
    LendKeepsLentBooksHaveLoans(s, bookId, borrowerId, loanId, txId);
    LendKeepsOneLoanPerBook(s, bookId, borrowerId, loanId, txId);
    var k := LendIndex(s, bookId, borrowerId);
    PostReconciles(s.(books := s.books[k := s.books[k].(status := Borrowed)],
                      borrowings := s.borrowings + [Borrowing(loanId, bookId, borrowerId, s.books[k].ownerId, Active, s.clock)],
                      clock := s.clock + 2),
                   LoanCharge(s, bookId, borrowerId, txId));
  }

  // ---------------------------------------------------------- the handler

  /** The route handler. A rejection leaves the store as it was; otherwise the
      four writes of the transaction take effect together. */
  method HandleBorrow(db: Database, bookId: Option<string>, borrowerId: Option<string>, loanId: string, txId: string)
    returns (r: Reply<BorrowingDetail>)
    requires Invariant(db.State())
    requires FreshLoanId(db.State(), loanId) && FreshTransactionId(db.State(), txId)
    modifies db
    ensures Invariant(db.State())
    ensures match Verdict(old(db.State()), bookId, borrowerId)
      case Some(e) => r == Rejected(e) && db.State() == old(db.State())
      case None =>
        r == Created(Receipt(old(db.State()), bookId.value, borrowerId.value, loanId)) &&
        db.State() == Lend(old(db.State()), bookId.value, borrowerId.value, loanId, txId)
  {
    if !Given(bookId) || !Given(borrowerId) {
      return Rejected(MissingFields);
    }
    var found := IndexOfBook(db.books, bookId.value);
    if found.None? {
      return Rejected(BookNotFound);
    }
    var book := db.books[found.value];
    if book.status != Available {
      return Rejected(BookUnavailable);
    }
    if borrowerId.value !in db.users {
      return Rejected(UserNotFound);
    }
    var borrower := db.users[borrowerId.value];
    if borrower.points < BorrowCost {
      return Rejected(InsufficientPoints);
    }
    if book.ownerId == borrowerId.value {
      return Rejected(OwnBook);
    }
    ghost var before := db.State();
    var lender := db.users[book.ownerId];
    // the database transaction: four writes that commit together
    var loan := Borrowing(loanId, bookId.value, borrowerId.value, book.ownerId, Active, db.clock);
    db.borrowings := db.borrowings + [loan];
    db.books := db.books[found.value := book.(status := Borrowed)];
    db.users := db.users[borrowerId.value := borrower.(points := borrower.points - BorrowCost)];
    db.transactions := db.transactions +
      [Transaction(txId, Borrow, -BorrowCost, borrowerId.value, Some(bookId.value), "Empréstimo: " + book.title, db.clock + 1)];
    db.clock := db.clock + 2;
    r := Created(BorrowingDetail(loan, book, borrower, lender));
    assert found.value == LendIndex(before, bookId.value, borrowerId.value);
    ghost var after := Lend(before, bookId.value, borrowerId.value, loanId, txId);
    assert after.books == db.books;
    assert after.borrowings == db.borrowings;
    assert after.users == db.users;
    assert after.transactions == db.transactions;
    assert db.State() == after;
    LendKeepsInvariant(before, bookId.value, borrowerId.value, loanId, txId);
  }
}
