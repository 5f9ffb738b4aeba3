/** The data store the route handlers read and write: the user table (keyed
    by id), the book, borrowing and transaction tables (each kept in insertion
    order), and the counter that stamps `createdAt`. The invariants below are
    the integrity the handlers rely on and the ledger reconciliation they keep. */
module Store {
  import opened Entities
  import Seqs

  datatype Db = Db(
    users: map<string, User>,
    books: seq<Book>,
    borrowings: seq<Borrowing>,
    transactions: seq<Transaction>,
    clock: nat)

  function Empty(): Db {
    Db(map[], [], [], [], 0)
  }

  // ---------------------------------------------------------------- lookups

  predicate HasBook(books: seq<Book>, id: string) {
    exists i :: 0 <= i < |books| && books[i].id == id
  }

  /** `book.findUnique({ where: { id } })`: the position of the book with that id. */
  function IndexOfBook(books: seq<Book>, id: string): (r: Option<nat>)
    ensures r.Some? ==> r.value < |books| && books[r.value].id == id
    ensures r.None? <==> !HasBook(books, id)
    decreases |books|
  {
    if books == [] then None
    else if books[0].id == id then Some(0)
    else
      match IndexOfBook(books[1..], id)
      case None =>
        assert forall i :: 1 <= i < |books| ==> books[i] == books[1..][i - 1];
        None
      case Some(k) => Some(k + 1)
  }

  /** `user.findUnique({ where: { email } })` finds someone. */
  predicate EmailInUse(users: map<string, User>, email: string) {
    exists id :: id in users && users[id].email == email
  }

  /** The id generator hands out ids no row of the table already has. */
  predicate FreshBookId(s: Db, id: string) {
    !HasBook(s.books, id)
  }

  predicate FreshLoanId(s: Db, id: string) {
    forall j :: 0 <= j < |s.borrowings| ==> s.borrowings[j].id != id
  }

  predicate FreshTransactionId(s: Db, id: string) {
    forall j :: 0 <= j < |s.transactions| ==> s.transactions[j].id != id
  }

  // ----------------------------------------------------------------- ledger

  /** The sum of the points of `userId`'s ledger entries. */
  function Balance(txs: seq<Transaction>, userId: string): int
    decreases |txs|
  {
    if txs == [] then 0
    else (if txs[0].userId == userId then txs[0].points else 0) + Balance(txs[1..], userId)
  }

  lemma {:induction false} BalanceAppend(txs: seq<Transaction>, tx: Transaction, userId: string)
    ensures Balance(txs + [tx], userId) == Balance(txs, userId) + (if tx.userId == userId then tx.points else 0)
    decreases |txs|
  {
    if txs != [] {
      assert (txs + [tx])[1..] == txs[1..] + [tx];
      BalanceAppend(txs[1..], tx, userId);
    }
  }

  lemma {:induction false} BalanceOfStranger(txs: seq<Transaction>, userId: string)
    requires forall i :: 0 <= i < |txs| ==> txs[i].userId != userId
    ensures Balance(txs, userId) == 0
    decreases |txs|
  {
    if txs != [] {
      BalanceOfStranger(txs[1..], userId);
    }
  }

  // ------------------------------------------------------------- invariants

  function CreatedAtOfBook(b: Book): int { b.createdAt }
  function CreatedAtOfTx(t: Transaction): int { t.createdAt }

  /** Users are keyed by their id and no two share an email. */
  ghost predicate UsersWellFormed(s: Db) {
    (forall id :: id in s.users ==> s.users[id].id == id) &&
    (forall a, b :: a in s.users && b in s.users && s.users[a].email == s.users[b].email ==> a == b)
  }

  /** Book ids are unique, owners exist, and `createdAt` grows with insertion. */
  ghost predicate BooksWellFormed(s: Db) {
    (forall i, j :: 0 <= i < j < |s.books| ==> s.books[i].id != s.books[j].id) &&
    (forall i :: 0 <= i < |s.books| ==> s.books[i].ownerId in s.users) &&
    (forall i :: 0 <= i < |s.books| ==> s.books[i].createdAt < s.clock) &&
    Seqs.Ascending(s.books, CreatedAtOfBook)
  }

  /** Borrowing ids are unique and every borrowing names a stored book and two stored users. */
  ghost predicate BorrowingsWellFormed(s: Db) {
    (forall i, j :: 0 <= i < j < |s.borrowings| ==> s.borrowings[i].id != s.borrowings[j].id) &&
    (forall i :: 0 <= i < |s.borrowings| ==>
      HasBook(s.books, s.borrowings[i].bookId) &&
      s.borrowings[i].borrowerId in s.users && s.borrowings[i].lenderId in s.users)
  }

  /** Ledger ids are unique, every entry names a stored user (and book, when
      it names one), and `createdAt` grows with insertion. */
  ghost predicate TransactionsWellFormed(s: Db) {
    (forall i, j :: 0 <= i < j < |s.transactions| ==> s.transactions[i].id != s.transactions[j].id) &&
    (forall i :: 0 <= i < |s.transactions| ==> s.transactions[i].userId in s.users) &&
    (forall i :: 0 <= i < |s.transactions| && s.transactions[i].bookId.Some? ==>
      HasBook(s.books, s.transactions[i].bookId.value)) &&
    (forall i :: 0 <= i < |s.transactions| ==> s.transactions[i].createdAt < s.clock) &&
    Seqs.Ascending(s.transactions, CreatedAtOfTx)
  }

  ghost predicate WellFormed(s: Db) {
    UsersWellFormed(s) && BooksWellFormed(s) && BorrowingsWellFormed(s) && TransactionsWellFormed(s)
  }

  /** Every user's points equal the sum of that user's ledger entries. */
  ghost predicate Reconciled(s: Db) {
    forall id :: id in s.users ==> s.users[id].points == Balance(s.transactions, id)
  }

  ghost predicate NonNegativePoints(s: Db) {
    forall id :: id in s.users ==> s.users[id].points >= 0
  }

  /** Every ACTIVE borrowing refers to a BORROWED book. */
  ghost predicate LoansLendBooks(s: Db) {
    forall j :: 0 <= j < |s.borrowings| && s.borrowings[j].status.Active? ==>
      exists i :: 0 <= i < |s.books| && s.books[i].id == s.borrowings[j].bookId && s.books[i].status.Borrowed?
  }

  /** Every BORROWED book has an ACTIVE borrowing. */
  ghost predicate LentBooksHaveLoans(s: Db) {
    forall i :: 0 <= i < |s.books| && s.books[i].status.Borrowed? ==>
      exists j :: 0 <= j < |s.borrowings| && s.borrowings[j].bookId == s.books[i].id && s.borrowings[j].status.Active?
  }

  /** No book has two ACTIVE borrowings. */
  ghost predicate OneLoanPerBook(s: Db) {
    forall j, k :: 0 <= j < k < |s.borrowings| && s.borrowings[j].status.Active? && s.borrowings[k].status.Active? ==>
      s.borrowings[j].bookId != s.borrowings[k].bookId
  }

  /** A book is BORROWED exactly when one ACTIVE borrowing refers to it. */
  ghost predicate LoansConsistent(s: Db) {
    LoansLendBooks(s) && LentBooksHaveLoans(s) && OneLoanPerBook(s)
  }

  ghost predicate Invariant(s: Db) {
    WellFormed(s) && Reconciled(s) && NonNegativePoints(s) && LoansConsistent(s)
  }

  lemma EmptyInvariant()
    ensures Invariant(Empty())
  {
  }

  // ------------------------------------------------------- ledger postings

  /** Changes a user's points by a ledger entry's amount and appends the entry:
      the `user.update` and `transaction.create` pair both writing routes perform. */
  function Post(s: Db, tx: Transaction): (t: Db)
    requires tx.userId in s.users
  {
    var u := s.users[tx.userId];
    s.(users := s.users[tx.userId := u.(points := u.points + tx.points)],
       transactions := s.transactions + [tx])
  }

  /** Posting an entry together with the matching points change keeps every
      user's points equal to their ledger sum. */
  lemma PostReconciles(s: Db, tx: Transaction)
    requires Reconciled(s) && tx.userId in s.users
    ensures Reconciled(Post(s, tx))
  {
    var t := Post(s, tx);
    forall id | id in t.users ensures t.users[id].points == Balance(t.transactions, id) {
      BalanceAppend(s.transactions, tx, id);
    }
  }

  /** The mutable store. Its fields are the tables; `State` is its value. */
  class Database {
    var users: map<string, User>
    var books: seq<Book>
    var borrowings: seq<Borrowing>
    var transactions: seq<Transaction>
    var clock: nat

    function State(): Db
      reads this
    {
      Db(users, books, borrowings, transactions, clock)
    }

    constructor ()
      ensures State() == Empty() && Invariant(State())
    {
      users, books, borrowings, transactions, clock := map[], [], [], [], 0;
      EmptyInvariant();
    }
  }
}
