/** `/api/users`: `GET` looks a user up and gathers their books, their active
    borrowings and their latest ledger entries; `POST` creates an account with
    a unique email and zeroed counters. */
module UsersRoute {
  import opened Entities
  import opened Store
  import Seqs

  datatype BookRef = BookRef(title: string, author: string)

  /** A ledger entry with the title and author of the book it names. */
  datatype TxView = TxView(tx: Transaction, book: Option<BookRef>)

  /** An active borrowing with its book. */
  datatype LoanView = LoanView(borrowing: Borrowing, book: Option<Book>)

  /** The `GET` reply: the stored user record as it is, and the related rows. */
  datatype UserView = UserView(
    user: User,
    books: seq<Book>,
    borrowings: seq<LoanView>,
    transactions: seq<TxView>,
    bookCount: nat,
    borrowingCount: nat)

  // --------------------------------------------------------------- GET

  function OwnedBy(uid: string): Book -> bool { (b: Book) => b.ownerId == uid }
  function BorrowedBy(uid: string): Borrowing -> bool { (l: Borrowing) => l.borrowerId == uid }
  function ActiveFor(uid: string): Borrowing -> bool { (l: Borrowing) => l.borrowerId == uid && l.status.Active? }
  function EndedFor(uid: string): Borrowing -> bool { (l: Borrowing) => l.borrowerId == uid && !l.status.Active? }
  function EntryOf(uid: string): Transaction -> bool { (t: Transaction) => t.userId == uid }

  /** The user's books, newest first. */
  function OwnedBooks(s: Db, uid: string): seq<Book> {
    Seqs.Reverse(Seqs.Filter(s.books, OwnedBy(uid)))
  }

  /** The user's ACTIVE borrowings, in table order (the query sets no order). */
  function ActiveBorrowings(s: Db, uid: string): seq<Borrowing> {
    Seqs.Filter(s.borrowings, ActiveFor(uid))
  }

  /** All the user's ledger entries, newest first. */
  function History(s: Db, uid: string): seq<Transaction> {
    Seqs.Reverse(Seqs.Filter(s.transactions, EntryOf(uid)))
  }

  /** The first `RecentTransactions` entries of the history. */
  function Recent(s: Db, uid: string): seq<Transaction> {
    var h := History(s, uid);
    h[..if |h| <= RecentTransactions then |h| else RecentTransactions]
  }

  function BookById(books: seq<Book>, id: string): Option<Book> {
    match IndexOfBook(books, id)
    case Some(k) => Some(books[k])
    case None => None
  }

  function ViewOfTx(books: seq<Book>, t: Transaction): TxView {
    var b := if t.bookId.Some? then BookById(books, t.bookId.value) else None;
    TxView(t, if b.Some? then Some(BookRef(b.value.title, b.value.author)) else None)
  }

  function ViewOfLoan(books: seq<Book>, l: Borrowing): LoanView {
    LoanView(l, BookById(books, l.bookId))
  }

  function Aggregate(s: Db, uid: string): UserView
    requires uid in s.users
  {
    var txs := Recent(s, uid);
    var loans := ActiveBorrowings(s, uid);
    UserView(
      s.users[uid],
      OwnedBooks(s, uid),
      seq(|loans|, i requires 0 <= i < |loans| => ViewOfLoan(s.books, loans[i])),
      seq(|txs|, i requires 0 <= i < |txs| => ViewOfTx(s.books, txs[i])),
      |Seqs.Filter(s.books, OwnedBy(uid))|,
      |Seqs.Filter(s.borrowings, BorrowedBy(uid))|)
  }

  /** The `GET` handler's reply. */
  function Lookup(s: Db, id: Option<string>): (r: Reply<UserView>)
    ensures !Given(id) ==> r == Rejected(MissingFields) && r.Status() == 400
    ensures Given(id) && id.value !in s.users ==> r == Rejected(UserNotFound) && r.Status() == 404
    ensures r.Ok? <==> Given(id) && id.value in s.users
    ensures r.Ok? ==> r.value.user == s.users[id.value]
  {
    if !Given(id) then Rejected(MissingFields)
    else if id.value !in s.users then Rejected(UserNotFound)
    else Ok(Aggregate(s, id.value))
  }

  /** The lookup lists exactly the user's ACTIVE borrowings. */
  lemma LookupListsActiveBorrowings(s: Db, uid: string)
    requires uid in s.users
    ensures forall l :: l in ActiveBorrowings(s, uid) <==> l in s.borrowings && l.borrowerId == uid && l.status == Active
    ensures forall v :: v in Aggregate(s, uid).borrowings ==> v.borrowing.borrowerId == uid && v.borrowing.status == Active
    ensures |Aggregate(s, uid).borrowings| == |ActiveBorrowings(s, uid)|
    ensures forall i :: 0 <= i < |ActiveBorrowings(s, uid)| ==>
      Aggregate(s, uid).borrowings[i].borrowing == ActiveBorrowings(s, uid)[i]
  {
    var loans := ActiveBorrowings(s, uid);
    forall v | v in Aggregate(s, uid).borrowings
      ensures v.borrowing.borrowerId == uid && v.borrowing.status == Active
    {
      var i :| 0 <= i < |loans| && Aggregate(s, uid).borrowings[i] == v;
      assert loans[i] in loans;
    }
  }

  /** Each listed borrowing comes with the stored book it refers to, and with
      no book when no stored book has its id. */
  lemma LookupAttachesLoanBooks(s: Db, uid: string)
    requires BooksWellFormed(s) && uid in s.users
    ensures forall i, k :: (0 <= i < |ActiveBorrowings(s, uid)| && 0 <= k < |s.books| &&
                            ActiveBorrowings(s, uid)[i].bookId == s.books[k].id) ==>
      Aggregate(s, uid).borrowings[i].book == Some(s.books[k])
    ensures forall i :: 0 <= i < |ActiveBorrowings(s, uid)| && !HasBook(s.books, ActiveBorrowings(s, uid)[i].bookId) ==>
      Aggregate(s, uid).borrowings[i].book == None
  {
    var loans := ActiveBorrowings(s, uid);
    var v := Aggregate(s, uid).borrowings;
    forall i, k | 0 <= i < |loans| && 0 <= k < |s.books| && loans[i].bookId == s.books[k].id
      ensures v[i].book == Some(s.books[k])
    {
      var j := IndexOfBook(s.books, s.books[k].id);
      assert j.Some?;
      assert j.value == k;
    }
  }

  /** The lookup lists exactly the user's books, newest first. */
  lemma LookupListsOwnBooks(s: Db, uid: string)
    requires BooksWellFormed(s) && uid in s.users
    ensures forall b :: b in OwnedBooks(s, uid) <==> b in s.books && b.ownerId == uid
    ensures Seqs.Descending(OwnedBooks(s, uid), CreatedAtOfBook)
  {
    forall b ensures b in OwnedBooks(s, uid) <==> b in s.books && b.ownerId == uid {
      Seqs.ReverseMembers(Seqs.Filter(s.books, OwnedBy(uid)), b);
    }
    Seqs.FilterKeepsAscending(s.books, OwnedBy(uid), CreatedAtOfBook);
    Seqs.ReverseOfAscending(Seqs.Filter(s.books, OwnedBy(uid)), CreatedAtOfBook);
  }

  lemma HistoryFacts(s: Db, uid: string)
    requires TransactionsWellFormed(s)
    ensures forall t :: t in History(s, uid) <==> t in s.transactions && t.userId == uid
    ensures Seqs.Descending(History(s, uid), CreatedAtOfTx)
    ensures |History(s, uid)| == |Seqs.Filter(s.transactions, EntryOf(uid))|
  {
    var f := Seqs.Filter(s.transactions, EntryOf(uid));
    forall t ensures t in History(s, uid) <==> t in s.transactions && t.userId == uid {
      Seqs.ReverseMembers(f, t);
    }
    Seqs.FilterKeepsAscending(s.transactions, EntryOf(uid), CreatedAtOfTx);
    Seqs.ReverseOfAscending(f, CreatedAtOfTx);
  }

  /** The lookup returns the user's fifty newest entries (all of them when
      there are fewer), newest first: every entry of the user it leaves out is
      older than all it returns. */
  lemma LookupListsRecentTransactions(s: Db, uid: string)
    requires TransactionsWellFormed(s) && uid in s.users
    ensures |Recent(s, uid)| ==
      (var n := |Seqs.Filter(s.transactions, EntryOf(uid))|; if n <= RecentTransactions then n else RecentTransactions)
    ensures forall t :: t in Recent(s, uid) ==> t in s.transactions && t.userId == uid
    ensures Seqs.Descending(Recent(s, uid), CreatedAtOfTx)
    ensures forall t :: t in s.transactions && t.userId == uid && t !in Recent(s, uid) ==>
      forall i :: 0 <= i < |Recent(s, uid)| ==> t.createdAt < Recent(s, uid)[i].createdAt
  {
    var h := History(s, uid);
    var r := Recent(s, uid);
    HistoryFacts(s, uid);
    assert |r| == if |h| <= RecentTransactions then |h| else RecentTransactions;
    assert forall i :: 0 <= i < |r| ==> r[i] == h[i];
    forall t | t in s.transactions && t.userId == uid && t !in r
      ensures forall i :: 0 <= i < |r| ==> t.createdAt < r[i].createdAt
    {
      Seqs.PrefixKeepsLargest(h, |r|, CreatedAtOfTx, t);
    }
  }

  /** A user with at most fifty entries gets all of them back. */
  lemma LookupShortHistoryComplete(s: Db, uid: string)
    requires uid in s.users && |Seqs.Filter(s.transactions, EntryOf(uid))| <= RecentTransactions
    ensures forall t :: t in s.transactions && t.userId == uid ==> t in Recent(s, uid)
  {
    forall t | t in s.transactions && t.userId == uid ensures t in Recent(s, uid) {
      Seqs.ReverseMembers(Seqs.Filter(s.transactions, EntryOf(uid)), t);
    }
  }

  /** The lookup's counts: `bookCount` is the number of books listed, and
      `borrowingCount` counts all the user's borrowings: the ACTIVE ones listed
      plus those no longer ACTIVE. */
  lemma LookupCounts(s: Db, uid: string)
    requires uid in s.users
    ensures Aggregate(s, uid).bookCount == |Aggregate(s, uid).books|
    ensures Aggregate(s, uid).borrowingCount ==
      |Aggregate(s, uid).borrowings| + |Seqs.Filter(s.borrowings, EndedFor(uid))|
    ensures |Aggregate(s, uid).borrowings| <= Aggregate(s, uid).borrowingCount
  {
    Seqs.FilterSplits(s.borrowings, BorrowedBy(uid), ActiveFor(uid), EndedFor(uid));
  }

  /** Each listed ledger entry comes with the title and author of the stored
      book it names, and with no book when it names none. */
  lemma LookupAttachesBookTitles(s: Db, uid: string)
    requires BooksWellFormed(s) && TransactionsWellFormed(s) && uid in s.users
    ensures |Aggregate(s, uid).transactions| == |Recent(s, uid)|
    ensures forall i :: 0 <= i < |Recent(s, uid)| ==> Aggregate(s, uid).transactions[i].tx == Recent(s, uid)[i]
    ensures forall i :: 0 <= i < |Recent(s, uid)| && Recent(s, uid)[i].bookId.None? ==>
      Aggregate(s, uid).transactions[i].book == None
    ensures forall i, k :: (0 <= i < |Recent(s, uid)| && 0 <= k < |s.books| &&
                            Recent(s, uid)[i].bookId == Some(s.books[k].id)) ==>
      Aggregate(s, uid).transactions[i].book == Some(BookRef(s.books[k].title, s.books[k].author))
  {
    var r := Recent(s, uid);
    var v := Aggregate(s, uid).transactions;
    HistoryFacts(s, uid);
    forall i, k | 0 <= i < |r| && 0 <= k < |s.books| && r[i].bookId == Some(s.books[k].id)
      ensures v[i].book == Some(BookRef(s.books[k].title, s.books[k].author))
    {
      var j := IndexOfBook(s.books, s.books[k].id);
      assert j.Some?;
      assert j.value == k;
    }
  }

  // -------------------------------------------------------------- POST

  /** Why an account cannot be created, or None. */
  function RegistrationVerdict(s: Db, name: Option<string>, email: Option<string>, password: Option<string>): Option<ApiError> {
    if !Given(name) || !Given(email) || !Given(password) then Some(MissingFields)
    else if EmailInUse(s.users, email.value) then Some(EmailTaken)
    else None
  }

  /** The record `user.create` writes: zero points, zero rating, zero ratings. */
  function NewUser(s: Db, name: string, email: string, password: string, id: string): User {
    User(id, name, email, password, 0, None, None, 0.0, 0, s.clock)
  }

  function Register(s: Db, name: string, email: string, password: string, id: string): Db {
    s.(users := s.users[id := NewUser(s, name, email, password, id)], clock := s.clock + 1)
  }

  /** What a registration changes, and that it changes nothing else. */
  lemma RegisterEffects(s: Db, name: string, email: string, password: string, id: string)
    requires id !in s.users
    ensures var t := Register(s, name, email, password, id);
      t.users.Keys == s.users.Keys + {id} &&
      t.users[id].points == 0 && t.users[id].totalRatings == 0 && t.users[id].averageRating == 0.0 &&
      t.users[id].id == id && t.users[id].email == email && t.users[id].name == name &&
      t.users[id].password == password && t.users[id].createdAt == s.clock &&
      (forall u :: u in s.users ==> t.users[u] == s.users[u]) &&
      t.books == s.books && t.borrowings == s.borrowings && t.transactions == s.transactions
  {
  }

  /** An accepted registration keeps every invariant; in particular emails stay
      pairwise distinct and the new user's zero points match their empty ledger. */
  lemma RegisterKeepsInvariant(s: Db, name: string, email: string, password: string, id: string)
    requires Invariant(s) && id !in s.users && !EmailInUse(s.users, email)
    ensures Invariant(Register(s, name, email, password, id))
  {
    var t := Register(s, name, email, password, id);
    assert forall i :: 0 <= i < |s.transactions| ==> s.transactions[i].userId != id;
    BalanceOfStranger(s.transactions, id);
    assert Reconciled(t);
  }

  /** The `POST` handler. */
  method HandleCreateUser(db: Database, name: Option<string>, email: Option<string>, password: Option<string>, id: string)
    returns (r: Reply<PublicUser>)
    requires Invariant(db.State()) && id !in db.users
    modifies db
    ensures Invariant(db.State())
    ensures match RegistrationVerdict(old(db.State()), name, email, password)
      case Some(e) => r == Rejected(e) && db.State() == old(db.State())
      case None =>
        r == Created(Public(NewUser(old(db.State()), name.value, email.value, password.value, id))) &&
        db.State() == Register(old(db.State()), name.value, email.value, password.value, id)
  {
    if !Given(name) || !Given(email) || !Given(password) {
      return Rejected(MissingFields);
    }
    if exists u :: u in db.users && db.users[u].email == email.value {
      return Rejected(EmailTaken);
    }
    ghost var before := db.State();
    var user := User(id, name.value, email.value, password.value, 0, None, None, 0.0, 0, db.clock);
    db.users := db.users[id := user];
    db.clock := db.clock + 1;
    r := Created(Public(user));
    RegisterKeepsInvariant(before, name.value, email.value, password.value, id);
  }
}
