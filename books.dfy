/** `/api/books`: `GET` lists the catalog, filtered by status and by a
    case-insensitive search on title or author, newest first; `POST` records a
    donated book and credits its owner ten points. */
module BooksRoute {
  import opened Entities
  import opened Store
  import Seqs
  import Text

  /** A catalog entry: the book with the owner fields the query includes. */
  datatype BookListing = BookListing(book: Book, owner: Option<OwnerSummary>)

  // --------------------------------------------------------------- GET

  /** The status filter applies only when the parameter is given. */
  predicate HasStatus(b: Book, status: Option<string>) {
    !Given(status) || StatusName(b.status) == status.value
  }

  /** The search filter applies only when the parameter is given. */
  predicate MatchesTerm(b: Book, search: Option<string>) {
    !Given(search) || Text.MatchesSearch(b.title, b.author, search.value)
  }

  function Selector(search: Option<string>, status: Option<string>): Book -> bool {
    b => HasStatus(b, status) && MatchesTerm(b, search)
  }

  /** The selected books, newest first: the table is kept in insertion order,
      which is ascending `createdAt`. */
  function Selected(s: Db, search: Option<string>, status: Option<string>): seq<Book> {
    Seqs.Reverse(Seqs.Filter(s.books, Selector(search, status)))
  }

  function OwnerOf(users: map<string, User>, b: Book): Option<OwnerSummary> {
    if b.ownerId in users then Some(Summary(users[b.ownerId])) else None
  }

  function Listings(users: map<string, User>, books: seq<Book>): (r: seq<BookListing>)
    ensures |r| == |books|
    ensures forall i :: 0 <= i < |books| ==> r[i] == BookListing(books[i], OwnerOf(users, books[i]))
  {
    seq(|books|, i requires 0 <= i < |books| => BookListing(books[i], OwnerOf(users, books[i])))
  }

  /** The `GET` handler's reply. */
  function Catalog(s: Db, search: Option<string>, status: Option<string>): Reply<seq<BookListing>> {
    Ok(Listings(s.users, Selected(s, search, status)))
  }

  /** A book is listed exactly when it is stored, has the requested status and
      matches the search term. */
  lemma CatalogSelects(s: Db, search: Option<string>, status: Option<string>, b: Book)
    ensures b in Selected(s, search, status) <==> b in s.books && HasStatus(b, status) && MatchesTerm(b, search)
  {
    Seqs.ReverseMembers(Seqs.Filter(s.books, Selector(search, status)), b);
  }

  /** Without filters every book is listed, newest first. */
  lemma CatalogUnfiltered(s: Db, search: Option<string>, status: Option<string>)
    requires !Given(search) && !Given(status)
    ensures Selected(s, search, status) == Seqs.Reverse(s.books)
  {
    Seqs.FilterAll(s.books, Selector(search, status));
  }

  /** With a status filter every listed book has that status. */
  lemma CatalogHonoursStatus(s: Db, search: Option<string>, status: Option<string>)
    requires Given(status)
    ensures forall b :: b in Selected(s, search, status) ==> StatusName(b.status) == status.value
  {
    forall b | b in Selected(s, search, status) ensures StatusName(b.status) == status.value {
      CatalogSelects(s, search, status, b);
    }
  }

  /** With a search term, a stored book is listed exactly when its title or
      author contains the term, ignoring letter case. */
  lemma CatalogHonoursSearch(s: Db, search: Option<string>)
    requires Given(search)
    ensures forall b :: b in s.books ==>
      (b in Selected(s, search, None) <==> Text.MatchesSearch(b.title, b.author, search.value))
  {
    forall b | b in s.books {
      CatalogSelects(s, search, None, b);
    }
  }

  /** Listed books come newest first. */
  lemma CatalogNewestFirst(s: Db, search: Option<string>, status: Option<string>)
    requires BooksWellFormed(s)
    ensures Seqs.Descending(Selected(s, search, status), CreatedAtOfBook)
  {
    Seqs.FilterKeepsAscending(s.books, Selector(search, status), CreatedAtOfBook);
    Seqs.ReverseOfAscending(Seqs.Filter(s.books, Selector(search, status)), CreatedAtOfBook);
  }

  /** Every listed book carries its owner's summary. */
  lemma CatalogIncludesOwners(s: Db, search: Option<string>, status: Option<string>)
    requires BooksWellFormed(s)
    ensures forall l :: l in Catalog(s, search, status).value ==>
      l.book.ownerId in s.users && l.owner == Some(Summary(s.users[l.book.ownerId]))
  {
    var sel := Selected(s, search, status);
    forall l | l in Catalog(s, search, status).value
      ensures l.book.ownerId in s.users && l.owner == Some(Summary(s.users[l.book.ownerId]))
    {
      var i :| 0 <= i < |sel| && Catalog(s, search, status).value[i] == l;
      assert sel[i] in sel;
      CatalogSelects(s, search, status, sel[i]);
    }
  }

  // -------------------------------------------------------------- POST

  /** Why a donation fails, or None. A missing owner makes the book insert
      violate its owner reference; the handler reports that as a server error. */
  function DonationVerdict(s: Db, title: Option<string>, author: Option<string>, ownerId: Option<string>): Option<ApiError> {
    if !Given(title) || !Given(author) || !Given(ownerId) then Some(MissingFields)
    else if ownerId.value !in s.users then Some(ServerError)
    else None
  }

  function DonatedBook(s: Db, title: string, author: string, description: Option<string>,
                       coverImage: Option<string>, ownerId: string, bookId: string): Book
  {
    Book(bookId, title, author, description, coverImage, Available, ownerId, s.clock)
  }

  function DonationCredit(s: Db, title: string, ownerId: string, bookId: string, txId: string): Transaction {
    Transaction(txId, Donation, DonationReward, ownerId, Some(bookId), "Doação: " + title, s.clock + 1)
  }

  /** The store after the three writes of a donation. */
  function Donate(s: Db, title: string, author: string, description: Option<string>,
                  coverImage: Option<string>, ownerId: string, bookId: string, txId: string): Db
    requires ownerId in s.users
  {
    Post(s.(books := s.books + [DonatedBook(s, title, author, description, coverImage, ownerId, bookId)],
            clock := s.clock + 2),
         DonationCredit(s, title, ownerId, bookId, txId))
  }

  /** What a donation changes, and that it changes nothing else. */
  lemma DonateEffects(s: Db, title: string, author: string, description: Option<string>,
                      coverImage: Option<string>, ownerId: string, bookId: string, txId: string)
    requires ownerId in s.users
    ensures var t := Donate(s, title, author, description, coverImage, ownerId, bookId, txId);
      // one new AVAILABLE book owned by the donor
      t.books == s.books + [Book(bookId, title, author, description, coverImage, Available, ownerId, s.clock)] &&
      // the donor earns exactly ten points, nobody else changes
      t.users.Keys == s.users.Keys &&
      t.users[ownerId] == s.users[ownerId].(points := s.users[ownerId].points + 10) &&
      (forall id :: id in s.users && id != ownerId ==> t.users[id] == s.users[id]) &&
      // one DONATION entry of +10 for the donor and the new book
      t.transactions == s.transactions + [Transaction(txId, Donation, 10, ownerId, Some(bookId), "Doação: " + title, s.clock + 1)] &&
      t.borrowings == s.borrowings
  {
  }

  lemma {:induction false} DonateKeepsBookIds(s: Db, title: string, author: string, description: Option<string>,
                                              coverImage: Option<string>, ownerId: string, bookId: string, txId: string, id: string)
    requires ownerId in s.users
    ensures HasBook(s.books, id) ==> HasBook(Donate(s, title, author, description, coverImage, ownerId, bookId, txId).books, id)
    ensures HasBook(Donate(s, title, author, description, coverImage, ownerId, bookId, txId).books, bookId)
  {
    var t := Donate(s, title, author, description, coverImage, ownerId, bookId, txId);
    assert t.books[|s.books|].id == bookId;
    if HasBook(s.books, id) {
      var i :| 0 <= i < |s.books| && s.books[i].id == id;
      assert t.books[i].id == id;
    }
  }

  lemma DonateKeepsWellFormed(s: Db, title: string, author: string, description: Option<string>,
                              coverImage: Option<string>, ownerId: string, bookId: string, txId: string)
    requires WellFormed(s) && ownerId in s.users
    requires FreshBookId(s, bookId) && FreshTransactionId(s, txId)
    ensures WellFormed(Donate(s, title, author, description, coverImage, ownerId, bookId, txId))
  {
    var t := Donate(s, title, author, description, coverImage, ownerId, bookId, txId);
    DonateEffects(s, title, author, description, coverImage, ownerId, bookId, txId);
    forall id { DonateKeepsBookIds(s, title, author, description, coverImage, ownerId, bookId, txId, id); }
    var n := |s.books|;
    assert forall i :: 0 <= i < n ==> t.books[i] == s.books[i];
    assert forall i :: 0 <= i < n ==> s.books[i].id != bookId;
    assert BooksWellFormed(t) by {
      forall i, j | 0 <= i < j < |t.books| ensures CreatedAtOfBook(t.books[i]) < CreatedAtOfBook(t.books[j]) {
        if j == n { assert t.books[i].createdAt < s.clock; }
      }
    }
    var m := |s.transactions|;
    assert forall i :: 0 <= i < m ==> t.transactions[i] == s.transactions[i];
    assert TransactionsWellFormed(t) by {
      forall i, j | 0 <= i < j < |t.transactions|
        ensures CreatedAtOfTx(t.transactions[i]) < CreatedAtOfTx(t.transactions[j])
      {
        if j == m { assert t.transactions[i].createdAt < s.clock; }
      }
    }
  }

  lemma DonateKeepsLoansConsistent(s: Db, title: string, author: string, description: Option<string>,
                                   coverImage: Option<string>, ownerId: string, bookId: string, txId: string)
    requires LoansConsistent(s) && ownerId in s.users
    ensures LoansConsistent(Donate(s, title, author, description, coverImage, ownerId, bookId, txId))
  {
    var t := Donate(s, title, author, description, coverImage, ownerId, bookId, txId);
    DonateEffects(s, title, author, description, coverImage, ownerId, bookId, txId);
    var n := |s.books|;
    assert forall i :: 0 <= i < n ==> t.books[i] == s.books[i];
    assert LoansLendBooks(t) by {
      forall j | 0 <= j < |t.borrowings| && t.borrowings[j].status.Active?
        ensures exists i :: 0 <= i < |t.books| && t.books[i].id == t.borrowings[j].bookId && t.books[i].status.Borrowed?
      {
        var i :| 0 <= i < |s.books| && s.books[i].id == s.borrowings[j].bookId && s.books[i].status.Borrowed?;
        assert t.books[i] == s.books[i];
      }
    }
  }

  /** A donation keeps every invariant of the store, in particular that each
      user's points equal the sum of their ledger entries. */
  lemma DonateKeepsInvariant(s: Db, title: string, author: string, description: Option<string>,
                             coverImage: Option<string>, ownerId: string, bookId: string, txId: string)
    requires Invariant(s) && ownerId in s.users
    requires FreshBookId(s, bookId) && FreshTransactionId(s, txId)
    ensures Invariant(Donate(s, title, author, description, coverImage, ownerId, bookId, txId))
  {
    DonateKeepsWellFormed(s, title, author, description, coverImage, ownerId, bookId, txId);
    DonateKeepsLoansConsistent(s, title, author, description, coverImage, ownerId, bookId, txId);
    PostReconciles(s.(books := s.books + [DonatedBook(s, title, author, description, coverImage, ownerId, bookId)],
                      clock := s.clock + 2),
                   DonationCredit(s, title, ownerId, bookId, txId));
  }

  /** The `POST` handler: validation, then the book insert, the owner's
      credit and the ledger entry. */
  method HandleDonate(db: Database, title: Option<string>, author: Option<string>, description: Option<string>,
                      coverImage: Option<string>, ownerId: Option<string>, bookId: string, txId: string)
    returns (r: Reply<BookListing>)
    requires Invariant(db.State())
    requires FreshBookId(db.State(), bookId) && FreshTransactionId(db.State(), txId)
    modifies db
    ensures Invariant(db.State())
    ensures match DonationVerdict(old(db.State()), title, author, ownerId)
      case Some(e) => r == Rejected(e) && db.State() == old(db.State())
      case None =>
        var book := DonatedBook(old(db.State()), title.value, author.value, description, coverImage, ownerId.value, bookId);
        r == Created(BookListing(book, Some(Summary(old(db.users)[ownerId.value])))) &&
        db.State() == Donate(old(db.State()), title.value, author.value, description, coverImage, ownerId.value, bookId, txId)
  {
    if !Given(title) || !Given(author) || !Given(ownerId) {
      return Rejected(MissingFields);
    }
    if ownerId.value !in db.users {
      return Rejected(ServerError);
    }
    ghost var before := db.State();
    var owner := db.users[ownerId.value];
    var book := Book(bookId, title.value, author.value, description, coverImage, Available, ownerId.value, db.clock);
    db.books := db.books + [book];
    db.users := db.users[ownerId.value := owner.(points := owner.points + DonationReward)];
    db.transactions := db.transactions +
      [Transaction(txId, Donation, DonationReward, ownerId.value, Some(book.id), "Doação: " + title.value, db.clock + 1)];
    db.clock := db.clock + 2;
    r := Created(BookListing(book, Some(Summary(owner))));
    ghost var after := Donate(before, title.value, author.value, description, coverImage, ownerId.value, bookId, txId);
    assert after.books == db.books;
    assert after.users == db.users;
    assert after.transactions == db.transactions;
    assert db.State() == after;
    DonateKeepsInvariant(before, title.value, author.value, description, coverImage, ownerId.value, bookId, txId);
  }
}
