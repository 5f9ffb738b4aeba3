/** The home page's catalog: the search filter over the loaded books, the
    points guard of the borrow action and the rule that enables its button. */
module HomePage {
  import opened Entities
  import Seqs
  import Text
  import Store
  import BorrowRoute

  datatype OwnerCard = OwnerCard(id: string, name: string, avatar: Option<string>, averageRating: real)

  /** A book as the page holds it; its status is the plain string the API sends. */
  datatype BookCard = BookCard(
    id: string,
    title: string,
    author: string,
    description: Option<string>,
    coverImage: Option<string>,
    status: string,
    owner: OwnerCard)

  function Matches(term: string): BookCard -> bool {
    (b: BookCard) => Text.MatchesSearch(b.title, b.author, term)
  }

  /** `filteredBooks`: the books whose lowered title or author contains the
      lowered search term, in their original order. */
  function FilteredBooks(books: seq<BookCard>, searchTerm: string): (r: seq<BookCard>)
    ensures Seqs.IsSubsequence(r, books)
    ensures forall b :: b in r <==> b in books && Text.MatchesSearch(b.title, b.author, searchTerm)
    ensures forall b :: multiset(r)[b] == if Text.MatchesSearch(b.title, b.author, searchTerm) then multiset(books)[b] else 0
  {
    Seqs.Filter(books, Matches(searchTerm))
  }

  /** An empty search shows every book. */
  lemma EmptySearchShowsAll(books: seq<BookCard>)
    ensures FilteredBooks(books, "") == books
  {
    forall b | b in books ensures Matches("")(b) {
      Text.EmptyTermMatchesAll(b.title, b.author);
    }
    Seqs.FilterAll(books, Matches(""));
  }

  /** Typing the term in other letter case shows the same books. */
  lemma SearchIgnoresCase(books: seq<BookCard>, term: string)
    ensures FilteredBooks(books, Text.LowerStr(term)) == FilteredBooks(books, term)
    ensures FilteredBooks(books, Text.UpperStr(term)) == FilteredBooks(books, term)
  {
    forall b | b in books
      ensures Matches(Text.LowerStr(term))(b) == Matches(term)(b)
      ensures Matches(Text.UpperStr(term))(b) == Matches(term)(b)
    {
      Text.SearchIgnoresTermCase(b.title, b.author, term);
    }
    Seqs.FilterCongruent(books, Matches(Text.LowerStr(term)), Matches(term));
    Seqs.FilterCongruent(books, Matches(Text.UpperStr(term)), Matches(term));
  }

  /** What clicking "borrow" does: warn about missing points, or show the
      confirmation (the page sends no request to the borrow route). */
  datatype BorrowClick = NeedMorePoints | Confirmed

  function HandleBorrowBook(userPoints: int): (r: BorrowClick)
    ensures r == NeedMorePoints <==> userPoints < BorrowCost
  {
    if userPoints < BorrowCost then NeedMorePoints else Confirmed
  }

  /** The button's `disabled` attribute, negated. */
  function BorrowEnabled(status: string, userPoints: int): (enabled: bool)
    ensures enabled <==> status == "AVAILABLE" && userPoints >= 5
  {
    !(status != "AVAILABLE" || userPoints < BorrowCost)
  }

  /** The page never blocks a loan the server would grant: when the borrow
      route accepts a request, the book's button is enabled for the borrower
      and the click gets past the points guard to the confirmation. */
  lemma PageAdmitsWhatServerGrants(s: Store.Db, bookId: string, borrowerId: string)
    requires Store.WellFormed(s) && BorrowRoute.Verdict(s, Some(bookId), Some(borrowerId)) == None
    ensures exists i :: (0 <= i < |s.books| && s.books[i].id == bookId &&
                         BorrowEnabled(StatusName(s.books[i].status), s.users[borrowerId].points))
    ensures HandleBorrowBook(s.users[borrowerId].points) == Confirmed
  {
    var k := BorrowRoute.LendIndex(s, bookId, borrowerId);
    assert BorrowEnabled(StatusName(s.books[k].status), s.users[borrowerId].points);
  }
}
