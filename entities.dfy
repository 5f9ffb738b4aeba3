/** The records of the BookShare data store, the request fields the route
    handlers read, and the HTTP replies they produce. */
module Entities {

  datatype Option<+T> = None | Some(value: T)

  /** Points a borrower pays for one loan. */
  const BorrowCost: int := 5
  /** Points an owner earns for one donated book. */
  const DonationReward: int := 10
  /** How many ledger entries the user lookup returns at most. */
  const RecentTransactions: nat := 50

  datatype BookStatus = Available | Borrowed

  /** The stored spelling of a book status. */
  function StatusName(s: BookStatus): (name: string)
    ensures name == "AVAILABLE" <==> s == Available
    ensures name == "BORROWED" <==> s == Borrowed
  {
    match s
    case Available => "AVAILABLE"
    case Borrowed => "BORROWED"
  }

  datatype LoanStatus = Active | Returned

  datatype TxType = Donation | Borrow

  datatype User = User(
    id: string,
    name: string,
    email: string,
    password: string,
    points: int,
    avatar: Option<string>,
    bio: Option<string>,
    averageRating: real,
    totalRatings: nat,
    createdAt: nat)

  /** A user record as the account-creation reply shows it: without the password. */
  datatype PublicUser = PublicUser(
    id: string,
    name: string,
    email: string,
    points: int,
    avatar: Option<string>,
    bio: Option<string>,
    averageRating: real,
    totalRatings: nat,
    createdAt: nat)

  function Public(u: User): PublicUser {
    PublicUser(u.id, u.name, u.email, u.points, u.avatar, u.bio, u.averageRating, u.totalRatings, u.createdAt)
  }

  /** Two users look the same without their password exactly when they agree
      on every other field: the projection drops the password and nothing else. */
  lemma PublicDropsOnlyPassword(u1: User, u2: User)
    ensures Public(u1) == Public(u2) <==> u1.(password := u2.password) == u2
  {
  }

  /** The owner fields the catalog includes with every book. */
  datatype OwnerSummary = OwnerSummary(id: string, name: string, avatar: Option<string>, averageRating: real)

  function Summary(u: User): OwnerSummary {
    OwnerSummary(u.id, u.name, u.avatar, u.averageRating)
  }

  datatype Book = Book(
    id: string,
    title: string,
    author: string,
    description: Option<string>,
    coverImage: Option<string>,
    status: BookStatus,
    ownerId: string,
    createdAt: nat)

  datatype Borrowing = Borrowing(
    id: string,
    bookId: string,
    borrowerId: string,
    lenderId: string,
    status: LoanStatus,
    createdAt: nat)

  /** One signed entry of the points ledger. */
  datatype Transaction = Transaction(
    id: string,
    txType: TxType,
    points: int,
    userId: string,
    bookId: Option<string>,
    description: string,
    createdAt: nat)

  /** A request field counts as given when it is present and not the empty
      string, as a JavaScript truthiness test on a string value decides. */
  predicate Given(field: Option<string>) {
    field.Some? && field.value != ""
  }

  datatype ApiError =
    | MissingFields
    | BookNotFound
    | BookUnavailable
    | UserNotFound
    | InsufficientPoints
    | OwnBook
    | EmailTaken
    | ServerError
  {
    /** The HTTP status the handlers send with this error. */
    function Status(): (code: nat)
      ensures code == 404 <==> this == BookNotFound || this == UserNotFound
      ensures code == 500 <==> this == ServerError
      ensures code in {400, 404, 500}
    {
      match this
      case BookNotFound => 404
      case UserNotFound => 404
      case ServerError => 500
      case _ => 400
    }
  }

  /** What a route handler answers: a JSON body with 200 or 201, or an error. */
  datatype Reply<+T> = Ok(value: T) | Created(value: T) | Rejected(error: ApiError)
  {
    function Status(): (code: nat)
      ensures code == 201 <==> Created?
      ensures code == 200 <==> Ok?
      ensures Rejected? ==> code >= 400
    {
      match this
      case Ok(_) => 200
      case Created(_) => 201
      case Rejected(e) => e.Status()
    }
  }
}
