# BookShare points ledger, modelled in Dafny

BookShare is a peer-to-peer book lending web application. Users donate books
and earn points. They spend points to borrow other users' books. This project
models the server side that moves books and points, plus two small client-side
rules:

- `POST /api/borrow` runs six ordered checks. Then one database transaction
  adds an ACTIVE borrowing, marks the book BORROWED, debits the borrower 5
  points and appends a −5 ledger entry.
- `POST /api/books` (donation) validates the request, inserts an AVAILABLE
  book, credits the owner 10 points and appends a +10 ledger entry.
- `GET /api/books` (catalog) applies an optional status filter and an
  optional case-insensitive search on title or author. Results come newest
  first, each with its owner's summary.
- `POST /api/users` checks the required fields and email uniqueness, then
  creates a user with zero points and zero ratings. The reply leaves out the
  password.
- `GET /api/users` looks a user up and returns their books newest first,
  their ACTIVE borrowings, and their 50 most recent ledger entries.
- The profile page's `getNextLevel` tiers (50 / 100 / 200 / 500).
- The home page's search filter, its borrow points guard and its
  borrow-button rule.

## Layout

| file | module | contents |
|---|---|---|
| `entities.dfy` | `Entities` | the records (User, Book, Borrowing, Transaction), request fields, HTTP replies and their status codes |
| `text.dfy` | `Text` | ASCII lowering, `includes`, the title-or-author search predicate |
| `seqs.dfy` | `Seqs` | filter, reverse, subsequence and ordering lemmas used by the queries |
| `store.dfy` | `Store` | the store value `Db`, the mutable `Database` class, the integrity invariants, the ledger balance |
| `borrow.dfy` | `BorrowRoute` | the borrow checks, the transaction, the handler |
| `books.dfy` | `BooksRoute` | the catalog query, the donation, the handler |
| `users.dfy` | `UsersRoute` | the user lookup, account creation, the handler |
| `profile.dfy` | `ProfilePage` | `getNextLevel` |
| `home.dfy` | `HomePage` | `filteredBooks`, `handleBorrowBook`, the button's enablement |

## How the store is modelled

`Store.Database` is a class whose fields are the tables: `users` (a map keyed
by id), `books`, `borrowings` and `transactions` (sequences in insertion
order), and `clock`. `clock` stamps `createdAt` and grows with every insert.
`State()` gives the store's value as a `Db`.

Each writing handler is a method that `modifies` the database and writes its fields
step by step, in the source's order. Its `ensures` clause ties the reply and
the new state to a pure function of the old state: `Verdict`/`Lend` for
borrowing, `DonationVerdict`/`Donate` for donations, and
`RegistrationVerdict`/`Register` for accounts. The lemmas prove the source's
promises about those functions.

Every handler keeps `Store.Invariant`, which has four parts:

- **well-formedness**: ids are unique, every reference points to a stored row,
  emails are distinct, and `createdAt` increases along the book and ledger tables;
- **reconciliation**: every user's `points` equal the sum of their ledger
  entries;
- **non-negative points**;
- **loan consistency**: a book is BORROWED exactly when one ACTIVE borrowing
  refers to it.

The database generates the ids of new rows. Here the caller passes them in,
and they must not already be in use.

Two details of the code may be unexpected. The model keeps both as the code
has them:

- The borrow reply's book and borrower are read when the borrowing is
  inserted. That is before the status flip and the debit, so the reply shows
  the book still AVAILABLE and the borrower's points before the debit
  (`BorrowRoute.Receipt`).
- `GET /api/users` returns the stored user record unchanged, password
  included. Only `POST /api/users` removes the password.

The donation's three writes are not one transaction. The model claims no
atomicity for them. A donation naming an unknown owner fails at the book
insert, because the book's owner reference does not resolve. The handler
catches that and answers 500, and nothing has been written yet.

## Model

| member | source | states |
|---|---|---|
| `Text.ContainsIffOccurs` | src/app/page.tsx:79-80 | the left-to-right `includes` search is true exactly when some suffix of the text starts with the term |
| `Text.SearchIgnoresTermCase` | src/app/page.tsx:79-80 | lowering or upper-casing the search term does not change which title/author pairs match |
| `Text.EmptyTermMatchesAll` | src/app/page.tsx:78-81 | the empty term matches every title/author pair |
| `Entities.PublicDropsOnlyPassword` | src/app/api/users/route.ts:104-107 | two users give the same reply record exactly when they agree on every field except the password |
| `Store.IndexOfBook` | src/app/api/borrow/route.ts:17-20 | the lookup by id returns a position holding that id, and reports none exactly when no stored book has it |
| `Store.PostReconciles` | src/app/api/borrow/route.ts:87-105 | changing a user's points by an entry's amount and appending that entry keeps every user's points equal to their ledger sum |
| `BorrowRoute.VerdictIsFirstFailure` | src/app/api/borrow/route.ts:9-61 | each rejection (missing fields, book not found, not available, user not found, insufficient points, own book) happens exactly when every earlier check passes and its own fails; the request is accepted exactly when all six hold |
| `BorrowRoute.FewPointsNeverBorrow` | src/app/api/borrow/route.ts:48-53 | a borrower with fewer than 5 points is always rejected |
| `BorrowRoute.OwnBookNeverBorrowed` | src/app/api/borrow/route.ts:56-61 | a user is always rejected when borrowing a book they own, whatever their points |
| `BorrowRoute.UnavailableNeverLent` | src/app/api/borrow/route.ts:29-34 | a book that is not AVAILABLE is never lent |
| `BorrowRoute.LendEffects` | src/app/api/borrow/route.ts:64-108 | on success the borrower's points drop by exactly 5 and stay at least 0, and the rest of the borrower's record is unchanged; no other user changes; only this book changes, to BORROWED; exactly one ACTIVE borrowing is appended, lent by the owner to a different user; exactly one BORROWING entry of −5 for the borrower and the book is appended |
| `BorrowRoute.LendKeepsOneLoanPerBook` | src/app/api/borrow/route.ts:29-34 | since only AVAILABLE books are lent, no book ever gets a second ACTIVE borrowing |
| `BorrowRoute.LendKeepsInvariant` | src/app/api/borrow/route.ts:64-108 | a successful borrow keeps integrity, ledger reconciliation, non-negative points and loan consistency |
| `BorrowRoute.HandleBorrow` | src/app/api/borrow/route.ts:4-118 | a rejection returns the first failed check's error and leaves the store unchanged; success returns 201 with the new borrowing and the store after the four writes; the invariant holds afterwards |
| `BooksRoute.CatalogSelects` | src/app/api/books/route.ts:10-20 | a book is listed exactly when it is stored, has the requested status (if given) and matches the search term (if given) |
| `BooksRoute.CatalogUnfiltered` | src/app/api/books/route.ts:13-19 | without filters every stored book is listed, newest first |
| `BooksRoute.CatalogHonoursStatus` | src/app/api/books/route.ts:13 | with a status filter every listed book has that status |
| `BooksRoute.CatalogHonoursSearch` | src/app/api/books/route.ts:14-19 | with a search term a stored book is listed exactly when its title or author contains the term, ignoring case |
| `BooksRoute.CatalogNewestFirst` | src/app/api/books/route.ts:32-34 | listed books are in strictly decreasing `createdAt` order |
| `BooksRoute.CatalogIncludesOwners` | src/app/api/books/route.ts:21-31 | every listed book carries its owner's id, name, avatar and average rating |
| `BooksRoute.DonateEffects` | src/app/api/books/route.ts:60-100 | a donation appends one AVAILABLE book owned by the donor, adds exactly 10 to the donor's points, changes no other user, and appends one DONATION entry of +10 for the donor and the new book |
| `BooksRoute.DonateKeepsInvariant` | src/app/api/books/route.ts:60-100 | a donation keeps integrity, ledger reconciliation, non-negative points and loan consistency |
| `BooksRoute.HandleDonate` | src/app/api/books/route.ts:47-110 | a missing title, author or owner id gives 400 and an unknown owner gives 500, both with the store unchanged; otherwise 201 with the new book and its owner summary, and the store after the three writes |
| `UsersRoute.Lookup` | src/app/api/users/route.ts:4-66 | a missing id gives 400, an unknown id 404; otherwise the reply is 200 with the stored user record |
| `UsersRoute.LookupListsOwnBooks` | src/app/api/users/route.ts:19-21 | the user's books are listed exactly, newest first |
| `UsersRoute.LookupListsActiveBorrowings` | src/app/api/users/route.ts:22-27 | exactly the user's ACTIVE borrowings are listed, one view per borrowing (in insertion order, see "Left out") |
| `UsersRoute.LookupAttachesLoanBooks` | src/app/api/users/route.ts:22-27 | each listed borrowing carries the stored book whose id it names, or no book when none is stored |
| `UsersRoute.LookupListsRecentTransactions` | src/app/api/users/route.ts:28-39 | exactly min(50, n) entries are returned, where n is the number of the user's entries; all are the user's own, newest first, and every entry of the user left out is older than every entry returned, so these are the 50 most recent |
| `UsersRoute.LookupShortHistoryComplete` | src/app/api/users/route.ts:28-30 | a user with at most 50 entries gets all of them |
| `UsersRoute.LookupCounts` | src/app/api/users/route.ts:40-47 | `bookCount` equals the number of books listed; `borrowingCount` counts all the user's borrowings: exactly the ACTIVE ones listed plus those no longer ACTIVE, so never fewer than those listed |
| `UsersRoute.LookupAttachesBookTitles` | src/app/api/users/route.ts:28-39 | each listed ledger entry is the corresponding recent entry, carrying the title and author of the stored book it names, or no book when it names none |
| `UsersRoute.RegisterEffects` | src/app/api/users/route.ts:93-102 | creating an account adds exactly one user, under the new id, with the given name, email and password as given, the current `createdAt`, 0 points, 0 ratings and average rating 0, and changes nothing else |
| `UsersRoute.RegisterKeepsInvariant` | src/app/api/users/route.ts:80-102 | an accepted account keeps emails pairwise distinct and the rest of the invariant; the new user's 0 points match their empty ledger |
| `UsersRoute.HandleCreateUser` | src/app/api/users/route.ts:68-115 | a missing name, email or password, or an email already in use, gives 400 with the table unchanged; otherwise 201 with the new record minus its password |
| `ProfilePage.GetNextLevel` | src/app/profile/page.tsx:133-138 | below 50: Iniciante, next 50; below 100: Colaborador, next 100; below 200: Dedicado, next 200; from 200: Mestre, next 500 |
| `ProfilePage.LevelIsHighestReached` | src/app/profile/page.tsx:133-138 | the level is the highest one whose floor the points reach; below 200 the next threshold exceeds the points and is the floor of the following level |
| `ProfilePage.LevelsAreMonotone` | src/app/profile/page.tsx:133-138 | more points never give a lower level or a smaller next threshold |
| `HomePage.FilteredBooks` | src/app/page.tsx:78-81 | the result is a subsequence of the books, in their order; a book is kept exactly when its lowered title or author contains the lowered term, together with all its copies |
| `HomePage.EmptySearchShowsAll` | src/app/page.tsx:78-81 | an empty search term keeps every book |
| `HomePage.SearchIgnoresCase` | src/app/page.tsx:79-80 | lowering or upper-casing the search term gives the same list |
| `HomePage.HandleBorrowBook` | src/app/page.tsx:83-91 | the click is refused exactly when the user has fewer than 5 points; otherwise it shows the confirmation, and no request is sent |
| `HomePage.BorrowEnabled` | src/app/page.tsx:277 | the button is enabled exactly when the book is AVAILABLE and the user has at least 5 points |
| `HomePage.PageAdmitsWhatServerGrants` | src/app/page.tsx:277 | whenever the borrow route would accept a request, the page shows the button enabled and the click gets past its points guard |

## Left out

- Next.js plumbing is not modelled: request parsing, response construction and logging. Request fields are optional strings, and a field counts as given when it is present and non-empty. JSON values of other types are not modelled.
- Store failures other than the donation's unresolved owner are not modelled. These would be connection or constraint errors, answered with 500. In particular the model does not cover a borrow transaction rolling back, or a donation failing between its writes (the code does not make those writes atomic). Points are unbounded integers: the database column is a bounded integer, and a donation credit past its range would be a store error answered with 500, which is not modelled.
- Concurrency is not modelled: isolation of the borrow transaction, and two concurrent borrows of one book. Each handler is one sequential step.
- `BooksRoute.Catalog`: the status filter compares the stored status name with the given string, so an unknown value selects no book. If the database column is an enumeration, the ORM would reject such a value and the handler would answer 500; the schema is not part of this model.
- `UsersRoute.LookupListsActiveBorrowings`: the borrowings query sets no order, so the source promises none; the model lists them in insertion order.
- `UsersRoute.Aggregate`: the rating counts of `_count` are not modelled, because ratings are not part of this model. The borrowing count and the listed borrowings are taken on the borrower side of the user's `borrowings` relation.
- Case folding is ASCII-only. Unicode lowering and the database's case-insensitive collation are not modelled.
- `createdAt` is a counter that grows with every insert. Real timestamps, which can tie, are not modelled.
- The database generates new row ids. Here they are handler parameters that must be unused.
- Floating point is not modelled: the profile's progress percentage and rating display. `averageRating` is a real number that the core only copies.
- The borrow lookup's `include: { owner: true }` on the book is not modelled, because the handler only uses the `ownerId` it already holds.
- Browser alerts, JSX rendering, the mock data of the pages, and the messages, rating, add-book and landing pages are not modelled.
- There is no password hashing in the code, so none is modelled.
