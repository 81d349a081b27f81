# Library catalog — a verified Dafny model

This project models the in-memory catalog of a small library management
program (`LibraryManagement.cpp`). The catalog keeps books and users
(students and faculty) and runs the borrow and return transactions over them.
The console menus that drive it are not modelled. What is modelled is the
`Library` object:

- **Record store.** Two lists, `books` and `users`, and two counters,
  `nextBookId` and `nextUserId`, both starting at 0. A new book or user takes
  the counter's value as its id and is appended to its list. Nothing is ever
  removed, so every record's id equals its position.
- **Lookups.** `findBookIndexByTitle` returns the first book whose title is
  exactly the given string. `findUserIndexById` returns the first user with the
  given id. Each returns -1 when nothing matches.
- **Search.** `searchBooks` keeps, in catalog order, the books whose title or
  author contains the term as a case-sensitive substring. An empty term
  matches every book.
- **Transactions.** `borrowBook` and `returnBook` run all their checks before
  changing anything. Borrow marks the book out and appends its id to the
  user's list. Return erases the first occurrence of the id from the user's
  list and marks the book available again.

Files:

- `records.dfy` (module `Records`): the `Book` and `User` records, the `Role`
  enumeration and the transaction errors. It also holds the first-match lookups
  as functions, the erase used by return, and the search filter.
- `transactions.dfy` (module `Transactions`): borrow and return as pure steps
  on a `Shelf` (the two lists). `Lend` and `Release` are the state changes of
  a successful borrow and return. It defines the loan-accounting invariant
  `Consistent` and proves that both steps keep it. It also proves the
  borrow-then-return round trip.
- `library.dfy` (module `LibraryStore`): the `Library` class. Its fields are
  the two lists and the two counters. Its methods update them in place and are
  proved against the pure steps. `EraseFirstScan` is the loop that return
  runs over the user's list. `DuneWalkthrough` walks through one book, one
  student, a borrow, a second borrow of the same book, a return naming an
  unknown user and the borrower's return; Dafny proves each assertion from the
  contracts alone.

The invariant `Consistent` combines two facts. First, ids equal positions.
Second, for every book, the multiset of all borrowed ids (`Held`) counts that
book 1 when it is unavailable and 0 when it is available. Every borrowed id
also names an existing book. The lemmas `UnavailableHasSoleHolder` and
`AvailableHasNoHolder` turn the count back into the statement about users. An
unavailable book sits in exactly one user's list, exactly once. An available
book sits in no user's list.

## Model

| member | source | states |
|---|---|---|
| `Records.TitleIndex` | LibraryManagement.cpp:100-106 | The result is -1 exactly when no book has the title. Otherwise it is the smallest position whose title is exactly equal, so with duplicate titles the earliest-added book wins. |
| `Records.UserIndex` | LibraryManagement.cpp:112-118 | The result is -1 exactly when no user has the id. Otherwise it is the smallest position holding that id. |
| `Records.TitleIndexReadsOnlyTitles` | LibraryManagement.cpp:100-106 | The title lookup depends on titles only. Two catalogs with the same titles in the same order give the same answer, so a borrow or return never moves a later lookup. |
| `Records.UserIndexReadsOnlyIds` | LibraryManagement.cpp:112-118 | The user lookup depends on ids only, so borrowed-list changes never move a later lookup. |
| `Records.IndexOf` | LibraryManagement.cpp:336-337 | The result is -1 exactly when the id is not in the borrowed list. Otherwise it is the position of the first occurrence. |
| `Records.EraseFirstCount` | LibraryManagement.cpp:336-342 | Erasing the first occurrence drops exactly one copy of a present id and keeps every other element. An absent id leaves the list unchanged. |
| `Records.EraseAfterAppend` | LibraryManagement.cpp:297-338 | Appending an id that was absent and then erasing its first occurrence gives back the original list, order included. |
| `Records.RoleSelectorRoundTrip` | LibraryManagement.cpp:211-229 | Only selectors 1 and 2 are accepted. 1 means Student, 2 means Faculty, and each role has exactly one selector. |
| `Records.MatchingBooks` | LibraryManagement.cpp:167-178 | A book is in the result exactly when it is in the catalog and its title or author contains the term. |
| `Records.MatchingBooksKeepOrder` | LibraryManagement.cpp:168-169 | Results come in catalog order: if catalog ids increase along the list, so do result ids. |
| `Records.EmptyTermMatchesAll` | LibraryManagement.cpp:164-169 | An empty search term (an empty line, which is not the cancel sentinel) returns the whole catalog. |
| `Transactions.AddBookKeepsConsistent` | LibraryManagement.cpp:154-155 | Appending an available book under the next id keeps ids equal to positions and all loans accounted for. |
| `Transactions.RegisterKeepsConsistent` | LibraryManagement.cpp:224-230 | Appending a user with an empty list under the next id keeps the invariant. |
| `Transactions.AvailableHasNoHolder` | LibraryManagement.cpp:16 | In a consistent library, no user's list holds an available book. |
| `Transactions.UnavailableHasSoleHolder` | LibraryManagement.cpp:16 | In a consistent library, an unavailable book is in exactly one user's list, exactly once. |
| `Transactions.Borrow` | LibraryManagement.cpp:273-297 | Failures are checked in order: BookNotFound, then BookNotAvailable, then UserNotFound. Borrow succeeds exactly when the book is found and available and the user exists, so no other failure is reported. A failure leaves both lists unchanged. On success only the first title-matching book changes (it becomes unavailable), and only the matched user's list changes (the book id is appended). |
| `Transactions.Return` | LibraryManagement.cpp:311-347 | Failures are checked in order: BookNotFound, BookNotBorrowed, UserNotFound, NotBorrowedByThisUser. Return succeeds exactly when the book is found and out, the user exists and the user's list holds the book's id. A failure leaves both lists unchanged. On success only the book becomes available and only the user's list loses the first occurrence of its id. |
| `Transactions.LendAddsOneLoan` | LibraryManagement.cpp:296-297 | Marking a book out and appending its id to a user's list adds exactly one loan of that book to all recorded loans. |
| `Transactions.ReleaseRemovesOneLoan` | LibraryManagement.cpp:336-347 | Erasing a held book's id from the user's list and marking it available removes exactly one loan of that book. |
| `Transactions.LendKeepsConsistent` | LibraryManagement.cpp:294-297 | Lending an available book to a registered user keeps the loan-accounting invariant. |
| `Transactions.ReleaseKeepsConsistent` | LibraryManagement.cpp:336-347 | Releasing an unavailable book from a user whose list holds it keeps the invariant. |
| `Transactions.ReleaseUndoesLend` | LibraryManagement.cpp:294-347 | In a consistent library, releasing a book just lent to the same user restores both lists exactly. |
| `Transactions.BorrowKeepsConsistent` | LibraryManagement.cpp:279-297 | Borrow, successful or not, keeps the loan-accounting invariant. |
| `Transactions.ReturnKeepsConsistent` | LibraryManagement.cpp:317-347 | Return, successful or not, keeps the loan-accounting invariant. |
| `Transactions.BorrowThenReturn` | LibraryManagement.cpp:273-347 | In a consistent library, a successful borrow followed by a return by the same user restores both lists exactly. The return reports the book and user as they were before the borrow. |
| `Transactions.ReturnByOtherUserRefused` | LibraryManagement.cpp:327-346 | After a successful borrow, a return naming any other id is refused and changes nothing. The error is NotBorrowedByThisUser for a registered user and UserNotFound otherwise. |
| `LibraryStore.Library.constructor` | LibraryManagement.cpp:94 | A new library is empty, both counters are 0, and the invariant holds. |
| `LibraryStore.Library.FindBookIndexByTitle` | LibraryManagement.cpp:100-106 | The loop returns the first exact-title position, or -1. |
| `LibraryStore.Library.FindUserIndexById` | LibraryManagement.cpp:112-118 | The loop returns the first position holding the id, or -1. |
| `LibraryStore.Library.AddBook` | LibraryManagement.cpp:153-155 | The new book has id `nextBookId` and starts available. It is appended at the end of `books`, `nextBookId` grows by exactly one, and users and the user counter are unchanged. |
| `LibraryStore.Library.SearchBooks` | LibraryManagement.cpp:167-178 | The loop returns exactly the matching books in catalog order and changes nothing. |
| `LibraryStore.Library.RegisterUser` | LibraryManagement.cpp:221-230 | The new user has id `nextUserId` and an empty list. It is appended at the end of `users`, `nextUserId` grows by exactly one, and books and the book counter are unchanged. |
| `LibraryStore.Library.BorrowBook` | LibraryManagement.cpp:273-297 | The in-place borrow produces exactly the outcome and lists of `Borrow`, leaves both counters unchanged and keeps the invariant. |
| `LibraryStore.EraseFirstScan` | LibraryManagement.cpp:335-342 | The loop reports whether the id is in the list. It returns the list with the first occurrence erased, or the list unchanged when the id is absent. |
| `LibraryStore.Library.ReturnBook` | LibraryManagement.cpp:311-347 | The in-place return produces exactly the outcome and lists of `Return`, leaves both counters unchanged and keeps the invariant. |

## Left out

- Console input and output are not modelled. That covers every prompt and message, and the `0` and `x` cancel sentinels. Cancelling returns before any change, so it is a no-op.
- The menu loops `manageBooks`, `manageUsers`, `manageTransactions` and `main` are not modelled, because they only route console input.
- `stoi` parsing of the user id, and the exception a non-numeric id raises, are not modelled. The transactions take an already-parsed integer id.
- The singleton (`getInstance`, the static `instance`), the heap allocation of records and the destructor are not modelled. A `Library` is constructed explicitly. Books and users are held as values in the lists, because the source never hands its `Book` and `User` objects to code outside the library.
- The virtual `getType` hierarchy is replaced by the `Role` enumeration, and the label strings it prints are not modelled. The re-prompt loop for a bad selector is console input. `RoleForSelector` models only its guard, so `RegisterUser` takes a `Role`. The code has no invalid-selector error: a bad selector is re-prompted on the console, so the core takes a `Role`.
- `listAllBooks` and `listAllUsers` only print `books` and `users`, which are the class's fields. They are not modelled as separate operations.
- The counters are C++ `int`. Their overflow after 2^31 - 1 records is not modelled: ids are unbounded integers.
