/** The library object: the two record lists and the two id counters, updated
    in place by adding books, registering users, borrowing and returning. */
module LibraryStore {
  import opened Records
  import opened Transactions

  class Library {
    var books: seq<Book>
    var users: seq<User>
    var nextBookId: int
    var nextUserId: int

    /** The counters name the next free position, and the loans are accounted for. */
    ghost predicate Valid()
      reads this
    {
      nextBookId == |books| && nextUserId == |users| && Consistent(Shelf(books, users))
    }

    /** An empty catalog with both counters at 0. */
    constructor ()
      ensures Valid()
      ensures books == [] && users == [] && nextBookId == 0 && nextUserId == 0
    {
      books, users := [], [];
      nextBookId, nextUserId := 0, 0;
    }

    /** Linear scan for the first book whose title equals `title`; -1 if none. */
    method FindBookIndexByTitle(title: string) returns (index: int)
      ensures index == TitleIndex(books, title)
    {
      var i := 0;
      while i < |books|
        invariant 0 <= i <= |books|
        invariant forall j :: 0 <= j < i ==> books[j].title != title
      {
        if books[i].title == title {
          return i;
        }
        i := i + 1;
      }
      return -1;
    }

    /** Linear scan for the first user whose id equals `id`; -1 if none. */
    method FindUserIndexById(id: int) returns (index: int)
      ensures index == UserIndex(users, id)
    {
      var i := 0;
      while i < |users|
        invariant 0 <= i <= |users|
        invariant forall j :: 0 <= j < i ==> users[j].id != id
      {
        if users[i].id == id {
          return i;
        }
        i := i + 1;
      }
      return -1;
    }

    /** Appends an available book under the next book id. Field contents are
        not validated. */
    method AddBook(title: string, author: string, isbn: string) returns (book: Book)
      requires Valid()
      modifies this
      ensures Valid()
      ensures book == Book(old(nextBookId), title, author, isbn, true)
      ensures books == old(books) + [book] && nextBookId == old(nextBookId) + 1
      ensures users == old(users) && nextUserId == old(nextUserId)
    {
      book := Book(nextBookId, title, author, isbn, true);
      AddBookKeepsConsistent(Shelf(books, users), book);
      nextBookId := nextBookId + 1;
      books := books + [book];
      assert forall k :: 0 <= k < |books| - 1 ==> books[k] == old(books)[k];
    }

    /** The books whose title or author contains `term`, in catalog order. */
    method SearchBooks(term: string) returns (found: seq<Book>)
      ensures found == MatchingBooks(books, term)
    {
      found := [];
      var i := 0;
      while i < |books|
        invariant 0 <= i <= |books|
        invariant found == MatchingBooks(books[..i], term)
      {
        var book := books[i];
        assert books[..i + 1][..i] == books[..i];
        if Matches(book, term) {
          found := found + [book];
        }
        i := i + 1;
      }
      assert books[..|books|] == books;
    }

    /** Appends a user with no loans under the next user id. */
    method RegisterUser(name: string, role: Role) returns (user: User)
      requires Valid()
      modifies this
      ensures Valid()
      ensures user == User(old(nextUserId), name, role, [])
      ensures users == old(users) + [user] && nextUserId == old(nextUserId) + 1
      ensures books == old(books) && nextBookId == old(nextBookId)
    {
      user := User(nextUserId, name, role, []);
      nextUserId := nextUserId + 1;
      RegisterKeepsConsistent(Shelf(books, users), user);
      users := users + [user];
      assert forall k :: 0 <= k < |users| - 1 ==> users[k] == old(users)[k];
    }

    /** Marks the first book titled `title` as out and appends its id to the
        user's list, after checking in order that the book exists, that it is
        available and that the user exists. */
    method BorrowBook(title: string, userId: int) returns (outcome: Outcome)
      requires Valid()
      modifies this
      ensures Valid()
      ensures Step(outcome, Shelf(books, users)) == Borrow(old(Shelf(books, users)), title, userId)
      ensures nextBookId == old(nextBookId) && nextUserId == old(nextUserId)
    {
      ghost var before := Shelf(books, users);
      BorrowKeepsConsistent(before, title, userId);
      var index := FindBookIndexByTitle(title);
      if index == -1 {
        return Failed(BookNotFound);
      }
      var book := books[index];
      if !book.available {
        return Failed(BookNotAvailable);
      }
      var userIndex := FindUserIndexById(userId);
      if userIndex == -1 {
        return Failed(UserNotFound);
      }
      var user := users[userIndex];
      book := book.(available := false);
      user := user.(borrowedBooks := user.borrowedBooks + [book.id]);
      books := books[index := book];
      users := users[userIndex := user];
      outcome := Done(book, user);
    }

    /** Finds the first book titled `title`, checks in order that it exists,
        that it is out, that the user exists and that the user's list holds
        its id; then erases the first occurrence of the id from the list and
        marks the book available. */
    method ReturnBook(title: string, userId: int) returns (outcome: Outcome)
      requires Valid()
      modifies this
      ensures Valid()
      ensures Step(outcome, Shelf(books, users)) == Return(old(Shelf(books, users)), title, userId)
      ensures nextBookId == old(nextBookId) && nextUserId == old(nextUserId)
    {
      ghost var before := Shelf(books, users);
      ReturnKeepsConsistent(before, title, userId);
      var index := FindBookIndexByTitle(title);
      if index == -1 {
        return Failed(BookNotFound);
      }
      var book := books[index];
      if book.available {
        return Failed(BookNotBorrowed);
      }
      var userIndex := FindUserIndexById(userId);
      if userIndex == -1 {
        return Failed(UserNotFound);
      }
      var user := users[userIndex];
      var list, found := EraseFirstScan(user.borrowedBooks, book.id);
      if !found {
        return Failed(NotBorrowedByThisUser);
      }
      user := user.(borrowedBooks := list);
      book := book.(available := true);
      users := users[userIndex := user];
      books := books[index := book];
      outcome := Done(book, user);
      assert Shelf(books, users) == Release(before, index, userIndex);
    }
  }

  /** The scan of a user's borrowed list during a return: walk the list, and
      at the first entry equal to `id` erase it and stop. `found` reports
      whether an entry was erased. */
  method EraseFirstScan(list: seq<int>, id: int) returns (rest: seq<int>, found: bool)
    ensures found <==> id in list
    ensures rest == EraseFirst(list, id)
  {
    rest, found := list, false;
    var i := 0;
    while i < |list|
      invariant 0 <= i <= |list|
      invariant id !in list[..i]
    {
      if list[i] == id {
        assert IndexOf(list, id) == i;
        rest := list[..i] + list[i + 1..];
        found := true;
        return;
      }
      assert list[..i + 1] == list[..i] + [list[i]];
      i := i + 1;
    }
    assert list[..|list|] == list;
  }

  /** The catalog walk-through: one book, one student, a borrow, a return
      naming an unknown user, and the return by the borrower. */
  method DuneWalkthrough()
  {
    var lib := new Library();
    var dune := lib.AddBook("Dune", "Frank Herbert", "0441013597");
    assert dune.id == 0 && lib.books == [dune];
    var alice := lib.RegisterUser("Alice", Student);
    assert alice.id == 0 && lib.users == [alice];

    var out := lib.BorrowBook("Dune", 0);
    assert out == Done(dune.(available := false), alice.(borrowedBooks := [0]));
    assert !lib.books[0].available && lib.users[0].borrowedBooks == [0];

    var again := lib.BorrowBook("Dune", 0);
    assert again == Failed(BookNotAvailable);

    ghost var held := Shelf(lib.books, lib.users);
    var stranger := lib.ReturnBook("Dune", 1);
    assert stranger == Failed(UserNotFound);
    assert Shelf(lib.books, lib.users) == held;

    var back := lib.ReturnBook("Dune", 0);
    assert back == Done(dune, alice);
    assert lib.books == [dune] && lib.users == [alice];
  }
}
