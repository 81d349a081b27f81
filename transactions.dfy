/** The borrow/return state machine over the catalog's two record lists, the
    loan-accounting invariant it keeps, and the round trip it completes. */
module Transactions {
  import opened Records

  /** The part of the library that borrow and return read and change. */
  datatype Shelf = Shelf(books: seq<Book>, users: seq<User>)

  /** What a transaction reports: the book and user as they are afterwards, or
      the first check that failed. */
  datatype Outcome = Done(book: Book, user: User) | Failed(error: TxError)

  /** A transaction's report together with the shelf it leaves behind. */
  datatype Step = Step(outcome: Outcome, after: Shelf)

  /** Every loan recorded in the users' borrowed lists, as a multiset of book ids. */
  function Held(users: seq<User>): multiset<int>
  {
    if users == [] then multiset{}
    else Held(users[..|users| - 1]) + multiset(users[|users| - 1].borrowedBooks)
  }

  /** Records sit at the position their id names: ids are handed out from
      counters starting at 0 and records are never removed. */
  ghost predicate IdsArePositions(s: Shelf)
  {
    && (forall i :: 0 <= i < |s.books| ==> s.books[i].id == i)
    && (forall j :: 0 <= j < |s.users| ==> s.users[j].id == j)
  }

  /** Every borrowed id names a book, and a book is out exactly once when it is
      unavailable and not at all when it is available. */
  ghost predicate LoansAccounted(s: Shelf)
  {
    && (forall j, x :: 0 <= j < |s.users| && x in s.users[j].borrowedBooks ==> 0 <= x < |s.books|)
    && (forall i :: 0 <= i < |s.books| ==> Held(s.users)[i] == if s.books[i].available then 0 else 1)
  }

  ghost predicate Consistent(s: Shelf)
  {
    IdsArePositions(s) && LoansAccounted(s)
  }

  /** Replacing one user changes the recorded loans by exactly that user's difference. */
  lemma {:induction false} HeldUpdate(users: seq<User>, j: int, u: User)
    requires 0 <= j < |users|
    ensures Held(users[j := u]) + multiset(users[j].borrowedBooks) == Held(users) + multiset(u.borrowedBooks)
  {
    var n := |users| - 1;
    var v := users[j := u];
    assert Held(users) == Held(users[..n]) + multiset(users[n].borrowedBooks);
    assert Held(v) == Held(v[..n]) + multiset(v[n].borrowedBooks);
    if j == n {
      assert v[..n] == users[..n];
    } else {
      assert v[..n] == users[..n][j := u];
      assert users[..n][j] == users[j];
      HeldUpdate(users[..n], j, u);
      var mine, last := multiset(users[j].borrowedBooks), multiset(users[n].borrowedBooks);
      calc {
        Held(v) + mine;
        Held(v[..n]) + last + mine;
        (Held(v[..n]) + mine) + last;
        (Held(users[..n]) + multiset(u.borrowedBooks)) + last;
        Held(users) + multiset(u.borrowedBooks);
      }
    }
  }

  /** One user's loans are among all the loans. */
  lemma {:induction false} HeldIncludes(users: seq<User>, j: int)
    requires 0 <= j < |users|
    ensures multiset(users[j].borrowedBooks) <= Held(users)
  {
    var n := |users| - 1;
    if j < n {
      assert users[..n][j] == users[j];
      HeldIncludes(users[..n], j);
    }
  }

  /** Two different users' loans are counted separately. */
  lemma {:induction false} HeldIncludesTwo(users: seq<User>, j: int, k: int)
    requires 0 <= j < |users| && 0 <= k < |users| && j != k
    ensures multiset(users[j].borrowedBooks) + multiset(users[k].borrowedBooks) <= Held(users)
  {
    var n := |users| - 1;
    if j == n {
      assert users[..n][k] == users[k];
      HeldIncludes(users[..n], k);
    } else if k == n {
      assert users[..n][j] == users[j];
      HeldIncludes(users[..n], j);
    } else {
      assert users[..n][j] == users[j] && users[..n][k] == users[k];
      HeldIncludesTwo(users[..n], j, k);
    }
  }

  /** A recorded loan is in some user's list. */
  lemma {:induction false} HeldHasHolder(users: seq<User>, x: int)
    requires x in Held(users)
    ensures exists j :: 0 <= j < |users| && x in users[j].borrowedBooks
  {
    var n := |users| - 1;
    if x in users[n].borrowedBooks {
      assert x in users[n].borrowedBooks;
    } else {
      HeldHasHolder(users[..n], x);
      var j :| 0 <= j < n && x in users[..n][j].borrowedBooks;
      assert users[j] == users[..n][j];
    }
  }

  /** A new book appended under the next id starts available and on no one's
      list, so the library stays consistent. */
  lemma AddBookKeepsConsistent(s: Shelf, b: Book)
    requires Consistent(s)
    requires b.id == |s.books| && b.available
    ensures Consistent(Shelf(s.books + [b], s.users))
  {
    if b.id in Held(s.users) {
      HeldHasHolder(s.users, b.id);
    }
  }

  /** A new user appended under the next id holds nothing, so the library
      stays consistent. */
  lemma RegisterKeepsConsistent(s: Shelf, u: User)
    requires Consistent(s)
    requires u.id == |s.users| && u.borrowedBooks == []
    ensures Consistent(Shelf(s.books, s.users + [u]))
  {
  }

  /** In a consistent library an available book is in nobody's list. */
  lemma AvailableHasNoHolder(s: Shelf, i: int)
    requires Consistent(s)
    requires 0 <= i < |s.books| && s.books[i].available
    ensures forall j :: 0 <= j < |s.users| ==> i !in s.users[j].borrowedBooks
  {
    forall j | 0 <= j < |s.users|
      ensures i !in s.users[j].borrowedBooks
    {
      HeldIncludes(s.users, j);
    }
  }

  /** In a consistent library an unavailable book is held by exactly one user,
      once. */
  lemma UnavailableHasSoleHolder(s: Shelf, i: int)
    requires Consistent(s)
    requires 0 <= i < |s.books| && !s.books[i].available
    ensures exists j :: 0 <= j < |s.users| && multiset(s.users[j].borrowedBooks)[i] == 1
    ensures forall j, k :: 0 <= j < |s.users| && 0 <= k < |s.users| && i in s.users[j].borrowedBooks && i in s.users[k].borrowedBooks ==> j == k
  {
    HeldHasHolder(s.users, i);
    var j :| 0 <= j < |s.users| && i in s.users[j].borrowedBooks;
    HeldIncludes(s.users, j);
    assert multiset(s.users[j].borrowedBooks)[i] == 1;
    forall j1, k1 | 0 <= j1 < |s.users| && 0 <= k1 < |s.users| && i in s.users[j1].borrowedBooks && i in s.users[k1].borrowedBooks
      ensures j1 == k1
    {
      if j1 != k1 {
        HeldIncludesTwo(s.users, j1, k1);
      }
    }
  }

  /** The state change of a successful borrow: book `i` is marked out and its
      id is appended to user `j`'s list. */
  function Lend(s: Shelf, i: int, j: int): Shelf
    requires 0 <= i < |s.books| && 0 <= j < |s.users|
  {
    var u := s.users[j];
    Shelf(s.books[i := s.books[i].(available := false)],
          s.users[j := u.(borrowedBooks := u.borrowedBooks + [s.books[i].id])])
  }

  /** The state change of a successful return: the first occurrence of book
      `i`'s id is erased from user `j`'s list and the book is marked available. */
  function Release(s: Shelf, i: int, j: int): Shelf
    requires 0 <= i < |s.books| && 0 <= j < |s.users|
  {
    var u := s.users[j];
    Shelf(s.books[i := s.books[i].(available := true)],
          s.users[j := u.(borrowedBooks := EraseFirst(u.borrowedBooks, s.books[i].id))])
  }

  /** Multiset union cancels on the right. */
  lemma UnionCancel(a: multiset<int>, b: multiset<int>, c: multiset<int>)
    requires a + c == b + c
    ensures a == b
  {
    assert forall x :: (a + c)[x] == a[x] + c[x] && (b + c)[x] == b[x] + c[x];
  }

  /** Lending records exactly one more loan, of the lent book. */
  lemma LendAddsOneLoan(s: Shelf, i: int, j: int)
    requires 0 <= i < |s.books| && 0 <= j < |s.users|
    ensures Held(Lend(s, i, j).users) == Held(s.users) + multiset{s.books[i].id}
  {
    var u, id := s.users[j], s.books[i].id;
    var u' := u.(borrowedBooks := u.borrowedBooks + [id]);
    var mine := multiset(u.borrowedBooks);
    HeldUpdate(s.users, j, u');
    assert multiset(u'.borrowedBooks) == mine + multiset{id};
    UnionCancel(Held(s.users[j := u']), Held(s.users) + multiset{id}, mine);
  }

  /** Releasing a book its user holds removes exactly one loan, of that book. */
  lemma ReleaseRemovesOneLoan(s: Shelf, i: int, j: int)
    requires 0 <= i < |s.books| && 0 <= j < |s.users|
    requires s.books[i].id in s.users[j].borrowedBooks
    ensures Held(Release(s, i, j).users) + multiset{s.books[i].id} == Held(s.users)
  {
    var u, id := s.users[j], s.books[i].id;
    var u' := u.(borrowedBooks := EraseFirst(u.borrowedBooks, id));
    var rest := multiset(u'.borrowedBooks);
    EraseFirstCount(u.borrowedBooks, id);
    HeldUpdate(s.users, j, u');
    assert Held(s.users[j := u']) + rest + multiset{id} == Held(s.users) + rest;
    UnionCancel(Held(s.users[j := u']) + multiset{id}, Held(s.users), rest);
  }

  /** Lending an available book keeps the library consistent. */
  lemma LendKeepsConsistent(s: Shelf, i: int, j: int)
    requires Consistent(s)
    requires 0 <= i < |s.books| && 0 <= j < |s.users| && s.books[i].available
    ensures Consistent(Lend(s, i, j))
  {
    var a := Lend(s, i, j);
    LendAddsOneLoan(s, i, j);
    var h, h' := Held(s.users), Held(a.users);
    assert h' == h + multiset{i};
    forall k | 0 <= k < |a.books|
      ensures h'[k] == if a.books[k].available then 0 else 1
    {
      assert h'[k] == h[k] + multiset{i}[k];
      if k != i {
        assert a.books[k] == s.books[k];
      }
    }
    forall k, x | 0 <= k < |a.users| && x in a.users[k].borrowedBooks
      ensures 0 <= x < |a.books|
    {
      if k != j {
        assert a.users[k] == s.users[k];
      }
    }
  }

  /** Releasing an unavailable book from the user who holds it keeps the
      library consistent. */
  lemma ReleaseKeepsConsistent(s: Shelf, i: int, j: int)
    requires Consistent(s)
    requires 0 <= i < |s.books| && 0 <= j < |s.users| && !s.books[i].available
    requires i in s.users[j].borrowedBooks
    ensures Consistent(Release(s, i, j))
  {
    var a := Release(s, i, j);
    ReleaseRemovesOneLoan(s, i, j);
    var h, h' := Held(s.users), Held(a.users);
    assert h' + multiset{i} == h;
    forall k | 0 <= k < |a.books|
      ensures h'[k] == if a.books[k].available then 0 else 1
    {
      assert h[k] == h'[k] + multiset{i}[k];
      if k != i {
        assert a.books[k] == s.books[k];
      }
    }
    EraseFirstCount(s.users[j].borrowedBooks, i);
    forall k, x | 0 <= k < |a.users| && x in a.users[k].borrowedBooks
      ensures 0 <= x < |a.books|
    {
      if k != j {
        assert a.users[k] == s.users[k];
      } else {
        assert x in s.users[j].borrowedBooks;
      }
    }
  }

  /** Releasing a book just lent to the same user gives back the library
      exactly as it was. */
  lemma ReleaseUndoesLend(s: Shelf, i: int, j: int)
    requires Consistent(s)
    requires 0 <= i < |s.books| && 0 <= j < |s.users| && s.books[i].available
    ensures Release(Lend(s, i, j), i, j) == s
  {
    var held := s.users[j].borrowedBooks;
    AvailableHasNoHolder(s, i);
    EraseAfterAppend(held, i);
    assert s.users[j].(borrowedBooks := held) == s.users[j];
    assert s.books[i].(available := true) == s.books[i];
  }

  /** borrowBook: resolve the book by exact title, refuse it if it is out,
      resolve the user by id, then mark the book out and append its id to the
      user's list. Every check runs before anything changes. */
  function Borrow(s: Shelf, title: string, userId: int): (r: Step)
    ensures r.outcome.Failed? ==> r.after == s
    ensures r.outcome == Failed(BookNotFound) <==> TitleIndex(s.books, title) == -1
    ensures r.outcome == Failed(BookNotAvailable) <==>
      (var i := TitleIndex(s.books, title); 0 <= i && !s.books[i].available)
    ensures r.outcome == Failed(UserNotFound) <==>
      (var i := TitleIndex(s.books, title); 0 <= i && s.books[i].available && UserIndex(s.users, userId) == -1)
    ensures r.outcome.Done? <==>
      (var i := TitleIndex(s.books, title); 0 <= i && s.books[i].available && UserIndex(s.users, userId) != -1)
    ensures r.outcome.Done? ==>
      var i, j := TitleIndex(s.books, title), UserIndex(s.users, userId);
      && 0 <= i && 0 <= j && s.books[i].available
      && r.after.books == s.books[i := s.books[i].(available := false)]
      && r.after.users == s.users[j := s.users[j].(borrowedBooks := s.users[j].borrowedBooks + [s.books[i].id])]
      && r.outcome == Done(r.after.books[i], r.after.users[j])
  {
    var i := TitleIndex(s.books, title);
    if i == -1 then Step(Failed(BookNotFound), s)
    else
      var book := s.books[i];
      if !book.available then Step(Failed(BookNotAvailable), s)
      else
        var j := UserIndex(s.users, userId);
        if j == -1 then Step(Failed(UserNotFound), s)
        else
          var after := Lend(s, i, j);
          Step(Done(after.books[i], after.users[j]), after)
  }

  /** returnBook: resolve the book by exact title, refuse it if it is not out,
      resolve the user by id, find the book's id in that user's list and refuse
      if it is not there; then erase that first occurrence and mark the book
      available. Every check runs before anything changes. */
  function Return(s: Shelf, title: string, userId: int): (r: Step)
    ensures r.outcome.Failed? ==> r.after == s
    ensures r.outcome == Failed(BookNotFound) <==> TitleIndex(s.books, title) == -1
    ensures r.outcome == Failed(BookNotBorrowed) <==>
      (var i := TitleIndex(s.books, title); 0 <= i && s.books[i].available)
    ensures r.outcome == Failed(UserNotFound) <==>
      (var i := TitleIndex(s.books, title); 0 <= i && !s.books[i].available && UserIndex(s.users, userId) == -1)
    ensures r.outcome == Failed(NotBorrowedByThisUser) <==>
      (var i, j := TitleIndex(s.books, title), UserIndex(s.users, userId);
       0 <= i && !s.books[i].available && 0 <= j && s.books[i].id !in s.users[j].borrowedBooks)
    ensures r.outcome.Done? <==>
      (var i, j := TitleIndex(s.books, title), UserIndex(s.users, userId);
       0 <= i && !s.books[i].available && 0 <= j && s.books[i].id in s.users[j].borrowedBooks)
    ensures r.outcome.Done? ==>
      var i, j := TitleIndex(s.books, title), UserIndex(s.users, userId);
      && 0 <= i && 0 <= j && !s.books[i].available && s.books[i].id in s.users[j].borrowedBooks
      && r.after.books == s.books[i := s.books[i].(available := true)]
      && r.after.users == s.users[j := s.users[j].(borrowedBooks := EraseFirst(s.users[j].borrowedBooks, s.books[i].id))]
      && r.outcome == Done(r.after.books[i], r.after.users[j])
  {
    var i := TitleIndex(s.books, title);
    if i == -1 then Step(Failed(BookNotFound), s)
    else
      var book := s.books[i];
      if book.available then Step(Failed(BookNotBorrowed), s)
      else
        var j := UserIndex(s.users, userId);
        if j == -1 then Step(Failed(UserNotFound), s)
        else
          if book.id !in s.users[j].borrowedBooks then Step(Failed(NotBorrowedByThisUser), s)
          else
            var after := Release(s, i, j);
            Step(Done(after.books[i], after.users[j]), after)
  }

  /** Borrowing keeps the library consistent. */
  lemma BorrowKeepsConsistent(s: Shelf, title: string, userId: int)
    requires Consistent(s)
    ensures Consistent(Borrow(s, title, userId).after)
  {
    var i, j := TitleIndex(s.books, title), UserIndex(s.users, userId);
    if i != -1 && j != -1 && s.books[i].available {
      LendKeepsConsistent(s, i, j);
    }
  }

  /** Returning keeps the library consistent. */
  lemma ReturnKeepsConsistent(s: Shelf, title: string, userId: int)
    requires Consistent(s)
    ensures Consistent(Return(s, title, userId).after)
  {
    var i, j := TitleIndex(s.books, title), UserIndex(s.users, userId);
    if i != -1 && j != -1 && !s.books[i].available && i in s.users[j].borrowedBooks {
      ReleaseKeepsConsistent(s, i, j);
    }
  }

  /** Borrowing a book and returning it by the same user gives back the
      library exactly as it was, and the return reports the book and user as
      they were before the borrow. */
  lemma BorrowThenReturn(s: Shelf, title: string, userId: int)
    requires Consistent(s)
    requires Borrow(s, title, userId).outcome.Done?
    ensures Return(Borrow(s, title, userId).after, title, userId).after == s
    ensures Return(Borrow(s, title, userId).after, title, userId).outcome
         == Done(s.books[TitleIndex(s.books, title)], s.users[UserIndex(s.users, userId)])
  {
    var i, j := TitleIndex(s.books, title), UserIndex(s.users, userId);
    var b := Lend(s, i, j);
    TitleIndexReadsOnlyTitles(s.books, b.books, title);
    UserIndexReadsOnlyIds(s.users, b.users, userId);
    assert b.books[i].id in b.users[j].borrowedBooks;
    ReleaseUndoesLend(s, i, j);
  }

  /** Once a book is out, a return naming any other registered user is refused
      with NotBorrowedByThisUser, and one naming an unknown id with
      UserNotFound; the library is left as it was. */
  lemma ReturnByOtherUserRefused(s: Shelf, title: string, userId: int, otherId: int)
    requires Consistent(s)
    requires Borrow(s, title, userId).outcome.Done?
    requires otherId != userId
    ensures var b := Borrow(s, title, userId).after;
      Return(b, title, otherId) == Step(Failed(if UserIndex(s.users, otherId) == -1 then UserNotFound else NotBorrowedByThisUser), b)
  {
    var i, j := TitleIndex(s.books, title), UserIndex(s.users, userId);
    var b := Lend(s, i, j);
    TitleIndexReadsOnlyTitles(s.books, b.books, title);
    UserIndexReadsOnlyIds(s.users, b.users, otherId);
    LendKeepsConsistent(s, i, j);
    var k := UserIndex(s.users, otherId);
    if k != -1 {
      assert k != j;
      assert i in b.users[j].borrowedBooks;
      UnavailableHasSoleHolder(b, i);
    }
  }
}
