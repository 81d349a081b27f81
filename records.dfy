/** Records of the library catalog (books and users), the linear first-match
    lookups the catalog uses to find them, the borrowed-list erase, and the
    substring search over titles and authors. */
module Records {

  /** The two kinds of user. They differ only in their label. */
  datatype Role = Student | Faculty

  /** A catalog entry. `available` is false while some user has it out. */
  datatype Book = Book(id: int, title: string, author: string, isbn: string, available: bool)

  /** A registered user with the ids of the books they hold, oldest loan first. */
  datatype User = User(id: int, name: string, role: Role, borrowedBooks: seq<int>)

  /** The failures of the borrow and return transactions. */
  datatype TxError =
    | BookNotFound
    | BookNotAvailable
    | BookNotBorrowed
    | UserNotFound
    | NotBorrowedByThisUser

  datatype Option<T> = None | Some(value: T)

  /** The registration menu accepts 1 for a student and 2 for faculty; any
      other number is refused. */
  function RoleForSelector(selector: int): (r: Option<Role>)
  {
    if selector == 1 then Some(Student)
    else if selector == 2 then Some(Faculty)
    else None
  }

  /** The menu number that selects a role. */
  function MenuSelector(role: Role): (n: int)
  {
    match role
    case Student => 1
    case Faculty => 2
  }

  /** Exactly the two menu numbers are accepted, and each names one role. */
  lemma RoleSelectorRoundTrip(selector: int, role: Role)
    ensures RoleForSelector(MenuSelector(role)) == Some(role)
    ensures RoleForSelector(selector) == Some(role) <==> selector == MenuSelector(role)
    ensures RoleForSelector(selector).Some? <==> selector == 1 || selector == 2
  {
  }

  /** Position of the first book whose title equals `title` exactly, or -1. */
  function TitleIndex(books: seq<Book>, title: string): (i: int)
    ensures -1 <= i < |books|
    ensures i == -1 <==> forall j :: 0 <= j < |books| ==> books[j].title != title
    ensures 0 <= i ==> books[i].title == title && forall j :: 0 <= j < i ==> books[j].title != title
  {
    if books == [] then -1
    else if books[0].title == title then 0
    else
      var i := TitleIndex(books[1..], title);
      if i == -1 then -1 else i + 1
  }

  /** Position of the first user whose id equals `id`, or -1. */
  function UserIndex(users: seq<User>, id: int): (i: int)
    ensures -1 <= i < |users|
    ensures i == -1 <==> forall j :: 0 <= j < |users| ==> users[j].id != id
    ensures 0 <= i ==> users[i].id == id && forall j :: 0 <= j < i ==> users[j].id != id
  {
    if users == [] then -1
    else if users[0].id == id then 0
    else
      var i := UserIndex(users[1..], id);
      if i == -1 then -1 else i + 1
  }

  /** The title lookup looks at titles only: changing any other field of any
      book leaves its answer unchanged. */
  lemma TitleIndexReadsOnlyTitles(a: seq<Book>, b: seq<Book>, title: string)
    requires |a| == |b|
    requires forall k :: 0 <= k < |a| ==> a[k].title == b[k].title
    ensures TitleIndex(a, title) == TitleIndex(b, title)
  {
  }

  /** The user lookup looks at ids only: changing any other field of any user
      leaves its answer unchanged. */
  lemma UserIndexReadsOnlyIds(a: seq<User>, b: seq<User>, id: int)
    requires |a| == |b|
    requires forall k :: 0 <= k < |a| ==> a[k].id == b[k].id
    ensures UserIndex(a, id) == UserIndex(b, id)
  {
  }

  /** Position of the first occurrence of `x` in `s`, or -1. */
  function IndexOf(s: seq<int>, x: int): (k: int)
    ensures -1 <= k < |s|
    ensures k == -1 <==> x !in s
    ensures 0 <= k ==> s[k] == x && x !in s[..k]
  {
    if s == [] then -1
    else if s[0] == x then 0
    else
      var k := IndexOf(s[1..], x);
      if k == -1 then -1
      else
        assert s[..k + 1] == [s[0]] + s[1..][..k];
        k + 1
  }

  /** `s` with its first occurrence of `x` removed (unchanged when absent). */
  function EraseFirst(s: seq<int>, x: int): seq<int>
  {
    var k := IndexOf(s, x);
    if k == -1 then s else s[..k] + s[k + 1..]
  }

  /** Erasing drops exactly one copy of `x` when there is one, and nothing otherwise. */
  lemma EraseFirstCount(s: seq<int>, x: int)
    ensures x in s ==> multiset(EraseFirst(s, x)) + multiset{x} == multiset(s)
    ensures x !in s ==> EraseFirst(s, x) == s
    ensures forall y :: y in EraseFirst(s, x) ==> y in s
  {
    var k := IndexOf(s, x);
    if k != -1 {
      assert s == s[..k] + [s[k]] + s[k + 1..];
    }
  }

  /** Appending an id that is not held and erasing it again gives back the list. */
  lemma EraseAfterAppend(s: seq<int>, x: int)
    requires x !in s
    ensures EraseFirst(s + [x], x) == s
  {
  }

  /** `term` occurs in `s` as a contiguous, case-sensitive substring. The empty
      term occurs in every string. */
  predicate Contains(s: string, term: string)
  {
    exists i | 0 <= i <= |s| - |term| :: OccursAt(s, term, i)
  }

  /** `term` starts at position `i` of `s`. */
  predicate OccursAt(s: string, term: string, i: int)
    requires 0 <= i <= |s| - |term|
  {
    s[i..i + |term|] == term
  }

  /** A book matches a search term when its title or its author contains it. */
  predicate Matches(b: Book, term: string)
  {
    Contains(b.title, term) || Contains(b.author, term)
  }

  /** The books that match `term`, in catalog order. */
  function MatchingBooks(books: seq<Book>, term: string): (found: seq<Book>)
    ensures |found| <= |books|
    ensures forall b :: b in found <==> b in books && Matches(b, term)
  {
    if books == [] then []
    else
      var rest := MatchingBooks(books[..|books| - 1], term);
      var last := books[|books| - 1];
      assert books == books[..|books| - 1] + [last];
      if Matches(last, term) then rest + [last] else rest
  }

  /** Ids strictly increase along the sequence (catalog order). */
  predicate IdsIncrease(books: seq<Book>)
  {
    forall i, j :: 0 <= i < j < |books| ==> books[i].id < books[j].id
  }

  /** Search results come out in catalog order: when the catalog's ids increase,
      so do the ids of the results. */
  lemma {:induction false} MatchingBooksKeepOrder(books: seq<Book>, term: string)
    requires IdsIncrease(books)
    ensures IdsIncrease(MatchingBooks(books, term))
  {
    if books != [] {
      var init := books[..|books| - 1];
      var last := books[|books| - 1];
      assert IdsIncrease(init);
      MatchingBooksKeepOrder(init, term);
      var rest := MatchingBooks(init, term);
      forall b | b in rest
        ensures b.id < last.id
      {
        var i :| 0 <= i < |init| && init[i] == b;
        assert books[i] == b;
      }
    }
  }

  /** Searching for the empty term lists the whole catalog. */
  lemma {:induction false} EmptyTermMatchesAll(books: seq<Book>)
    ensures MatchingBooks(books, "") == books
  {
    if books != [] {
      var last := books[|books| - 1];
      assert OccursAt(last.title, "", 0);
      EmptyTermMatchesAll(books[..|books| - 1]);
      assert books == books[..|books| - 1] + [last];
    }
  }
}
