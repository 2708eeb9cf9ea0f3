/**
 * The read side of models/bookModel.js and models/userModel.js: what each SELECT
 * returns from the three tables, stated over the tables as sequences of rows in
 * insertion order. Also the invariants every state of the tables keeps.
 */
module Queries {
  import opened Wrappers
  import opened Rows
  import NameOrder

  // ---------------------------------------------------------------------------
  // Keys and invariants of the tables

  function AuthorIds(authors: seq<Author>): set<int>
  {
    set a | a in authors :: a.id
  }

  function BookIds(books: seq<Book>): set<int>
  {
    set b | b in books :: b.id
  }

  function UserIds(users: seq<User>): set<int>
  {
    set u | u in users :: u.id
  }

  ghost predicate DistinctAuthorIds(authors: seq<Author>)
  {
    forall i, j :: 0 <= i < j < |authors| ==> authors[i].id != authors[j].id
  }

  ghost predicate DistinctBookIds(books: seq<Book>)
  {
    forall i, j :: 0 <= i < j < |books| ==> books[i].id != books[j].id
  }

  ghost predicate DistinctUserIds(users: seq<User>)
  {
    forall i, j :: 0 <= i < j < |users| ==> users[i].id != users[j].id
  }

  /** Table order is `created_at` order: a later row was created later. */
  ghost predicate Chronological(books: seq<Book>)
  {
    forall i, j :: 0 <= i < j < |books| ==> books[i].createdAt < books[j].createdAt
  }

  /** No book has a dangling author_id. */
  ghost predicate ReferentiallyIntact(authors: seq<Author>, books: seq<Book>)
  {
    forall b :: b in books ==> b.authorId in AuthorIds(authors)
  }

  // ---------------------------------------------------------------------------
  // Lookups by key

  function AuthorIndex(authors: seq<Author>, id: int): (r: Option<nat>)
    ensures r.Some? ==> r.value < |authors| && authors[r.value].id == id
    ensures r.Some? ==> forall k :: 0 <= k < r.value ==> authors[k].id != id
    ensures r.None? <==> id !in AuthorIds(authors)
  {
    if |authors| == 0 then None
    else if authors[0].id == id then Some(0)
    else
      assert authors == [authors[0]] + authors[1..];
      match AuthorIndex(authors[1..], id)
      case None => None
      case Some(k) => Some(k + 1)
  }

  function BookIndex(books: seq<Book>, id: int): (r: Option<nat>)
    ensures r.Some? ==> r.value < |books| && books[r.value].id == id
    ensures r.Some? ==> forall k :: 0 <= k < r.value ==> books[k].id != id
    ensures r.None? <==> id !in BookIds(books)
  {
    if |books| == 0 then None
    else if books[0].id == id then Some(0)
    else
      assert books == [books[0]] + books[1..];
      match BookIndex(books[1..], id)
      case None => None
      case Some(k) => Some(k + 1)
  }

  function UserIndex(users: seq<User>, id: int): (r: Option<nat>)
    ensures r.Some? ==> r.value < |users| && users[r.value].id == id
    ensures r.Some? ==> forall k :: 0 <= k < r.value ==> users[k].id != id
    ensures r.None? <==> id !in UserIds(users)
  {
    if |users| == 0 then None
    else if users[0].id == id then Some(0)
    else
      assert users == [users[0]] + users[1..];
      match UserIndex(users[1..], id)
      case None => None
      case Some(k) => Some(k + 1)
  }

  /** `SELECT id FROM authors WHERE id = …`: the author row, or nothing. */
  function FindAuthor(authors: seq<Author>, id: int): (r: Option<Author>)
    ensures r.Some? ==> r.value in authors && r.value.id == id
    ensures r.None? <==> id !in AuthorIds(authors)
  {
    match AuthorIndex(authors, id)
    case None => None
    case Some(i) => Some(authors[i])
  }

  // ---------------------------------------------------------------------------
  // Filters of getAllBooks

  /** One entry of getAllBooks' `whereClause`. */
  datatype Filter =
    | TitleLike(pattern: string)   // books.title ILIKE '%pattern%'
    | AuthorIs(authorId: int)      // books.author_id = authorId

  function LowerChar(c: char): char
  {
    if 'A' <= c <= 'Z' then (c as int + 32) as char else c
  }

  function Lower(s: string): (r: string)
    ensures |r| == |s|
  {
    seq(|s|, i requires 0 <= i < |s| => LowerChar(s[i]))
  }

  predicate OccursAt(t: string, p: string, i: nat)
  {
    i + |p| <= |t| && t[i..i + |p|] == p
  }

  /** `text ILIKE '%pattern%'`: `pattern` occurs in `text`, case ignored. */
  predicate ContainsIgnoringCase(text: string, pattern: string)
  {
    var t, p := Lower(text), Lower(pattern);
    exists i: nat :: i <= |t| && OccursAt(t, p, i)
  }

  predicate Holds(b: Book, f: Filter)
  {
    match f
    case TitleLike(p) => ContainsIgnoringCase(b.title, p)
    case AuthorIs(a) => b.authorId == a
  }

  /** The clauses are joined with AND. */
  predicate Satisfies(b: Book, where: seq<Filter>)
  {
    forall f :: f in where ==> Holds(b, f)
  }

  /** JavaScript truthiness of the two optional filters. */
  predicate TitleGiven(title: Option<string>)
  {
    title.Some? && title.value != ""
  }

  predicate AuthorIdGiven(authorId: Option<int>)
  {
    authorId.Some? && authorId.value != 0
  }

  /** The `whereClause` getAllBooks pushes: a title clause, then an author clause, each only when truthy. */
  function Where(title: Option<string>, authorId: Option<int>): seq<Filter>
  {
    (if TitleGiven(title) then [TitleLike(title.value)] else [])
    + (if AuthorIdGiven(authorId) then [AuthorIs(authorId.value)] else [])
  }

  /** The rows of `books` that satisfy `where`, in table order. */
  function Select(books: seq<Book>, where: seq<Filter>): (r: seq<Book>)
    ensures |r| <= |books|
    ensures forall b :: b in r <==> b in books && Satisfies(b, where)
  {
    if |books| == 0 then []
    else
      assert books == [books[0]] + books[1..];
      if Satisfies(books[0], where) then [books[0]] + Select(books[1..], where)
      else Select(books[1..], where)
  }

  /** `WHERE books.author_id = id`. */
  function BooksOf(books: seq<Book>, authorId: int): seq<Book>
  {
    Select(books, [AuthorIs(authorId)])
  }

  /** The booksCheck of deleteAuthor: no row names the author exactly when BooksOf is empty. */
  lemma BooksOfEmptyIffNone(books: seq<Book>, authorId: int)
    ensures BooksOf(books, authorId) == [] <==> forall b :: b in books ==> b.authorId != authorId
  {
    var own := BooksOf(books, authorId);
    if own != [] {
      assert own[0] in own;
      assert Holds(own[0], AuthorIs(authorId));
    }
    forall b | b in books && b.authorId == authorId ensures b in own {
      assert Satisfies(b, [AuthorIs(authorId)]);
    }
  }

  // ---------------------------------------------------------------------------
  // Joins, order and windows

  /** `FROM books JOIN authors ON books.author_id = authors.id`, in book order. */
  function Joined(authors: seq<Author>, books: seq<Book>): (r: seq<BookView>)
    ensures |r| <= |books|
    ensures forall v :: v in r ==> v.book in books && v.author in authors && v.author.id == v.book.authorId
    ensures ReferentiallyIntact(authors, books) ==>
              |r| == |books| && forall i :: 0 <= i < |r| ==> r[i].book == books[i]
  {
    if |books| == 0 then []
    else
      var rest := Joined(authors, books[1..]);
      match FindAuthor(authors, books[0].authorId)
      case None => rest
      case Some(a) => [BookView(books[0], a)] + rest
  }

  /** `ORDER BY books.created_at DESC` of rows that are in created_at order: the reverse. */
  function NewestFirst(s: seq<BookView>): (r: seq<BookView>)
    ensures |r| == |s|
    ensures forall i :: 0 <= i < |s| ==> r[i] == s[|s| - 1 - i]
  {
    seq(|s|, i requires 0 <= i < |s| => s[|s| - 1 - i])
  }

  function Min(a: int, b: int): int
  {
    if a <= b then a else b
  }

  /** `LIMIT limit OFFSET offset`. */
  function Window<T>(s: seq<T>, offset: nat, limit: nat): (r: seq<T>)
    ensures |r| <= limit
    ensures |r| == if offset >= |s| then 0 else Min(limit, |s| - offset)
    ensures forall i :: 0 <= i < |r| ==> offset + i < |s| && r[i] == s[offset + i]
  {
    var n := if offset >= |s| then 0 else Min(limit, |s| - offset);
    seq(n, i requires 0 <= i < n => s[offset + i])
  }

  /** The OFFSET of page `page`: `(page - 1) * limit` rows are skipped. */
  function Offset(page: int, limit: int): int
  {
    (page - 1) * limit
  }

  /** `Math.ceil(total / limit)` for a positive limit. */
  function CeilDiv(total: nat, limit: int): (r: nat)
    requires limit > 0
    ensures r == 0 <==> total == 0
    ensures r <= total
    decreases total
  {
    if total == 0 then 0
    else if total <= limit then 1
    else 1 + CeilDiv(total - limit, limit)
  }

  /** CeilDiv is the least page count whose pages cover `total` rows. */
  lemma {:induction false} CeilDivLeast(total: nat, limit: int)
    requires limit > 0
    ensures CeilDiv(total, limit) * limit >= total
    ensures CeilDiv(total, limit) == 0 || (CeilDiv(total, limit) - 1) * limit < total
    decreases total
  {
    if total == 0 {
      assert CeilDiv(total, limit) == 0;
    } else if total <= limit {
      assert CeilDiv(total, limit) == 1;
    } else {
      CeilDivLeast(total - limit, limit);
      var r := CeilDiv(total - limit, limit);
      assert r >= 1;
      assert CeilDiv(total, limit) == r + 1;
      assert (r + 1) * limit == r * limit + limit;
    }
  }

  // ---------------------------------------------------------------------------
  // The SELECT queries

  /**
   * getAllBooks: the page of joined books that match the filters, newest first, and
   * the count of ALL matching books for `pagination.total`.
   */
  function BooksPage(authors: seq<Author>, books: seq<Book>, args: BookListArgs): (r: Result<BookPage, StoreError>)
    requires args.limit != 0
    ensures r.Failure? ==> r.error == NegativeWindow
    ensures args.limit > 0 && args.page == 1 ==> r.Success?
    ensures r.Success? ==> && |r.value.books| <= args.limit
                           && r.value.pagination.page == args.page && r.value.pagination.limit == args.limit
                           && r.value.pagination.total <= |books|
  {
    var offset := Offset(args.page, args.limit);
    if args.limit < 0 || offset < 0 then Failure(NegativeWindow)
    else
      var matching := Select(books, Where(args.title, args.authorId));
      Success(BookPage(Window(NewestFirst(Joined(authors, matching)), offset, args.limit),
                       Pagination(args.page, args.limit, |matching|, CeilDiv(|matching|, args.limit))))
  }

  /** getBookById: the book with that id joined with its author, or null. */
  function BookById(authors: seq<Author>, books: seq<Book>, id: int): (r: Option<BookView>)
    ensures r.Some? ==> r.value.book in books && r.value.book.id == id
                        && r.value.author in authors && r.value.author.id == r.value.book.authorId
    ensures id !in BookIds(books) ==> r.None?
  {
    match BookIndex(books, id)
    case None => None
    case Some(i) =>
      match FindAuthor(authors, books[i].authorId)
      case None => None
      case Some(a) => Some(BookView(books[i], a))
  }

  /** getBooksByAuthor: the joined books whose author_id is `authorId`. */
  function BooksByAuthor(authors: seq<Author>, books: seq<Book>, authorId: int): (r: seq<BookView>)
    ensures forall v :: v in r ==> v.book in books && v.book.authorId == authorId && v.author.id == authorId
  {
    var own := BooksOf(books, authorId);
    assert forall b :: b in own ==> b.authorId == authorId by {
      forall b | b in own ensures b.authorId == authorId {
        assert Holds(b, AuthorIs(authorId));
      }
    }
    Joined(authors, own)
  }

  /** An author row with the `books` column: its books, `[]` when there are none. */
  function WithBooks(rows: seq<Author>, books: seq<Book>): (r: seq<AuthorView>)
    ensures |r| == |rows|
    ensures forall i :: 0 <= i < |rows| ==> r[i].author == rows[i] && r[i].books == BooksOf(books, rows[i].id)
  {
    seq(|rows|, i requires 0 <= i < |rows| => AuthorView(rows[i], BooksOf(books, rows[i].id)))
  }

  /** getAuthorById: the author with its books, or null. */
  function AuthorById(authors: seq<Author>, books: seq<Book>, id: int): (r: Option<AuthorView>)
    ensures r.None? <==> id !in AuthorIds(authors)
    ensures r.Some? ==> r.value.author in authors && r.value.author.id == id
                        && r.value.books == BooksOf(books, id)
  {
    match FindAuthor(authors, id)
    case None => None
    case Some(a) => Some(AuthorView(a, BooksOf(books, id)))
  }

  /** getAllAuthors: a page of authors by ascending name, each with its books; total counts all authors. */
  function AuthorsPage(authors: seq<Author>, books: seq<Book>, page: int, limit: int): (r: Result<AuthorPage, StoreError>)
    requires limit != 0
    ensures r.Failure? ==> r.error == NegativeWindow
    ensures limit > 0 && page == 1 ==> r.Success?
    ensures r.Success? ==> && |r.value.authors| <= limit
                           && r.value.pagination.page == page && r.value.pagination.limit == limit
                           && r.value.pagination.total == |authors|
  {
    var offset := Offset(page, limit);
    if limit < 0 || offset < 0 then Failure(NegativeWindow)
    else
      Success(AuthorPage(WithBooks(Window(NameOrder.SortByName(authors), offset, limit), books),
                         Pagination(page, limit, |authors|, CeilDiv(|authors|, limit))))
  }

  /** getUserByUsername: the first full row (password hash included) with exactly that username. */
  function UserByUsername(users: seq<User>, username: string): (r: Option<User>)
    ensures r.Some? ==> r.value in users && r.value.username == username
    ensures r.None? <==> forall u :: u in users ==> u.username != username
  {
    if |users| == 0 then None
    else if users[0].username == username then Some(users[0])
    else
      assert users == [users[0]] + users[1..];
      UserByUsername(users[1..], username)
  }

  /** getUserById: `id, username, role` of that user, never the password, or undefined. */
  function UserById(users: seq<User>, id: int): (r: Option<PublicUser>)
    ensures r.None? <==> id !in UserIds(users)
    ensures r.Some? ==> exists u :: u in users && u.id == id && r.value == Public(u)
  {
    match UserIndex(users, id)
    case None => None
    case Some(i) => Some(Public(users[i]))
  }
}
