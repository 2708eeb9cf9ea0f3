/**
 * The library store of models/bookModel.js and models/userModel.js: the authors,
 * books and users tables, updated in place by the write operations after their
 * guard checks. The read queries are the functions of module Queries.
 */
module Store {
  import opened Wrappers
  import opened Rows
  import opened Queries
  import opened Writes

  class LibraryStore {
    var authors: seq<Author>
    var books: seq<Book>
    var users: seq<User>
    /** The next values of the three `id` serial columns. */
    var nextAuthorId: int
    var nextBookId: int
    var nextUserId: int
    /** The next `created_at` value. */
    var clock: nat

    /** Unique ids below the serial counters, books in created_at order, no dangling author_id. */
    ghost predicate Valid()
      reads this
    {
      && nextAuthorId >= 1 && nextBookId >= 1 && nextUserId >= 1
      && DistinctAuthorIds(authors) && DistinctBookIds(books) && DistinctUserIds(users)
      && (forall a :: a in authors ==> 1 <= a.id < nextAuthorId)
      && (forall b :: b in books ==> 1 <= b.id < nextBookId && b.createdAt < clock)
      && (forall u :: u in users ==> 1 <= u.id < nextUserId)
      && Chronological(books)
      && ReferentiallyIntact(authors, books)
    }

    constructor ()
      ensures Valid()
      ensures authors == [] && books == [] && users == []
    {
      authors, books, users := [], [], [];
      nextAuthorId, nextBookId, nextUserId := 1, 1, 1;
      clock := 0;
    }

    /**
     * getAllBooks: builds `whereClause` from the truthy filters, title first, and reads
     * one page of the joined books, newest first, as Queries.BooksPage.
     */
    method GetAllBooks(args: BookListArgs) returns (r: Result<BookPage, StoreError>)
      requires args.limit != 0
      ensures r == BooksPage(authors, books, args)
    {
      var offset := (args.page - 1) * args.limit;
      var whereClause: seq<Filter> := [];
      if args.title.Some? && args.title.value != "" {
        whereClause := whereClause + [TitleLike(args.title.value)];
      }
      if args.authorId.Some? && args.authorId.value != 0 {
        whereClause := whereClause + [AuthorIs(args.authorId.value)];
      }
      assert whereClause == Where(args.title, args.authorId);
      if args.limit < 0 || offset < 0 {
        return Failure(NegativeWindow);
      }
      var matching := Select(books, whereClause);
      var total := |matching|;
      var rows := Window(NewestFirst(Joined(authors, matching)), offset, args.limit);
      r := Success(BookPage(rows, Pagination(args.page, args.limit, total, CeilDiv(total, args.limit))));
    }

    /** createAuthor: inserts one author with a fresh id; an empty biography is stored as null. */
    method CreateAuthor(na: NewAuthor) returns (a: Author)
      requires Valid()
      modifies this
      ensures Valid()
      ensures a.id !in AuthorIds(old(authors))
      ensures a == Author(a.id, na.name, na.birthDate, OrNull(na.biography))
      ensures authors == old(authors) + [a] && books == old(books) && users == old(users)
      ensures AuthorById(authors, books, a.id) == Some(AuthorView(a, []))
    {
      a := Author(nextAuthorId, na.name, na.birthDate, OrNull(na.biography));
      assert forall b :: b in books ==> b.authorId != a.id;
      authors := authors + [a];
      nextAuthorId := nextAuthorId + 1;
      assert AuthorIndex(authors, a.id) == Some(|authors| - 1);
      BooksOfEmptyIffNone(books, a.id);
    }

    /**
     * createBook: fails with 'Author does not exist' and changes nothing when author_id
     * names no author; otherwise appends exactly one book, the newest, with a fresh id and
     * the given columns (an empty summary stored as null), and returns it joined with
     * the author row it references. getBookById finds it afterwards.
     */
    method CreateBook(nb: NewBook) returns (r: Result<BookView, StoreError>)
      requires Valid()
      modifies this
      ensures Valid()
      ensures nb.authorId !in AuthorIds(old(authors)) ==> r == Failure(AuthorDoesNotExist) && unchanged(this)
      ensures nb.authorId in AuthorIds(old(authors)) ==>
                && r.Success?
                && r.value.book.id !in BookIds(old(books))
                && r.value.book == Book(r.value.book.id, nb.title, OrNull(nb.summary), nb.isbn, nb.authorId, r.value.book.createdAt)
                && (forall b :: b in old(books) ==> b.createdAt < r.value.book.createdAt)
                && r.value.author in authors && r.value.author.id == nb.authorId
                && books == old(books) + [r.value.book]
                && authors == old(authors) && users == old(users)
                && BookById(authors, books, r.value.book.id) == Some(r.value)
    {
      var author := FindAuthor(authors, nb.authorId);
      if author.None? {
        return Failure(AuthorDoesNotExist);
      }
      var b := Book(nextBookId, nb.title, OrNull(nb.summary), nb.isbn, nb.authorId, clock);
      assert b.id !in BookIds(books);
      AppendBookKeepsKeys(books, b);
      AppendedBookFound(authors, books, b, author.value);
      books := books + [b];
      nextBookId := nextBookId + 1;
      clock := clock + 1;
      r := Success(BookView(b, author.value));
    }

    /**
     * updateBookPart, in place: the checks of Writes.BookUpdate in the same order, then
     * the row with that id is overwritten. A failure leaves the tables unchanged.
     */
    method UpdateBookPart(id: int, p: BookPatch) returns (r: Result<Option<BookView>, StoreError>)
      requires Valid()
      modifies this
      ensures Valid()
      ensures authors == old(authors) && users == old(users)
      ensures match BookUpdate(old(authors), old(books), id, p)
              case Failure(e) => r == Failure(e) && unchanged(this)
              case Success(out) => r == Success(out.0) && books == out.1
    {
      if IsEmptyBookPatch(p) {
        return Failure(NoFieldsProvided);
      }
      if p.authorId.Some? && p.authorId.value != 0 {
        var check := FindAuthor(authors, p.authorId.value);
        if check.None? {
          return Failure(AuthorDoesNotExist);
        }
      }
      var index := BookIndex(books, id);
      if index.None? {
        return Success(None);
      }
      var i := index.value;
      var updated := PatchBook(books[i], p);
      var author := FindAuthor(authors, updated.authorId);
      if author.None? {
        return Failure(ForeignKeyViolation);
      }
      ReplaceBookKeepsKeys(books, i, updated);
      books := books[i := updated];
      r := Success(Some(BookView(updated, author.value)));
    }

    /** deleteBook, in place: removes the row with that id, as Writes.BookDelete. */
    method DeleteBook(id: int) returns (r: Option<Book>)
      requires Valid()
      modifies this
      ensures Valid()
      ensures authors == old(authors) && users == old(users)
      ensures (r, books) == BookDelete(old(books), id)
    {
      var index := BookIndex(books, id);
      if index.None? {
        return None;
      }
      var i := index.value;
      r := Some(books[i]);
      books := books[..i] + books[i + 1..];
      assert books == RemoveAt(old(books), i);
      RemoveBookKeepsOrder(old(books), i);
    }

    /** updateAuthor, in place: as Writes.AuthorUpdate. */
    method UpdateAuthor(id: int, p: AuthorPatch) returns (r: Result<Option<Author>, StoreError>)
      requires Valid()
      modifies this
      ensures Valid()
      ensures books == old(books) && users == old(users)
      ensures match AuthorUpdate(old(authors), id, p)
              case Failure(e) => r == Failure(e) && unchanged(this)
              case Success(out) => r == Success(out.0) && authors == out.1
    {
      if IsEmptyAuthorPatch(p) {
        return Failure(NoFieldsProvided);
      }
      var index := AuthorIndex(authors, id);
      if index.None? {
        return Success(None);
      }
      var i := index.value;
      var updated := PatchAuthor(authors[i], p);
      authors := authors[i := updated];
      r := Success(Some(updated));
      assert forall k :: 0 <= k < |authors| ==> authors[k].id == old(authors)[k].id;
    }

    /** deleteAuthor, in place: refused while a book names the author, as Writes.AuthorDelete. */
    method DeleteAuthor(id: int) returns (r: Result<Option<Author>, StoreError>)
      requires Valid()
      modifies this
      ensures Valid()
      ensures books == old(books) && users == old(users)
      ensures match AuthorDelete(old(authors), old(books), id)
              case Failure(e) => r == Failure(e) && unchanged(this)
              case Success(out) => r == Success(out.0) && authors == out.1
    {
      var booksCheck := BooksOf(books, id);
      if booksCheck != [] {
        return Failure(AuthorHasBooks);
      }
      var index := AuthorIndex(authors, id);
      if index.None? {
        return Success(None);
      }
      var i := index.value;
      r := Success(Some(authors[i]));
      authors := authors[..i] + authors[i + 1..];
      assert authors == RemoveAt(old(authors), i);
      RemoveAuthorKeepsDistinct(old(authors), i);
    }

    /** createUser: inserts exactly username, password and role with a fresh id, and returns id, username and role. */
    method CreateUser(nu: NewUser) returns (u: PublicUser)
      requires Valid()
      modifies this
      ensures Valid()
      ensures u.id !in UserIds(old(users))
      ensures u == PublicUser(u.id, nu.username, nu.role)
      ensures users == old(users) + [User(u.id, nu.username, nu.password, nu.role)]
      ensures authors == old(authors) && books == old(books)
      ensures UserById(users, u.id) == Some(u)
    {
      var row := User(nextUserId, nu.username, nu.password, nu.role);
      assert row.id !in UserIds(users);
      users := users + [row];
      nextUserId := nextUserId + 1;
      u := Public(row);
      assert UserIndex(users, row.id) == Some(|users| - 1);
    }
  }
}
