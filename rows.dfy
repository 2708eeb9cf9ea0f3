/**
 * The rows of the three tables (authors, books, users) and the records that the
 * data-access functions of models/bookModel.js and models/userModel.js take and return.
 */
module Rows {
  import opened Wrappers

  /** A row of `authors`; `biography` is a nullable column. */
  datatype Author = Author(id: int, name: string, birthDate: string, biography: Option<string>)

  /**
   * A row of `books`. `createdAt` stands for the `created_at` timestamp: a counter
   * that every insertion takes and increases, so a later row has a larger value.
   */
  datatype Book = Book(id: int, title: string, summary: Option<string>, isbn: string, authorId: int, createdAt: nat)

  /** A row of `users`; `password` holds what was stored, the password hash. */
  datatype User = User(id: int, username: string, password: string, role: string)

  /** The columns `id, username, role` that createUser and getUserById return. */
  datatype PublicUser = PublicUser(id: int, username: string, role: string)

  /** A users row without its password column. */
  function Public(u: User): PublicUser
  {
    PublicUser(u.id, u.username, u.role)
  }

  /** `books.*` together with the joined `row_to_json(authors) as author`. */
  datatype BookView = BookView(book: Book, author: Author)

  /** `authors.*` together with the aggregated `books` column (`[]` when there are none). */
  datatype AuthorView = AuthorView(author: Author, books: seq<Book>)

  /** The `pagination` object of a list answer. */
  datatype Pagination = Pagination(page: int, limit: int, total: nat, totalPages: int)

  datatype BookPage = BookPage(books: seq<BookView>, pagination: Pagination)

  datatype AuthorPage = AuthorPage(authors: seq<AuthorView>, pagination: Pagination)

  /** The argument object of getAllBooks. A missing or falsy filter narrows nothing. */
  datatype BookListArgs = BookListArgs(page: int, limit: int, title: Option<string>, authorId: Option<int>)

  /** The fields createBook, createAuthor and createUser read from their argument. */
  datatype NewBook = NewBook(title: string, summary: Option<string>, isbn: string, authorId: int)

  datatype NewAuthor = NewAuthor(name: string, birthDate: string, biography: Option<string>)

  datatype NewUser = NewUser(username: string, password: string, role: string)

  /**
   * The keys of a partial update body: `None` is a key that is absent, and for a
   * nullable column `Some(None)` is a key whose value is null.
   */
  datatype BookPatch = BookPatch(title: Option<string>, summary: Option<Option<string>>, isbn: Option<string>, authorId: Option<int>)

  datatype AuthorPatch = AuthorPatch(name: Option<string>, birthDate: Option<string>, biography: Option<Option<string>>)

  /** The errors the data-access functions throw. */
  datatype StoreError =
    | AuthorDoesNotExist
    | NoFieldsProvided
    | AuthorHasBooks
      /** The database's foreign key from books.author_id to authors.id refused the write. */
    | ForeignKeyViolation
      /** The database refuses a negative LIMIT or OFFSET. */
    | NegativeWindow

  function ErrorMessage(e: StoreError): string
  {
    match e
    case AuthorDoesNotExist => "Author does not exist"
    case NoFieldsProvided => "No fields provided for update"
    case AuthorHasBooks => "Cannot delete author with existing books"
    case ForeignKeyViolation => "insert or update on table \"books\" violates foreign key constraint"
    case NegativeWindow => "LIMIT and OFFSET must not be negative"
  }

  /** JavaScript's `value || null` on an optional string: the empty string is falsy too. */
  function OrNull(s: Option<string>): (r: Option<string>)
    ensures r.Some? <==> s.Some? && s.value != ""
    ensures r.Some? ==> r == s
  {
    if s.Some? && s.value != "" then s else None
  }

  predicate IsEmptyBookPatch(p: BookPatch)
  {
    p.title.None? && p.summary.None? && p.isbn.None? && p.authorId.None?
  }

  predicate IsEmptyAuthorPatch(p: AuthorPatch)
  {
    p.name.None? && p.birthDate.None? && p.biography.None?
  }

  /** The row after `SET` of the supplied columns only. */
  function PatchBook(b: Book, p: BookPatch): Book
  {
    Book(b.id,
         if p.title.Some? then p.title.value else b.title,
         if p.summary.Some? then p.summary.value else b.summary,
         if p.isbn.Some? then p.isbn.value else b.isbn,
         if p.authorId.Some? then p.authorId.value else b.authorId,
         b.createdAt)
  }

  function PatchAuthor(a: Author, p: AuthorPatch): Author
  {
    Author(a.id,
           if p.name.Some? then p.name.value else a.name,
           if p.birthDate.Some? then p.birthDate.value else a.birthDate,
           if p.biography.Some? then p.biography.value else a.biography)
  }

  /** A patch changes exactly the columns it names: the lemma states each column's fate. */
  lemma PatchBookChangesOnlySupplied(b: Book, p: BookPatch)
    ensures PatchBook(b, p).id == b.id && PatchBook(b, p).createdAt == b.createdAt
    ensures p.title.None? ==> PatchBook(b, p).title == b.title
    ensures p.title.Some? ==> PatchBook(b, p).title == p.title.value
    ensures p.summary.None? ==> PatchBook(b, p).summary == b.summary
    ensures p.summary.Some? ==> PatchBook(b, p).summary == p.summary.value
    ensures p.isbn.None? ==> PatchBook(b, p).isbn == b.isbn
    ensures p.isbn.Some? ==> PatchBook(b, p).isbn == p.isbn.value
    ensures p.authorId.None? ==> PatchBook(b, p).authorId == b.authorId
    ensures p.authorId.Some? ==> PatchBook(b, p).authorId == p.authorId.value
    ensures IsEmptyBookPatch(p) ==> PatchBook(b, p) == b
  {
  }
}
