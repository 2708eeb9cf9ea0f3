/**
 * controllers/bookController.js: each handler maps the request and what the store
 * returned to one response. The read handlers are given the tables and call the
 * query of module Queries; the write handlers are given the store's result.
 */
module BookController {
  import opened Wrappers
  import opened Rows
  import opened Queries
  import opened Writes
  import opened JsInt
  import opened Http
  import QueryLaws

  /** `req.query`: its keys in order of first appearance, each with its text. */
  type Query = seq<(string, string)>

  /** `req.query[key]`, or undefined. */
  function Lookup(q: Query, key: string): (r: Option<string>)
    ensures r.None? <==> forall i :: 0 <= i < |q| ==> q[i].0 != key
    ensures r.Some? ==> exists i :: 0 <= i < |q| && q[i] == (key, r.value)
  {
    if |q| == 0 then None
    else if q[0].0 == key then Some(q[0].1)
    else
      var r := Lookup(q[1..], key);
      assert forall i :: 1 <= i < |q| ==> q[i] == q[1..][i - 1];
      r
  }

  /** The filter fields getFilteredBooks accepts besides `page` and `limit`. */
  const AllowedFields: seq<string> := ["title", "authorId", "isbn"]

  predicate Allowed(key: string)
  {
    key in AllowedFields || key == "page" || key == "limit"
  }

  /** The first key, in insertion order, that is not allowed. */
  function FirstDisallowedInOrder(q: Query): (r: Option<string>)
    ensures r.None? <==> forall i :: 0 <= i < |q| ==> Allowed(q[i].0)
    ensures r.Some? ==> !Allowed(r.value)
    ensures r.Some? ==> exists i :: 0 <= i < |q| && q[i].0 == r.value && forall j :: 0 <= j < i ==> Allowed(q[j].0)
  {
    if |q| == 0 then None
    else if !Allowed(q[0].0) then Some(q[0].0)
    else
      var r := FirstDisallowedInOrder(q[1..]);
      assert forall i :: 1 <= i < |q| ==> q[i] == q[1..][i - 1];
      assert r.Some? ==> exists i :: 0 <= i < |q| && q[i].0 == r.value && forall j :: 0 <= j < i ==> Allowed(q[j].0) by {
        if r.Some? {
          var i :| 0 <= i < |q[1..]| && q[1..][i].0 == r.value && forall j :: 0 <= j < i ==> Allowed(q[1..][j].0);
          assert q[i + 1].0 == r.value && forall j :: 0 <= j < i + 1 ==> Allowed(q[j].0);
        }
      }
      r
  }

  /** A key `Object.keys` treats as an array index: the canonical decimal text of an integer below 2^32 - 1. */
  predicate IsArrayIndex(k: string)
  {
    |k| >= 1 && AllDigits(k) && (k[0] != '0' || |k| == 1) && DigitsValue(k) < 0xFFFF_FFFF
  }

  /** The array-index key of least value, the one `Object.keys` lists first. */
  function SmallestIndexKey(q: Query): (r: Option<string>)
    ensures r.None? <==> forall i :: 0 <= i < |q| ==> !IsArrayIndex(q[i].0)
    ensures r.Some? ==> IsArrayIndex(r.value) && exists i :: 0 <= i < |q| && q[i].0 == r.value
    ensures r.Some? ==> forall i :: 0 <= i < |q| && IsArrayIndex(q[i].0) ==> DigitsValue(r.value) <= DigitsValue(q[i].0)
  {
    if |q| == 0 then None
    else
      var rest := SmallestIndexKey(q[1..]);
      assert forall i :: 1 <= i < |q| ==> q[i] == q[1..][i - 1];
      assert rest.Some? ==> exists i :: 0 <= i < |q| && q[i].0 == rest.value by {
        if rest.Some? {
          var i :| 0 <= i < |q[1..]| && q[1..][i].0 == rest.value;
          assert q[i + 1].0 == rest.value;
        }
      }
      if !IsArrayIndex(q[0].0) then rest
      else if rest.None? || DigitsValue(q[0].0) <= DigitsValue(rest.value) then Some(q[0].0)
      else rest
  }

  /** No allowed field is an array index. */
  lemma AllowedIsNotIndex(k: string)
    requires Allowed(k)
    ensures !IsArrayIndex(k)
  {
    assert !IsDigit(k[0]);
  }

  /**
   * The key the for-of loop over `Object.keys(filter)` stops at, if any. `Object.keys` lists
   * the array-index keys first, by increasing value, and then the other keys in insertion
   * order. No array index is an allowed field, so the loop stops at the least array-index
   * key when there is one, and otherwise at the first disallowed key in insertion order.
   */
  function FirstDisallowedKey(q: Query): (r: Option<string>)
    ensures r.None? <==> forall i :: 0 <= i < |q| ==> Allowed(q[i].0)
    ensures r.Some? ==> !Allowed(r.value) && exists i :: 0 <= i < |q| && q[i].0 == r.value
    ensures r.Some? && IsArrayIndex(r.value) ==>
              forall i :: 0 <= i < |q| && IsArrayIndex(q[i].0) ==> DigitsValue(r.value) <= DigitsValue(q[i].0)
    ensures r.Some? && !IsArrayIndex(r.value) ==>
              (forall i :: 0 <= i < |q| ==> !IsArrayIndex(q[i].0))
              && exists i :: 0 <= i < |q| && q[i].0 == r.value && forall j :: 0 <= j < i ==> Allowed(q[j].0)
  {
    var index := SmallestIndexKey(q);
    if index.Some? then
      assert !Allowed(index.value) by {
        if Allowed(index.value) { AllowedIsNotIndex(index.value); }
      }
      index
    else
      FirstDisallowedInOrder(q)
  }

  /** `?foo=1&5=2` is refused naming '5', the array-index key `Object.keys` lists first. */
  lemma IndexKeyNamedFirst()
    ensures FirstDisallowedKey([("foo", "1"), ("5", "2")]) == Some("5")
  {
    var q := [("foo", "1"), ("5", "2")];
    assert IsArrayIndex("5") by { assert DigitsValue("5") == 5; }
    assert !IsArrayIndex("foo") by { assert !IsDigit('f'); }
    assert SmallestIndexKey(q[1..]) == Some("5");
  }

  /** `parts.join(sep)`. */
  function Join(parts: seq<string>, sep: string): string
  {
    if |parts| == 0 then ""
    else if |parts| == 1 then parts[0]
    else parts[0] + sep + Join(parts[1..], sep)
  }

  /** The 400 message names the offending key and lists the allowed filter fields. */
  function InvalidFieldMessage(key: string): (r: string)
    ensures r == "Invalid field '" + key + "'. Allowed fields are: title, authorId, isbn"
  {
    "Invalid field '" + key + "'. Allowed fields are: " + Join(AllowedFields, ", ")
  }

  /**
   * The arguments getBooks and getFilteredBooks pass to getAllBooks: page and limit fall
   * back to 1 and 10 when missing, not a number or 0; an authorId that is not a number
   * or is 0 is dropped; title is passed as given; isbn is never read.
   */
  function ListArgs(q: Query): (r: BookListArgs)
    ensures r.page != 0 && r.limit != 0
    ensures r.title == Lookup(q, "title")
    ensures r.authorId.Some? ==> r.authorId.value != 0
  {
    BookListArgs(OrDefault(ParseParam(Lookup(q, "page")), 1),
                 OrDefault(ParseParam(Lookup(q, "limit")), 10),
                 Lookup(q, "title"),
                 OrUndefined(ParseParam(Lookup(q, "authorId"))))
  }

  /**
   * page and limit: a missing value gives 1 and 10, as does the text "0"; the text of any
   * other integer gives that integer. authorId: missing or "0" applies no author filter;
   * the text of any other integer filters on it.
   */
  lemma ListArgsDefaults(q: Query, n: int)
    ensures Lookup(q, "page").None? ==> ListArgs(q).page == 1
    ensures Lookup(q, "limit").None? ==> ListArgs(q).limit == 10
    ensures Lookup(q, "authorId").None? ==> ListArgs(q).authorId.None?
    ensures Lookup(q, "page") == Some(Decimal(n)) ==> ListArgs(q).page == if n == 0 then 1 else n
    ensures Lookup(q, "limit") == Some(Decimal(n)) ==> ListArgs(q).limit == if n == 0 then 10 else n
    ensures Lookup(q, "authorId") == Some(Decimal(n)) ==> ListArgs(q).authorId == if n == 0 then None else Some(n)
  {
    ParseIntRoundTrip(n);
  }

  /** Text that is not a number gives the same defaults as a missing value: page 1, limit 10, no author filter. */
  lemma NotANumberFallsBack(q: Query, key: string, text: string)
    requires key in {"page", "limit", "authorId"} && Lookup(q, key) == Some(text)
    requires |text| == 0 || (!IsDigit(text[0]) && !IsSpace(text[0]) && text[0] != '-' && text[0] != '+')
    ensures key == "page" ==> ListArgs(q).page == 1
    ensures key == "limit" ==> ListArgs(q).limit == 10
    ensures key == "authorId" ==> ListArgs(q).authorId.None?
  {
    NotANumber(text);
  }

  /**
   * The response to a page of books: a store error is thrown on (500), an empty page is a
   * 404 with `notFound`, and only a non-empty page is a 200 whose resultsCount is the
   * number of books returned, with the pagination passed on unchanged.
   */
  function BookListResponse(page: Result<BookPage, StoreError>, notFound: string): (r: Response)
    ensures page.Failure? ==> r == StoreFailure(page.error)
    ensures page.Success? && page.value.books == [] ==> r == AppError(notFound, 404)
    ensures r.code == 200 <==> page.Success? && page.value.books != []
    ensures r.code == 200 ==> r == OkList(|page.value.books|, Some(page.value.pagination), BookList(page.value.books))
  {
    match page
    case Failure(e) => StoreFailure(e)
    case Success(p) =>
      if |p.books| == 0 then AppError(notFound, 404)
      else OkList(|p.books|, Some(p.pagination), BookList(p.books))
  }

  /**
   * getBooks: a 200 answer holds between 1 and `limit` books, each a row of the table that
   * satisfies the query's filters, and counts them in resultsCount.
   */
  function GetBooks(q: Query, authors: seq<Author>, books: seq<Book>): (r: Response)
    ensures r.code == 200 ==>
              var args := ListArgs(q);
              && r.data.BookList? && 0 < |r.data.views| <= args.limit
              && r.resultsCount == Some(|r.data.views|)
              && forall v :: v in r.data.views ==> v.book in books && Satisfies(v.book, Where(args.title, args.authorId))
    ensures r.code == 404 ==> r.message == Some("No books found")
  {
    var args := ListArgs(q);
    QueryLaws.BooksPageIsWindow(authors, books, args);
    BookListResponse(BooksPage(authors, books, args), "No books found")
  }

  /** getFilteredBooks up to the call of getAllBooks: a disallowed key ends the request with a 400. */
  function FilteredBooksCall(q: Query): (r: Result<BookListArgs, Response>)
    ensures r.Failure? <==> FirstDisallowedKey(q).Some?
    ensures r.Failure? ==> r.error == AppError(InvalidFieldMessage(FirstDisallowedKey(q).value), 400)
    ensures r.Success? ==> r.value == ListArgs(q)
  {
    var bad := FirstDisallowedKey(q);
    if bad.Some? then Failure(AppError(InvalidFieldMessage(bad.value), 400)) else Success(ListArgs(q))
  }

  /**
   * getFilteredBooks: a query key outside title, authorId, isbn, page and limit gives the
   * 400 whatever the tables hold; otherwise the answer is getBooks' with its own 404 message.
   */
  function GetFilteredBooks(q: Query, authors: seq<Author>, books: seq<Book>): (r: Response)
    ensures FirstDisallowedKey(q).Some? ==> r == AppError(InvalidFieldMessage(FirstDisallowedKey(q).value), 400)
    ensures FirstDisallowedKey(q).None? ==>
              && r.code == GetBooks(q, authors, books).code
              && r.data == GetBooks(q, authors, books).data
              && (r.code == 404 ==> r.message == Some("No books found with the specified filters"))
  {
    match FilteredBooksCall(q)
    case Failure(resp) => resp
    case Success(args) => BookListResponse(BooksPage(authors, books, args), "No books found with the specified filters")
  }

  /** Appending a key other than `key` does not change what `key` looks up. */
  lemma {:induction false} LookupIgnoresOtherKeys(q: Query, key: string, extra: (string, string))
    requires extra.0 != key
    ensures Lookup(q + [extra], key) == Lookup(q, key)
  {
    if |q| > 0 {
      assert (q + [extra])[1..] == q[1..] + [extra];
      LookupIgnoresOtherKeys(q[1..], key, extra);
    }
  }

  /** isbn passes the allow-list but never narrows the results. */
  lemma IsbnNeverNarrows(q: Query, isbn: string, authors: seq<Author>, books: seq<Book>)
    requires FirstDisallowedKey(q).None?
    ensures GetFilteredBooks(q + [("isbn", isbn)], authors, books) == GetFilteredBooks(q, authors, books)
  {
    var q' := q + [("isbn", isbn)];
    assert forall i :: 0 <= i < |q'| ==> Allowed(q'[i].0);
    LookupIgnoresOtherKeys(q, "page", ("isbn", isbn));
    LookupIgnoresOtherKeys(q, "limit", ("isbn", isbn));
    LookupIgnoresOtherKeys(q, "title", ("isbn", isbn));
    LookupIgnoresOtherKeys(q, "authorId", ("isbn", isbn));
  }

  /** getOneBook: 404 'Invalid book ID' exactly when getBookById returns null. */
  function OneBookResponse(found: Option<BookView>): (r: Response)
    ensures r.code == 404 <==> found.None?
    ensures found.None? ==> r == AppError("Invalid book ID", 404)
    ensures found.Some? ==> r == Ok(200, OneBook(found.value))
  {
    if found.None? then AppError("Invalid book ID", 404) else Ok(200, OneBook(found.value))
  }

  /**
   * getOneBook against the tables: with no dangling author_id, 404 exactly when no book
   * has that id; a 200 carries that book joined with its author.
   */
  function GetOneBook(id: int, authors: seq<Author>, books: seq<Book>): (r: Response)
    requires ReferentiallyIntact(authors, books)
    ensures r.code == 404 <==> id !in BookIds(books)
    ensures r.code == 200 ==> r.data.OneBook? && r.data.view.book in books && r.data.view.book.id == id
                              && r.data.view.author.id == r.data.view.book.authorId
  {
    QueryLaws.BookByIdFindsEveryBook(authors, books, id);
    OneBookResponse(BookById(authors, books, id))
  }

  /**
   * getBooksByAuthor against the tables: 404 'No books found for this author' exactly when
   * no book names that author; a 200 counts and returns exactly that author's books.
   */
  function GetBooksByAuthor(authorId: int, authors: seq<Author>, books: seq<Book>): (r: Response)
    requires ReferentiallyIntact(authors, books)
    ensures r.code == 404 <==> forall b :: b in books ==> b.authorId != authorId
    ensures r.code == 404 ==> r == AppError("No books found for this author", 404)
    ensures r.code == 200 ==> r.data.BookList? && r.resultsCount == Some(|r.data.views|)
                              && forall v :: v in r.data.views ==> v.book in books && v.book.authorId == authorId
  {
    var views := BooksByAuthor(authors, books, authorId);
    QueryLaws.BooksByAuthorComplete(authors, books, authorId);
    if |views| == 0 then AppError("No books found for this author", 404)
    else OkList(|views|, None, BookList(views))
  }

  /** createBook: 201 with the created book, or the store's error thrown on. */
  function CreateBookResponse(created: Result<BookView, StoreError>): (r: Response)
    ensures r.code == 201 <==> created.Success?
    ensures created.Success? ==> r == Ok(201, OneBook(created.value))
    ensures created.Failure? ==> r == StoreFailure(created.error)
  {
    match created
    case Success(v) => Ok(201, OneBook(v))
    case Failure(e) => StoreFailure(e)
  }

  /** updateBook: 404 'Invalid book ID' exactly when updateBookPart returns null. */
  function UpdateBookResponse(updated: Result<Option<BookView>, StoreError>): (r: Response)
    ensures r.code == 404 <==> updated == Success(None)
    ensures updated == Success(None) ==> r == AppError("Invalid book ID", 404)
    ensures r.code == 200 <==> updated.Success? && updated.value.Some?
    ensures updated.Failure? ==> r == StoreFailure(updated.error)
  {
    match updated
    case Failure(e) => StoreFailure(e)
    case Success(None) => AppError("Invalid book ID", 404)
    case Success(Some(v)) => Ok(200, OneBook(v))
  }

  /**
   * updateBook against the tables: an empty body is a 500 'No fields provided for update';
   * otherwise, when the author check passes, 404 exactly when no book has that id.
   */
  lemma UpdateBookAnswers(authors: seq<Author>, books: seq<Book>, id: int, p: BookPatch)
    requires ReferentiallyIntact(authors, books)
    ensures IsEmptyBookPatch(p) ==> BookUpdate(authors, books, id, p) == Failure(NoFieldsProvided)
    ensures IsEmptyBookPatch(p) ==> UpdateBookResponse(Failure(NoFieldsProvided)).code == 500
    ensures !IsEmptyBookPatch(p) && (p.authorId.None? || p.authorId.value in AuthorIds(authors)) ==>
              var out := BookUpdate(authors, books, id, p);
              out.Success? && (UpdateBookResponse(Success(out.value.0)).code == 404 <==> id !in BookIds(books))
  {
    if !IsEmptyBookPatch(p) && (p.authorId.None? || p.authorId.value in AuthorIds(authors)) {
      var i := BookIndex(books, id);
      if i.Some? {
        var updated := PatchBook(books[i.value], p);
        assert books[i.value] in books;
        assert updated.authorId in AuthorIds(authors);
      }
    }
  }

  /** deleteBook: 404 'Invalid book ID' on null, otherwise 200 'Book deleted successfully'. */
  function DeleteBookResponse(deleted: Option<Book>): (r: Response)
    ensures r.code == 404 <==> deleted.None?
    ensures deleted.None? ==> r == AppError("Invalid book ID", 404)
    ensures deleted.Some? ==> r == OkMessage(200, "Book deleted successfully")
  {
    if deleted.None? then AppError("Invalid book ID", 404) else OkMessage(200, "Book deleted successfully")
  }

  /** deleteBook against the table: 404 exactly when no book has that id. */
  lemma DeleteBookAnswers(books: seq<Book>, id: int)
    ensures DeleteBookResponse(BookDelete(books, id).0).code == 404 <==> id !in BookIds(books)
  {
  }
}
