/**
 * controllers/authorController.js: page and limit defaulting for getAuthors and the
 * mapping of a null or empty store result to a 404.
 */
module AuthorController {
  import opened Wrappers
  import opened Rows
  import opened Queries
  import opened Writes
  import opened JsInt
  import opened Http
  import BookController
  import NameOrder
  import QueryLaws

  /** page and limit passed to getAllAuthors: 1 and 10 when missing, not a number or 0. */
  function AuthorsArgs(q: BookController.Query): (r: (int, int))
    ensures r.0 != 0 && r.1 != 0
    ensures BookController.Lookup(q, "page").None? ==> r.0 == 1
    ensures BookController.Lookup(q, "limit").None? ==> r.1 == 10
  {
    (OrDefault(ParseParam(BookController.Lookup(q, "page")), 1),
     OrDefault(ParseParam(BookController.Lookup(q, "limit")), 10))
  }

  /** The text of a non-zero integer is used as given; "0" falls back to the default. */
  lemma AuthorsArgsOfNumbers(q: BookController.Query, page: int, limit: int)
    requires BookController.Lookup(q, "page") == Some(Decimal(page))
    requires BookController.Lookup(q, "limit") == Some(Decimal(limit))
    ensures AuthorsArgs(q) == (if page == 0 then 1 else page, if limit == 0 then 10 else limit)
  {
    ParseIntRoundTrip(page);
    ParseIntRoundTrip(limit);
  }

  /** Text that is not a number gives the same defaults as a missing value: page 1, limit 10. */
  lemma AuthorsArgsNotANumber(q: BookController.Query, key: string, text: string)
    requires key in {"page", "limit"} && BookController.Lookup(q, key) == Some(text)
    requires |text| == 0 || (!IsDigit(text[0]) && !IsSpace(text[0]) && text[0] != '-' && text[0] != '+')
    ensures key == "page" ==> AuthorsArgs(q).0 == 1
    ensures key == "limit" ==> AuthorsArgs(q).1 == 10
  {
    NotANumber(text);
  }

  /**
   * The response to a page of authors: a store error is thrown on, an empty page is
   * a 404 'No authors found', and a non-empty page is a 200 counting the authors returned,
   * with the pagination passed on unchanged.
   */
  function AuthorListResponse(page: Result<AuthorPage, StoreError>): (r: Response)
    ensures page.Failure? ==> r == StoreFailure(page.error)
    ensures page.Success? && page.value.authors == [] ==> r == AppError("No authors found", 404)
    ensures r.code == 200 <==> page.Success? && page.value.authors != []
    ensures r.code == 200 ==> r == OkList(|page.value.authors|, Some(page.value.pagination), AuthorList(page.value.authors))
  {
    match page
    case Failure(e) => StoreFailure(e)
    case Success(p) =>
      if |p.authors| == 0 then AppError("No authors found", 404)
      else OkList(|p.authors|, Some(p.pagination), AuthorList(p.authors))
  }

  /**
   * getAuthors: a 200 answer lists between 1 and `limit` authors: those at positions
   * `(page - 1) * limit` onward of the table in ascending name order, each with exactly the
   * books that name it. It counts every author in `pagination.total`.
   */
  function GetAuthors(q: BookController.Query, authors: seq<Author>, books: seq<Book>): (r: Response)
    ensures r.code == 200 ==>
              var (page, limit) := AuthorsArgs(q);
              && r.data.AuthorList? && 0 < |r.data.authorViews| <= limit
              && (forall i :: 0 <= i < |r.data.authorViews| ==>
                    0 <= Offset(page, limit) + i < |authors|
                    && r.data.authorViews[i].author == NameOrder.SortByName(authors)[Offset(page, limit) + i])
              && r.resultsCount == Some(|r.data.authorViews|)
              && (forall i, j :: 0 <= i < j < |r.data.authorViews| ==>
                    NameOrder.NameLe(r.data.authorViews[i].author.name, r.data.authorViews[j].author.name))
              && (forall v :: v in r.data.authorViews ==> v.author in authors && v.books == BooksOf(books, v.author.id))
              && r.pagination.Some? && r.pagination.value.total == |authors|
  {
    var (page, limit) := AuthorsArgs(q);
    var result := AuthorsPage(authors, books, page, limit);
    if result.Success? then
      QueryLaws.AuthorsPageLaws(authors, books, page, limit);
      AuthorListResponse(result)
    else AuthorListResponse(result)
  }

  /** With at least one author and a positive limit, the first page is never a 404. */
  lemma FirstAuthorsPageFound(q: BookController.Query, authors: seq<Author>, books: seq<Book>)
    requires |authors| > 0
    requires AuthorsArgs(q).0 == 1 && AuthorsArgs(q).1 > 0
    ensures GetAuthors(q, authors, books).code == 200
  {
    var limit := AuthorsArgs(q).1;
    assert Offset(1, limit) == 0;
    assert |NameOrder.SortByName(authors)| == |authors|;
  }

  /**
   * getOneAuthor against the tables: 404 'Invalid author ID' exactly when no author has
   * that id; a 200 carries that author with exactly its books, [] when it has none.
   */
  function GetOneAuthor(id: int, authors: seq<Author>, books: seq<Book>): (r: Response)
    ensures r.code == 404 <==> id !in AuthorIds(authors)
    ensures r.code == 404 ==> r == AppError("Invalid author ID", 404)
    ensures r.code == 200 ==>
              && r.data.AuthorWithBooks? && r.data.authorView.author in authors
              && r.data.authorView.author.id == id
              && (r.data.authorView.books == [] <==> forall b :: b in books ==> b.authorId != id)
  {
    var found := AuthorById(authors, books, id);
    if found.None? then AppError("Invalid author ID", 404)
    else
      QueryLaws.AuthorBooksEmptyIffNone(authors, books, id);
      Ok(200, AuthorWithBooks(found.value))
  }

  /** createAuthor: 201 with the created row. */
  function CreateAuthorResponse(created: Author): (r: Response)
    ensures r.code == 201 && r.status == "success" && r.data == OneAuthor(created)
  {
    Ok(201, OneAuthor(created))
  }

  /** updateAuthor: 404 'Invalid author ID' exactly when updateAuthor returns null. */
  function UpdateAuthorResponse(updated: Result<Option<Author>, StoreError>): (r: Response)
    ensures r.code == 404 <==> updated == Success(None)
    ensures updated == Success(None) ==> r == AppError("Invalid author ID", 404)
    ensures r.code == 200 <==> updated.Success? && updated.value.Some?
    ensures updated.Failure? ==> r == StoreFailure(updated.error)
  {
    match updated
    case Failure(e) => StoreFailure(e)
    case Success(None) => AppError("Invalid author ID", 404)
    case Success(Some(a)) => Ok(200, OneAuthor(a))
  }

  /**
   * updateAuthor against the table: an empty body is a 500 'No fields provided for update';
   * any other body gives 404 exactly when no author has that id.
   */
  lemma UpdateAuthorAnswers(authors: seq<Author>, id: int, p: AuthorPatch)
    ensures var out := AuthorUpdate(authors, id, p);
            var resp := UpdateAuthorResponse(if out.Success? then Success(out.value.0) else Failure(out.error));
            && (IsEmptyAuthorPatch(p) ==> resp == Thrown("No fields provided for update"))
            && (!IsEmptyAuthorPatch(p) ==> (resp.code == 404 <==> id !in AuthorIds(authors)))
  {
    var out := AuthorUpdate(authors, id, p);
    if !IsEmptyAuthorPatch(p) && id in AuthorIds(authors) {
      assert out.value.0.Some?;
    }
  }

  /** deleteAuthor: 404 'Invalid author ID' on null, 200 'Author deleted successfully' otherwise. */
  function DeleteAuthorResponse(deleted: Result<Option<Author>, StoreError>): (r: Response)
    ensures r.code == 404 <==> deleted == Success(None)
    ensures deleted == Success(None) ==> r == AppError("Invalid author ID", 404)
    ensures deleted.Success? && deleted.value.Some? ==> r == OkMessage(200, "Author deleted successfully")
    ensures deleted.Failure? ==> r == StoreFailure(deleted.error)
  {
    match deleted
    case Failure(e) => StoreFailure(e)
    case Success(None) => AppError("Invalid author ID", 404)
    case Success(Some(_)) => OkMessage(200, "Author deleted successfully")
  }

  /**
   * deleteAuthor against the tables: while a book names the author the answer is a 500
   * 'Cannot delete author with existing books'; otherwise 404 exactly when no author has
   * that id, and 200 when it is removed.
   */
  lemma DeleteAuthorAnswers(authors: seq<Author>, books: seq<Book>, id: int)
    ensures var out := AuthorDelete(authors, books, id);
            var resp := DeleteAuthorResponse(if out.Success? then Success(out.value.0) else Failure(out.error));
            && ((exists b :: b in books && b.authorId == id) ==> resp == Thrown("Cannot delete author with existing books"))
            && ((forall b :: b in books ==> b.authorId != id) ==>
                  (resp.code == 404 <==> id !in AuthorIds(authors))
                  && (resp.code != 404 ==> resp.message == Some("Author deleted successfully")))
  {
    var out := AuthorDelete(authors, books, id);
    if (forall b :: b in books ==> b.authorId != id) && id in AuthorIds(authors) {
      assert out.value.0.Some?;
    }
  }
}
