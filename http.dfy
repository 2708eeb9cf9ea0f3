/**
 * The JSON envelope every handler answers with, and the two ways a failure reaches it:
 * an AppError carrying its own status code, or any other thrown error, which the
 * error handler of app.js turns into a 500 with status "error" and the error's message.
 */
module Http {
  import opened Wrappers
  import opened Rows

  /** The `data` member of a response. */
  datatype Payload =
    | NoData
    | OneBook(view: BookView)
    | BookList(views: seq<BookView>)
    | OneAuthor(author: Author)
    | AuthorWithBooks(authorView: AuthorView)
    | AuthorList(authorViews: seq<AuthorView>)
    | OneUser(user: PublicUser)
    | LoggedIn(loggedIn: PublicUser)   // { user: { id, username, role } }

  /** Status code, envelope members, and the `jwt` cookie the response sets, if any. */
  datatype Response = Response(
    code: int,
    status: string,
    message: Option<string>,
    resultsCount: Option<nat>,
    pagination: Option<Pagination>,
    data: Payload,
    cookie: Option<string>)

  /** `new AppError(message, code)` passed to `next`: "fail" for a 4xx code, "error" otherwise. */
  function AppError(message: string, code: int): Response
  {
    Response(code, if 400 <= code < 500 then "fail" else "error", Some(message), None, None, NoData, None)
  }

  /** Any other error passed to `next`: it has no status code of its own. */
  function Thrown(message: string): Response
  {
    Response(500, "error", Some(message), None, None, NoData, None)
  }

  /** An error thrown by the store. */
  function StoreFailure(e: StoreError): Response
  {
    Thrown(ErrorMessage(e))
  }

  /** `res.status(code).json({ status: 'success', data })`. */
  function Ok(code: int, data: Payload): Response
  {
    Response(code, "success", None, None, None, data, None)
  }

  /** `res.status(code).json({ status: 'success', message })`. */
  function OkMessage(code: int, message: string): Response
  {
    Response(code, "success", Some(message), None, None, NoData, None)
  }

  /** A list answer: `resultsCount`, the pagination object when there is one, and the rows. */
  function OkList(count: nat, pagination: Option<Pagination>, data: Payload): Response
  {
    Response(200, "success", None, Some(count), pagination, data, None)
  }
}
