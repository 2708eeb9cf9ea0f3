# Library REST API: store, handlers, guards and validators

This project is a Dafny model of the decision logic of a small library REST API. The
modelled service keeps authors, books and users in three tables. Express handlers turn each
request into a call on the data-access layer, and then into a JSON envelope with a status
code. Before a handler runs, a JWT cookie guard, a role guard and express-validator chains
inspect the request.

The model has these modules:

- `Wrappers`: `Option` and `Result`.
- `Rows`: the table rows and the views the queries return:
  - the row types `Author`, `Book` and `User`;
  - the joined views `BookView` and `AuthorView`;
  - the insert and partial-update arguments;
  - the errors the data-access layer throws, each with its message.
- `NameOrder`: `ORDER BY authors.name ASC`, as an insertion sort over a total preorder on names.
- `Queries`: the read queries of `models/bookModel.js` and `models/userModel.js`, as functions over the tables:
  - the `whereClause` filters;
  - the join with the authors table, newest-first ordering and `LIMIT`/`OFFSET`;
  - `Math.ceil` pagination, and the lookups by id and by username.
- `QueryLaws`: what the listing queries promise:
  - filters combine with AND;
  - the page is the requested window, newest first;
  - `total` counts the whole filtered set;
  - the last page holds the remainder;
  - author pages are sorted by name and carry each author's own books.
- `Writes`: each write of the data-access layer as a transition function on the tables, with its error checks in source order.
- `Store`: class `LibraryStore` holds the three tables and their serial counters.
  - Its methods update the tables in place and are proved equal to the `Writes` transitions and the `Queries` functions.
  - `Valid()` is the invariant every method keeps: ids are unique, books are in `created_at` order, and no `author_id` dangles.
- `JsInt`: `parseInt(text, 10)` of a query parameter, the `|| default` fallbacks, and the integer syntax express-validator's `isInt` accepts.
- `Http`: the response envelope and the error handler of `app.js`.
  - An `AppError` keeps its code; its status is taken to be `fail` for 4xx and `error` otherwise.
  - Any other thrown error becomes a 500 with its message.
- `BookController`, `AuthorController`: each handler as a function from the query (or id) and the tables, or from the store's result, to one response.
- `Auth`: signup, login, the `protect` guard (a method that writes `req.user`) and `allowAccessTo`.
  - argon2 and jsonwebtoken are the four functions of a `Crypto` value.
  - The properties relied on are `HashSound` (`verify(hash(p), p)`) and `TokenSound` (a signed token decodes to its id).
- `Validators`: the four express-validator chains, each as the list of messages it reports for a JSON body.
  - Each chain has a lemma that the list is empty exactly for the bodies a field-by-field predicate describes.
  - The username lookups of signup.js and login.js can throw (an undefined or boolean username); the thrown message is reported like a failed check.
  - Lengths are measured as `isLength` measures them, without the variation selectors U+FE0E and U+FE0F.

Tables are sequences in insertion order. `created_at` is a counter the store advances on
every insert, so the books table is always in `created_at` order and newest-first is its
reverse. Handlers that read the tables have `ReferentiallyIntact(authors, books)` as a
precondition where their statement needs it. The database's foreign key guarantees that
property, and `LibraryStore.Valid()` keeps it.

The code answers these failures as follows:

- Deleting an author that still has books throws a plain `Error`, so the answer is a 500 with message 'Cannot delete author with existing books', not a 4xx.
- A cookie that `jwt.verify` rejects throws, so the answer is a 500 with the library's message, not a 401.
- An empty partial update ('No fields provided for update') is likewise a 500 when the handler is reached. The PATCH routes run validateNewBook or validateNewAuthor first (routes/bookRoutes.js:29, routes/authorRoutes.js:21), and those refuse an empty body `{}` with 'Title is required' or 'Name is required' (and the other required-field messages), so through the routes the 500 is not reached.

## Model

| member | source | states |
|---|---|---|
| Rows.OrNull | models/bookModel.js:16 | `summary \|\| null`: an absent or empty string is stored as null, any other string as given |
| Rows.PatchBookChangesOnlySupplied | models/bookModel.js:122-131 | a partial update sets exactly the supplied columns; id and created_at never change; an empty patch changes nothing |
| NameOrder.NameLeTotal | models/bookModel.js:201 | any two names are ordered one way or the other |
| NameOrder.NameLeTransitive | models/bookModel.js:201 | the name order is transitive |
| NameOrder.InsertKeepsSorted | models/bookModel.js:201 | inserting an author into a name-sorted list keeps it sorted |
| NameOrder.SortByName | models/bookModel.js:200-201 | the authors ordered by ascending name, a permutation of the table (same multiset, same length) |
| Queries.FindAuthor | models/bookModel.js:7-12 | the author-existence check finds a row exactly when some author has that id |
| Queries.Select | models/bookModel.js:41-48 | the rows kept by the where clause are exactly the table's rows that satisfy every filter |
| Queries.BooksOfEmptyIffNone | models/bookModel.js:246-249 | the books-of-author query is empty exactly when no book names the author |
| Queries.Joined | models/bookModel.js:44-47 | every joined row pairs a book with the author its author_id names; with no dangling author_id no book is dropped |
| Queries.NewestFirst | models/bookModel.js:49 | `ORDER BY created_at DESC` of a chronological list is its reverse, element by element |
| Queries.Window | models/bookModel.js:50 | `LIMIT limit OFFSET offset`: at most `limit` rows, the ones from position `offset` on, and none past the end |
| Queries.CeilDiv | models/bookModel.js:65 | `Math.ceil(total / limit)` is 0 exactly for no rows and never exceeds the row count; its least-cover property is Queries.CeilDivLeast |
| Queries.CeilDivLeast | models/bookModel.js:65 | `Math.ceil(total / limit)`: the least page count whose pages cover `total` rows |
| Queries.BookById | models/bookModel.js:74-88 | the row with that id joined with its author, and null for an id not in the table |
| Queries.BooksByAuthor | models/bookModel.js:90-104 | only books whose author_id is the given id, joined with that author |
| Queries.WithBooks | models/bookModel.js:154-161 | each author row paired with exactly the books that name it, `[]` when none do |
| Queries.AuthorById | models/bookModel.js:152-170 | null exactly when no author has that id; otherwise that author |
| Queries.UserByUsername | models/userModel.js:3-8 | a stored row, password hash included, with exactly that username; undefined exactly when no user has it |
| Queries.UserById | models/userModel.js:18-23 | undefined exactly when no user has that id; otherwise only its id, username and role |
| QueryLaws.FiltersCombineWithAnd | models/bookModel.js:34-41 | the where clause holds exactly when a truthy title occurs case-insensitively in the title and a truthy authorId equals the author_id |
| QueryLaws.NoFilterSelectsAll | models/bookModel.js:34-41 | with no truthy filter every book is selected, in table order |
| QueryLaws.SelectKeepsOrder | models/bookModel.js:41-48 | filtering a chronological table gives a chronological selection |
| Queries.BooksPage | models/bookModel.js:29-72 | getAllBooks: a refusal is always the negative LIMIT/OFFSET error, page 1 with a positive limit is never refused, and a page holds at most `limit` books, echoes page and limit, and counts no more books than the table holds; its full contents are stated by QueryLaws.BooksPageIsWindow |
| QueryLaws.BooksPageIsWindow | models/bookModel.js:29-72 | a page is refused exactly for a negative LIMIT or OFFSET; otherwise it is the window at `offset = (page-1)*limit` of the joined, newest-first filtered books, holding min(`limit`, rows − offset) of them and none when offset is past the end, each in the table and satisfying the filters; page and limit are echoed; total is the filtered count; totalPages is its ceiling over limit |
| QueryLaws.BooksPageContents | models/bookModel.js:31-72 | a page that is not refused holds at most `limit` books, min(`limit`, rows − offset) of them, the ones at positions offset, offset+1, … of the newest-first joined matches, and its pagination is page, limit, the filtered count and its ceiling over limit |
| QueryLaws.BooksPageFiltered | models/bookModel.js:35-58 | every book on a page is a row of the table that satisfies the title and author filters |
| QueryLaws.OffsetSign | models/bookModel.js:31 | with a positive limit the offset is non-negative exactly when page ≥ 1 |
| QueryLaws.TotalIndependentOfPage | models/bookModel.js:53-66 | two pages with the same filters and limit report the same total and totalPages |
| QueryLaws.TotalCountsJoinedRows | models/bookModel.js:43-57 | with no dangling author_id, the count query and the joined listing see the same number of rows |
| QueryLaws.ReverseNewerFirst | models/bookModel.js:49 | rows in created_at order, reversed, are strictly newest first |
| QueryLaws.JoinedNewestFirst | models/bookModel.js:49 | the joined rows of a chronological selection, reversed, are strictly newest first |
| QueryLaws.WindowKeepsNewerFirst | models/bookModel.js:49-50 | a window of a newest-first list is newest first |
| QueryLaws.BooksPageNewestFirst | models/bookModel.js:43-51 | on a chronological, referentially intact table every page lists strictly newer books first |
| QueryLaws.LastPageHoldsRemainder | models/bookModel.js:65 | with total > 0 there is at least one page, and the last page holds `total mod limit` rows, or `limit` when limit divides total |
| QueryLaws.LastPageOffset | models/bookModel.js:31-65 | the offset of page `totalPages` leaves between 1 and `limit` rows |
| QueryLaws.BooksPageCounts | models/bookModel.js:31-72 | with no dangling author_id, the page echoes a positive limit and the page asked for, totalPages is the ceiling of total over limit, and the page size follows from offset and total alone |
| QueryLaws.LastPageSize | models/bookModel.js:31-65 | on page `totalPages`, a window of min(`limit`, total − offset) rows holds `total mod limit` rows, or `limit` when limit divides total |
| QueryLaws.LastBooksPageSize | models/bookModel.js:29-72 | asking for page `totalPages` returns `total mod limit` books, or `limit` when limit divides total |
| Queries.AuthorsPage | models/bookModel.js:188-222 | getAllAuthors: a refusal is always the negative LIMIT/OFFSET error, page 1 with a positive limit is never refused, and a page holds at most `limit` authors, echoes page and limit, and counts every author; its full contents are stated by QueryLaws.AuthorsPageLaws |
| QueryLaws.AuthorsPageRefusal | models/bookModel.js:188-202 | an author page is refused exactly for a negative LIMIT or OFFSET |
| QueryLaws.AuthorsPageLaws | models/bookModel.js:188-222 | an author page holds min(`limit`, authors − offset) authors, none when `offset = (page-1)*limit` is past the end, and its i-th author is the (offset+i)-th of the name-sorted table; it is in ascending name order, each author with exactly its books; page and limit are echoed; total counts all authors; totalPages is its ceiling over limit |
| QueryLaws.AuthorBooksEmptyIffNone | models/bookModel.js:154-165 | getAuthorById's books column is `[]` exactly when no book names the author |
| QueryLaws.BookByIdFindsEveryBook | models/bookModel.js:74-88 | with no dangling author_id, getBookById finds a row exactly for the ids in the table |
| QueryLaws.BooksByAuthorComplete | models/bookModel.js:90-104 | with no dangling author_id, getBooksByAuthor lists every book of that author and no other |
| Writes.RemoveBookKeepsOrder | models/bookModel.js:140-145 | deleting a row keeps book ids distinct and the table chronological |
| Writes.RemoveAuthorKeepsDistinct | models/bookModel.js:253-258 | deleting a row keeps author ids distinct |
| Writes.AppendBookKeepsKeys | models/bookModel.js:14-21 | inserting a book with a fresh id that is newer than every row keeps ids distinct and the table chronological, and adds no other row |
| Writes.AppendedBookFound | models/bookModel.js:14-22 | getBookById finds an inserted book joined with the author it names |
| Writes.ReplaceBookKeepsKeys | models/bookModel.js:122-131 | overwriting a row with its own id and created_at keeps ids distinct and order chronological |
| Writes.BookUpdate | models/bookModel.js:106-136 | an empty patch fails with 'No fields provided for update'; a truthy author_id that names no author fails with 'Author does not exist'; past those checks, an unknown id gives null and the same table, and null comes only for an unknown id; the only other failure is the foreign-key refusal, which comes only for a stored id whose patched row names no author (an author_id of 0 skips the author check and reaches it); otherwise only that row changes, to the patched row, and is returned with its author; referential integrity is kept |
| Writes.BookDelete | models/bookModel.js:138-150 | null and the same table exactly when no book has that id; otherwise its snapshot is returned, exactly one row goes, every other row stays, and the id is gone |
| Writes.AuthorUpdate | models/bookModel.js:224-242 | fails exactly for an empty patch; an unknown id gives null and the same table; otherwise only that row changes, to the patched row; the set of ids is unchanged |
| Writes.AuthorDelete | models/bookModel.js:244-263 | fails with 'Cannot delete author with existing books' exactly when a book names the author; otherwise null and the same table for an unknown id, or its snapshot with exactly that row removed; no author_id is left dangling |
| Store.LibraryStore.constructor | models/bookModel.js:1 | the empty tables satisfy the store invariant |
| Store.LibraryStore.GetAllBooks | models/bookModel.js:29-72 | builds the where clause by pushes and returns exactly the page of Queries.BooksPage |
| Store.LibraryStore.CreateAuthor | models/bookModel.js:172-186 | appends one author with a fresh id and the given columns, with an empty biography as null; getAuthorById then finds it with no books; the invariant is kept |
| Store.LibraryStore.CreateBook | models/bookModel.js:3-27 | an author_id that names no author fails with 'Author does not exist' and changes nothing; otherwise appends exactly one book, the newest, with a fresh id and the given columns, an empty summary as null; returns it joined with its author, and getBookById then finds it |
| Store.LibraryStore.UpdateBookPart | models/bookModel.js:106-136 | the same outcome and new books table as Writes.BookUpdate; a failure changes nothing; the invariant is kept |
| Store.LibraryStore.DeleteBook | models/bookModel.js:138-150 | the same outcome and new books table as Writes.BookDelete; the invariant is kept |
| Store.LibraryStore.UpdateAuthor | models/bookModel.js:224-242 | the same outcome and new authors table as Writes.AuthorUpdate; a failure changes nothing |
| Store.LibraryStore.DeleteAuthor | models/bookModel.js:244-263 | the same outcome and new authors table as Writes.AuthorDelete; a failure changes nothing; the invariant is kept |
| Store.LibraryStore.CreateUser | models/userModel.js:10-16 | appends exactly username, password and role under a fresh id; returns only id, username and role; getUserById then finds the same id and role |
| JsInt.DigitRun | controllers/bookController.js:23-26 | parseInt reads the longest run of digits |
| JsInt.ParseInt | controllers/bookController.js:23-26 | `parseInt(s, 10)` gives a number only when the text holds a digit, and a pure digit string reads as its decimal value, leading zeros included; its round trips are JsInt.ParseIntOfDecimal and JsInt.ParseIntRoundTrip |
| JsInt.SkipSpace | controllers/bookController.js:23-26 | parseInt skips leading white space and only white space |
| JsInt.Digits | controllers/bookController.js:23-26 | the digits of a natural number: digits only, reading back as the number, with no leading zero |
| JsInt.ParseIntOfDecimal | controllers/bookController.js:23-26 | parseInt reads back the decimal text of any integer, whatever non-digit text follows it |
| JsInt.NotANumber | controllers/bookController.js:23-26 | the empty text, and text that starts with no white space, sign or digit, parse to NaN |
| JsInt.ParseIntRoundTrip | controllers/bookController.js:23-26 | parseInt of an integer's decimal text is that integer |
| JsInt.IntText | validators/newBook.js:29 | text that isInt accepts is read by parseInt as the same integer |
| JsInt.IntTextRoundTrip | validators/newBook.js:29 | isInt accepts the decimal text of every integer and reads it back |
| BookController.Lookup | controllers/bookController.js:20 | a query value is undefined exactly when no pair has that key; otherwise one of its pairs |
| BookController.SmallestIndexKey | controllers/bookController.js:125 | the array-index key of least value, which `Object.keys` lists first; none exactly when no key is an array index |
| BookController.AllowedIsNotIndex | controllers/bookController.js:123-126 | no allowed field is an array-index key |
| BookController.FirstDisallowedKey | controllers/bookController.js:125-134 | none exactly when every key is title, authorId, isbn, page or limit; otherwise a key that is not, in `Object.keys` order: the array-index key of least value if there is one, else the first disallowed key in insertion order |
| BookController.IndexKeyNamedFirst | controllers/bookController.js:125-134 | `?foo=1&5=2` is refused naming '5' |
| BookController.InvalidFieldMessage | controllers/bookController.js:128-129 | the 400 message names the key and lists 'title, authorId, isbn' |
| BookController.ListArgs | controllers/bookController.js:22-27 | page and limit are never 0; title is passed as given; an authorId filter is never 0 |
| BookController.ListArgsDefaults | controllers/bookController.js:23-26 | a missing page, limit or authorId gives 1, 10 or no filter, as does the text "0"; the text of any other integer is used as that integer |
| BookController.NotANumberFallsBack | controllers/bookController.js:23-26 | a page, limit or authorId that is not a number gives page 1, limit 10 or no author filter, as a missing one does |
| BookController.BookListResponse | controllers/bookController.js:29-39 | a store error is a 500; an empty page is a 404 with the handler's message; only a non-empty page is a 200, with resultsCount the number of books and the pagination passed on |
| BookController.GetBooks | controllers/bookController.js:18-43 | a 200 holds 1 to `limit` books of the table that satisfy the filters, counted in resultsCount; the 404 says 'No books found' |
| BookController.FilteredBooksCall | controllers/bookController.js:120-141 | a disallowed key ends the request with the 400 before getAllBooks is called; otherwise getAllBooks gets the same arguments as in getBooks |
| BookController.GetFilteredBooks | controllers/bookController.js:120-157 | a disallowed key gives the 400 whatever the tables hold; otherwise the same code and data as getBooks, with 404 message 'No books found with the specified filters' |
| BookController.LookupIgnoresOtherKeys | controllers/bookController.js:136-141 | adding a different key to the query does not change what a key looks up |
| BookController.IsbnNeverNarrows | controllers/bookController.js:123-141 | adding an isbn to an allowed query changes nothing in the answer |
| BookController.OneBookResponse | controllers/bookController.js:50-57 | 404 'Invalid book ID' exactly when getBookById returns null; otherwise 200 with the book |
| BookController.GetOneBook | controllers/bookController.js:45-61 | 404 exactly when no book has that id; a 200 carries that book |
| BookController.GetBooksByAuthor | controllers/bookController.js:63-80 | 404 'No books found for this author' exactly when no book names that author; a 200 counts the books it lists |
| BookController.CreateBookResponse | controllers/bookController.js:4-16 | 201 with the created book exactly when createBook succeeds; otherwise the error's 500 |
| BookController.UpdateBookResponse | controllers/bookController.js:82-100 | 404 'Invalid book ID' exactly when updateBookPart returns null; 200 exactly when it returns a row; otherwise the error's 500 |
| BookController.UpdateBookAnswers | controllers/bookController.js:82-100 | against the table: an empty body is a 500; a body whose author_id (if any) exists gives 404 exactly when no book has that id |
| BookController.DeleteBookResponse | controllers/bookController.js:102-118 | 404 'Invalid book ID' exactly on null; otherwise 200 'Book deleted successfully' |
| BookController.DeleteBookAnswers | controllers/bookController.js:102-118 | against the table: 404 exactly when no book has that id |
| AuthorController.AuthorsArgs | controllers/authorController.js:29-32 | page and limit are never 0 and default to 1 and 10 when missing |
| AuthorController.AuthorsArgsNotANumber | controllers/authorController.js:29-32 | a page or limit that is not a number gives page 1 or limit 10, as a missing one does |
| AuthorController.AuthorsArgsOfNumbers | controllers/authorController.js:29-32 | the text of a non-zero integer is used as given; "0" falls back to the default |
| AuthorController.AuthorListResponse | controllers/authorController.js:34-44 | a store error is a 500; an empty page is 404 'No authors found'; only a non-empty page is a 200, with resultsCount the number of authors and the pagination echoed |
| AuthorController.GetAuthors | controllers/authorController.js:25-48 | a 200 lists 1 to `limit` authors, the i-th being the ((page-1)*limit+i)-th of the table sorted by name, each with exactly its books, counted in resultsCount, with total the number of authors |
| AuthorController.FirstAuthorsPageFound | controllers/authorController.js:25-48 | with at least one author, the first page is never a 404 |
| AuthorController.GetOneAuthor | controllers/authorController.js:50-66 | 404 'Invalid author ID' exactly when no author has that id; a 200 carries that author, whose books are `[]` exactly when none names it |
| AuthorController.CreateAuthorResponse | controllers/authorController.js:11-23 | 201 with the created row |
| AuthorController.UpdateAuthorResponse | controllers/authorController.js:68-86 | 404 'Invalid author ID' exactly when updateAuthor returns null; 200 exactly for a row; otherwise the error's 500 |
| AuthorController.UpdateAuthorAnswers | controllers/authorController.js:68-86 | against the table: an empty body is a 500 'No fields provided for update'; otherwise 404 exactly when no author has that id |
| AuthorController.DeleteAuthorResponse | controllers/authorController.js:88-104 | 404 'Invalid author ID' exactly on null; otherwise 200 'Author deleted successfully' |
| AuthorController.DeleteAuthorAnswers | controllers/authorController.js:88-104 | against the tables: a book naming the author gives a 500 'Cannot delete author with existing books'; otherwise 404 exactly when no author has that id, else 'Author deleted successfully' |
| Auth.RoleOrUser | controllers/authController.js:28 | the role given, or 'user' when it is absent or empty |
| Auth.SignupOutcome | controllers/authController.js:31-41 | no created user gives 400 'User not created' and no cookie; otherwise 201 with the user and a cookie holding a token for its id |
| Auth.Signup | controllers/authController.js:20-45 | stores exactly one user, with the hash of the password (never the password) and the role defaulted to 'user', under a fresh id; answers 201 with a token for that id |
| Auth.LoginOutcome | controllers/authController.js:51-67 | unknown username: 404 'User not found' without checking the password; a rejected password: 401 'Incorrect password'; neither sets a cookie; otherwise 200 with only id, username and role and a token for that id |
| Auth.Login | controllers/authController.js:47-71 | 404 exactly when no user has that username; a 200 is for a stored user whose hash verifies the password |
| Auth.Authenticate | controllers/authController.js:73-93 | no cookie or an empty one gives 401 before any lookup; a token the library rejects gives a 500; a decoded id naming no user gives 401 exactly then; success is only for a stored user with that id |
| Auth.Protect | controllers/authController.js:73-93 | sets `req.user` to the authenticated user and continues exactly when Authenticate succeeds; otherwise halts with its response and leaves `req.user` unchanged |
| Auth.AllowAccessTo | controllers/authController.js:95-106 | continues exactly when the user's role is one of the roles; a user with any other role gets 403 |
| Auth.AppendedUserFound | models/userModel.js:3-23 | a user inserted with a fresh id and an unused username is what both lookups find |
| Auth.UsernameLookupFindsFirst | models/userModel.js:3-8 | the username lookup returns the first row with that username |
| Auth.SignupThenLoginThenProtect | controllers/authController.js:20-93 | for an unused username, the row signup stores lets login with the same password answer 200 with a token for the new id, and protect maps that token back to the same user |
| Validators.PresentedLength | validators/newBook.js:12 | the length `isLength` measures: never more than the number of characters, and equal to it when no character is U+FE0E or U+FE0F |
| Validators.MatchRepeatShape | validators/newBook.js:23 | `[0-9-]{min,max}` accepts exactly the strings of min to max digits and hyphens |
| Validators.IsbnShape | validators/newBook.js:20-24 | isbn is accepted exactly when it is 10 to 17 digits and hyphens; 11 characters pass |
| Validators.TitleAccepted | validators/newBook.js:7-13 | no title error exactly for a string of at least 3 characters, not counting U+FE0E and U+FE0F |
| Validators.SelectorNotCounted | validators/newBook.js:12-13 | 'ab' followed by U+FE0F is refused as shorter than 3 characters |
| Validators.IsbnAccepted | validators/newBook.js:20-24 | no isbn error exactly for a present value of 10 to 17 digits and hyphens |
| Validators.AuthorIdAccepted | validators/newBook.js:26-37 | no author_id error exactly for integer text ≥ 1 that names an author |
| Validators.BodyErrors | validators/newBook.js:5 | `body().notEmpty()` (also newAuthor.js:4 and signup.js:5) reads the parsed body, always an object, as "[object Object]", so it never reports its message, not even for `{}` |
| Validators.NewBookErrors | validators/newBook.js:4-38 | validateNewBook never reports 'Request body must have data', and reports title, isbn and author_id as required when they are missing, so `{}` is refused through those messages; Validators.NewBookValidation states when it reports nothing |
| Validators.NewBookValidation | validators/newBook.js:4-38 | validateNewBook reports nothing exactly when the title is a string of at least 3 characters not counting U+FE0E and U+FE0F, the isbn and author_id are valid, and summary, if present, is a string |
| Validators.AcceptedBookNamesAuthor | validators/newBook.js:26-37 | an accepted body's author_id is integer text ≥ 1 naming an existing author |
| Validators.ParseIsoDate | validators/newAuthor.js:17 | a date is read exactly when the text is a YYYY-MM-DD date |
| Validators.Two | validators/newAuthor.js:17 | two digits that read back as the number |
| Validators.DateTextRoundTrip | validators/newAuthor.js:17 | every date with month 1–12 and day 1–31 is accepted and read back unchanged |
| Validators.NewAuthorErrors | validators/newAuthor.js:3-26 | validateNewAuthor never reports 'Request body must have data', and reports name and birth date as required when they are missing, so `{}` is refused through those messages; Validators.NewAuthorValidation states when it reports nothing |
| Validators.NewAuthorValidation | validators/newAuthor.js:3-26 | validateNewAuthor reports nothing exactly when the name is a string of at least 2 characters, the birth date is a YYYY-MM-DD date, and biography, if present, is a string of at most 150 characters, where lengths do not count U+FE0E and U+FE0F |
| Validators.UserFor | validators/signup.js:9-15 | the lookup throws exactly for an undefined or boolean username, with 'Undefined values are not allowed' for undefined; a found row is stored with that username; it misses a non-null username only when no row has it |
| Validators.SignupErrors | validators/signup.js:4-29 | an absent username is reported as required and with the lookup's 'Undefined values are not allowed'; a boolean one with the database's type error |
| Validators.SignupValidation | validators/signup.js:4-29 | validateNewUser reports nothing exactly when the username is non-empty, not a boolean and unused, the password is non-empty and strictly equal to passwordconfirm, and the role, if present, is "user" or "admin" |
| Validators.DecimalIsNotRole | validators/signup.js:25-28 | no number passes the role check |
| Validators.TakenMessageIffFound | validators/signup.js:9-15 | 'Username already exists' is reported exactly when the lookup finds a row |
| Validators.UsernameTaken | validators/signup.js:9-15 | 'Username already exists' is reported exactly when the username is present, neither null nor a boolean, and a stored user has it as text |
| Validators.LoginErrors | validators/login.js:5-29 | 'User not found, please sign up' exactly when the lookup misses; 'Incorrect password' exactly when it finds a user whose hash does not verify the password; an absent username gives 'Username is required', 'Undefined values are not allowed', the password check, and 'Undefined values are not allowed' again |
| Validators.AcceptedLoginSucceeds | validators/login.js:5-29 | a login body the validator accepts is one the login handler answers with 200 |
| Validators.AcceptedSignupCanLogIn | validators/signup.js:4-29 | a signup body the validator accepts can log in after signup stores its row |

## Left out

- The SQL text is not modelled. This covers the `sql.unsafe` string building, quoting and `%`/`_` wildcards inside an ILIKE title pattern; the model states the intended filter semantics instead. models/bookModel.js:35 puts the title into the WHERE text through a plain template literal, so the pattern reaches the SQL without quotes. As written, every truthy `title` makes both queries fail, and the answer is a 500. QueryLaws.FiltersCombineWithAnd, Queries.BooksPage, BookController.GetBooks and BookController.GetFilteredBooks describe the intended title filter, not the one that runs.
- Case-insensitive matching: `Queries.Lower` folds ASCII letters only. Database collation and Unicode case folding are not modelled.
- `NameOrder.NameLe` orders names by code point. The database collation used by `ORDER BY authors.name` is not modelled.
- `JsInt.IsSpace` treats only ASCII white space (and vertical tab and form feed) as white space before a number. parseInt's Unicode white space is not modelled.
- Queries.BooksPage and Queries.AuthorsPage require a non-zero limit. The handlers never pass 0, and a direct call with limit 0 would divide by zero.
- A `limit` of `Infinity` or a fractional page is not modelled: every parameter is an integer. JavaScript numbers also lose precision above 2^53 (`parseInt("9007199254740993")` is 9007199254740992), while JsInt.ParseInt and the offset `(page - 1) * limit` are exact in the model.
- Route ids are taken as integers. `parseInt` of a non-numeric id gives NaN, which the database rejects; that case is not modelled.
- A query key given twice is read by its first value. Express would turn it into an array.
- Rows.PatchBookChangesOnlySupplied: the model's book patch carries only title, summary, isbn and author_id, so id and created_at never change. updateBookPart writes every key of the body (models/bookModel.js:108, 124), so a body with id or created_at rewrites those columns in the source, and an unknown key reaches the database, which rejects it.
- Writes.BookUpdate: the same holds for the transition and for Store.LibraryStore.UpdateBookPart. The books table stays in created_at order, and newest-first is its reverse, only because the model never writes created_at.
- Writes.AuthorUpdate: the author patch carries only name, birth_date and biography. updateAuthor writes every key of the body (models/bookModel.js:226, 233), including id, so the promise that the set of ids is unchanged holds only for those keys; the same goes for Store.LibraryStore.UpdateAuthor.
- `created_at` is an abstract increasing counter, not a timestamp. `requestedAt`, cookie expiry dates, token expiry and the JWT secret are not modelled.
- argon2 and jsonwebtoken are abstract functions. Salting, signature cryptography and hashing failures are not modelled.
- Concurrency is not modelled. Each operation runs alone, so the author check before an insert and the username check before createUser cannot race.
- Auth.Signup: createUser always returns a row in the model, so the 400 'User not created' branch is reachable only through Auth.SignupOutcome.
- The JSON body is modelled as a map from keys to null, booleans, integers, strings and opaque objects. Floats, arrays (which express-validator checks element by element) and nested values are not modelled.
- `body().notEmpty()` is modelled as the code runs: `express.json()` (app.js:11) always leaves an object in `req.body`, and express-validator reads an object as "[object Object]", so the whole-body check of validateNewBook, validateNewAuthor and validateNewUser never reports 'Request body must have data' or 'User body must contain data'. An empty body is refused only through its missing required fields.
- Validators.NamesAuthor: a value that is not integer text counts as naming no author. In the source the database refuses the comparison and its error message is reported instead.
- Validators.IsIsoDate, Validators.ParseIsoDate and Validators.NewAuthorValidation: the birth date is limited to YYYY-MM-DD, so all three state that subset. IsIsoDate accepts only the YYYY-MM-DD calendar form and does not relate the day to the month. `isISO8601()` also accepts week dates, ordinal dates, times and offsets.
- The messages of errors the database raises (a negative LIMIT or OFFSET, a foreign-key violation) are fixed stand-in texts, not the driver's exact wording.
- `logout`, the 404 for unknown routes, `validate.js` (which turns validator messages into a response) and the route wiring are not part of this model.
- dbConnection.js, models/authorModel.js and utils/appError.js are not part of this model.
- Http.AppError: utils/appError.js is not part of this model, so the status rule (`fail` for a 4xx code, `error` otherwise) is assumed from its usual form rather than read from the code.
- Validators.UserFor: the text of the database's type error for a boolean username is a stand-in. An object username is looked up by its text. argon2.verify of a stored hash against a password that is not a string, which throws in the source, is modelled as an ordinary verify of the password's text.
