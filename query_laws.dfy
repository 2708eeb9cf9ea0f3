/**
 * What the SELECT queries of models/bookModel.js promise: filters combine with AND,
 * pages are windows of the newest-first list, totals count the whole filtered set,
 * `totalPages` is the ceiling of `total / limit`, and authors come by ascending name.
 */
module QueryLaws {
  import opened Wrappers
  import opened Rows
  import opened Queries
  import NameOrder

  // ---------------------------------------------------------------------------
  // Filters

  /** The where clause holds exactly when each truthy filter holds: title as a case-blind substring, authorId exactly. */
  lemma FiltersCombineWithAnd(b: Book, title: Option<string>, authorId: Option<int>)
    ensures Satisfies(b, Where(title, authorId)) <==>
              (!TitleGiven(title) || ContainsIgnoringCase(b.title, title.value))
              && (!AuthorIdGiven(authorId) || b.authorId == authorId.value)
  {
    var w := Where(title, authorId);
    if TitleGiven(title) {
      assert TitleLike(title.value) in w;
    }
    if AuthorIdGiven(authorId) {
      assert AuthorIs(authorId.value) in w;
    }
  }

  /** With no truthy filter every book is selected, in table order. */
  lemma {:induction false} NoFilterSelectsAll(books: seq<Book>, title: Option<string>, authorId: Option<int>)
    requires !TitleGiven(title) && !AuthorIdGiven(authorId)
    ensures Select(books, Where(title, authorId)) == books
  {
    if |books| > 0 {
      NoFilterSelectsAll(books[1..], title, authorId);
      assert books == [books[0]] + books[1..];
    }
  }

  /** Selecting keeps the rows' relative order, so a chronological table gives a chronological selection. */
  lemma {:induction false} SelectKeepsOrder(books: seq<Book>, where: seq<Filter>)
    requires Chronological(books)
    ensures Chronological(Select(books, where))
  {
    if |books| > 0 {
      var tail := books[1..];
      assert Chronological(tail);
      SelectKeepsOrder(tail, where);
      var rest := Select(tail, where);
      forall y | y in rest ensures books[0].createdAt < y.createdAt {
        var k :| 0 <= k < |tail| && tail[k] == y;
        assert books[k + 1] == y;
      }
      assert books == [books[0]] + tail;
    }
  }

  // ---------------------------------------------------------------------------
  // getAllBooks

  /**
   * A page is refused for a negative LIMIT or OFFSET only; otherwise it holds at most
   * `limit` books, the ones at positions offset, offset+1, … of the newest-first list
   * of matching joined books, each of them a matching row of the table, and the
   * pagination echoes page and limit and counts every matching book.
   */
  lemma BooksPageIsWindow(authors: seq<Author>, books: seq<Book>, args: BookListArgs)
    requires args.limit != 0
    ensures BooksPage(authors, books, args).Success? <==> args.limit > 0 && args.page >= 1
    ensures BooksPage(authors, books, args).Success? ==>
              var r := BooksPage(authors, books, args).value;
              var matching := Select(books, Where(args.title, args.authorId));
              var all := NewestFirst(Joined(authors, matching));
              var offset := Offset(args.page, args.limit);
              && |r.books| <= args.limit
              && |r.books| == (if offset >= |all| then 0 else Min(args.limit, |all| - offset))
              && (forall i :: 0 <= i < |r.books| ==> offset + i < |all| && r.books[i] == all[offset + i])
              && (forall v :: v in r.books ==> v.book in books && Satisfies(v.book, Where(args.title, args.authorId)))
              && r.pagination == Pagination(args.page, args.limit, |matching|, CeilDiv(|matching|, args.limit))
  {
    if args.limit > 0 {
      OffsetSign(args.page, args.limit);
    }
    if BooksPage(authors, books, args).Success? {
      BooksPageContents(authors, books, args, BooksPage(authors, books, args).value);
      BooksPageFiltered(authors, books, args, BooksPage(authors, books, args).value);
    }
  }

  /** The contents of a page that is not refused. */
  lemma BooksPageContents(authors: seq<Author>, books: seq<Book>, args: BookListArgs, r: BookPage)
    requires args.limit != 0 && BooksPage(authors, books, args) == Success(r)
    ensures var matching := Select(books, Where(args.title, args.authorId));
            var all := NewestFirst(Joined(authors, matching));
            var offset := Offset(args.page, args.limit);
            && |r.books| <= args.limit
            && |r.books| == (if offset >= |all| then 0 else Min(args.limit, |all| - offset))
            && (forall i :: 0 <= i < |r.books| ==> offset + i < |all| && r.books[i] == all[offset + i])
            && r.pagination == Pagination(args.page, args.limit, |matching|, CeilDiv(|matching|, args.limit))
  {
    BooksPageShape(authors, books, args, r);
    WindowOf(NewestFirst(Joined(authors, Select(books, Where(args.title, args.authorId)))),
             Offset(args.page, args.limit), args.limit, r.books);
  }

  /** A page that is not refused is the window at the page's OFFSET, with its pagination. */
  lemma BooksPageShape(authors: seq<Author>, books: seq<Book>, args: BookListArgs, r: BookPage)
    requires args.limit != 0 && BooksPage(authors, books, args) == Success(r)
    ensures var matching := Select(books, Where(args.title, args.authorId));
            && args.limit > 0 && Offset(args.page, args.limit) >= 0
            && r.books == Window(NewestFirst(Joined(authors, matching)), Offset(args.page, args.limit), args.limit)
            && r.pagination == Pagination(args.page, args.limit, |matching|, CeilDiv(|matching|, args.limit))
  {
  }

  /** The rows a window holds, for a window given by name. */
  lemma WindowOf(all: seq<BookView>, offset: nat, limit: nat, page: seq<BookView>)
    requires page == Window(all, offset, limit)
    ensures |page| <= limit
    ensures |page| == (if offset >= |all| then 0 else Min(limit, |all| - offset))
    ensures forall i :: 0 <= i < |page| ==> offset + i < |all| && page[i] == all[offset + i]
  {
  }

  /** Every book on a page that is not refused is in the table and satisfies the filters. */
  lemma BooksPageFiltered(authors: seq<Author>, books: seq<Book>, args: BookListArgs, r: BookPage)
    requires args.limit != 0 && BooksPage(authors, books, args) == Success(r)
    ensures forall v :: v in r.books ==> v.book in books && Satisfies(v.book, Where(args.title, args.authorId))
  {
    var offset := Offset(args.page, args.limit);
    BookWindowLaws(authors, books, Where(args.title, args.authorId), offset, args.limit);
  }

  lemma BookWindowLaws(authors: seq<Author>, books: seq<Book>, where: seq<Filter>, offset: nat, limit: nat)
    ensures var page := Window(NewestFirst(Joined(authors, Select(books, where))), offset, limit);
            forall v :: v in page ==> v.book in books && Satisfies(v.book, where)
  {
    var matching := Select(books, where);
    var all := NewestFirst(Joined(authors, matching));
    var page := Window(all, offset, limit);
    forall v | v in page ensures v.book in books && Satisfies(v.book, where) {
      var i :| 0 <= i < |page| && page[i] == v;
      assert v == all[offset + i];
      assert v in Joined(authors, matching);
    }
  }

  /** With a positive limit the OFFSET `(page - 1) * limit` is negative exactly when page < 1. */
  lemma OffsetSign(page: int, limit: int)
    requires limit > 0
    ensures Offset(page, limit) >= 0 <==> page >= 1
  {
    if page < 1 {
      AtLeastDivisor(1 - page, limit);
      assert (page - 1) * limit == -((1 - page) * limit);
    }
  }

  /** `total` and `totalPages` do not depend on the page asked for. */
  lemma TotalIndependentOfPage(authors: seq<Author>, books: seq<Book>, a1: BookListArgs, a2: BookListArgs)
    requires a1.limit == a2.limit != 0 && a1.title == a2.title && a1.authorId == a2.authorId
    requires BooksPage(authors, books, a1).Success? && BooksPage(authors, books, a2).Success?
    ensures BooksPage(authors, books, a1).value.pagination.total == BooksPage(authors, books, a2).value.pagination.total
    ensures BooksPage(authors, books, a1).value.pagination.totalPages == BooksPage(authors, books, a2).value.pagination.totalPages
  {
  }

  /** With no dangling author_id, the join drops nothing: the count query and the joined rows agree. */
  lemma TotalCountsJoinedRows(authors: seq<Author>, books: seq<Book>, where: seq<Filter>)
    requires ReferentiallyIntact(authors, books)
    ensures |Joined(authors, Select(books, where))| == |Select(books, where)|
  {
    assert ReferentiallyIntact(authors, Select(books, where));
  }

  /** Strictly newer books first. */
  ghost predicate NewerFirst(s: seq<BookView>)
  {
    forall i, j :: 0 <= i < j < |s| ==> s[i].book.createdAt > s[j].book.createdAt
  }

  /** Rows in created_at order, reversed, are strictly newest first. */
  lemma ReverseNewerFirst(s: seq<BookView>)
    requires forall i, j :: 0 <= i < j < |s| ==> s[i].book.createdAt < s[j].book.createdAt
    ensures NewerFirst(NewestFirst(s))
  {
    var all := NewestFirst(s);
    var n := |s|;
    forall i, j | 0 <= i < j < n ensures all[i].book.createdAt > all[j].book.createdAt {
      assert all[i] == s[n - 1 - i] && all[j] == s[n - 1 - j];
    }
  }

  lemma JoinedNewestFirst(authors: seq<Author>, matching: seq<Book>)
    requires Chronological(matching) && ReferentiallyIntact(authors, matching)
    ensures NewerFirst(NewestFirst(Joined(authors, matching)))
  {
    var joined := Joined(authors, matching);
    assert forall k :: 0 <= k < |joined| ==> joined[k].book == matching[k];
    ReverseNewerFirst(joined);
  }

  lemma WindowKeepsNewerFirst(s: seq<BookView>, offset: nat, limit: nat)
    requires NewerFirst(s)
    ensures NewerFirst(Window(s, offset, limit))
  {
    var w := Window(s, offset, limit);
    forall i, j | 0 <= i < j < |w| ensures w[i].book.createdAt > w[j].book.createdAt {
      assert w[i] == s[offset + i] && w[j] == s[offset + j];
    }
  }

  /** On a chronological, referentially intact table every page lists strictly newer books first. */
  lemma BooksPageNewestFirst(authors: seq<Author>, books: seq<Book>, args: BookListArgs)
    requires args.limit != 0
    requires Chronological(books) && ReferentiallyIntact(authors, books)
    requires BooksPage(authors, books, args).Success?
    ensures NewerFirst(BooksPage(authors, books, args).value.books)
  {
    var matching := Select(books, Where(args.title, args.authorId));
    SelectKeepsOrder(books, Where(args.title, args.authorId));
    assert ReferentiallyIntact(authors, matching);
    JoinedNewestFirst(authors, matching);
    WindowKeepsNewerFirst(NewestFirst(Joined(authors, matching)), Offset(args.page, args.limit), args.limit);
  }

  // ---------------------------------------------------------------------------
  // totalPages and the last page

  /** `x mod l` does not change when `l` is taken away from `x`. */
  lemma ModMinusDivisor(x: int, l: int)
    requires l > 0 && x >= l
    ensures (x - l) % l == x % l
  {
    var q, r := (x - l) / l, (x - l) % l;
    assert x - l == q * l + r && 0 <= r < l;
    assert x == (q + 1) * l + r;
    DivModUnique(x, l, q + 1, r);
  }

  lemma DivModUnique(x: int, l: int, q: int, r: int)
    requires l > 0 && 0 <= r < l && x == q * l + r
    ensures x % l == r
  {
    var q', r' := x / l, x % l;
    assert x == q' * l + r' && 0 <= r' < l;
    assert (q - q') * l == r' - r;
    if q > q' {
      AtLeastDivisor(q - q', l);
    } else if q < q' {
      AtLeastDivisor(q' - q, l);
    }
  }

  lemma {:induction false} AtLeastDivisor(d: int, l: int)
    requires d >= 1 && l > 0
    ensures d * l >= l
  {
    if d > 1 {
      AtLeastDivisor(d - 1, l);
      assert d * l == (d - 1) * l + l;
    }
  }

  /**
   * For N > 0 items and a positive limit L, `totalPages` is at least 1 and the last page
   * holds N mod L items, or L when L divides N.
   */
  lemma {:induction false} LastPageHoldsRemainder(total: nat, limit: int)
    requires total > 0 && limit > 0
    ensures CeilDiv(total, limit) >= 1
    ensures total - (CeilDiv(total, limit) - 1) * limit == if total % limit == 0 then limit else total % limit
  {
    if total <= limit {
      if total < limit { DivModUnique(total, limit, 0, total); } else { DivModUnique(total, limit, 1, 0); }
    } else {
      var p' := CeilDiv(total - limit, limit);
      LastPageHoldsRemainder(total - limit, limit);
      ModMinusDivisor(total, limit);
      assert CeilDiv(total, limit) == p' + 1;
      assert p' * limit == (p' - 1) * limit + limit;
    }
  }

  /** The OFFSET of the page numbered `totalPages` leaves between 1 and `limit` rows. */
  lemma LastPageOffset(total: nat, limit: int, page: int, offset: int)
    requires total > 0 && limit > 0
    requires page == CeilDiv(total, limit) && offset == (page - 1) * limit
    ensures total - offset == if total % limit == 0 then limit else total % limit
    ensures 0 < total - offset <= limit
  {
    LastPageHoldsRemainder(total, limit);
  }

  /** With no dangling author_id, a page's size follows from its own pagination. */
  lemma BooksPageCounts(authors: seq<Author>, books: seq<Book>, args: BookListArgs, r: BookPage)
    requires args.limit != 0 && ReferentiallyIntact(authors, books)
    requires BooksPage(authors, books, args) == Success(r)
    ensures r.pagination.limit == args.limit > 0 && r.pagination.page == args.page
    ensures r.pagination.totalPages == CeilDiv(r.pagination.total, args.limit)
    ensures var offset := Offset(args.page, args.limit);
            |r.books| == if offset >= r.pagination.total then 0 else Min(args.limit, r.pagination.total - offset)
  {
    BooksPageContents(authors, books, args, r);
    TotalCountsJoinedRows(authors, books, Where(args.title, args.authorId));
  }

  /** The page numbered `totalPages` of a window of `total` rows holds N mod L of them, or L when L divides N. */
  lemma LastPageSize(p: Pagination, size: nat)
    requires p.limit > 0 && p.total > 0 && p.page == p.totalPages && p.totalPages == CeilDiv(p.total, p.limit)
    requires size == if Offset(p.page, p.limit) >= p.total then 0 else Min(p.limit, p.total - Offset(p.page, p.limit))
    ensures size == if p.total % p.limit == 0 then p.limit else p.total % p.limit
  {
    LastPageOffset(p.total, p.limit, p.page, Offset(p.page, p.limit));
  }

  /** The page numbered `totalPages` holds N mod L books, or L when L divides N. */
  lemma LastBooksPageSize(authors: seq<Author>, books: seq<Book>, args: BookListArgs)
    requires args.limit != 0 && ReferentiallyIntact(authors, books)
    requires BooksPage(authors, books, args).Success?
    requires var p := BooksPage(authors, books, args).value.pagination; p.total > 0 && args.page == p.totalPages
    ensures var r := BooksPage(authors, books, args).value;
            |r.books| == if r.pagination.total % args.limit == 0 then args.limit else r.pagination.total % args.limit
  {
    var r := BooksPage(authors, books, args).value;
    BooksPageCounts(authors, books, args, r);
    LastPageSize(r.pagination, |r.books|);
  }

  // ---------------------------------------------------------------------------
  // getAllAuthors, getAuthorById, getBookById, getBooksByAuthor

  /** An author page is refused for a negative LIMIT or OFFSET only. */
  lemma AuthorsPageRefusal(authors: seq<Author>, books: seq<Book>, page: int, limit: int)
    requires limit != 0
    ensures AuthorsPage(authors, books, page, limit).Success? <==> limit > 0 && page >= 1
  {
    if limit > 0 {
      OffsetSign(page, limit);
    }
  }

  /**
   * An author page is the window at `(page - 1) * limit` of the authors in ascending name
   * order: `limit` of them, or fewer at the end. Each comes with exactly its own books, and
   * `total` counts every author.
   */
  lemma AuthorsPageLaws(authors: seq<Author>, books: seq<Book>, page: int, limit: int)
    requires limit != 0
    requires AuthorsPage(authors, books, page, limit).Success?
    ensures var r := AuthorsPage(authors, books, page, limit).value;
            var sorted := NameOrder.SortByName(authors);
            var offset := Offset(page, limit);
            && |r.authors| <= limit
            && |r.authors| == (if offset >= |authors| then 0 else Min(limit, |authors| - offset))
            && (forall i :: 0 <= i < |r.authors| ==> 0 <= offset + i < |sorted| && r.authors[i].author == sorted[offset + i])
            && (forall i, j :: 0 <= i < j < |r.authors| ==> NameOrder.NameLe(r.authors[i].author.name, r.authors[j].author.name))
            && (forall v :: v in r.authors ==> v.author in authors && v.books == BooksOf(books, v.author.id))
            && r.pagination == Pagination(page, limit, |authors|, CeilDiv(|authors|, limit))
  {
    var offset := Offset(page, limit);
    AuthorWindowLaws(authors, books, offset, limit);
  }

  lemma AuthorWindowLaws(authors: seq<Author>, books: seq<Book>, offset: nat, limit: nat)
    ensures var sorted := NameOrder.SortByName(authors);
            var views := WithBooks(Window(sorted, offset, limit), books);
            && |views| <= limit
            && |views| == (if offset >= |authors| then 0 else Min(limit, |authors| - offset))
            && (forall i :: 0 <= i < |views| ==> offset + i < |sorted| && views[i].author == sorted[offset + i])
            && (forall i, j :: 0 <= i < j < |views| ==> NameOrder.NameLe(views[i].author.name, views[j].author.name))
            && (forall v :: v in views ==> v.author in authors && v.books == BooksOf(books, v.author.id))
  {
    var sorted := NameOrder.SortByName(authors);
    var win := Window(sorted, offset, limit);
    var views := WithBooks(win, books);
    forall i, j | 0 <= i < j < |views|
      ensures NameOrder.NameLe(views[i].author.name, views[j].author.name)
    {
      assert views[i].author == win[i] == sorted[offset + i];
      assert views[j].author == win[j] == sorted[offset + j];
    }
    forall v | v in views ensures v.author in authors && v.books == BooksOf(books, v.author.id) {
      var i :| 0 <= i < |views| && views[i] == v;
      assert v.author == win[i] == sorted[offset + i];
      assert v.author in multiset(sorted);
    }
  }

  /** The `books` column of an existing author is `[]` exactly when no book names that author. */
  lemma AuthorBooksEmptyIffNone(authors: seq<Author>, books: seq<Book>, id: int)
    requires AuthorById(authors, books, id).Some?
    ensures AuthorById(authors, books, id).value.books == [] <==> forall b :: b in books ==> b.authorId != id
  {
    BooksOfEmptyIffNone(books, id);
  }

  /** With no dangling author_id, getBookById finds exactly the ids of the table. */
  lemma BookByIdFindsEveryBook(authors: seq<Author>, books: seq<Book>, id: int)
    requires ReferentiallyIntact(authors, books)
    ensures BookById(authors, books, id).Some? <==> id in BookIds(books)
  {
    if id in BookIds(books) {
      var i := BookIndex(books, id).value;
      assert books[i] in books;
    }
  }

  /** With no dangling author_id, getBooksByAuthor lists every book of that author and nothing else. */
  lemma BooksByAuthorComplete(authors: seq<Author>, books: seq<Book>, authorId: int)
    requires ReferentiallyIntact(authors, books)
    ensures forall b :: b in books && b.authorId == authorId <==>
                        exists v :: v in BooksByAuthor(authors, books, authorId) && v.book == b
  {
    var own := BooksOf(books, authorId);
    assert ReferentiallyIntact(authors, own);
    var r := BooksByAuthor(authors, books, authorId);
    forall b | b in books && b.authorId == authorId
      ensures exists v :: v in r && v.book == b
    {
      assert Satisfies(b, [AuthorIs(authorId)]);
      var k :| 0 <= k < |own| && own[k] == b;
      assert r[k].book == b;
    }
  }
}
