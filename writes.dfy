/**
 * What the write operations of models/bookModel.js do to the tables: each is given as
 * the value it returns together with the table it leaves, or the error it throws (which
 * leaves every table as it was). The class LibraryStore performs them in place.
 */
module Writes {
  import opened Wrappers
  import opened Rows
  import opened Queries

  /** The table without its row at index `i`. */
  function RemoveAt<T>(s: seq<T>, i: nat): (r: seq<T>)
    requires i < |s|
    ensures |r| == |s| - 1
    ensures forall k :: 0 <= k < |r| ==> r[k] == if k < i then s[k] else s[k + 1]
  {
    s[..i] + s[i + 1..]
  }

  lemma RemoveAtKeepsOthers<T>(s: seq<T>, i: nat, x: T)
    requires i < |s| && x in s && x != s[i]
    ensures x in RemoveAt(s, i)
  {
    var k :| 0 <= k < |s| && s[k] == x;
    if k < i { assert RemoveAt(s, i)[k] == x; } else { assert RemoveAt(s, i)[k - 1] == x; }
  }

  /** Removing a row keeps the others in their order, so distinct ids and created_at order survive. */
  lemma RemoveBookKeepsOrder(books: seq<Book>, i: nat)
    requires i < |books|
    ensures DistinctBookIds(books) ==> DistinctBookIds(RemoveAt(books, i))
    ensures Chronological(books) ==> Chronological(RemoveAt(books, i))
  {
    var r := RemoveAt(books, i);
    forall k, l | 0 <= k < l < |r|
      ensures r[k] == books[if k < i then k else k + 1] && r[l] == books[if l < i then l else l + 1]
    {
    }
  }

  lemma RemoveAuthorKeepsDistinct(authors: seq<Author>, i: nat)
    requires i < |authors| && DistinctAuthorIds(authors)
    ensures DistinctAuthorIds(RemoveAt(authors, i))
  {
    var r := RemoveAt(authors, i);
    forall k, l | 0 <= k < l < |r|
      ensures r[k] == authors[if k < i then k else k + 1] && r[l] == authors[if l < i then l else l + 1]
    {
    }
  }

  /** Appending a book with a fresh id, newer than every row, keeps ids distinct and the table chronological. */
  lemma AppendBookKeepsKeys(books: seq<Book>, nb: Book)
    requires nb.id !in BookIds(books) && forall b :: b in books ==> b.createdAt < nb.createdAt
    ensures DistinctBookIds(books) ==> DistinctBookIds(books + [nb])
    ensures Chronological(books) ==> Chronological(books + [nb])
    ensures forall b :: b in books + [nb] ==> b == nb || b in books
  {
    var after := books + [nb];
    forall i, j | 0 <= i < j < |after|
      ensures DistinctBookIds(books) ==> after[i].id != after[j].id
      ensures Chronological(books) ==> after[i].createdAt < after[j].createdAt
    {
      assert after[i] == books[i] && after[i] in books;
    }
  }

  /** getBookById finds a book appended with a fresh id, joined with the author it names. */
  lemma AppendedBookFound(authors: seq<Author>, books: seq<Book>, nb: Book, a: Author)
    requires nb.id !in BookIds(books) && FindAuthor(authors, nb.authorId) == Some(a)
    ensures BookById(authors, books + [nb], nb.id) == Some(BookView(nb, a))
  {
    var after := books + [nb];
    assert after[|books|] == nb;
    assert forall k :: 0 <= k < |books| ==> after[k] == books[k] && after[k].id != nb.id;
    assert BookIndex(after, nb.id) == Some(|books|);
  }

  /** Overwriting a row with one of the same id and created_at keeps ids distinct and the table chronological. */
  lemma ReplaceBookKeepsKeys(books: seq<Book>, i: nat, nb: Book)
    requires i < |books| && nb.id == books[i].id && nb.createdAt == books[i].createdAt
    ensures DistinctBookIds(books) ==> DistinctBookIds(books[i := nb])
    ensures Chronological(books) ==> Chronological(books[i := nb])
    ensures forall b :: b in books[i := nb] ==> b == nb || b in books
  {
    var after := books[i := nb];
    assert forall k :: 0 <= k < |after| ==> after[k].id == books[k].id && after[k].createdAt == books[k].createdAt;
    forall b | b in after ensures b == nb || b in books {
      var k :| 0 <= k < |after| && after[k] == b;
      if k != i { assert b == books[k]; }
    }
  }

  /**
   * updateBookPart: the error checks in their order (no fields, a truthy author_id that
   * names no author), then the UPDATE of the row with that id, which the database's
   * foreign key refuses when the new author_id names no author.
   */
  function BookUpdate(authors: seq<Author>, books: seq<Book>, id: int, p: BookPatch): (r: Result<(Option<BookView>, seq<Book>), StoreError>)
    ensures IsEmptyBookPatch(p) ==> r == Failure(NoFieldsProvided)
    ensures !IsEmptyBookPatch(p) && AuthorIdGiven(p.authorId) && p.authorId.value !in AuthorIds(authors) ==>
              r == Failure(AuthorDoesNotExist)
    ensures r.Success? && r.value.0.None? ==> id !in BookIds(books) && r.value.1 == books
    ensures (&& !IsEmptyBookPatch(p)
             && !(AuthorIdGiven(p.authorId) && p.authorId.value !in AuthorIds(authors))
             && id !in BookIds(books)) ==> r == Success((None, books))
    ensures (&& !IsEmptyBookPatch(p)
             && !(AuthorIdGiven(p.authorId) && p.authorId.value !in AuthorIds(authors))
             && r.Failure?) ==> r == Failure(ForeignKeyViolation) && id in BookIds(books)
    ensures r == Failure(ForeignKeyViolation) ==>
              exists i :: 0 <= i < |books| && books[i].id == id && PatchBook(books[i], p).authorId !in AuthorIds(authors)
    ensures r.Success? && r.value.0.Some? ==>
              exists i :: 0 <= i < |books| && books[i].id == id
                          && r.value.1 == books[i := PatchBook(books[i], p)]
                          && r.value.0.value.book == PatchBook(books[i], p)
                          && r.value.0.value.author in authors && r.value.0.value.author.id == r.value.0.value.book.authorId
    ensures r.Success? && r.value.0.Some? && ReferentiallyIntact(authors, books) ==> ReferentiallyIntact(authors, r.value.1)
  {
    if IsEmptyBookPatch(p) then Failure(NoFieldsProvided)
    else if AuthorIdGiven(p.authorId) && FindAuthor(authors, p.authorId.value).None? then Failure(AuthorDoesNotExist)
    else
      match BookIndex(books, id)
      case None => Success((None, books))
      case Some(i) =>
        var updated := PatchBook(books[i], p);
        match FindAuthor(authors, updated.authorId)
        case None => Failure(ForeignKeyViolation)
        case Some(a) =>
          var after := books[i := updated];
          assert forall b :: b in after ==> b == updated || b in books by {
            forall b | b in after ensures b == updated || b in books {
              var k :| 0 <= k < |after| && after[k] == b;
              if k != i { assert b == books[k]; }
            }
          }
          Success((Some(BookView(updated, a)), after))
  }

  /** deleteBook: the snapshot of the row with that id and the table without it, or null and the same table. */
  function BookDelete(books: seq<Book>, id: int): (r: (Option<Book>, seq<Book>))
    ensures r.0.None? <==> id !in BookIds(books)
    ensures r.0.None? ==> r.1 == books
    ensures r.0.Some? ==> r.0.value in books && r.0.value.id == id && |r.1| == |books| - 1
    ensures forall b :: b in r.1 ==> b in books
    ensures forall b :: b in books && b.id != id ==> b in r.1
    ensures DistinctBookIds(books) ==> id !in BookIds(r.1)
  {
    match BookIndex(books, id)
    case None => (None, books)
    case Some(i) =>
      var after := RemoveAt(books, i);
      assert forall b :: b in books && b.id != id ==> b in after by {
        forall b | b in books && b.id != id ensures b in after { RemoveAtKeepsOthers(books, i, b); }
      }
      assert DistinctBookIds(books) ==> forall k :: 0 <= k < |after| ==> after[k].id != id by {
        if DistinctBookIds(books) {
          forall k | 0 <= k < |after| ensures after[k].id != id {
            if k < i { assert after[k] == books[k]; } else { assert after[k] == books[k + 1]; }
          }
        }
      }
      (Some(books[i]), after)
  }

  /** updateAuthor: an empty patch fails; otherwise only the supplied columns of the row with that id change, or null. */
  function AuthorUpdate(authors: seq<Author>, id: int, p: AuthorPatch): (r: Result<(Option<Author>, seq<Author>), StoreError>)
    ensures r.Failure? <==> IsEmptyAuthorPatch(p)
    ensures r.Failure? ==> r.error == NoFieldsProvided
    ensures r.Success? && r.value.0.None? ==> id !in AuthorIds(authors) && r.value.1 == authors
    ensures r.Success? && r.value.0.Some? ==>
              exists i :: 0 <= i < |authors| && authors[i].id == id
                          && r.value.1 == authors[i := PatchAuthor(authors[i], p)]
                          && r.value.0.value == PatchAuthor(authors[i], p)
    ensures r.Success? ==> AuthorIds(r.value.1) == AuthorIds(authors)
  {
    if IsEmptyAuthorPatch(p) then Failure(NoFieldsProvided)
    else
      match AuthorIndex(authors, id)
      case None => Success((None, authors))
      case Some(i) =>
        var updated := PatchAuthor(authors[i], p);
        var after := authors[i := updated];
        assert AuthorIds(after) == AuthorIds(authors) by {
          forall x | x in AuthorIds(authors) ensures x in AuthorIds(after) {
            var k :| 0 <= k < |authors| && authors[k].id == x;
            assert after[k].id == x;
          }
          forall x | x in AuthorIds(after) ensures x in AuthorIds(authors) {
            var k :| 0 <= k < |after| && after[k].id == x;
            assert authors[k].id == x;
          }
        }
        Success((Some(updated), after))
  }

  /**
   * deleteAuthor: fails with 'Cannot delete author with existing books' when a book
   * names the author; otherwise the snapshot of the author and the table without it, or
   * null and the same table. No book is left with a dangling author_id.
   */
  function AuthorDelete(authors: seq<Author>, books: seq<Book>, id: int): (r: Result<(Option<Author>, seq<Author>), StoreError>)
    ensures r.Failure? <==> exists b :: b in books && b.authorId == id
    ensures r.Failure? ==> r.error == AuthorHasBooks
    ensures r.Success? && r.value.0.None? ==> id !in AuthorIds(authors) && r.value.1 == authors
    ensures r.Success? && r.value.0.Some? ==>
              r.value.0.value in authors && r.value.0.value.id == id && |r.value.1| == |authors| - 1
              && forall a :: a in authors && a.id != id ==> a in r.value.1
    ensures r.Success? ==> forall a :: a in r.value.1 ==> a in authors
    ensures r.Success? && ReferentiallyIntact(authors, books) ==> ReferentiallyIntact(r.value.1, books)
  {
    BooksOfEmptyIffNone(books, id);
    if BooksOf(books, id) != [] then Failure(AuthorHasBooks)
    else
      match AuthorIndex(authors, id)
      case None => Success((None, authors))
      case Some(i) =>
        var after := RemoveAt(authors, i);
        assert forall a :: a in authors && a.id != id ==> a in after by {
          forall a | a in authors && a.id != id ensures a in after { RemoveAtKeepsOthers(authors, i, a); }
        }
        assert ReferentiallyIntact(authors, books) ==> ReferentiallyIntact(after, books) by {
          if ReferentiallyIntact(authors, books) {
            forall b | b in books ensures b.authorId in AuthorIds(after) {
              var a :| a in authors && a.id == b.authorId;
              assert a in after;
            }
          }
        }
        Success((Some(authors[i]), after))
  }
}
