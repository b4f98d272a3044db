/**
 * `AuthorController`: the uncached author list and detail, the cascading
 * delete (each of the author's books first, then the author) and the
 * unvalidated create. None of these actions touches the cache, so a cached
 * book list survives an author delete.
 */
module AuthorController {
  import opened Wrappers
  import opened PhpStrings
  import opened TagCache
  import opened Store
  import opened Responses
  import BookController

  /** The `detailAuthor` route of an author id. */
  function AuthorLocation(id: nat): string {
    "/api/authors/" + NatToString(id)
  }

  /** Different authors have different locations. */
  lemma AuthorLocationInjective(a: nat, b: nat)
    requires AuthorLocation(a) == AuthorLocation(b)
    ensures a == b
  {
    var n := |"/api/authors/"|;
    assert AuthorLocation(a)[n..] == NatToString(a);
    assert AuthorLocation(b)[n..] == NatToString(b);
    NatToStringInjective(a, b);
  }

  /** The book table once every book of `authorId` is gone. */
  function WithoutBooksOf(books: map<nat, BookRow>, authorId: nat): (r: map<nat, BookRow>)
    ensures forall k :: k in r <==> k in books && k !in BooksOf(books, authorId)
    ensures forall k :: k in r ==> r[k] == books[k]
  {
    map k | k in books && books[k].authorId != Some(authorId) :: books[k]
  }

  /** Once they are gone, no book names the author any more, and the rest keep their foreign keys. */
  lemma WithoutBooksOfNamesNone(books: map<nat, BookRow>, authors: map<nat, AuthorRow>, authorId: nat)
    requires Integral(books, authors)
    ensures BooksOf(WithoutBooksOf(books, authorId), authorId) == {}
    ensures Integral(WithoutBooksOf(books, authorId), authors)
  {
  }

  /** `getAllAuthors`: every author, read without any cache. */
  method GetAllAuthors(db: Database) returns (resp: Response)
    ensures resp == Response(Ok, AuthorListDocument(db.authors), None)
  {
    resp := Response(Ok, AuthorListDocument(db.authors), None);
  }

  /** `getOneAuthor`: one author, or 404. */
  method GetOneAuthor(db: Database, id: nat) returns (resp: Response)
    ensures id !in db.authors ==> resp == EntityNotFound
    ensures id in db.authors ==> resp == Response(Ok, AuthorDocument(id, db.authors[id]), None)
  {
    var author := db.FindAuthor(id);
    if author == null {
      return EntityNotFound;
    }
    resp := Response(Ok, AuthorDocument(id, db.authors[id]), None);
  }

  /**
   * `deleteOneAuthor`: remove each of the author's books, then the author,
   * and answer 204. The cache is not an argument: nothing is invalidated.
   */
  method DeleteOneAuthor(db: Database, id: nat) returns (resp: Response)
    requires db.Valid()
    modifies db
    ensures db.Valid()
    ensures id !in old(db.authors) ==> resp == EntityNotFound && unchanged(db)
    ensures id in old(db.authors) ==>
              db.books == WithoutBooksOf(old(db.books), id) &&
              db.authors == (map k | k in old(db.authors) && k != id :: old(db.authors)[k]) &&
              db.nextBookId == old(db.nextBookId) && db.nextAuthorId == old(db.nextAuthorId) &&
              resp == Response(NoContent, NoBody, None)
    ensures old(Integral(db.books, db.authors)) ==> Integral(db.books, db.authors)
  {
    var author := db.FindAuthor(id);
    if author == null {
      return EntityNotFound;
    }
    ghost var books0 := db.books;
    ghost var integral0 := Integral(db.books, db.authors);
    var remaining := BooksOf(db.books, id);
    while remaining != {}
      invariant db.Valid()
      invariant db.authors == old(db.authors)
      invariant db.nextBookId == old(db.nextBookId) && db.nextAuthorId == old(db.nextAuthorId)
      invariant remaining <= BooksOf(books0, id)
      invariant forall k :: k in db.books <==> k in books0 && (k in remaining || k !in BooksOf(books0, id))
      invariant forall k :: k in db.books ==> db.books[k] == books0[k]
      decreases |remaining|
    {
      var bookId :| bookId in remaining;
      db.RemoveBook(bookId);
      remaining := remaining - {bookId};
    }
    assert forall k :: k in db.books <==> k in WithoutBooksOf(books0, id) by {
      forall k ensures k in db.books <==> k in WithoutBooksOf(books0, id) {
        assert k !in remaining;
      }
    }
    assert forall k :: k in db.books ==> db.books[k] == WithoutBooksOf(books0, id)[k];
    assert db.books == WithoutBooksOf(books0, id);
    if integral0 {
      WithoutBooksOfNamesNone(books0, db.authors, id);
    }
    db.RemoveAuthor(id);
    resp := Response(NoContent, NoBody, None);
  }

  /** The request body of a create: absent or null fields are None. */
  datatype AuthorPayload = AuthorPayload(lastName: Option<string>, firstName: Option<string>)

  /**
   * `createAuthor`: persist without validation, answer 201 with the new
   * author's location. A body without a last name leaves the `NOT NULL`
   * column empty, the flush fails, and the error is answered 500.
   */
  method CreateAuthor(db: Database, body: AuthorPayload) returns (resp: Response)
    requires db.Valid()
    modifies db
    ensures db.Valid()
    ensures body.lastName.None? ==> resp == InternalError && unchanged(db)
    ensures body.lastName.Some? ==>
              var id := old(db.nextAuthorId);
              var row := AuthorRow(body.lastName, body.firstName);
              id !in old(db.authors) &&
              db.authors == old(db.authors)[id := row] &&
              db.books == old(db.books) &&
              db.nextAuthorId == id + 1 && db.nextBookId == old(db.nextBookId) &&
              resp == Response(Created, AuthorDocument(id, row), Some(AuthorLocation(id)))
    ensures old(Integral(db.books, db.authors)) ==> Integral(db.books, db.authors)
  {
    if body.lastName.None? {
      return InternalError;
    }
    var row := AuthorRow(body.lastName, body.firstName);
    var id := db.InsertAuthor(row);
    resp := Response(Created, AuthorDocument(id, row), Some(AuthorLocation(id)));
  }

  /**
   * A list page served from the cache before an author delete is served
   * unchanged after it, even though the author's books are gone from the store.
   */
  method ListSurvivesAuthorDelete(db: Database, cache: TagAwareCache, page: Option<string>, limit: Option<string>,
                                  render: (map<nat, BookRow>, string, string) -> string, authorId: nat)
    returns (before: Response, after: Response)
    requires db.Valid()
    modifies db, cache
    ensures before == after
    ensures authorId in old(db.authors) ==> db.books == WithoutBooksOf(old(db.books), authorId)
  {
    before := BookController.GetAllBooks(db, cache, page, limit, render);
    var deleted := DeleteOneAuthor(db, authorId);
    after := BookController.GetAllBooks(db, cache, page, limit, render);
  }

  /**
   * By contrast, after a book delete the next list request is computed from
   * the store again, as long as every cache entry carries the list's tag (and
   * the key is one the cache accepts).
   */
  method ListRefreshedAfterBookDelete(db: Database, cache: TagAwareCache, page: Option<string>, limit: Option<string>,
                                      render: (map<nat, BookRow>, string, string) -> string, bookId: nat)
    returns (after: Response)
    requires db.Valid() && BookController.AllTagged(cache.items) && bookId in db.books
    modifies db, cache
    ensures var key := BookController.ListKey(BookController.PageParam(page), BookController.LimitParam(limit));
            ValidKey(key) ==>
              after == Response(Ok, ListDocument(render(db.books, BookController.PageParam(page), BookController.LimitParam(limit))), None)
    ensures var key := BookController.ListKey(BookController.PageParam(page), BookController.LimitParam(limit));
            !ValidKey(key) ==> after == InternalError
    ensures bookId !in db.books
  {
    var before := BookController.GetAllBooks(db, cache, page, limit, render);
    ghost var cached := cache.items;
    var deleted := BookController.DeleteOneBook(db, cache, bookId);
    BookController.InvalidatedAllTagged(cached);
    after := BookController.GetAllBooks(db, cache, page, limit, render);
  }
}
