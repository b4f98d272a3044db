/**
 * `BookController`: the cached, paginated book list, the versioned book
 * view, and the three mutations (delete, create, update). Each mutation
 * flushes to the store and then drops every cache entry tagged
 * `booksCache`; a request body that fails validation is answered with 400
 * before anything is flushed or invalidated.
 */
module BookController {
  import opened Wrappers
  import opened PhpStrings
  import opened VersionningService
  import opened Entities
  import opened TagCache
  import opened Store
  import opened Responses

  /** The one tag the list callback attaches. */
  const BooksTag: string := "booksCache"

  const ListKeyPrefix: string := "getAllBooks-"

  /** The `page` query parameter, `1` when absent. */
  function PageParam(page: Option<string>): string {
    page.GetOr("1")
  }

  /** The `limit` query parameter, `3` when absent. */
  function LimitParam(limit: Option<string>): string {
    limit.GetOr("3")
  }

  /** The cache key of one page of the book list. */
  function ListKey(page: string, limit: string): string {
    ListKeyPrefix + page + "-" + limit
  }

  /** Without query parameters the key of the first page of three books is used. */
  lemma ListKeyDefaults()
    ensures ListKey(PageParam(None), LimitParam(None)) == "getAllBooks-1-3"
    ensures ValidKey(ListKey(PageParam(None), LimitParam(None)))
  {
    assert NatToString(1) == "1" && NatToString(3) == "3";
    ListKeyNumbersValid(1, 3);
  }

  /** Distinct (page, limit) pairs free of '-' have distinct keys. */
  lemma ListKeyInjective(p1: string, l1: string, p2: string, l2: string)
    requires '-' !in p1 && '-' !in l1 && '-' !in p2 && '-' !in l2
    requires ListKey(p1, l1) == ListKey(p2, l2)
    ensures p1 == p2 && l1 == l2
  {
    var n := |ListKeyPrefix|;
    assert ListKey(p1, l1)[n..] == p1 + ['-'] + l1;
    assert ListKey(p2, l2)[n..] == p2 + ['-'] + l2;
    ExplodeTwo('-', p1, l1);
    ExplodeTwo('-', p2, l2);
  }

  lemma NoDashInNumber(n: nat)
    ensures '-' !in NatToString(n)
  {
  }

  /** For numeric page and limit, the key determines both numbers. */
  lemma ListKeyNumbersInjective(page1: nat, limit1: nat, page2: nat, limit2: nat)
    requires ListKey(NatToString(page1), NatToString(limit1)) == ListKey(NatToString(page2), NatToString(limit2))
    ensures page1 == page2 && limit1 == limit2
  {
    NoDashInNumber(page1);
    NoDashInNumber(limit1);
    NoDashInNumber(page2);
    NoDashInNumber(limit2);
    ListKeyInjective(NatToString(page1), NatToString(limit1), NatToString(page2), NatToString(limit2));
    NatToStringInjective(page1, page2);
    NatToStringInjective(limit1, limit2);
  }

  /** Raw query strings may contain '-', and then two different pairs share one entry. */
  lemma ListKeyDashCollision()
    ensures ListKey("1-2", "3") == ListKey("1", "2-3")
  {
  }

  /** The `detailBook` route of a book id. */
  function BookLocation(id: nat): string {
    "/api/books/" + NatToString(id)
  }

  /** Different books have different locations. */
  lemma BookLocationInjective(a: nat, b: nat)
    requires BookLocation(a) == BookLocation(b)
    ensures a == b
  {
    var n := |"/api/books/"|;
    assert BookLocation(a)[n..] == NatToString(a);
    assert BookLocation(b)[n..] == NatToString(b);
    NatToStringInjective(a, b);
  }

  /** The request body of a create or update: fields absent from the JSON, or null, are None. */
  datatype BookPayload = BookPayload(title: Option<string>, coverText: Option<string>, idAuthor: Option<int>)

  /** `find($content['idAuthor'] ?? -1)`, as the foreign key it leaves on the book. */
  function AuthorIdFor(authors: map<nat, AuthorRow>, idAuthor: Option<int>): Option<nat> {
    var ref := idAuthor.GetOr(-1);
    if ref in authors then Some(ref) else None
  }

  /**
   * The author is set exactly when `idAuthor` names a stored author; a missing
   * `idAuthor` becomes -1, which names none.
   */
  lemma AuthorIdForCases(authors: map<nat, AuthorRow>, idAuthor: Option<int>)
    ensures AuthorIdFor(authors, idAuthor).Some? <==> idAuthor.Some? && idAuthor.value in authors
    ensures AuthorIdFor(authors, idAuthor).Some? ==> AuthorIdFor(authors, idAuthor).value == idAuthor.value
    ensures AuthorIdFor(authors, idAuthor).Some? ==> AuthorIdFor(authors, idAuthor).value in authors
  {
    if idAuthor.None? {
      assert -1 !in authors;
    }
  }

  /** Every cache entry carries `booksCache`: the list callback is the cache's only user. */
  predicate AllTagged(items: map<string, CacheItem>) {
    forall k :: k in items ==> BooksTag in items[k].tags
  }

  /** After a mutation's invalidation nothing is left, so the next list request recomputes. */
  lemma InvalidatedAllTagged(items: map<string, CacheItem>)
    requires AllTagged(items)
    ensures Invalidated(items, {BooksTag}) == map[]
  {
    assert forall k :: k !in Invalidated(items, {BooksTag}) by {
      forall k ensures k !in Invalidated(items, {BooksTag}) {
        if k in items {
          assert BooksTag in items[k].tags * {BooksTag};
        }
      }
    }
  }

  /** Numeric page and limit always give a key the cache accepts. */
  lemma ListKeyNumbersValid(page: nat, limit: nat)
    ensures ValidKey(ListKey(NatToString(page), NatToString(limit)))
  {
    var p, l := NatToString(page), NatToString(limit);
    var key := ListKey(p, l);
    var n := |ListKeyPrefix|;
    forall k | 0 <= k < |key| ensures key[k] !in ReservedCharacters {
      if k < n {
        assert key[k] == ListKeyPrefix[k];
      } else if k < n + |p| {
        assert key[k] == p[k - n];
      } else if k == n + |p| {
        assert key[k] == '-';
      } else {
        assert key[k] == l[k - n - |p| - 1];
      }
    }
  }

  /** A `:` or `/` in a raw query parameter makes the key invalid. */
  lemma ListKeyReservedInvalid(page: string, limit: string)
    requires ':' in page || '/' in page || ':' in limit || '/' in limit
    ensures !ValidKey(ListKey(page, limit))
  {
    var key := ListKey(page, limit);
    var n := |ListKeyPrefix|;
    if ':' in page || '/' in page {
      var i :| 0 <= i < |page| && (page[i] == ':' || page[i] == '/');
      assert key[n + i] == page[i];
    } else {
      var i :| 0 <= i < |limit| && (limit[i] == ':' || limit[i] == '/');
      assert key[n + |page| + 1 + i] == limit[i];
    }
  }

  /**
   * `getAllBooks`: one page of the list through the cache. `render` stands for
   * `findAllWithPagination` followed by serialization, a function of the
   * stored books and the two parameters. A key the cache rejects makes `get`
   * throw, which is answered 500.
   */
  method GetAllBooks(db: Database, cache: TagAwareCache, page: Option<string>, limit: Option<string>,
                     render: (map<nat, BookRow>, string, string) -> string)
    returns (resp: Response)
    modifies cache
    ensures var key := ListKey(PageParam(page), LimitParam(limit));
            !ValidKey(key) ==> resp == InternalError && cache.items == old(cache.items)
    ensures var key := ListKey(PageParam(page), LimitParam(limit));
            ValidKey(key) && key in old(cache.items) ==>
              resp == Response(Ok, ListDocument(old(cache.items)[key].value), None) &&
              cache.items == old(cache.items)
    ensures var key := ListKey(PageParam(page), LimitParam(limit));
            var payload := render(db.books, PageParam(page), LimitParam(limit));
            ValidKey(key) && key !in old(cache.items) ==>
              resp == Response(Ok, ListDocument(payload), None) &&
              cache.items == old(cache.items)[key := CacheItem(payload, {BooksTag})]
    ensures old(AllTagged(cache.items)) ==> AllTagged(cache.items)
  {
    var nPage := PageParam(page);
    var nLimit := LimitParam(limit);
    var key := ListKey(nPage, nLimit);
    var books := db.books;
    var payload := cache.Get(key, {BooksTag}, () => render(books, nPage, nLimit));
    match payload
    case Success(json) =>
      resp := Response(Ok, ListDocument(json), None);
    case Failure(_) =>
      resp := InternalError;
  }

  /** `getOneBook`: the book serialized at the version the `Accept` header asks for. */
  method GetOneBook(db: Database, id: nat, accept: Option<string>, defaultVersion: string)
    returns (resp: Response)
    ensures id !in db.books ==> resp == EntityNotFound
    ensures id in db.books && ResolveVersion(accept, defaultVersion).Success? ==>
              resp == Response(Ok, BookDocument(id, db.books[id], Some(ResolveVersion(accept, defaultVersion).value)), None)
    ensures id in db.books && ResolveVersion(accept, defaultVersion).Failure? ==> resp == InternalError
  {
    var book := db.FindBook(id);
    if book == null {
      return EntityNotFound;
    }
    var version := GetVersion(accept, defaultVersion);
    match version
    case Success(v) =>
      resp := Response(Ok, BookDocument(id, RowOf(book), Some(v)), None);
    case Failure(_) =>
      resp := InternalError;
  }

  /** `deleteOneBook`: remove, flush, then invalidate the list entries. */
  method DeleteOneBook(db: Database, cache: TagAwareCache, id: nat) returns (resp: Response)
    requires db.Valid()
    modifies db, cache
    ensures db.Valid()
    ensures id !in old(db.books) ==> resp == EntityNotFound && unchanged(db) && unchanged(cache)
    ensures id in old(db.books) ==>
              db.books == (map k | k in old(db.books) && k != id :: old(db.books)[k]) &&
              db.authors == old(db.authors) &&
              db.nextBookId == old(db.nextBookId) && db.nextAuthorId == old(db.nextAuthorId) &&
              cache.items == Invalidated(old(cache.items), {BooksTag}) &&
              resp == Response(NoContent, NoBody, None)
    ensures old(Integral(db.books, db.authors)) ==> Integral(db.books, db.authors)
  {
    var book := db.FindBook(id);
    if book == null {
      return EntityNotFound;
    }
    db.RemoveBook(id);
    cache.InvalidateTags({BooksTag});
    resp := Response(NoContent, NoBody, None);
  }

  /** The deserialized request body: a new book with the title and cover text it carries. */
  method Deserialize(body: BookPayload) returns (book: Book)
    ensures fresh(book)
    ensures book.id == None && book.title == body.title && book.coverText == body.coverText && book.author == null
  {
    book := new Book();
    if body.title.Some? {
      book := book.SetTitle(body.title.value);
    }
    if body.coverText.Some? {
      book := book.SetCoverText(body.coverText);
    }
  }

  /**
   * `createBook`: validate, link the author named by `idAuthor` (if any),
   * persist, flush, invalidate, and answer 201 with the new book's location.
   */
  method CreateBook(db: Database, cache: TagAwareCache, body: BookPayload) returns (resp: Response)
    requires db.Valid()
    modifies db, cache
    ensures db.Valid()
    ensures NameViolations(body.title) != [] ==>
              resp == Response(BadRequest, ViolationDocument(NameViolations(body.title)), None) &&
              unchanged(db) && unchanged(cache)
    ensures NameViolations(body.title) == [] ==>
              var id := old(db.nextBookId);
              var row := BookRow(body.title, body.coverText, AuthorIdFor(old(db.authors), body.idAuthor));
              id !in old(db.books) &&
              db.books == old(db.books)[id := row] &&
              db.authors == old(db.authors) &&
              db.nextBookId == id + 1 && db.nextAuthorId == old(db.nextAuthorId) &&
              cache.items == Invalidated(old(cache.items), {BooksTag}) &&
              resp == Response(Created, BookDocument(id, row, None), Some(BookLocation(id)))
    ensures old(Integral(db.books, db.authors)) ==> Integral(db.books, db.authors)
  {
    var book := Deserialize(body);
    var errors := book.Violations();
    if errors != [] {
      return Response(BadRequest, ViolationDocument(errors), None);
    }
    var author := db.FindAuthor(body.idAuthor.GetOr(-1));
    book := book.SetAuthor(author);
    var id := db.InsertBook(book);
    cache.InvalidateTags({BooksTag});
    resp := Response(Created, BookDocument(id, RowOf(book), None), Some(BookLocation(id)));
  }

  /**
   * `updateBook`: copy title and cover text from the body onto the stored book,
   * validate, link the author named by `idAuthor` (if any), persist, flush,
   * invalidate. A body without a title makes `setTitle(null)` throw, which is
   * answered 500.
   */
  method UpdateBook(db: Database, cache: TagAwareCache, id: nat, body: BookPayload) returns (resp: Response)
    requires db.Valid()
    modifies db, cache
    ensures db.Valid()
    ensures id !in old(db.books) ==> resp == EntityNotFound && unchanged(db) && unchanged(cache)
    ensures id in old(db.books) && body.title.None? ==> resp == InternalError && unchanged(db) && unchanged(cache)
    ensures id in old(db.books) && body.title.Some? && NameViolations(body.title) != [] ==>
              resp == Response(BadRequest, ViolationDocument(NameViolations(body.title)), None) &&
              unchanged(db) && unchanged(cache)
    ensures id in old(db.books) && body.title.Some? && NameViolations(body.title) == [] ==>
              db.books == old(db.books)[id := BookRow(body.title, body.coverText, AuthorIdFor(old(db.authors), body.idAuthor))] &&
              db.authors == old(db.authors) &&
              db.nextBookId == old(db.nextBookId) && db.nextAuthorId == old(db.nextAuthorId) &&
              cache.items == Invalidated(old(cache.items), {BooksTag}) &&
              resp == Response(NoContent, NoBody, None)
    ensures old(Integral(db.books, db.authors)) ==> Integral(db.books, db.authors)
  {
    var currentBook := db.FindBook(id);
    if currentBook == null {
      return EntityNotFound;
    }
    var newBook := Deserialize(body);
    if newBook.title.None? {
      return InternalError;
    }
    currentBook := currentBook.SetTitle(newBook.title.value);
    currentBook := currentBook.SetCoverText(newBook.coverText);
    var errors := currentBook.Violations();
    if errors != [] {
      return Response(BadRequest, ViolationDocument(errors), None);
    }
    var author := db.FindAuthor(body.idAuthor.GetOr(-1));
    currentBook := currentBook.SetAuthor(author);
    db.SaveBook(id, currentBook);
    cache.InvalidateTags({BooksTag});
    resp := Response(NoContent, NoBody, None);
  }

  /**
   * A book created after a delete never reuses the deleted id: the id
   * counter only moves forward, so the new `Location` differs.
   */
  method DeletedIdNotReissued(db: Database, cache: TagAwareCache, id: nat, body: BookPayload)
    returns (deleted: Response, created: Response)
    requires db.Valid()
    modifies db, cache
    ensures id in old(db.books) && NameViolations(body.title) == [] ==>
              deleted == Response(NoContent, NoBody, None) &&
              created.location.Some? && created.location != Some(BookLocation(id))
  {
    deleted := DeleteOneBook(db, cache, id);
    created := CreateBook(db, cache, body);
    if created.location == Some(BookLocation(id)) && id in old(db.books) && NameViolations(body.title) == [] {
      BookLocationInjective(id, old(db.nextBookId));
    }
  }
}
