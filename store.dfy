/**
 * The persistent store behind the repositories and the entity manager: one
 * table of book rows and one of author rows, each a map from id to record,
 * with auto-increment ids starting at 1. A `persist` followed by `flush` is
 * one store method; entities are request-local objects hydrated from rows,
 * so a change made to an object but never flushed does not reach the store.
 *
 * The inverse side `Author::books` is what the foreign key `authorId` says:
 * `BooksOf` reads it from the book table.
 */
module Store {
  import opened Wrappers
  import opened Entities

  datatype BookRow = BookRow(title: Option<string>, coverText: Option<string>, authorId: Option<nat>)

  datatype AuthorRow = AuthorRow(lastName: Option<string>, firstName: Option<string>)

  /** The ids of the books whose foreign key names `authorId`. */
  function BooksOf(books: map<nat, BookRow>, authorId: nat): (r: set<nat>)
    ensures forall id :: id in r <==> id in books && books[id].authorId == Some(authorId)
  {
    set id | id in books && books[id].authorId == Some(authorId)
  }

  /** Every foreign key names an existing author. */
  predicate Integral(books: map<nat, BookRow>, authors: map<nat, AuthorRow>) {
    forall id :: id in books && books[id].authorId.Some? ==> books[id].authorId.value in authors
  }

  /** The row a book object is flushed to. */
  function RowOf(b: Book): BookRow
    reads b, b.author
  {
    BookRow(b.title, b.coverText, if b.author == null then None else b.author.id)
  }

  class Database {
    var books: map<nat, BookRow>
    var authors: map<nat, AuthorRow>
    var nextBookId: nat
    var nextAuthorId: nat

    /** Ids are positive and below the next id of their table. */
    predicate Valid()
      reads this
    {
      1 <= nextBookId && 1 <= nextAuthorId &&
      (forall id :: id in books ==> 1 <= id < nextBookId) &&
      (forall id :: id in authors ==> 1 <= id < nextAuthorId)
    }

    /** An empty store. */
    constructor ()
      ensures Valid() && Integral(books, authors)
      ensures books == map[] && authors == map[] && nextBookId == 1 && nextAuthorId == 1
    {
      books := map[];
      authors := map[];
      nextBookId := 1;
      nextAuthorId := 1;
    }

    /**
     * `AuthorRepository::find(id)`: a hydrated author, or null for an id with
     * no row. The lazily loaded `books` collection is left empty.
     */
    method FindAuthor(id: int) returns (a: Author?)
      ensures a == null <==> id !in authors
      ensures a != null ==> fresh(a) && a.id == Some(id) && a.books == [] &&
                            a.lastName == authors[id].lastName && a.firstName == authors[id].firstName
    {
      if id in authors {
        a := new Author();
        a.id := Some(id);
        a.lastName := authors[id].lastName;
        a.firstName := authors[id].firstName;
      } else {
        a := null;
      }
    }

    /** `BookRepository::find(id)` (the route's book argument): a hydrated book, or null. */
    method FindBook(id: int) returns (b: Book?)
      ensures b == null <==> id !in books
      ensures b != null ==> fresh(b) && b.id == Some(id) && RowOf(b) == books[id]
      ensures b != null ==> (b.author == null <==> books[id].authorId.None?)
      ensures b != null && b.author != null ==> fresh(b.author)
    {
      if id in books {
        var row := books[id];
        b := new Book();
        b.id := Some(id);
        b.title := row.title;
        b.coverText := row.coverText;
        if row.authorId.Some? {
          var a := new Author();
          a.id := row.authorId;
          if row.authorId.value in authors {
            a.lastName := authors[row.authorId.value].lastName;
            a.firstName := authors[row.authorId.value].firstName;
          }
          b.author := a;
        }
      } else {
        b := null;
      }
    }

    /** `persist` and `flush` of a new book: it gets the next id and its row is stored. */
    method InsertBook(b: Book) returns (id: nat)
      requires Valid()
      modifies this, b`id
      ensures id == old(nextBookId) && id !in old(books)
      ensures b.id == Some(id) && books == old(books)[id := RowOf(b)]
      ensures authors == old(authors) && nextBookId == id + 1 && nextAuthorId == old(nextAuthorId)
      ensures Valid()
    {
      id := nextBookId;
      b.id := Some(id);
      books := books[id := RowOf(b)];
      nextBookId := nextBookId + 1;
    }

    /** `persist` and `flush` of a book the store already holds: its row is overwritten. */
    method SaveBook(id: nat, b: Book)
      requires Valid() && id in books
      modifies this
      ensures books == old(books)[id := RowOf(b)]
      ensures authors == old(authors) && nextBookId == old(nextBookId) && nextAuthorId == old(nextAuthorId)
      ensures Valid()
    {
      books := books[id := RowOf(b)];
    }

    /** `remove` and `flush` of a book. */
    method RemoveBook(id: nat)
      requires Valid()
      modifies this
      ensures books == map k | k in old(books) && k != id :: old(books)[k]
      ensures authors == old(authors) && nextBookId == old(nextBookId) && nextAuthorId == old(nextAuthorId)
      ensures Valid()
      ensures old(Integral(books, authors)) ==> Integral(books, authors)
    {
      books := map k | k in books && k != id :: books[k];
    }

    /** `persist` and `flush` of a new author. */
    method InsertAuthor(row: AuthorRow) returns (id: nat)
      requires Valid()
      modifies this
      ensures id == old(nextAuthorId) && id !in old(authors)
      ensures authors == old(authors)[id := row]
      ensures books == old(books) && nextAuthorId == id + 1 && nextBookId == old(nextBookId)
      ensures Valid()
      ensures old(Integral(books, authors)) ==> Integral(books, authors)
    {
      id := nextAuthorId;
      authors := authors[id := row];
      nextAuthorId := nextAuthorId + 1;
    }

    /** `remove` and `flush` of an author; the store stays integral if no book still names it. */
    method RemoveAuthor(id: nat)
      requires Valid()
      modifies this
      ensures authors == map k | k in old(authors) && k != id :: old(authors)[k]
      ensures books == old(books) && nextBookId == old(nextBookId) && nextAuthorId == old(nextAuthorId)
      ensures Valid()
      ensures old(Integral(books, authors)) && BooksOf(books, id) == {} ==> Integral(books, authors)
    {
      authors := map k | k in authors && k != id :: authors[k];
      if Integral(books, old(authors)) && BooksOf(books, id) == {} {
        forall k | k in books && books[k].authorId.Some?
          ensures books[k].authorId.value in authors
        {
          assert k !in BooksOf(books, id);
        }
      }
    }
  }
}
