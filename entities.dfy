/**
 * The two Doctrine entities, `Book` and `Author`, as heap objects whose
 * setters assign one field each, and the two-sided link between them that
 * only `Author.AddBook` and `Author.RemoveBook` maintain.
 *
 * The validation constraints (`NotBlank` and `Length(min: 2, max: 255)` on a
 * book's title and on an author's last name) are plain functions that list
 * the violations, in the order the constraints are declared.
 */
module Entities {
  import opened Wrappers

  datatype Violation = NotBlank | TooShort | TooLong

  const MinLength: nat := 2
  const MaxLength: nat := 255

  /** `NotBlank`: a null or empty value is blank ("0" is not). */
  predicate IsBlank(value: Option<string>) {
    value == None || value == Some("")
  }

  /**
   * The violations of `NotBlank` followed by `Length(min: 2, max: 255)`.
   * `Length` skips a null value and counts code points.
   */
  function NameViolations(value: Option<string>): (r: seq<Violation>)
    ensures NotBlank in r <==> IsBlank(value)
    ensures TooShort in r <==> value.Some? && |value.value| < MinLength
    ensures TooLong in r <==> value.Some? && |value.value| > MaxLength
  {
    var blank := if IsBlank(value) then [NotBlank] else [];
    var length :=
      match value
      case None => []
      case Some(s) => if |s| < MinLength then [TooShort] else if |s| > MaxLength then [TooLong] else [];
    blank + length
  }

  /** A name passes validation exactly when it is present with 2 to 255 code points. */
  lemma NameValidIff(value: Option<string>)
    ensures NameViolations(value) == [] <==>
            value.Some? && MinLength <= |value.value| <= MaxLength
  {
    if NameViolations(value) == [] {
      assert NotBlank !in NameViolations(value);
    }
  }

  /** The empty string breaks both constraints; a missing value only `NotBlank`. */
  lemma BlankViolations()
    ensures NameViolations(Some("")) == [NotBlank, TooShort]
    ensures NameViolations(None) == [NotBlank]
  {
  }

  /** Doctrine's `Collection::add` guarded by `contains`: `b` is appended unless already there. */
  function AddedTo<T(==)>(items: seq<T>, b: T): (r: seq<T>)
    ensures b in r
    ensures b in items ==> r == items
    ensures b !in items ==> r == items + [b]
  {
    if b in items then items else items + [b]
  }

  /** `Collection::removeElement`: the first occurrence of `b` is removed, if any. */
  function RemoveFirst<T(==)>(items: seq<T>, b: T): (r: seq<T>)
    ensures b !in items ==> r == items
    ensures b in items ==> |r| == |items| - 1
  {
    if items == [] then []
    else
      assert items == [items[0]] + items[1..];
      if items[0] == b then items[1..] else [items[0]] + RemoveFirst(items[1..], b)
  }

  predicate Distinct<T(==)>(items: seq<T>) {
    forall i, j :: 0 <= i < j < |items| ==> items[i] != items[j]
  }

  /** Adding twice is adding once. */
  lemma AddedToIdempotent<T>(items: seq<T>, b: T)
    ensures AddedTo(AddedTo(items, b), b) == AddedTo(items, b)
  {
  }

  /** Adding keeps a collection free of duplicates. */
  lemma AddedToDistinct<T>(items: seq<T>, b: T)
    requires Distinct(items)
    ensures Distinct(AddedTo(items, b))
  {
  }

  /** The element removed is the first occurrence of `b`, and only it. */
  lemma {:induction false} RemoveFirstAt<T>(items: seq<T>, b: T) returns (i: nat)
    requires b in items
    ensures i < |items| && items[i] == b && b !in items[..i]
    ensures RemoveFirst(items, b) == items[..i] + items[i + 1..]
  {
    if items[0] == b {
      i := 0;
    } else {
      assert items == [items[0]] + items[1..];
      var k := RemoveFirstAt(items[1..], b);
      i := k + 1;
      assert items[..i] == [items[0]] + items[1..][..k];
      assert items[i + 1..] == items[1..][k + 1..];
    }
  }

  /** Removal only drops elements. */
  lemma {:induction false} RemoveFirstSubset<T>(items: seq<T>, b: T)
    ensures forall x :: x in RemoveFirst(items, b) ==> x in items
  {
    if items != [] && items[0] != b {
      RemoveFirstSubset(items[1..], b);
    }
  }

  /** In a collection without duplicates, removal leaves no occurrence behind. */
  lemma {:induction false} RemoveFirstGone<T>(items: seq<T>, b: T)
    requires Distinct(items)
    ensures b !in RemoveFirst(items, b)
    ensures Distinct(RemoveFirst(items, b))
  {
    if items != [] {
      var tail := items[1..];
      assert Distinct(tail) by {
        forall i, j | 0 <= i < j < |tail| ensures tail[i] != tail[j] {
          assert tail[i] == items[i + 1] && tail[j] == items[j + 1];
        }
      }
      assert items[0] !in tail by {
        forall j | 0 <= j < |tail| ensures tail[j] != items[0] {
          assert tail[j] == items[j + 1];
        }
      }
      if items[0] != b {
        RemoveFirstGone(tail, b);
        RemoveFirstSubset(tail, b);
        var r := RemoveFirst(tail, b);
        assert forall j :: 0 <= j < |r| ==> ([items[0]] + r)[j + 1] == r[j];
      }
    }
  }

  /** Removing a book that was just added (and was not there before) gives the collection back. */
  lemma RemoveAfterAdd<T>(items: seq<T>, b: T)
    requires b !in items
    ensures RemoveFirst(AddedTo(items, b), b) == items
  {
    RemoveFirstAppend(items, b);
  }

  lemma {:induction false} RemoveFirstAppend<T>(items: seq<T>, b: T)
    requires b !in items
    ensures RemoveFirst(items + [b], b) == items
  {
    if items != [] {
      assert (items + [b])[1..] == items[1..] + [b];
      RemoveFirstAppend(items[1..], b);
    }
  }

  class Book {
    var id: Option<nat>
    var title: Option<string>
    var coverText: Option<string>
    var author: Author?

    /** A new book has every field null. */
    constructor ()
      ensures id == None && title == None && coverText == None && author == null
    {
      id := None;
      title := None;
      coverText := None;
      author := null;
    }

    method SetTitle(newTitle: string) returns (self: Book)
      modifies this`title
      ensures self == this && title == Some(newTitle)
      ensures id == old(id) && coverText == old(coverText) && author == old(author)
    {
      title := Some(newTitle);
      self := this;
    }

    method SetCoverText(newCoverText: Option<string>) returns (self: Book)
      modifies this`coverText
      ensures self == this && coverText == newCoverText
      ensures id == old(id) && title == old(title) && author == old(author)
    {
      coverText := newCoverText;
      self := this;
    }

    /** Only the owning side changes: the author's `books` collection is not touched. */
    method SetAuthor(newAuthor: Author?) returns (self: Book)
      modifies this`author
      ensures self == this && author == newAuthor
      ensures id == old(id) && title == old(title) && coverText == old(coverText)
      ensures newAuthor != null ==> newAuthor.books == old(newAuthor.books)
    {
      author := newAuthor;
      self := this;
    }

    /** What the validator reports for this book: only `title` carries constraints. */
    function Violations(): seq<Violation>
      reads this`title
    {
      NameViolations(title)
    }
  }

  class Author {
    var id: Option<nat>
    var lastName: Option<string>
    var firstName: Option<string>
    var books: seq<Book>

    /** A new author has no books. */
    constructor ()
      ensures id == None && lastName == None && firstName == None && books == []
    {
      id := None;
      lastName := None;
      firstName := None;
      books := [];
    }

    /** Both sides agree: the collection has no duplicates and each of its books points back here. */
    predicate Linked()
      reads this, books
    {
      Distinct(books) && forall i :: 0 <= i < |books| ==> books[i].author == this
    }

    method SetLastName(newLastName: string) returns (self: Author)
      modifies this`lastName
      ensures self == this && lastName == Some(newLastName)
      ensures id == old(id) && firstName == old(firstName) && books == old(books)
    {
      lastName := Some(newLastName);
      self := this;
    }

    method SetFirstName(newFirstName: Option<string>) returns (self: Author)
      modifies this`firstName
      ensures self == this && firstName == newFirstName
      ensures id == old(id) && lastName == old(lastName) && books == old(books)
    {
      firstName := newFirstName;
      self := this;
    }

    /** `addBook`: links both sides unless `b` is already in the collection, in which case nothing changes. */
    method AddBook(b: Book) returns (self: Author)
      modifies this`books, b`author
      ensures self == this
      ensures books == AddedTo(old(books), b)
      ensures old(b in books) ==> b.author == old(b.author)
      ensures !old(b in books) ==> b.author == this
      ensures old(Linked()) ==> Linked()
    {
      if b !in books {
        books := books + [b];
        b.author := this;
      }
      self := this;
    }

    /**
     * `removeBook`: removes `b` and, only if `b` was in the collection and still
     * points here, sets its owning side to null.
     */
    method RemoveBook(b: Book) returns (self: Author)
      modifies this`books, b`author
      ensures self == this
      ensures books == RemoveFirst(old(books), b)
      ensures old(b in books) && old(b.author) == this ==> b.author == null
      ensures !(old(b in books) && old(b.author) == this) ==> b.author == old(b.author)
      ensures old(Distinct(books)) ==> Distinct(books) && b !in books
      ensures old(Linked()) ==> Linked()
    {
      ghost var before := books;
      if b in books {
        books := RemoveFirst(books, b);
        if b.author == this {
          b.author := null;
        }
      }
      if Distinct(before) {
        RemoveFirstGone(before, b);
        RemoveFirstSubset(before, b);
        if forall i :: 0 <= i < |before| ==> old(before[i].author) == this {
          forall i | 0 <= i < |books|
            ensures books[i].author == this
          {
            assert books[i] in books;
            var j :| 0 <= j < |before| && before[j] == books[i];
            assert old(before[j].author) == this;
          }
        }
      }
      self := this;
    }
  }
}
