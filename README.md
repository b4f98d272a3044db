# Library API core, modelled in Dafny

A model of the core of a small Symfony REST API for a library catalogue of
authors and books. It covers five pieces:

- **Version resolver** (`versionning_service.dfy`). `VersionningService::getVersion`
  reads the `Accept` header and picks the serialization version. The header is
  split on `;`, and the first segment that contains the text `version` decides.
  The version is the trimmed field between that segment's first and second `=`.
  Without a deciding segment the configured default is returned. A deciding
  segment with no `=` reads a missing array index. The model returns
  `Failure(UndefinedIndex)` for that case.
- **PHP string built-ins** (`php_strings.dfy`). The resolver relies on
  `explode`, `strpos(...) !== false` and `trim`, and `php_strings.dfy` models
  them. It also models integer-to-string, which the controllers use for the
  `Location` headers and the numeric list keys. It proves the `explode`/`implode` round trip in
  both directions.
- **Entities** (`entities.dfy`). `Book` and `Author` are classes whose setters
  assign one field each. `Author.AddBook` and `Author.RemoveBook` maintain the
  two-sided link between them. The `NotBlank` and `Length(2, 255)` constraints
  on a book's title and an author's last name are one function that returns the
  list of violations.
- **Book controller** (`book_controller.dfy`, with the cache in `tag_cache.dfy`
  and the store in `store.dfy`):
  - `getAllBooks` serves a cached, paginated list. Its cache key is
    `getAllBooks-<page>-<limit>`. On a miss the entry is tagged `booksCache`.
    A key holding a character the cache reserves (`{}()/\@:`, e.g. from
    `?page=1:2`) makes the cache throw, and the request is answered 500. The
    cache checks keys only when PHP assertions are enabled (see "## Left out").
  - The versioned `getOneBook` answers with the book at the resolved version.
  - `createBook`, `updateBook` and `deleteOneBook` flush to the store and then
    invalidate `booksCache`.
  - A request body that fails validation is answered with 400 before anything
    is flushed or invalidated.
- **Author controller** (`author_controller.dfy`).
  - `deleteOneAuthor` is a loop that removes each of the author's books, then
    removes the author.
  - `createAuthor` persists the author without validation and answers 201 with
    a `Location` header. A body without a last name fails at the flush
    (the column is `NOT NULL`) and is answered 500.

The persistent store holds rows: one map from id to record per table, with
auto-increment ids from 1. Entities are request-local objects hydrated from
the rows. A change made to an object but never flushed therefore never reaches
the store. This matters when `updateBook` sets the fields and then fails
validation.

Outside effects are modelled as follows:

- A missing `Accept` header is `None`. `explode` treats it like the empty
  string.
- The list's database query and serialization are one `render` function value.
- The cache's compute callback is a function value.

One might expect deleting an author to also invalidate the book list, since
it deletes that author's books. The code does not: `deleteOneAuthor` never
calls the cache. The model follows the code. `AuthorController.ListSurvivesAuthorDelete` proves
that a cached book list is served unchanged after an author delete, even
though the author's books are gone from the store.
`AuthorController.ListRefreshedAfterBookDelete` proves that a book delete,
by contrast, forces the next list request to be recomputed.

## Model

| member | source | states |
|---|---|---|
| VersionningService.SegmentVersion | src/Service/VersionningService.php:43-44 | Definition: `trim(explode('=', segment)[1])`, or `UndefinedIndex` when there is no index 1. Properties in `SegmentVersionOutcome`, `SegmentVersionSecondField`. |
| VersionningService.ResolveVersion | src/Service/VersionningService.php:33-50 | Definition: the version that `getVersion` returns. Properties in the lemma rows below and as `GetVersion`'s specification. |
| VersionningService.GetVersion | src/Service/VersionningService.php:33-50 | The loop over the `;`-segments returns `ResolveVersion`. That is the default when no segment mentions `version`; otherwise the trimmed second `=`-field of the first segment that does, or `UndefinedIndex` if that segment has no `=`. |
| VersionningService.FirstVersionSegment | src/Service/VersionningService.php:41-42 | A segment chosen as deciding is one of the segments and contains `version`. |
| VersionningService.FirstVersionSegmentNone | src/Service/VersionningService.php:41-47 | Both directions: there is no deciding segment exactly when no segment contains `version`. |
| VersionningService.FirstVersionSegmentAt | src/Service/VersionningService.php:41-45 | The segment at index `i` decides when it contains `version` and no earlier segment does. |
| VersionningService.FirstVersionSegmentAppend | src/Service/VersionningService.php:45 | Segments after a deciding one never change the choice, because of the `break`. |
| VersionningService.DefaultWithoutVersionSegment | src/Service/VersionningService.php:35-49 | If no segment of the header contains `version`, the result is the configured default. |
| VersionningService.DefaultForAbsentHeader | src/Service/VersionningService.php:35-39 | An absent header and an empty header both give the default. |
| VersionningService.FirstMatchDecides | src/Service/VersionningService.php:41-46 | The result is the version of the first segment that contains `version`, whatever follows it. |
| VersionningService.LaterSegmentsIgnored | src/Service/VersionningService.php:39-45 | Once a header already has a deciding segment, appending `;` and any text leaves the result unchanged. |
| VersionningService.SegmentVersionOutcome | src/Service/VersionningService.php:43-44 | A segment's version fails exactly when the segment has no `=`. A version it yields is trimmed at both ends, has no `=`, and uses only characters of the segment. |
| VersionningService.FirstVersionSegmentSepFree | src/Service/VersionningService.php:39-42 | The deciding segment never contains `;`. |
| VersionningService.ResolveOutcome | src/Service/VersionningService.php:39-49 | The resolver fails exactly when the deciding segment has no `=`. A success is the default or a trimmed token free of `;` and `=`. |
| VersionningService.SecondSegmentDecides | src/Service/VersionningService.php:41-45 | Of two segments where only the second contains `version`, the second decides. |
| VersionningService.VersionParameterAfterMediaType | src/Service/VersionningService.php:39-44 | For a media type `m` without `;` or `version`, the header `m` + `; version=2.0` gives `2.0`. |
| VersionningService.ExampleVersionParameter | src/Service/VersionningService.php:39-44 | `application/json; version=2.0` gives `2.0`. |
| VersionningService.ExampleNoParameter | src/Service/VersionningService.php:35-47 | `application/json` gives the default. |
| VersionningService.SingleSegmentDecides | src/Service/VersionningService.php:39-44 | A header of one segment that contains `version` is decided by that segment. |
| VersionningService.MentionAnywhereDecides | src/Service/VersionningService.php:42-44 | Matching is a substring test: `pre` + `version` + `post` + `=` + `v` gives `trim(v)` (e.g. `xversionx=3` gives `3`). |
| VersionningService.SegmentVersionSecondField | src/Service/VersionningService.php:43-44 | In a segment with two `=`, the field between them is the version; the rest is ignored. |
| VersionningService.SecondEqualsEndsVersion | src/Service/VersionningService.php:43-44 | `version=` + `v` + `=` + `w` gives `trim(v)`, so `version=1=2` gives `1`. |
| VersionningService.ExampleMissingValue | src/Service/VersionningService.php:43-44 | `application/json;version` reads the missing index 1: the result is `Failure(UndefinedIndex)`, not a version. |
| PhpStrings.Contains | src/Service/VersionningService.php:42 | Definition: `strpos(s, sub) !== false`, i.e. `sub` occurs in `s` at some index. Properties in `ContainsFirstChar` and `MentionAnywhereDecides`. |
| PhpStrings.ContainsFirstChar | src/Service/VersionningService.php:42 | `strpos` finds a non-empty needle only if its first character occurs in the haystack. |
| PhpStrings.Explode | src/Service/VersionningService.php:39 | `explode` always returns at least one piece. |
| PhpStrings.ImplodeExplode | src/Service/VersionningService.php:39 | Joining the pieces of `explode(sep, s)` with `sep` gives back `s`. |
| PhpStrings.ExplodeImplode | src/Service/VersionningService.php:39 | Exploding the join of one or more `sep`-free pieces gives back those pieces. |
| PhpStrings.ExplodeConcat | src/Service/VersionningService.php:39 | `explode(sep, a + sep + b)` is the pieces of `a` followed by the pieces of `b`. |
| PhpStrings.ExplodeNoSep | src/Service/VersionningService.php:39 | A string without the separator is one piece, itself. |
| PhpStrings.ExplodeSingle | src/Service/VersionningService.php:43 | Both directions: there is exactly one piece when the separator does not occur. |
| PhpStrings.ExplodePiecesSepFree | src/Service/VersionningService.php:39 | No piece contains the separator. |
| PhpStrings.ExplodePieceChars | src/Service/VersionningService.php:43 | Every character of a piece occurs in the exploded string. |
| PhpStrings.ExplodeTwo | src/Service/VersionningService.php:43 | Two separator-free strings joined by the separator explode into exactly those two. |
| PhpStrings.TrimStart | src/Service/VersionningService.php:44 | The number of leading trim characters: every character before it is a trim character, and the one at it (if any) is not. |
| PhpStrings.TrimEnd | src/Service/VersionningService.php:44 | The length without trailing trim characters: every character from it on is a trim character, and the one before it (if any) is not. |
| PhpStrings.Trim | src/Service/VersionningService.php:44 | The result is the input with only leading and trailing trim characters dropped: a contiguous slice `s[a..a+|r|]` with trim characters only before and after it. No trim character is left at either end, and every character comes from the input. |
| PhpStrings.TrimTrimmed | src/Service/VersionningService.php:44 | A string with no trim character at either end is left unchanged. |
| PhpStrings.TrimIdempotent | src/Service/VersionningService.php:44 | Trimming twice is trimming once. |
| PhpStrings.NatToString | src/Controller/BookController.php:162 | An id is rendered as a non-empty string of decimal digits. |
| PhpStrings.NatToStringInjective | src/Controller/BookController.php:162 | Different ids have different renderings. |
| Entities.NameViolations | src/Entity/Book.php:22-23 | `NotBlank` is reported exactly for a null or empty value. `TooShort` is reported exactly for a present value under 2 characters, `TooLong` for one over 255. |
| Entities.NameValidIff | src/Entity/Author.php:53-54 | Both directions: a last name (or title) is valid exactly when it is present with 2 to 255 characters. |
| Entities.BlankViolations | src/Entity/Book.php:22-23 | An empty title breaks both constraints (`NotBlank`, `TooShort`); a missing one only `NotBlank`. |
| Entities.AddedTo | src/Entity/Author.php:109-110 | After the add the book is in the collection. A book already present changes nothing; otherwise it is appended. |
| Entities.AddedToIdempotent | src/Entity/Author.php:109 | Adding the same book twice is adding it once. |
| Entities.AddedToDistinct | src/Entity/Author.php:109-110 | Adding keeps the collection free of duplicates. |
| Entities.RemoveFirst | src/Entity/Author.php:119 | Removing an absent book changes nothing; removing a present one shortens the collection by one. |
| Entities.RemoveFirstAt | src/Entity/Author.php:119 | The element removed is the first occurrence of the book, and everything before and after it is kept in order. |
| Entities.RemoveFirstSubset | src/Entity/Author.php:119 | Removal only drops elements. |
| Entities.RemoveFirstGone | src/Entity/Author.php:119 | In a duplicate-free collection, no occurrence is left behind and the result is still duplicate-free. |
| Entities.RemoveFirstAppend | src/Entity/Author.php:110 | Removing a book just appended (and absent before) gives back the earlier collection. |
| Entities.RemoveAfterAdd | src/Entity/Author.php:107-127 | `removeBook` after `addBook` of a new book restores the collection. |
| Entities.Book.Violations | src/Controller/BookController.php:143 | Definition: what the validator reports for a book, the title's `NameViolations`. Properties in `NameViolations`, `NameValidIff`. |
| Entities.Book.constructor | src/Entity/Book.php:18-33 | A new book has id, title, cover text and author all null. |
| Entities.Book.SetTitle | src/Entity/Book.php:45-50 | Sets only the title and returns the same object. |
| Entities.Book.SetCoverText | src/Entity/Book.php:57-62 | Sets only the cover text (null allowed) and returns the same object. |
| Entities.Book.SetAuthor | src/Entity/Book.php:69-74 | Sets only the owning side. The author's `books` collection is unchanged. |
| Entities.Author.constructor | src/Entity/Author.php:65-68 | A new author has an empty books collection and null fields. |
| Entities.Author.SetLastName | src/Entity/Author.php:80-85 | Sets only the last name and returns the same object. |
| Entities.Author.SetFirstName | src/Entity/Author.php:92-97 | Sets only the first name (null allowed) and returns the same object. |
| Entities.Author.AddBook | src/Entity/Author.php:107-115 | Appends the book and points it here, unless it is already in the collection, in which case nothing changes. It preserves `Linked` (no duplicates, every book points back). |
| Entities.Author.RemoveBook | src/Entity/Author.php:117-127 | Removes the first occurrence of the book. The book's author is set to null only if the book was in the collection and still pointed here; otherwise it is left alone. An absent book changes nothing. It preserves `Linked`. |
| TagCache.Invalidated | src/Controller/BookController.php:114 | An entry is kept exactly when it carries none of the invalidated tags, and kept entries are unchanged. |
| TagCache.InvalidatedIdempotent | src/Controller/BookController.php:114 | Invalidating the same tags twice is invalidating them once. |
| TagCache.InvalidatedUnion | src/Controller/BookController.php:114 | Invalidating two tag sets in turn is invalidating their union. |
| TagCache.InvalidatedNothing | src/Controller/BookController.php:114 | Invalidating no tag changes nothing. |
| TagCache.InvalidatedClean | src/Controller/BookController.php:114 | No remaining entry carries an invalidated tag. |
| TagCache.ValidKey | src/Controller/BookController.php:70 | Definition: the cache accepts a key exactly when it is non-empty and contains none of `{}()/\@:`. Properties in the `ListKey` lemma rows. |
| TagCache.TagAwareCache.Get | src/Controller/BookController.php:70-75 | An invalid key throws (`InvalidArgument`, with assertions enabled) and changes nothing. On a hit: the stored payload, with `compute` unused and the cache unchanged. On a miss: `compute()`, stored under the key with the given tags. |
| TagCache.TagAwareCache.InvalidateTags | src/Controller/BookController.php:114 | The new entries are `Invalidated(old entries, tags)`. |
| Store.BooksOf | src/Controller/AuthorController.php:38 | Both directions: an id is in the author's books collection exactly when the book row's foreign key names the author. |
| Store.RowOf | src/Controller/BookController.php:154-155 | Definition: the row a book object is flushed to: title, cover text and its author's id. Used by `InsertBook`, `SaveBook`, `FindBook`. |
| Store.Database.FindAuthor | src/Controller/BookController.php:152 | Null exactly for an id with no author row (so -1 is null); otherwise a fresh author hydrated from the row. |
| Store.Database.FindBook | src/Controller/BookController.php:89-90 | Null exactly for an id with no book row; otherwise a fresh book whose flushed row equals the stored row, with an author object exactly when the row has an author id. |
| Store.Database.InsertBook | src/Controller/BookController.php:154-155 | The book gets the next id, which was unused, and its row is stored; nothing else changes. |
| Store.Database.SaveBook | src/Controller/BookController.php:204-205 | The book's row is overwritten; nothing else changes. |
| Store.Database.RemoveBook | src/Controller/BookController.php:112-113 | Only that book row is dropped. Referential integrity is kept. |
| Store.Database.InsertAuthor | src/Controller/AuthorController.php:52-53 | The author gets the next, unused id. Referential integrity is kept. |
| Store.Database.RemoveAuthor | src/Controller/AuthorController.php:42-43 | Only that author row is dropped. Integrity is kept when no book still names the author. |
| BookController.PageParam | src/Controller/BookController.php:65 | Definition: the `page` query parameter, `1` when absent. Properties in `ListKeyDefaults`. |
| BookController.LimitParam | src/Controller/BookController.php:66 | Definition: the `limit` query parameter, `3` when absent. Properties in `ListKeyDefaults`. |
| BookController.ListKey | src/Controller/BookController.php:68 | Definition: `getAllBooks-` + page + `-` + limit. Properties in the `ListKey` lemma rows below. |
| BookController.ListKeyDefaults | src/Controller/BookController.php:65-68 | Without query parameters the key is `getAllBooks-1-3`, which the cache accepts. |
| BookController.ListKeyNumbersValid | src/Controller/BookController.php:68-70 | For natural-number page and limit the cache accepts the key. |
| BookController.ListKeyReservedInvalid | src/Controller/BookController.php:68-70 | A `:` or `/` in a raw page or limit makes the key one the cache rejects. |
| BookController.ListKeyInjective | src/Controller/BookController.php:68 | For `-`-free page and limit, equal keys mean equal (page, limit) pairs. |
| BookController.NoDashInNumber | src/Controller/BookController.php:68 | A rendered number never contains `-`. |
| BookController.ListKeyNumbersInjective | src/Controller/BookController.php:68 | For natural-number page and limit, distinct pairs have distinct keys. |
| BookController.ListKeyDashCollision | src/Controller/BookController.php:65-68 | Raw query strings containing `-` can share a key: (`1-2`, `3`) and (`1`, `2-3`). |
| BookController.BookLocation | src/Controller/BookController.php:162 | Definition: `/api/books/` + the decimal id, the `detailBook` route. Properties in `BookLocationInjective`. |
| BookController.BookLocationInjective | src/Controller/BookController.php:162 | Different book ids give different `detailBook` locations. |
| BookController.AuthorIdFor | src/Controller/BookController.php:150-152 | Definition: the foreign key left by `find($content['idAuthor'] ?? -1)`. Properties in `AuthorIdForCases`. |
| BookController.AuthorIdForCases | src/Controller/BookController.php:150-152 | With `idAuthor ?? -1`, the author is set exactly when `idAuthor` is present and names a stored author, and then it is that author. A missing or unknown id leaves it null. |
| BookController.InvalidatedAllTagged | src/Controller/BookController.php:71 | When every entry carries `booksCache`, invalidating that tag empties the cache. |
| BookController.GetAllBooks | src/Controller/BookController.php:63-78 | The key is built from page and limit, with defaults. A key the cache rejects (with assertions enabled) answers 500 with the cache unchanged. A hit answers 200 with the cached payload and leaves the cache unchanged. A miss answers the freshly rendered list and stores it under the key with tag `booksCache`. |
| BookController.GetOneBook | src/Controller/BookController.php:89-96 | 404 for an unknown id. Otherwise 200 with the stored book at the resolved version, or 500 when the resolver reads the missing index. |
| BookController.DeleteOneBook | src/Controller/BookController.php:110-116 | 404 with nothing changed for an unknown id. Otherwise the row is removed, `booksCache` is invalidated, and the answer is 204 with no body; the authors and both id counters stay. |
| BookController.Deserialize | src/Controller/BookController.php:141 | A fresh book with the body's title and cover text, no id and no author. |
| BookController.CreateBook | src/Controller/BookController.php:138-164 | On a validation failure: 400 with the violations, and store and cache unchanged. Otherwise: a new row with the title, the cover text and the author found by `idAuthor ?? -1`; `booksCache` invalidated; the book counter moves past the new id and the author counter stays; 201 with `Location: /api/books/<new id>`. |
| BookController.DeletedIdNotReissued | src/Controller/BookController.php:110-164 | After a book is deleted, a book created next gets a `Location` different from the deleted book's: ids are never reissued. |
| BookController.UpdateBook | src/Controller/BookController.php:186-211 | 404 for an unknown id. 500 when the body has no title, because `setTitle(null)` throws. 400 on a validation failure, with nothing flushed or invalidated. Otherwise the row gets the body's title and cover text and the author found by `idAuthor ?? -1`, `booksCache` is invalidated, both id counters stay, and the answer is 204. |
| AuthorController.AuthorLocation | src/Controller/AuthorController.php:56 | Definition: `/api/authors/` + the decimal id, the `detailAuthor` route. Properties in `AuthorLocationInjective`. |
| AuthorController.AuthorLocationInjective | src/Controller/AuthorController.php:56 | Different author ids give different `detailAuthor` locations. |
| AuthorController.WithoutBooksOf | src/Controller/AuthorController.php:38-41 | A book stays exactly when it is not one of the author's; the rest are unchanged. |
| AuthorController.WithoutBooksOfNamesNone | src/Controller/AuthorController.php:38-43 | Once the author's books are gone, no book names it and integrity still holds. |
| AuthorController.GetAllAuthors | src/Controller/AuthorController.php:20-25 | 200 with every author, read without any cache. |
| AuthorController.GetOneAuthor | src/Controller/AuthorController.php:27-32 | 404 for an unknown id, otherwise 200 with that author. |
| AuthorController.DeleteOneAuthor | src/Controller/AuthorController.php:35-46 | 404 with nothing changed for an unknown id. Otherwise the loop removes exactly the author's books and leaves all others untouched, then the author is removed; both id counters stay; the answer is 204 with no body. Integrity is kept. |
| AuthorController.CreateAuthor | src/Controller/AuthorController.php:49-58 | A body without a last name fails at the flush against the `NOT NULL` column: 500, nothing stored. Otherwise the row is persisted unvalidated under the next, unused id, the author counter moves past it and the book counter stays, and the answer is 201 with `Location: /api/authors/<new id>`. |
| AuthorController.ListSurvivesAuthorDelete | src/Controller/AuthorController.php:35-46 | A list page served before an author delete is served identically after it, while the author's books are gone from the store. |
| AuthorController.ListRefreshedAfterBookDelete | src/Controller/BookController.php:110-116 | After a book delete, the next list request is freshly rendered from the new store, when every cache entry carries `booksCache` (or answers 500 when the key is one the cache rejects). |

## Left out

- JSON serialization and deserialization, HATEOAS links, serialization groups
  and OpenAPI annotations: payloads are abstract. The list is a `render`
  function of the book rows and the two parameters (the author embedded in
  each serialized book is not passed to it); a book or author body is
  the stored row.
- The `IsGranted('ROLE_ADMIN')` checks: authorization is left to the callers.
- Doctrine transactions, and the database-level `onDelete: CASCADE` on the
  book's author column: the store is a pair of maps, and every flush succeeds
  except the `NOT NULL` failure modelled in `AuthorController.CreateAuthor`.
- Symfony cache internals (expiry, the backing pool, the tag index, concurrent
  misses and locking).
- `ExternalApiController` (an outbound HTTP call) and the data fixtures
  (random seed data): they are not part of this model.
- Store.Database.FindAuthor: the lazily loaded `books` collection of a
  hydrated author is left empty. `deleteOneAuthor` iterates over what that
  collection would load, `Store.BooksOf`.
- AuthorController.DeleteOneAuthor: the books are removed in an unspecified
  order (the loop picks from a set of ids). The order is not observable in the
  final store.
- VersionningService.GetVersion: PHP raises only a warning for the missing
  index 1, and then `trim(null)` yields the empty string. The model treats the
  warning as an error (`Failure(UndefinedIndex)`), as Symfony does in debug
  mode, and `BookController.GetOneBook` answers 500 for it. In production
  mode the version would be the empty string.
- BookController.GetAllBooks: the cache validates a key inside a PHP
  assertion, so the 500 for a reserved character happens only with assertions
  enabled, as in development. With `zend.assertions=-1`, the production
  setting, the key is used as it is and the list is answered 200. The model
  follows the development behaviour, as it does for `GetVersion`.
- AuthorController.CreateAuthor: the 255-character length of the `lastName`
  and `firstName` columns is not enforced. Whether a longer name fails depends
  on the database's strict mode, which is outside the code.
- Route ids are natural numbers. A non-numeric route id is a routing matter.
- The `Content-Type`, JSON framing and any header other than `Location` of
  the responses.
